/** The read-only list of a decode session: output buffers the firmware
    still holds as references after returning them (venus_hfi_response.c,
    handle_read_only_buffer, handle_non_read_only_buffer,
    handle_release_output_buffer and the marking loop of
    handle_dpb_list_property). Every operation here keeps the device
    addresses of the list pairwise distinct. */
module ReadOnly {
  import opened Common
  import opened Wire
  import opened Hfi
  import opened Instance
  import opened Lookup

  /** A fresh read-only entry copied from an output buffer: index -1, the
      buffer's device address and data offset, and only READ_ONLY set. */
  function NewRoEntry(b: Buf): (e: Buf)
    ensures e.deviceAddr == b.deviceAddr && e.attr == {ReadOnly}
  {
    Buf(Wrap32(-1), b.deviceAddr, b.dataOffset, 0, 0, {ReadOnly}, {})
  }

  /** Record that the firmware holds `b` as a reference: mark the existing
      entry for its address read-only, or append one; appending needs an
      allocation, which may fail. */
  function AddReadOnly(ro: seq<Buf>, b: Buf, allocOk: bool): (r: (seq<Buf>, Rc))
    ensures r.1 == Ok <==> RoHas(ro, b.deviceAddr) || allocOk
    ensures r.1 != Ok ==> r.1 == ENoMem && r.0 == ro
    ensures r.1 == Ok ==>
      exists i :: 0 <= i < |r.0| && r.0[i].deviceAddr == b.deviceAddr && ReadOnly in r.0[i].attr
    ensures |r.0| == if RoHas(ro, b.deviceAddr) || !allocOk then |ro| else |ro| + 1
    ensures forall i :: 0 <= i < |ro| && ro[i].deviceAddr != b.deviceAddr ==> r.0[i] == ro[i]
    ensures forall i :: 0 <= i < |ro| ==> r.0[i].deviceAddr == ro[i].deviceAddr
    ensures RoUnique(ro) ==> RoUnique(r.0)
  {
    match Find(ro, ByAddr(b.deviceAddr))
    case Some(i) =>
      var r := ro[i := ro[i].(attr := ro[i].attr + {ReadOnly})];
      assert r[i].deviceAddr == b.deviceAddr && ReadOnly in r[i].attr;
      (r, Ok)
    case None =>
      if !allocOk then (ro, ENoMem)
      else
        var r := ro + [NewRoEntry(b)];
        assert r[|ro|] == NewRoEntry(b);
        (r, Ok)
  }

  /** handle_read_only_buffer: only a decoder output buffer that carries
      READ_ONLY is recorded. */
  function HandleReadOnlyBuffer(decode: bool, ro: seq<Buf>, b: Buf, allocOk: bool): (r: (seq<Buf>, Rc))
    ensures !decode || ReadOnly !in b.attr ==> r == (ro, Ok)
    ensures decode && ReadOnly in b.attr ==> r == AddReadOnly(ro, b, allocOk)
    ensures RoUnique(ro) ==> RoUnique(r.0)
  {
    if !decode || ReadOnly !in b.attr then (ro, Ok)
    else AddReadOnly(ro, b, allocOk)
  }

  /** Clear READ_ONLY on the first entry at `addr`. */
  function ClearReadOnly(ro: seq<Buf>, addr: u64): (r: seq<Buf>)
    ensures |r| == |ro|
    ensures forall i :: 0 <= i < |ro| ==> r[i].deviceAddr == ro[i].deviceAddr
    ensures forall i :: 0 <= i < |ro| ==> r[i].attr == ro[i].attr || r[i].attr == ro[i].attr - {ReadOnly}
    ensures forall i :: 0 <= i < |ro| && ro[i].deviceAddr != addr ==> r[i] == ro[i]
    ensures RoUnique(ro) ==>
      forall i :: 0 <= i < |ro| && ro[i].deviceAddr == addr ==> r[i] == ro[i].(attr := ro[i].attr - {ReadOnly})
    ensures RoUnique(ro) ==> RoUnique(r)
  {
    match Find(ro, ByAddr(addr))
    case Some(i) => ro[i := ro[i].(attr := ro[i].attr - {ReadOnly})]
    case None => ro
  }

  /** handle_non_read_only_buffer: a decoder raw buffer returned without the
      read-only flag is no longer a reference. */
  function HandleNonReadOnly(decode: bool, ro: seq<Buf>, btype: u32, hfiFlags: Flags, addr: u64): (r: seq<Buf>)
    ensures !decode || btype != BUFFER_RAW || HasFlag(hfiFlags, BUF_FW_FLAG_READONLY) ==> r == ro
    ensures decode && btype == BUFFER_RAW && !HasFlag(hfiFlags, BUF_FW_FLAG_READONLY) ==> r == ClearReadOnly(ro, addr)
    ensures RoUnique(ro) ==> RoUnique(r)
  {
    if !decode || btype != BUFFER_RAW then ro
    else if HasFlag(hfiFlags, BUF_FW_FLAG_READONLY) then ro
    else ClearReadOnly(ro, addr)
  }

  /** handle_release_output_buffer: the firmware confirms a release the
      driver asked for. The entry at `addr` still pending release loses both
      READ_ONLY and PENDING_RELEASE; without one the response is invalid. */
  function ReleaseOutput(ro: seq<Buf>, addr: u64): (r: (seq<Buf>, Rc))
    ensures r.1 == Ok <==>
      exists i :: 0 <= i < |ro| && ro[i].deviceAddr == addr && PendingRelease in ro[i].attr
    ensures r.1 != Ok ==> r.1 == EInval && r.0 == ro
    ensures |r.0| == |ro|
    ensures forall i :: 0 <= i < |ro| ==> r.0[i].deviceAddr == ro[i].deviceAddr
    ensures forall i :: 0 <= i < |ro| ==>
      r.0[i] == ro[i] || (ro[i].deviceAddr == addr && PendingRelease in ro[i].attr &&
                          r.0[i] == ro[i].(attr := ro[i].attr - {ReadOnly, PendingRelease}))
    ensures RoUnique(ro) ==> RoUnique(r.0)
    ensures r.1 == Ok ==>
      exists i :: 0 <= i < |ro| && ro[i].deviceAddr == addr && PendingRelease in ro[i].attr &&
        r.0 == ro[i := ro[i].(attr := ro[i].attr - {ReadOnly, PendingRelease})]
  {
    match Find(ro, PendingReleaseAt(addr))
    case Some(i) => (ro[i := ro[i].(attr := ro[i].attr - {ReadOnly, PendingRelease})], Ok)
    case None => (ro, EInval)
  }

  /** With each address listed once, the firmware's confirmation of a
      release is accepted only once: a second RELEASE_DONE for the same
      address is invalid. */
  lemma ReleaseConfirmedOnce(ro: seq<Buf>, addr: u64)
    requires RoUnique(ro) && ReleaseOutput(ro, addr).1 == Ok
    ensures ReleaseOutput(ReleaseOutput(ro, addr).0, addr) == (ReleaseOutput(ro, addr).0, EInval)
  {
    var r := ReleaseOutput(ro, addr).0;
    var i :| 0 <= i < |ro| && ro[i].deviceAddr == addr && PendingRelease in ro[i].attr &&
      r == ro[i := ro[i].(attr := ro[i].attr - {ReadOnly, PendingRelease})];
    forall j | 0 <= j < |r| && r[j].deviceAddr == addr
      ensures PendingRelease !in r[j].attr
    {
      if j != i {
        assert false;
      }
    }
  }

  // ---- the DPB list ----

  /** The device address of the k-th entry of a DPB list payload: entries are
      four words, the first two the 64-bit base address. */
  function DpbAddress(payload: seq<byte>, k: nat): u64
  {
    U64Past(payload, 16 * k)
  }

  /** `addr` is one of the complete entries among the first `words` words. */
  ghost predicate InDpb(payload: seq<byte>, words: nat, addr: u64)
  {
    exists k: nat :: k < words && 4 * k + 3 < words && DpbAddress(payload, k) == addr
  }

  /** The inner search loop, `for (i = 0; i + 3 < words; i += 4)`, from
      entry `k` on. */
  function InDpbLoop(payload: seq<byte>, words: nat, addr: u64, k: nat): bool
    decreases words - 4 * k
  {
    if 4 * k + 3 >= words then false
    else if DpbAddress(payload, k) == addr then true
    else InDpbLoop(payload, words, addr, k + 1)
  }

  lemma {:induction false} InDpbLoopFinds(payload: seq<byte>, words: nat, addr: u64, k: nat)
    ensures InDpbLoop(payload, words, addr, k) <==>
      exists m: nat :: k <= m && 4 * m + 3 < words && DpbAddress(payload, m) == addr
    decreases words - 4 * k
  {
    if 4 * k + 3 >= words {
    } else if DpbAddress(payload, k) == addr {
    } else {
      InDpbLoopFinds(payload, words, addr, k + 1);
      if exists m: nat :: k <= m && 4 * m + 3 < words && DpbAddress(payload, m) == addr {
        var m: nat :| k <= m && 4 * m + 3 < words && DpbAddress(payload, m) == addr;
        assert m != k;
      }
    }
  }

  /** The entry may be released: it is still a reference for the driver, not
      already eligible, no release is pending, and the firmware's DPB list
      no longer names it. */
  function MarkOne(e: Buf, payload: seq<byte>, words: nat): Buf
  {
    if ReadOnly !in e.attr then e
    else if ReleaseEligible in e.attr then e
    else if PendingRelease in e.attr then e
    else if InDpbLoop(payload, words, e.deviceAddr, 0) then e
    else e.(attr := e.attr + {ReleaseEligible})
  }

  /** The marking loop of handle_dpb_list_property. */
  function MarkReleaseEligible(ro: seq<Buf>, payload: seq<byte>, words: nat): (r: seq<Buf>)
    ensures |r| == |ro|
    ensures forall i :: 0 <= i < |ro| ==>
      && r[i].deviceAddr == ro[i].deviceAddr
      && r[i].attr - {ReleaseEligible} == ro[i].attr - {ReleaseEligible}
      && (ReleaseEligible in r[i].attr <==>
            || ReleaseEligible in ro[i].attr
            || (ReadOnly in ro[i].attr && PendingRelease !in ro[i].attr && !InDpb(payload, words, ro[i].deviceAddr)))
    ensures RoUnique(ro) ==> RoUnique(r)
  {
    var r := seq(|ro|, i requires 0 <= i < |ro| => MarkOne(ro[i], payload, words));
    forall i | 0 <= i < |ro|
      ensures InDpbLoop(payload, words, ro[i].deviceAddr, 0) <==> InDpb(payload, words, ro[i].deviceAddr)
    {
      InDpbLoopFinds(payload, words, ro[i].deviceAddr, 0);
    }
    r
  }
}
