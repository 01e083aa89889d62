/** The list searches of the buffer handlers: each walks a buffer list in
    order and stops at the first entry that matches. */
module Lookup {
  import opened Common
  import opened Instance

  /** What a search looks for. */
  datatype Key =
    | ByIndex(index: u32)                  // the client buffer index
    | ByAddr(addr: u64)                    // the device address
    | QueuedOutput(decode: bool, index: u32, addr: u64, dataOffset: u32)
    | PendingReleaseAt(addr: u64)          // a read-only entry the driver asked to release
    | ReturnedMeta(metaIndex: u32)         // a metadata buffer dequeued or already completed

  predicate Matches(b: Buf, k: Key)
  {
    match k
    case ByIndex(i) => b.index == i
    case ByAddr(a) => b.deviceAddr == a
    // handle_output_buffer skips entries that are not queued; a decoder
    // output also has to agree on address and data offset
    case QueuedOutput(dec, i, a, off) =>
      Queued in b.attr && b.index == i && (dec ==> b.deviceAddr == a && b.dataOffset == off)
    case PendingReleaseAt(a) => b.deviceAddr == a && PendingRelease in b.attr
    case ReturnedMeta(i) => b.index == i && (Dequeued in b.attr || BufferDone in b.attr)
  }

  /** The position of the first entry at or after `from` that matches. */
  function FindFrom(bs: seq<Buf>, k: Key, from: nat): (r: Option<nat>)
    requires from <= |bs|
    decreases |bs| - from
    ensures r.Some? ==>
      && from <= r.value < |bs|
      && Matches(bs[r.value], k)
      && forall j :: from <= j < r.value ==> !Matches(bs[j], k)
    ensures r.None? ==> forall j :: from <= j < |bs| ==> !Matches(bs[j], k)
  {
    if from == |bs| then None
    else if Matches(bs[from], k) then Some(from)
    else FindFrom(bs, k, from + 1)
  }

  /** `list_for_each_entry ... if (match) { found = true; break; }`. */
  function Find(bs: seq<Buf>, k: Key): (r: Option<nat>)
    ensures r.Some? ==>
      && r.value < |bs|
      && Matches(bs[r.value], k)
      && forall j :: 0 <= j < r.value ==> !Matches(bs[j], k)
    ensures r.None? <==> forall j :: 0 <= j < |bs| ==> !Matches(bs[j], k)
  {
    FindFrom(bs, k, 0)
  }

  /** Removing the entry at `i` keeps the others in order. */
  function RemoveAt(bs: seq<Buf>, i: nat): (r: seq<Buf>)
    requires i < |bs|
    ensures |r| == |bs| - 1
    ensures forall j :: 0 <= j < i ==> r[j] == bs[j]
    ensures forall j :: i <= j < |r| ==> r[j] == bs[j + 1]
  {
    bs[..i] + bs[i + 1..]
  }
}
