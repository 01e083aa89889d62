/** Wire validation of a firmware response (venus_hfi_response.c,
    validate_packet and validate_hdr_packet). The response buffer is the
    byte sequence `buf`; its length is the capacity the core reserved for
    responses (`core->packet_size`). Packet positions are byte offsets from
    the start of that buffer, so the C address `base + off` is the offset
    `off`. */
module Validate {
  import opened Common
  import opened Wire

  /** validate_packet exactly as written: the address check admits
      `pkt == limit`, and the packet's size word is read before anything
      makes sure four bytes remain. `ReadsPastEnd` marks that read. */
  datatype Check = Valid | Invalid | ReadsPastEnd

  function ValidatePacketAsWritten(buf: seq<byte>, pkt: int): (r: Check)
    ensures r == ReadsPastEnd <==> |buf| > 0 && 0 <= pkt <= |buf| < pkt + 4
    ensures r == Valid ==>
      && 0 <= pkt && pkt + 4 <= |buf|
      && U32At(buf, pkt) != 0 && U32At(buf, pkt) >= PACKET_SIZE
      && pkt + U32At(buf, pkt) <= |buf|
  {
    if |buf| == 0 then Invalid
    else if pkt < 0 || pkt > |buf| then Invalid
    else if pkt + 4 > |buf| then ReadsPastEnd
    else
      var size := U32At(buf, pkt);
      if size == 0 then Invalid
      else if size < PACKET_SIZE then Invalid
      else if pkt + size > |buf| then Invalid
      else Valid
  }

  /** validate_packet with the size read guarded: a packet is accepted only
      when its size word lies inside the buffer, the size is non-zero and at
      least one packet header, and the whole packet ends inside the buffer. */
  predicate ValidPacket(buf: seq<byte>, pkt: int)
  {
    && |buf| > 0
    && 0 <= pkt && pkt + 4 <= |buf|
    && U32At(buf, pkt) != 0
    && U32At(buf, pkt) >= PACKET_SIZE
    && pkt + U32At(buf, pkt) <= |buf|
  }

  /** Where the guarded check and the check as written both read inside the
      buffer they agree, and an accepted packet's header lies in the buffer. */
  lemma ValidPacketAgreesAsWritten(buf: seq<byte>, pkt: int)
    ensures ValidatePacketAsWritten(buf, pkt) != ReadsPastEnd ==>
      (ValidPacket(buf, pkt) <==> ValidatePacketAsWritten(buf, pkt) == Valid)
    ensures ValidatePacketAsWritten(buf, pkt) == ReadsPastEnd ==> !ValidPacket(buf, pkt)
    ensures ValidPacket(buf, pkt) ==> pkt + PACKET_SIZE <= |buf|
  {
  }

  /** The offset that follows the packet at `pkt`. */
  function NextPacket(buf: seq<byte>, pkt: nat): nat
    requires ValidPacket(buf, pkt)
  {
    pkt + U32At(buf, pkt)
  }

  /** `offs` is a walk from `start`: every offset holds a valid packet and
      each offset is the previous one advanced by that packet's own size. */
  predicate Chain(buf: seq<byte>, start: nat, offs: seq<nat>)
  {
    && (|offs| > 0 ==> offs[0] == start)
    && (forall i :: 0 <= i < |offs| ==> ValidPacket(buf, offs[i]))
    && (forall i :: 0 <= i < |offs| - 1 ==> ValidPacket(buf, offs[i]) && offs[i + 1] == NextPacket(buf, offs[i]))
  }

  /** The offset after a chain: where the next packet would start. */
  function After(buf: seq<byte>, start: nat, offs: seq<nat>): nat
    requires Chain(buf, start, offs)
  {
    if |offs| == 0 then start else NextPacket(buf, offs[|offs| - 1])
  }

  /** The outcome of walking the declared packets: either every one was
      valid (`offsets`), or the walk stopped at offset `at`, the first bad
      packet, after the valid ones in `prefix`. */
  datatype Walk = Good(offsets: seq<nat>) | Bad(prefix: seq<nat>, at: nat)

  /** The loop of validate_hdr_packet: validate `n` packets starting at
      `pkt`, advancing by each packet's size, stopping at the first bad one. */
  function WalkPackets(buf: seq<byte>, pkt: nat, n: nat): (w: Walk)
    decreases n
    ensures w.Good? ==> |w.offsets| == n && Chain(buf, pkt, w.offsets)
    ensures w.Bad? ==>
      && |w.prefix| < n
      && Chain(buf, pkt, w.prefix)
      && w.at == After(buf, pkt, w.prefix)
      && !ValidPacket(buf, w.at)
  {
    if n == 0 then Good([])
    else if !ValidPacket(buf, pkt) then Bad([], pkt)
    else
      match WalkPackets(buf, NextPacket(buf, pkt), n - 1)
      case Good(offs) => Good([pkt] + offs)
      case Bad(prefix, at) => Bad([pkt] + prefix, at)
  }

  /** The header fields the decoder reads. */
  function HeaderSize(buf: seq<byte>): u32
    requires |buf| >= HEADER_SIZE
  {
    U32At(buf, HDR_SIZE_OFF)
  }

  function NumPackets(buf: seq<byte>): u32
    requires |buf| >= HEADER_SIZE
  {
    U32At(buf, HDR_NUM_PACKETS_OFF)
  }

  function SessionId(buf: seq<byte>): u32
    requires |buf| >= HEADER_SIZE
  {
    U32At(buf, HDR_SESSION_ID_OFF)
  }

  /** validate_hdr_packet: the header must announce room for itself and one
      packet; then every declared packet must validate against the whole
      response buffer. The header's size field takes no further part: the
      packets are bounded by the buffer, not by the size the header claims. */
  function ValidateHeader(buf: seq<byte>): (r: Option<seq<nat>>)
    requires |buf| >= HEADER_SIZE
    ensures r.Some? <==>
      HeaderSize(buf) >= HEADER_SIZE + PACKET_SIZE &&
      WalkPackets(buf, HEADER_SIZE, NumPackets(buf)).Good?
    ensures r.Some? ==>
      |r.value| == NumPackets(buf) && Chain(buf, HEADER_SIZE, r.value)
  {
    if HeaderSize(buf) < HEADER_SIZE + PACKET_SIZE then None
    else
      match WalkPackets(buf, HEADER_SIZE, NumPackets(buf))
      case Good(offs) => Some(offs)
      case Bad(_, _) => None
  }

  /** Every packet of a validated message lies between the end of the header
      and the end of the buffer, the packets follow one another without gaps
      or overlap, and their offsets strictly increase. */
  lemma {:induction false} ChainStaysInBuffer(buf: seq<byte>, start: nat, offs: seq<nat>)
    requires Chain(buf, start, offs)
    ensures forall i :: 0 <= i < |offs| ==> start <= offs[i] && offs[i] + U32At(buf, offs[i]) <= |buf|
    ensures forall i, j :: 0 <= i < j < |offs| ==> offs[i] + PACKET_SIZE <= offs[j]
    ensures After(buf, start, offs) <= |buf| || |offs| == 0
    decreases |offs|
  {
    if |offs| > 1 {
      var tail := offs[1..];
      assert Chain(buf, offs[1], tail);
      ChainStaysInBuffer(buf, offs[1], tail);
      forall i, j | 0 <= i < j < |offs|
        ensures offs[i] + PACKET_SIZE <= offs[j]
      {
        if i > 0 {
          assert tail[i - 1] + PACKET_SIZE <= tail[j - 1];
        } else if j > 1 {
          assert offs[1] <= tail[j - 1];
        }
      }
    }
  }

  /** validate_hdr_packet walks with the unguarded check. */
  datatype WalkAsWritten = AwGood | AwInvalid | AwReadsPastEnd(at: nat)

  function WalkPacketsAsWritten(buf: seq<byte>, pkt: nat, n: nat): WalkAsWritten
    decreases n
  {
    if n == 0 then AwGood
    else
      match ValidatePacketAsWritten(buf, pkt)
      case Invalid => AwInvalid
      case ReadsPastEnd => AwReadsPastEnd(pkt)
      case Valid => WalkPacketsAsWritten(buf, pkt + U32At(buf, pkt), n - 1)
  }

  /** When the header overstates the packet count by one and the real
      packets fill the buffer exactly, the walk as written reaches the end
      of the buffer and reads the next size word from beyond it; the guarded
      walk rejects the same message. */
  lemma {:induction false} OverstatedCountReadsPastEnd(buf: seq<byte>, pkt: nat, offs: seq<nat>)
    requires |buf| > 0
    requires Chain(buf, pkt, offs) && After(buf, pkt, offs) == |buf|
    requires |offs| > 0 || pkt == |buf|
    ensures WalkPacketsAsWritten(buf, pkt, |offs| + 1) == AwReadsPastEnd(|buf|)
    ensures WalkPackets(buf, pkt, |offs| + 1).Bad?
    decreases |offs|
  {
    if |offs| == 0 {
      assert ValidatePacketAsWritten(buf, pkt) == ReadsPastEnd;
    } else {
      assert ValidPacket(buf, pkt);
      ValidPacketAgreesAsWritten(buf, pkt);
      var tail := offs[1..];
      var next := NextPacket(buf, pkt);
      assert Chain(buf, next, tail);
      assert After(buf, next, tail) == After(buf, pkt, offs);
      if |tail| == 0 {
        assert next == |buf|;
      }
      OverstatedCountReadsPastEnd(buf, next, tail);
    }
  }

  /** A concrete message showing the overrun: a 64-byte response whose
      header declares two packets but which holds one 32-byte packet. */
  function OverrunMessage(): (buf: seq<byte>)
    ensures |buf| == HEADER_SIZE + PACKET_SIZE
  {
    EncodeU32(64) + seq(24, _ => 0) + EncodeU32(2) + EncodeU32(32) + seq(28, _ => 0)
  }

  lemma OverrunMessageReadsPastEnd()
    ensures HeaderSize(OverrunMessage()) == 64 && NumPackets(OverrunMessage()) == 2
    ensures WalkPacketsAsWritten(OverrunMessage(), HEADER_SIZE, 2) == AwReadsPastEnd(64)
    ensures ValidateHeader(OverrunMessage()).None?
  {
    var buf := OverrunMessage();
    var z24: seq<byte> := seq(24, _ => 0);
    var z28: seq<byte> := seq(28, _ => 0);
    U32RoundTrip([], 64, z24 + EncodeU32(2) + EncodeU32(32) + z28);
    assert buf == [] + EncodeU32(64) + (z24 + EncodeU32(2) + EncodeU32(32) + z28);
    U32RoundTrip(EncodeU32(64) + z24, 2, EncodeU32(32) + z28);
    assert buf == (EncodeU32(64) + z24) + EncodeU32(2) + (EncodeU32(32) + z28);
    U32RoundTrip(EncodeU32(64) + z24 + EncodeU32(2), 32, z28);
    assert buf == (EncodeU32(64) + z24 + EncodeU32(2)) + EncodeU32(32) + z28;
    assert U32At(buf, 32) == 32;
    assert ValidPacket(buf, 32);
    assert Chain(buf, 32, [32]);
    OverstatedCountReadsPastEnd(buf, 32, [32]);
  }
}
