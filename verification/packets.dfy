/** Decoded packets and buffer descriptors, and the payload-shape check
    (venus_hfi_response.c, check_for_packet_payload). */
module Packets {
  import opened Common
  import opened Wire
  import opened Hfi
  import opened Validate

  /** One packet of a message. `rest` holds the bytes from the end of the
      packet header to the end of the response buffer: the C handlers read
      their payload at the address just past the header and nothing stops
      such a read at the packet's own end, so the model keeps what lies
      beyond it too. */
  datatype Packet = Packet(
    size: u32,
    ptype: u32,
    flags: Flags,
    payloadInfo: u32,
    port: u32,
    packetId: u32,
    rest: seq<byte>)
  {
    /** The bytes that belong to this packet's payload. */
    function OwnPayload(): seq<byte>
      requires PACKET_SIZE <= size && size - PACKET_SIZE <= |rest|
    {
      rest[..size - PACKET_SIZE]
    }
  }

  /** What validate_packet guarantees of every packet a handler sees: its
      header fits, and its stated size stays inside the response buffer. */
  predicate WellFormed(p: Packet)
  {
    PACKET_SIZE <= p.size && p.size - PACKET_SIZE <= |p.rest|
  }

  function DecodePacket(buf: seq<byte>, off: nat): (p: Packet)
    requires ValidPacket(buf, off)
    ensures p.size == U32At(buf, off) && WellFormed(p)
    ensures p.rest == buf[off + PACKET_SIZE..]
  {
    Packet(
      U32At(buf, off + PKT_SIZE_OFF),
      U32At(buf, off + PKT_TYPE_OFF),
      U32At(buf, off + PKT_FLAGS_OFF) as Flags,
      U32At(buf, off + PKT_PAYLOAD_INFO_OFF),
      U32At(buf, off + PKT_PORT_OFF),
      U32At(buf, off + PKT_PACKET_ID_OFF),
      buf[off + PACKET_SIZE..])
  }

  /** The packets at the offsets a successful header walk produced. */
  function DecodePackets(buf: seq<byte>, offs: seq<nat>): (ps: seq<Packet>)
    requires forall i :: 0 <= i < |offs| ==> ValidPacket(buf, offs[i])
    ensures |ps| == |offs|
    ensures forall i :: 0 <= i < |offs| ==> ps[i] == DecodePacket(buf, offs[i])
  {
    seq(|offs|, i requires 0 <= i < |offs| => DecodePacket(buf, offs[i]))
  }

  /** The payload size check_for_packet_payload demands for a payload kind. */
  function RequiredPayload(p: Packet): nat
  {
    if p.payloadInfo in {PAYLOAD_U32, PAYLOAD_S32, PAYLOAD_Q16, PAYLOAD_U32_ENUM, PAYLOAD_32_PACKED} then 4
    else if p.payloadInfo in {PAYLOAD_U64, PAYLOAD_S64, PAYLOAD_64_PACKED} then 8
    else if p.payloadInfo == PAYLOAD_STRUCTURE && p.ptype == CMD_BUFFER then BUFFER_DESC_SIZE
    else 0
  }

  /** check_for_packet_payload: a payload is present, and the packet is long
      enough for the size its payload kind implies. */
  predicate HasPayload(p: Packet)
  {
    p.payloadInfo != PAYLOAD_NONE && p.size >= PACKET_SIZE + RequiredPayload(p)
  }

  /** The payload check never accepts a packet without payload, always
      accepts a scalar payload that fits, and for a structure that is not a
      buffer descriptor demands nothing beyond the packet header. */
  lemma PayloadCheckCases(p: Packet)
    ensures p.payloadInfo == PAYLOAD_NONE ==> !HasPayload(p)
    ensures p.payloadInfo == PAYLOAD_U32 ==> (HasPayload(p) <==> p.size >= PACKET_SIZE + 4)
    ensures p.payloadInfo == PAYLOAD_U64 ==> (HasPayload(p) <==> p.size >= PACKET_SIZE + 8)
    ensures p.payloadInfo == PAYLOAD_STRUCTURE && p.ptype == CMD_BUFFER ==>
      (HasPayload(p) <==> p.size >= PACKET_SIZE + BUFFER_DESC_SIZE)
    ensures p.payloadInfo == PAYLOAD_STRUCTURE && p.ptype != CMD_BUFFER ==>
      (HasPayload(p) <==> p.size >= PACKET_SIZE)
  {
  }

  /** payload_ptr[i]: the i-th u32 after the packet header. */
  function PayloadWord(p: Packet, i: nat): u32
  {
    U32Past(p.rest, 4 * i)
  }

  /** struct hfi_buffer, the payload of a buffer command. */
  datatype HfiBuffer = HfiBuffer(
    btype: u32,
    index: u32,
    baseAddress: u64,
    addrOffset: u32,
    dataOffset: u32,
    dataSize: u32,
    timestamp: u64,
    flags: Flags)

  function DecodeBufferBytes(b: seq<byte>): HfiBuffer
  {
    HfiBuffer(
      U32Past(b, BUF_TYPE_OFF),
      U32Past(b, BUF_INDEX_OFF),
      U64Past(b, BUF_BASE_ADDRESS_OFF),
      U32Past(b, BUF_ADDR_OFFSET_OFF),
      U32Past(b, BUF_DATA_OFFSET_OFF),
      U32Past(b, BUF_DATA_SIZE_OFF),
      U64Past(b, BUF_TIMESTAMP_OFF),
      U32Past(b, BUF_FLAGS_OFF) as Flags)
  }

  /** The buffer descriptor just past the packet header. */
  function DecodeBuffer(p: Packet): HfiBuffer
  {
    DecodeBufferBytes(p.rest)
  }

  /** A buffer command whose payload passed the check with the structure
      kind is decoded entirely from its own bytes: no field is read from
      beyond the packet. */
  lemma BufferDescriptorInsidePacket(p: Packet)
    requires WellFormed(p)
    requires HasPayload(p) && p.payloadInfo == PAYLOAD_STRUCTURE && p.ptype == CMD_BUFFER
    ensures DecodeBuffer(p) == DecodeBufferBytes(p.OwnPayload())
  {
    var own := p.OwnPayload();
    assert |own| >= BUFFER_DESC_SIZE;
    forall off: nat | off + 4 <= BUFFER_DESC_SIZE
      ensures U32Past(p.rest, off) == U32Past(own, off)
    {
      assert p.rest[off..off + 4] == own[off..off + 4];
    }
    forall off: nat | off + 8 <= BUFFER_DESC_SIZE
      ensures U64Past(p.rest, off) == U64Past(own, off)
    {
      assert p.rest[off..off + 8] == own[off..off + 8];
    }
  }
}
