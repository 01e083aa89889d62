/** The response buffer as bytes, and the fixed layout of the three wire
    structures the decoder reads: the message header, the packet header and
    the buffer descriptor. Multi-byte fields are little-endian. */
module Wire {
  import opened Common

  type byte = x: nat | x < 256

  /** sizeof(struct hfi_header): size, session_id, header_id, reserved[4], num_packets. */
  const HEADER_SIZE: nat := 32
  const HDR_SIZE_OFF: nat := 0
  const HDR_SESSION_ID_OFF: nat := 4
  const HDR_NUM_PACKETS_OFF: nat := 28

  /** sizeof(struct hfi_packet): size, type, flags, payload_info, port, packet_id, reserved[2]. */
  const PACKET_SIZE: nat := 32
  const PKT_SIZE_OFF: nat := 0
  const PKT_TYPE_OFF: nat := 4
  const PKT_FLAGS_OFF: nat := 8
  const PKT_PAYLOAD_INFO_OFF: nat := 12
  const PKT_PORT_OFF: nat := 16
  const PKT_PACKET_ID_OFF: nat := 20

  /** sizeof(struct hfi_buffer): type, index, base_address (u64), addr_offset,
      buffer_size, data_offset, data_size, timestamp (u64), flags, reserved[5]. */
  const BUFFER_DESC_SIZE: nat := 64
  const BUF_TYPE_OFF: nat := 0
  const BUF_INDEX_OFF: nat := 4
  const BUF_BASE_ADDRESS_OFF: nat := 8
  const BUF_ADDR_OFFSET_OFF: nat := 16
  const BUF_DATA_OFFSET_OFF: nat := 24
  const BUF_DATA_SIZE_OFF: nat := 28
  const BUF_TIMESTAMP_OFF: nat := 32
  const BUF_FLAGS_OFF: nat := 40

  /** The little-endian u32 stored at `off`. */
  function U32At(buf: seq<byte>, off: nat): (r: u32)
    requires off + 4 <= |buf|
  {
    var b0: nat, b1: nat, b2: nat, b3: nat := buf[off], buf[off + 1], buf[off + 2], buf[off + 3];
    b0 + 0x100 * b1 + 0x1_0000 * b2 + 0x100_0000 * b3
  }

  /** The little-endian u64 stored at `off`. */
  function U64At(buf: seq<byte>, off: nat): (r: u64)
    requires off + 8 <= |buf|
  {
    U32At(buf, off) + U32_LIMIT * U32At(buf, off + 4)
  }

  /** A u32 read that may run past the end of the buffer: the model reads 0
      where the C code would read whatever memory follows. */
  function U32Past(buf: seq<byte>, off: nat): u32
  {
    if off + 4 <= |buf| then U32At(buf, off) else 0
  }

  function U64Past(buf: seq<byte>, off: nat): u64
  {
    if off + 8 <= |buf| then U64At(buf, off) else 0
  }

  /** The four little-endian bytes of `x`. */
  function EncodeU32(x: u32): (r: seq<byte>)
    ensures |r| == 4
  {
    [x % 0x100, x / 0x100 % 0x100, x / 0x100 / 0x100 % 0x100, x / 0x100 / 0x100 / 0x100]
  }

  /** Reading back what `EncodeU32` wrote gives the original word, wherever
      it sits in the buffer. */
  lemma U32RoundTrip(pre: seq<byte>, x: u32, post: seq<byte>)
    ensures U32At(pre + EncodeU32(x) + post, |pre|) == x
  {
    var b := pre + EncodeU32(x) + post;
    var e := EncodeU32(x);
    assert b[|pre|] == e[0] && b[|pre| + 1] == e[1] && b[|pre| + 2] == e[2] && b[|pre| + 3] == e[3];
    var q1 := x / 0x100;
    var q2 := q1 / 0x100;
    assert x == e[0] + 0x100 * q1;
    assert q1 == e[1] + 0x100 * q2;
    assert q2 == e[2] + 0x100 * (e[3] as int);
  }
}
