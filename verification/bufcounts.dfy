/** How many buffers a session needs on each port and of each internal kind
    (msm_vidc_buffer.c, lines 16-198). Every count is a u32 computed from
    the session's configuration and the core's capabilities. */
module BufferCounts {
  import opened Common
  import opened Instance

  /** Minimum and extra counts fixed by the platform headers, which are not
      part of this model. */
  datatype CountLimits = CountLimits(
    minDecInput: u32,        // MIN_DEC_INPUT_BUFFERS
    minEncInput: u32,        // MIN_ENC_INPUT_BUFFERS
    minEncOutput: u32,       // MIN_ENC_OUTPUT_BUFFERS
    dcvsEncExtraInput: u32,  // DCVS_ENC_EXTRA_INPUT_BUFFERS
    dcvsDecExtraOutput: u32) // DCVS_DEC_EXTRA_OUTPUT_BUFFERS

  /** What the count functions read from the session and its core. */
  datatype CountCfg = CountCfg(
    domain: Domain,
    codec: Codec,
    thumbnail: bool,
    image: bool,
    hierB: bool,             // a hierarchical-B layer type was requested
    enhLayerCount: u32,      // ENH_LAYER_COUNT
    layerEnable: bool,       // LAYER_ENABLE
    fwMinCount: u32,         // the firmware's count from a reconfiguration; 0 before one
    splitMode: bool,         // the decoder runs in split (DPB + OPB) mode
    coreDecodeBatch: bool,   // the core's DECODE_BATCH capability
    batchEnable: bool,
    batchSize: u32,
    coreDcvs: bool,          // the core's DCVS capability
    inputMinCount: u32)      // the input port's current minimum count

  /** `1 << n` as a u32. A shift by 32 or more is undefined in C; the model
      takes it as 0. */
  function Shl1(n: u32): (r: u32)
    ensures n < 32 ==> r == Pow2(n)
    ensures r <= 0x8000_0000
    ensures n < 31 ==> r <= 0x4000_0000
  {
    if n < 32 then
      Pow2Monotone(n, 31);
      Pow2Monotone(n, 30);
      Pow2Values();
      Pow2(n)
    else 0
  }

  lemma {:induction false} Pow2Monotone(a: nat, b: nat)
    ensures a <= b ==> Pow2(a) <= Pow2(b)
    decreases b
  {
    if a < b {
      Pow2Monotone(a, b - 1);
    }
  }

  /** The enhancement layers that size a hierarchical-B encoder's input
      queue: none without hier-B, and none for H.264 without layering. */
  function HierBLayers(c: CountCfg): u32
  {
    if !c.hierB then 0
    else if c.codec == H264 && !c.layerEnable then 0
    else c.enhLayerCount
  }

  /** msm_vidc_input_min_count. */
  function InputMinCount(l: CountLimits, c: CountCfg): (r: u32)
    ensures c.domain == NoDomain ==> r == 0
    ensures c.domain != NoDomain && (c.thumbnail || c.image) ==> r == 1
    ensures c.domain == Decoder && !c.thumbnail && !c.image ==> r == l.minDecInput
    ensures c.domain == Encoder && !c.thumbnail && !c.image && HierBLayers(c) == 0 ==> r == l.minEncInput
    ensures c.domain == Encoder && !c.thumbnail && !c.image && 0 < HierBLayers(c) < 31 ==>
      r == Pow2(HierBLayers(c)) + 2
  {
    var base :=
      match c.domain
      case Decoder => l.minDecInput
      case Encoder =>
        var enh := HierBLayers(c);
        if enh != 0 then Wrap32(Shl1(enh) + 2) else l.minEncInput
      case NoDomain => 0;
    if c.domain == NoDomain then 0
    else if c.thumbnail || c.image then 1
    else base
  }

  /** A hierarchical-B request on H.264 without layering leaves the input
      count where a plain encoder's would be. */
  lemma HierBNeedsLayering(l: CountLimits, c: CountCfg)
    requires c.codec == H264 && !c.layerEnable
    ensures InputMinCount(l, c) == InputMinCount(l, c.(hierB := false))
  {
  }

  /** With platform minimums of at least one, every session with a domain
      needs at least one input buffer. */
  lemma InputMinCountPositive(l: CountLimits, c: CountCfg)
    requires c.domain != NoDomain && l.minDecInput >= 1 && l.minEncInput >= 1
    ensures InputMinCount(l, c) >= 1
  {
  }

  /** The decoder's output count before any reconfiguration, by codec. */
  function InitialOutputCount(codec: Codec): (r: u32)
    ensures 3 <= r <= 11
    ensures codec == Heic <==> r == 3
    ensures codec == Vp9 <==> r == 9
    ensures codec == Av1 <==> r == 11
    ensures codec in {H264, Hevc, OtherCodec} <==> r == 4
  {
    match codec
    case H264 => 4
    case Hevc => 4
    case Vp9 => 9
    case Av1 => 11
    case Heic => 3
    case OtherCodec => 4
  }

  /** msm_vidc_output_min_count. */
  function OutputMinCount(l: CountLimits, c: CountCfg): (r: u32)
    ensures c.domain == NoDomain ==> r == 0
    ensures c.domain != NoDomain && c.thumbnail ==> r == 1
    ensures c.domain == Encoder && !c.thumbnail ==> r == l.minEncOutput
    ensures c.domain == Decoder && !c.thumbnail && c.fwMinCount == 0 ==> r == InitialOutputCount(c.codec)
    ensures c.domain == Decoder && !c.thumbnail && c.fwMinCount != 0 ==>
      && 1 <= r <= c.fwMinCount
      && (r < c.fwMinCount <==> c.splitMode && c.codec in {Av1, Vp9} && c.fwMinCount > 4)
    ensures c.domain == Decoder && !c.thumbnail && c.fwMinCount != 0 && c.splitMode && c.codec in {Av1, Vp9} ==>
      r == Min(4, c.fwMinCount)
  {
    if c.domain == NoDomain then 0
    else if c.thumbnail then 1
    else if c.domain == Encoder then l.minEncOutput
    else if c.fwMinCount != 0 then
      if c.splitMode && (c.codec == Av1 || c.codec == Vp9) then Min(4, c.fwMinCount) else c.fwMinCount
    else InitialOutputCount(c.codec)
  }

  /** Once the firmware has stated a count, the codec table no longer
      matters, except that split-mode AV1 and VP9 cap it at four. */
  lemma FirmwareCountOverridesTable(l: CountLimits, c: CountCfg, codec: Codec)
    requires c.domain == Decoder && !c.thumbnail && c.fwMinCount != 0 && !c.splitMode
    ensures OutputMinCount(l, c) == OutputMinCount(l, c.(codec := codec)) == c.fwMinCount
  {
  }

  /** Decode batching holds this many input buffers at a time. */
  predicate Batching(c: CountCfg)
  {
    c.coreDecodeBatch && c.batchEnable
  }

  /** msm_vidc_input_extra_count: enough extra input buffers that the
      minimum plus the extras reach a decode batch, or the DCVS headroom for
      an encoder. */
  function InputExtraCount(l: CountLimits, c: CountCfg): (r: u32)
    ensures c.thumbnail || c.image || c.domain == NoDomain ==> r == 0
    ensures c.domain == Decoder && !c.thumbnail && !c.image ==>
      c.inputMinCount + r == if Batching(c) then Max(c.inputMinCount, c.batchSize) else c.inputMinCount
    ensures c.domain == Encoder && !c.thumbnail && !c.image ==> r == if c.coreDcvs then l.dcvsEncExtraInput else 0
  {
    if c.thumbnail || c.image then 0
    else if c.domain == Decoder then
      if Batching(c) && c.inputMinCount < c.batchSize then c.batchSize - c.inputMinCount else 0
    else if c.domain == Encoder then
      if c.coreDcvs then l.dcvsEncExtraInput else 0
    else 0
  }

  /** The DCVS headroom a decoder's output port gets; AV1 gets none. */
  function DcvsDecoderOutput(l: CountLimits, c: CountCfg): u32
  {
    if c.coreDcvs && c.codec != Av1 then l.dcvsDecExtraOutput else 0
  }

  /** msm_vidc_output_extra_count: a decoder gets its DCVS headroom, raised
      to a whole decode batch when batching. */
  function OutputExtraCount(l: CountLimits, c: CountCfg): (r: u32)
    ensures c.thumbnail || c.image || c.domain != Decoder ==> r == 0
    ensures c.domain == Decoder && !c.thumbnail && !c.image ==>
      r == if Batching(c) then Max(DcvsDecoderOutput(l, c), c.batchSize) else DcvsDecoderOutput(l, c)
  {
    if c.thumbnail || c.image then 0
    else if c.domain == Decoder then
      var count := DcvsDecoderOutput(l, c);
      if Batching(c) && count < c.batchSize then c.batchSize else count
    else 0
  }

  /** A thumbnail session runs with one buffer per port and no extras. */
  lemma ThumbnailRunsOnOneBuffer(l: CountLimits, c: CountCfg)
    requires c.thumbnail && c.domain != NoDomain
    ensures InputMinCount(l, c) == 1 && OutputMinCount(l, c) == 1
    ensures InputExtraCount(l, c) == 0 && OutputExtraCount(l, c) == 0
  {
  }

  /** With batching, a decoder's ports each hold at least a whole batch. */
  lemma BatchingFillsBothPorts(l: CountLimits, c: CountCfg)
    requires c.domain == Decoder && !c.thumbnail && !c.image && Batching(c)
    ensures c.inputMinCount + InputExtraCount(l, c) >= c.batchSize
    ensures OutputExtraCount(l, c) >= c.batchSize
  {
  }

  /** The internal kinds every decoder needs one of, whatever its codec. */
  const DecoderAlways: set<InternalKind> := {BinK, LineK, PersistK, PartialDataK}

  /** The codecs whose decoder needs co-located motion vector buffers. */
  const ComvCodecs: set<Codec> := {H264, Hevc, Heic, Av1}

  /** msm_vidc_internal_buffer_count. */
  function InternalBufferCount(c: CountCfg, t: InternalKind): (r: u32)
    ensures r <= 1
    ensures c.domain == Encoder ==> r == 1
    ensures c.domain == NoDomain ==> r == 0
    ensures c.domain == Decoder ==>
      (r == 1 <==> t in DecoderAlways || (t in {ComvK, NonComvK} && c.codec in ComvCodecs))
  {
    if c.domain == Encoder then 1
    else if c.domain == Decoder then
      if t == BinK || t == LineK || t == PersistK || t == PartialDataK then 1
      else if t == ComvK || t == NonComvK then
        if c.codec == H264 || c.codec == Hevc || c.codec == Heic || c.codec == Av1 then 1 else 0
      else 0
    else 0
  }
}
