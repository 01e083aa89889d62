/** The iris3 variant's session decisions (msm_vidc_iris3.c): how many
    stages and pipes a session runs on, whether an encoder runs for quality
    or for power, how much bitrate boost it keeps, and the watchdog bit of
    the interrupt status. Each decision either sets one capability, leaves
    it alone, or rejects a session that is neither decoder nor encoder. */
module Iris3 {
  import opened Common
  import opened Instance
  import BufferSizes

  /** A C `s32`. */
  type s32 = x: int | -0x8000_0000 <= x < 0x8000_0000

  /** What a decision does to its capability. */
  datatype Decision<T> = Set(value: T) | NoUpdate | Invalid

  /** MSM_VIDC_STAGE_1 and MSM_VIDC_STAGE_2. */
  datatype WorkMode = Stage1 | Stage2

  /** MSM_VIDC_POWER_SAVE_MODE and MSM_VIDC_MAX_QUALITY_MODE. */
  datatype QualityMode = PowerSave | MaxQuality

  /** The HFI rate-control types the decisions tell apart. */
  datatype RcType = CbrCfr | CbrVfr | VbrCfr | OtherRc

  // ---- watchdog ----

  /** WRAPPER_INTR_STATUS_A2HWD_BMSK_IRIS3. */
  const A2HWD_MASK: Flags := 0x8

  /** __watchdog_iris3: 1 when the interrupt status carries the watchdog
      bit, 0 otherwise. */
  function Watchdog(intrStatus: Flags): (r: int)
    ensures r == 1 <==> intrStatus & 0x8 == 0x8
    ensures r == 0 <==> intrStatus & 0x8 == 0
  {
    if HasFlag(intrStatus, A2HWD_MASK) then 1 else 0
  }

  /** Only bit 3 of the interrupt status matters to the watchdog. */
  lemma WatchdogReadsOnlyBit3(a: Flags, b: Flags)
    requires a & 0x8 == b & 0x8
    ensures Watchdog(a) == Watchdog(b)
  {
  }

  // ---- work mode and work route ----

  /** What the work mode and work route read from a session. */
  datatype WorkCfg = WorkCfg(
    domain: Domain,
    image: bool,
    interlaced: bool,        // CODED_FRAMES is CODED_FRAMES_INTERLACE
    lowLatency: bool,        // LOWLATENCY_MODE
    below720p: bool,         // the decoder's input is less than 1280x720
    within4k: bool,          // the encoder's crop is not greater than 4096x2160
    sliceMaxBytes: bool,     // SLICE_MODE is MULTI_SLICE_MODE_MAX_BYTES
    rc: RcType,              // the encoder's HFI rate control
    lossless: bool,          // LOSSLESS
    gopSize: s32)            // GOP_SIZE

  /** An image session is an image encode or an image decode session. */
  predicate ImageSession(c: WorkCfg)
  {
    c.image && c.domain != NoDomain
  }

  /** The encoder settings that ask for a single stage, before lossless
      coding or an intra-only GOP overrides them. */
  predicate EncoderWantsOneStage(c: WorkCfg)
  {
    (c.within4k && c.lowLatency) || c.sliceMaxBytes || c.rc == CbrCfr || c.rc == CbrVfr
  }

  /** msm_vidc_decide_work_mode_iris3: two stages by default; the settings
      that matter each override the mode in turn. */
  function DecideWorkMode(c: WorkCfg): (r: Decision<WorkMode>)
    ensures c.domain == NoDomain <==> r.Invalid?
    ensures r != NoUpdate
    ensures ImageSession(c) ==> r == Set(if c.domain == Decoder then Stage1 else Stage2)
    ensures c.domain == Decoder && !c.image ==>
      (r == Set(Stage1) <==> c.interlaced || c.lowLatency || c.below720p)
    ensures c.domain == Encoder && !c.image ==>
      (r == Set(Stage1) <==> EncoderWantsOneStage(c) && !c.lossless && c.gopSize != 0)
  {
    var mode := if c.image && c.domain == Decoder then Stage1 else Stage2;
    if ImageSession(c) then Set(mode)
    else match c.domain
      case Decoder =>
        Set(if c.interlaced || c.lowLatency || c.below720p then Stage1 else mode)
      case Encoder =>
        var m1 := if c.within4k && c.lowLatency then Stage1 else mode;
        var m2 := if c.sliceMaxBytes then Stage1 else m1;
        var m3 := if c.rc == CbrCfr || c.rc == CbrVfr then Stage1 else m2;
        var m4 := if c.lossless then Stage2 else m3;
        Set(if c.gopSize == 0 then Stage2 else m4)
      case NoDomain => Invalid
  }

  /** Lossless coding and an intra-only GOP each force an encoder onto two
      stages, whatever else asks for one. */
  lemma LosslessOrIntraOnlyTakesTwoStages(c: WorkCfg)
    requires c.domain == Encoder && (c.lossless || c.gopSize == 0)
    ensures DecideWorkMode(c) == Set(Stage2)
  {
  }

  /** msm_vidc_decide_work_route_iris3: all the core's video pipes, except
      one for an interlaced decoder or a byte-sliced encoder. */
  function DecideWorkRoute(c: WorkCfg, numVppPipe: u32): (r: Decision<u32>)
    ensures c.domain == NoDomain <==> r.Invalid?
    ensures r != NoUpdate
    ensures r.Set? ==> r.value == numVppPipe || r.value == 1
    ensures ImageSession(c) ==> r == Set(numVppPipe)
    ensures c.domain == Decoder && !c.image && numVppPipe != 1 ==> (r == Set(1) <==> c.interlaced)
    ensures c.domain == Encoder && !c.image && numVppPipe != 1 ==> (r == Set(1) <==> c.sliceMaxBytes)
  {
    if ImageSession(c) then Set(numVppPipe)
    else match c.domain
      case Decoder => Set(if c.interlaced then 1 else numVppPipe)
      case Encoder => Set(if c.sliceMaxBytes then 1 else numVppPipe)
      case NoDomain => Invalid
  }

  /** A video session the route narrows to one pipe also runs on one stage,
      unless lossless coding or an intra-only GOP keeps an encoder on two. */
  lemma OnePipeMeansOneStage(c: WorkCfg, numVppPipe: u32)
    requires !c.image && numVppPipe != 1 && DecideWorkRoute(c, numVppPipe) == Set(1)
    requires c.domain == Encoder ==> !c.lossless && c.gopSize != 0
    ensures DecideWorkMode(c) == Set(Stage1)
  {
  }

  // ---- quality mode ----

  /** What the quality mode reads from a session and its core. */
  datatype QualityCfg = QualityCfg(
    domain: Domain,
    image: bool,
    lossless: bool,          // LOSSLESS
    allIntra: bool,          // ALL_INTRA
    complexity: s32,         // COMPLEXITY
    complexitySet: bool,     // the client set COMPLEXITY
    realtime: bool,
    mbpf: u32,               // macroblocks per frame
    fps: u32,                // frames per second
    maxHqMbpf: u32,          // the core's MAX_MBPF_HQ
    maxHqMbps: u32)          // the core's MAX_MBPS_HQ

  /** `mbpf * fps` as the u32 the driver compares. */
  function Mbps(c: QualityCfg): u32
  {
    Wrap32(c.mbpf * c.fps)
  }

  /** The load the core can encode at maximum quality. */
  predicate WithinHqLoad(c: QualityCfg)
  {
    c.mbpf <= c.maxHqMbpf && Mbps(c) <= c.maxHqMbps
  }

  /** msm_vidc_decide_quality_mode_iris3; DEFAULT_COMPLEXITY comes from
      the platform headers. Only an encoder gets a quality mode. */
  function DecideQualityMode(c: QualityCfg, defaultComplexity: int): (r: Decision<QualityMode>)
    ensures c.domain != Encoder <==> r == NoUpdate
    ensures r != Invalid
    ensures c.domain == Encoder ==>
      (r == Set(MaxQuality) <==>
         || c.image || c.lossless || c.allIntra
         || (c.complexity >= defaultComplexity &&
             ((!c.realtime && (c.complexitySet || c.mbpf <= c.maxHqMbpf)) || WithinHqLoad(c))))
  {
    if c.domain != Encoder then NoUpdate
    else if c.image || c.lossless || c.allIntra then Set(MaxQuality)
    else if c.complexity < defaultComplexity then Set(PowerSave)
    else if !c.realtime && ((c.complexitySet && c.complexity >= defaultComplexity) || c.mbpf <= c.maxHqMbpf) then
      Set(MaxQuality)
    else if WithinHqLoad(c) then Set(MaxQuality)
    else Set(PowerSave)
  }

  /** An encoder below the default complexity saves power unless it is an
      image, lossless or intra-only session. */
  lemma LowComplexitySavesPower(c: QualityCfg, defaultComplexity: int)
    requires c.domain == Encoder && c.complexity < defaultComplexity
    requires !c.image && !c.lossless && !c.allIntra
    ensures DecideQualityMode(c, defaultComplexity) == Set(PowerSave)
  {
  }

  /** Where the load does not wrap, a smaller frame at the same rate never
      loses maximum quality. */
  lemma {:induction false} QualityKeptForSmallerFrames(c: QualityCfg, mbpf: u32, defaultComplexity: int)
    requires DecideQualityMode(c, defaultComplexity) == Set(MaxQuality)
    requires mbpf <= c.mbpf && c.mbpf * c.fps < U32_LIMIT
    ensures DecideQualityMode(c.(mbpf := mbpf), defaultComplexity) == Set(MaxQuality)
  {
    BufferSizes.MulMonotone(mbpf, c.mbpf, c.fps);
    assert Mbps(c.(mbpf := mbpf)) <= Mbps(c);
  }

  // ---- bitrate boost ----

  /** What the bitrate boost adjustment reads from a session. */
  datatype BoostCfg = BoostCfg(
    streaming: bool,         // the output queue is streaming
    parentFound: bool,       // BITRATE_MODE could be read as the parent
    rc: RcType,              // the rate control BITRATE_MODE maps to
    requested: s32,          // the control's value, or BITRATE_BOOST's
    clientSet: bool,         // the client set BITRATE_BOOST
    within4096x2176: bool,   // the output is at most 4096x2176
    frameRateQ16: u32,       // FRAME_RATE in Q16
    bitrate: u32,            // BIT_RATE
    maxBitrate: u32)         // the session's maximum bitrate

  /** The boost before the bitrate check: a client's value as it is,
      otherwise the platform's maximum up to 4096x2176 at 60 fps and none
      above. */
  function BoostBeforeCheck(c: BoostCfg, maxBoost: s32): (b: s32)
    ensures c.clientSet ==> b == c.requested
    ensures !c.clientSet ==>
      b == if c.within4096x2176 && c.frameRateQ16 < 61 * 0x1_0000 then maxBoost else 0
  {
    if c.clientSet then c.requested
    else if c.within4096x2176 && c.frameRateQ16 / 0x1_0000 <= 60 then maxBoost
    else 0
  }

  /** C's `a / b` on ints: truncated toward zero. */
  function CDiv(a: int, b: int): (q: int)
    requires b != 0
    ensures a >= 0 && b > 0 ==> q == a / b
  {
    var m := (if a < 0 then -a else a) / (if b < 0 then -b else b);
    if (a < 0) == (b < 0) then m else -m
  }

  /** The check as written, `bitrate + bitrate / (100 / boost) > max`: the
      quotient is an int converted to u32 for the unsigned division, the
      sum wraps, and a boost above 100 makes the quotient 0, a division by
      zero, which is None. */
  function BoostTooHighAsWritten(bitrate: u32, boost: s32, maxBitrate: u32): (r: Option<bool>)
    requires boost != 0
    ensures r == None <==> boost > 100 || boost < -100
  {
    CDivHundredZero(boost);
    var q := CDiv(100, boost);
    if q == 0 then None
    else
      var divisor := if q < 0 then q + U32_LIMIT else q;
      Some(Wrap32(bitrate + bitrate / divisor) > maxBitrate)
  }

  /** `100 / b` truncates to zero exactly when `b` lies beyond 100 either
      way. */
  lemma CDivHundredZero(b: int)
    requires b != 0
    ensures CDiv(100, b) == 0 <==> b > 100 || b < -100
  {
    var a := if b < 0 then -b else b;
    var q := 100 / a;
    assert 100 == q * a + 100 % a && 0 <= 100 % a < a;
    if a <= 100 {
      if q == 0 { assert false; }
    } else if q != 0 {
      BufferSizes.MulMonotone(1, q, a);
      assert false;
    }
  }

  /** The check as intended: the bitrate raised by `boost` percent exceeds
      the maximum. */
  predicate BoostTooHigh(bitrate: u32, boost: s32, maxBitrate: u32)
  {
    bitrate + bitrate * boost / 100 > maxBitrate
  }

  /** msm_vidc_adjust_bitrate_boost_iris3 as written: None where the check
      divides by zero. */
  function AdjustBitrateBoostAsWritten(c: BoostCfg, maxBoost: s32): (r: Option<Decision<s32>>)
    ensures c.streaming ==> r == Some(NoUpdate)
    ensures !c.streaming && !c.parentFound ==> r == Some(Invalid)
    ensures !c.streaming && c.parentFound && c.rc != VbrCfr ==> r == Some(Set(0))
    ensures !c.streaming && c.parentFound && c.rc == VbrCfr && BoostBeforeCheck(c, maxBoost) == 0 ==>
      r == Some(Set(0))
    ensures r == None <==>
      !c.streaming && c.parentFound && c.rc == VbrCfr &&
      (BoostBeforeCheck(c, maxBoost) > 100 || BoostBeforeCheck(c, maxBoost) < -100)
    ensures r.Some? && r.value.Set? && r.value.value != 0 ==>
      && c.rc == VbrCfr
      && r.value.value == BoostBeforeCheck(c, maxBoost)
      && BoostTooHighAsWritten(c.bitrate, r.value.value, c.maxBitrate) == Some(false)
    ensures (&& !c.streaming && c.parentFound && c.rc == VbrCfr && BoostBeforeCheck(c, maxBoost) != 0
             && BoostTooHighAsWritten(c.bitrate, BoostBeforeCheck(c, maxBoost), c.maxBitrate).Some?) ==>
        var b := BoostBeforeCheck(c, maxBoost);
        var keep: s32 := if BoostTooHighAsWritten(c.bitrate, b, c.maxBitrate).value then 0 else b;
        r == Some(Set(keep))
  {
    if c.streaming then Some(NoUpdate)
    else if !c.parentFound then Some(Invalid)
    else if c.rc != VbrCfr then Some(Set(0))
    else
      var b := BoostBeforeCheck(c, maxBoost);
      if b == 0 then Some(Set(0))
      else match BoostTooHighAsWritten(c.bitrate, b, c.maxBitrate)
        case None => None
        case Some(tooHigh) => Some(Set(if tooHigh then 0 else b))
  }

  /** msm_vidc_adjust_bitrate_boost_iris3 with the intended check: a boost
      is kept only for VBR and only where the boosted bitrate fits under
      the session's maximum. */
  function AdjustBitrateBoost(c: BoostCfg, maxBoost: s32): (r: Decision<s32>)
    ensures c.streaming <==> r == NoUpdate
    ensures r == Invalid <==> !c.streaming && !c.parentFound
    ensures r.Set? && r.value != 0 ==>
      && c.rc == VbrCfr
      && r.value == BoostBeforeCheck(c, maxBoost)
      && !BoostTooHigh(c.bitrate, r.value, c.maxBitrate)
    ensures r.Set? && c.rc == VbrCfr ==>
      r.value == (if BoostTooHigh(c.bitrate, BoostBeforeCheck(c, maxBoost), c.maxBitrate) then 0
                  else BoostBeforeCheck(c, maxBoost))
  {
    if c.streaming then NoUpdate
    else if !c.parentFound then Invalid
    else if c.rc != VbrCfr then Set(0)
    else
      var b := BoostBeforeCheck(c, maxBoost);
      if b != 0 && BoostTooHigh(c.bitrate, b, c.maxBitrate) then Set(0) else Set(b)
  }

  /** A boost that fits keeps fitting when lowered. */
  lemma {:induction false} SmallerBoostStillFits(bitrate: u32, b1: s32, b2: s32, maxBitrate: u32)
    requires 0 <= b1 <= b2 && !BoostTooHigh(bitrate, b2, maxBitrate)
    ensures !BoostTooHigh(bitrate, b1, maxBitrate)
  {
    BufferSizes.MulMonotone(b1, b2, bitrate);
    assert bitrate * b1 == b1 * bitrate && bitrate * b2 == b2 * bitrate;
    BufferSizes.DivMonotone(bitrate * b1, bitrate * b2, 100);
  }

  /** For the boosts that divide 100, the two checks agree wherever the
      boosted sum fits in a u32. */
  lemma BoostChecksAgreeOnDivisors(bitrate: u32, boost: s32, maxBitrate: u32)
    requires 0 < boost <= 100 && 100 % boost == 0
    requires bitrate + bitrate * boost / 100 < U32_LIMIT
    ensures BoostTooHighAsWritten(bitrate, boost, maxBitrate) == Some(BoostTooHigh(bitrate, boost, maxBitrate))
  {
    var d := 100 / boost;
    assert boost * d == 100;
    ScaledQuotient(bitrate, boost, d);
    ChecksAgreeAt(bitrate, boost, d, maxBitrate);
  }

  /** Where the boost before the check is 0 or divides 100, and the boosted
      bitrate fits in a u32, the adjustment as written decides what the
      intended one does (MAX_BITRATE_BOOST, 25, is such a boost). */
  lemma BoostAsWrittenAgreesOnDivisors(c: BoostCfg, maxBoost: s32)
    requires var b := BoostBeforeCheck(c, maxBoost);
      b == 0 || (0 < b <= 100 && 100 % b == 0 && c.bitrate + c.bitrate * b / 100 < U32_LIMIT)
    ensures AdjustBitrateBoostAsWritten(c, maxBoost) == Some(AdjustBitrateBoost(c, maxBoost))
  {
    var b := BoostBeforeCheck(c, maxBoost);
    if !c.streaming && c.parentFound && c.rc == VbrCfr && b != 0 {
      BoostChecksAgreeOnDivisors(c.bitrate, b, c.maxBitrate);
    }
  }

  /** Taking `b` percent of `x` is dividing it by `d` when `b * d` is 100. */
  lemma ScaledQuotient(x: nat, b: nat, d: nat)
    requires b * d == 100
    ensures x * b / 100 == x / d
  {
    var q, r := x / d, x % d;
    assert x == q * d + r;
    assert x * b == q * 100 + r * b by {
      assert x * b == (q * d + r) * b;
      assert (q * d + r) * b == q * (d * b) + r * b;
    }
    assert 0 <= r * b < 100 by {
      BufferSizes.MulMonotone(r + 1, d, b);
    }
  }

  /** The two checks agree for a boost whose written divisor `d` scales the
      bitrate exactly as the percentage does. */
  lemma ChecksAgreeAt(bitrate: u32, boost: s32, d: nat, maxBitrate: u32)
    requires boost > 0 && d > 0 && CDiv(100, boost) == d
    requires bitrate * boost / 100 == bitrate / d && bitrate + bitrate / d < U32_LIMIT
    ensures BoostTooHighAsWritten(bitrate, boost, maxBitrate) == Some(BoostTooHigh(bitrate, boost, maxBitrate))
  {
  }

  /** A client's boost above 100 makes the written check divide by zero. */
  lemma BoostAsWrittenDividesByZero()
    ensures AdjustBitrateBoostAsWritten(
      BoostCfg(false, true, VbrCfr, 101, true, true, 30 * 0x1_0000, 1000, 5000), 25) == None
    ensures AdjustBitrateBoost(
      BoostCfg(false, true, VbrCfr, 101, true, true, 30 * 0x1_0000, 1000, 5000), 25) == Set(101)
  {
  }

  /** A client's boost of 75 percent is checked as if it were 100 percent:
      1000 boosted by 75 percent fits under 1800, but the written check
      removes the boost. */
  lemma BoostAsWrittenOverchecks()
    ensures AdjustBitrateBoostAsWritten(
      BoostCfg(false, true, VbrCfr, 75, true, true, 30 * 0x1_0000, 1000, 1800), 25) == Some(Set(0))
    ensures AdjustBitrateBoost(
      BoostCfg(false, true, VbrCfr, 75, true, true, 30 * 0x1_0000, 1000, 1800), 25) == Set(75)
  {
  }
}
