/** How large each client buffer must be (msm_vidc_buffer.c, lines 200-462).
    Every size is u32 arithmetic on the session's formats and capabilities;
    the products and sums wrap as in C. Sizes handed to the hardware are
    rounded up to 4 KiB pages. */
module BufferSizes {
  import opened Common
  import opened Instance

  /** Sizes fixed by the platform headers, which are not part of this
      model. */
  datatype SizeLimits = SizeLimits(
    metadataSize: u32,   // MSM_VIDC_METADATA_SIZE
    dolbyRpuSize: u32,   // MSM_VIDC_METADATA_DOLBY_RPU_SIZE
    mbs4k: u32,          // NUM_MBS_4k, macroblocks in a 4K frame
    mbs360p: u32)        // NUM_MBS_360P

  /** Pixels in a 16x16 macroblock. */
  const MB_SIZE_IN_PIXEL: nat := 256

  /** A frame's dimensions in pixels. */
  datatype Frame = Frame(width: u32, height: u32)

  // ---- arithmetic the size functions share ----

  lemma MulMonotone(x: nat, y: nat, d: nat)
    requires x <= y
    ensures x * d <= y * d
  {
    assert y * d == x * d + (y - x) * d;
  }

  lemma DivDecompose(a: nat, d: nat)
    requires d > 0
    ensures a == a / d * d + a % d && 0 <= a % d < d
  {
  }

  lemma QuotientIsLargest(q: nat, a: nat, d: nat)
    requires d > 0 && q * d <= a
    ensures q <= a / d
  {
    DivDecompose(a, d);
    if q > a / d {
      MulMonotone(a / d + 1, q, d);
    }
  }

  lemma DivMonotone(a: nat, b: nat, d: nat)
    requires a <= b && d > 0
    ensures a / d <= b / d
  {
    DivDecompose(a, d);
    QuotientIsLargest(a / d, b, d);
  }

  lemma DivByMoreIsLess(a: nat, d: nat, e: nat)
    requires 0 < d <= e
    ensures a / e <= a / d
  {
    DivDecompose(a, e);
    MulMonotone(d, e, a / e);
    assert a / e * d == d * (a / e);
    assert a / e * e == e * (a / e);
    QuotientIsLargest(a / e, a, d);
  }

  lemma MultipleMod(k: nat, d: nat)
    requires d > 0
    ensures (k * d) % d == 0
  {
    var m := k * d;
    DivDecompose(m, d);
    var t := k - m / d;
    assert m % d == t * d;
    if t >= 1 {
      MulMonotone(1, t, d);
    } else if t <= -1 {
      MulMonotone(1, -t, d);
    }
  }

  lemma RoundDown(s: nat, a: nat)
    requires a > 0
    ensures s / a * a <= s < s / a * a + a
    ensures (s / a * a) % a == 0
  {
    DivDecompose(s, a);
    MultipleMod(s / a, a);
  }

  /** Wrapping keeps a multiple of 16 a multiple of 16. */
  lemma WrapMultiple16(m: nat)
    ensures Wrap32(16 * m) % 16 == 0
  {
    DivDecompose(16 * m, U32_LIMIT);
    var q := 16 * m / U32_LIMIT;
    assert Wrap32(16 * m) == 16 * (m - 0x1000_0000 * q);
    MultipleMod(m - 0x1000_0000 * q, 16);
  }

  /** `ALIGN(x, a)`: `x` rounded up to a multiple of `a`, the addition
      wrapping. For a power-of-two `a` this is the kernel's mask; an
      alignment of 0 masks everything away. */
  function AlignTo(x: u32, a: u32): (r: u32)
    ensures a > 0 ==> r % a == 0
    ensures a > 0 && x + a - 1 < U32_LIMIT ==> x <= r < x + a
  {
    if a == 0 then 0 else AlignDown(Wrap32(x + a - 1), a)
  }

  /** The largest multiple of `a` not above `s`. */
  function AlignDown(s: u32, a: u32): (r: u32)
    requires a > 0
    ensures r % a == 0 && r <= s < r + a
  {
    RoundDown(s, a);
    s / a * a
  }

  lemma Align4KMonotone(x: u32, y: u32)
    requires x <= y && y + 4095 < U32_LIMIT
    ensures Align4K(x) <= Align4K(y)
  {
    DivMonotone(x + 4095, y + 4095, 4096);
  }

  /** `size + (size >> 2)`: the 10-bit allowance of a quarter more. */
  function TenBitHeadroom(x: u32): (r: u32)
    ensures x + x / 4 < U32_LIMIT ==> r == x + x / 4
  {
    Wrap32(x + x / 4)
  }

  lemma TenBitMonotone(x: u32, y: u32)
    requires x <= y && y + y / 4 < U32_LIMIT
    ensures TenBitHeadroom(x) <= TenBitHeadroom(y)
  {
    DivMonotone(x, y, 4);
  }

  // ---- decoder ----

  /** The codecs whose decoder input gets the 10-bit allowance. */
  const DecoderTenBit: set<Codec> := {Vp9, Av1, Hevc, Heic}

  /** What msm_vidc_decoder_input_size reads. */
  datatype DecInputCfg = DecInputCfg(
    overwrite: u32,       // BITSTREAM_SIZE_OVERWRITE, 0 when the client set none
    codec: Codec,         // the codec of the input format
    mbsPerFrame: u32,     // macroblocks per frame of the current resolution
    mbpfCap: u32,         // the session's MBPF capability
    secure: bool,
    image: bool,
    sessions: nat)        // sessions open on the core, this one included

  /** The resolution, in macroblocks, a decoder's bitstream buffer is sized
      for, and the divisor applied to its raw frame: an eighth-K frame for
      resolutions above 4K, half a 4K frame otherwise (a whole one for VP9),
      halved again for secure sessions; an image session, or a core with
      more than 16 sessions, sizes for the actual resolution undivided. */
  function DecoderInputScale(l: SizeLimits, c: DecInputCfg): (s: (u32, nat))
    ensures s.1 in {1, 2, 4, 8}
    ensures c.image || c.sessions > 16 ==> s == (c.mbsPerFrame, 1)
  {
    var base: u32 := if c.mbsPerFrame > l.mbs4k then c.mbpfCap else l.mbs4k;
    var div: nat := if c.mbsPerFrame > l.mbs4k then 4 else if c.codec == Vp9 then 1 else 2;
    var div2 := if c.secure then div * 2 else div;
    if c.image || c.sessions > 16 then (c.mbsPerFrame, 1) else (base, div2)
  }

  /** msm_vidc_decoder_input_size. */
  function DecoderInputSize(l: SizeLimits, c: DecInputCfg): (r: u32)
    ensures c.overwrite != 0 ==> r == c.overwrite
    ensures c.overwrite == 0 ==> r % 4096 == 0
  {
    if c.overwrite != 0 then c.overwrite
    else
      var s := DecoderInputScale(l, c);
      var frame: u32 := Wrap32(s.0 * MB_SIZE_IN_PIXEL * 3) / 2 / s.1;
      Align4K(if c.codec in DecoderTenBit then TenBitHeadroom(frame) else frame)
  }

  /** The decoder's bitstream buffer in exact arithmetic: 1.5 bytes per
      pixel of the chosen resolution over the divisor, plus a quarter for
      10-bit codecs. */
  function DecoderInputBytes(l: SizeLimits, c: DecInputCfg): nat
  {
    var s := DecoderInputScale(l, c);
    var frame := s.0 * MB_SIZE_IN_PIXEL * 3 / 2 / s.1;
    if c.codec in DecoderTenBit then frame + frame / 4 else frame
  }

  /** Where nothing wraps, the decoder's bitstream buffer is the exact size
      rounded up to the next 4 KiB page. */
  lemma DecoderInputSizeIsPageRounded(l: SizeLimits, c: DecInputCfg)
    requires c.overwrite == 0
    requires DecoderInputScale(l, c).0 <= 0x10_0000
    ensures DecoderInputBytes(l, c) <= DecoderInputSize(l, c) < DecoderInputBytes(l, c) + 4096
  {
    var s := DecoderInputScale(l, c);
    assert s.0 * MB_SIZE_IN_PIXEL * 3 <= 0x10_0000 * 768;
    var frame := s.0 * MB_SIZE_IN_PIXEL * 3 / 2 / s.1;
    DivByMoreIsLess(s.0 * MB_SIZE_IN_PIXEL * 3 / 2, 1, s.1);
    assert frame <= 0x10_0000 * 384;
  }

  /** A secure session's bitstream buffer is never larger than the same
      session's would be without security, while nothing wraps. */
  lemma SecureNeverLarger(l: SizeLimits, c: DecInputCfg)
    requires c.overwrite == 0 && c.mbsPerFrame <= 0x10_0000 && c.mbpfCap <= 0x10_0000 && l.mbs4k <= 0x10_0000
    ensures DecoderInputSize(l, c.(secure := true)) <= DecoderInputSize(l, c.(secure := false))
  {
    var cs := c.(secure := true);
    var cn := c.(secure := false);
    var ss := DecoderInputScale(l, cs);
    var sn := DecoderInputScale(l, cn);
    assert ss.0 == sn.0 && sn.1 <= ss.1;
    var x := ss.0 * MB_SIZE_IN_PIXEL * 3;
    assert x <= 0x10_0000 * 768;
    DivByMoreIsLess(x / 2, sn.1, ss.1);
    DivByMoreIsLess(x / 2, 1, sn.1);
    var fs: u32 := x / 2 / ss.1;
    var fn: u32 := x / 2 / sn.1;
    assert Wrap32(x) == x;
    assert fn <= x / 2;
    PageRoundedMonotone(c.codec in DecoderTenBit, fs, fn);
  }

  lemma PageRoundedMonotone(tenBit: bool, fs: u32, fn: u32)
    requires fs <= fn <= 0x2000_0000
    ensures Align4K(if tenBit then TenBitHeadroom(fs) else fs) <= Align4K(if tenBit then TenBitHeadroom(fn) else fn)
  {
    if tenBit {
      TenBitMonotone(fs, fn);
      Align4KMonotone(TenBitHeadroom(fs), TenBitHeadroom(fn));
    } else {
      Align4KMonotone(fs, fn);
    }
  }

  /** msm_vidc_decoder_output_meta_size: the metadata area, with room for
      Dolby RPU data when enabled, page-rounded. */
  function DecoderOutputMetaSize(l: SizeLimits, dolby: bool): (r: u32)
    ensures r % 4096 == 0
    ensures var want := l.metadataSize + (if dolby then l.dolbyRpuSize else 0);
      want + 4095 < U32_LIMIT ==> want <= r < want + 4096
  {
    Align4K(Wrap32(l.metadataSize + (if dolby then l.dolbyRpuSize else 0)))
  }

  /** msm_vidc_decoder_input_meta_size. */
  function DecoderInputMetaSize(l: SizeLimits): u32
  {
    l.metadataSize
  }

  // ---- encoder ----

  /** The frame an encoder's input is sized for: an image session's frame
      is padded to whole grid tiles (GRID_SIZE). */
  function EncoderInputFrame(image: bool, grid: u32, f: Frame): (g: Frame)
    ensures !image ==> g == f
    ensures image && grid > 0 ==> g.width % grid == 0 && g.height % grid == 0
    ensures image && grid > 0 && f.width + grid - 1 < U32_LIMIT && f.height + grid - 1 < U32_LIMIT ==>
      f.width <= g.width < f.width + grid && f.height <= g.height < f.height + grid
  {
    if image then Frame(AlignTo(f.width, grid), AlignTo(f.height, grid)) else f
  }

  /** How an encoder delivers its output: SLICE_MODE is max-macroblocks,
      slice delivery is on, and SLICE_MAX_MB. */
  datatype SliceCfg = SliceCfg(maxMbSlices: bool, sliceDelivery: bool, sliceMaxMb: u32)

  /** The output is delivered slice by slice, each buffer holding one. */
  predicate SliceSized(codec: Codec, s: SliceCfg)
  {
    (codec == Hevc || codec == H264) && s.maxMbSlices && s.sliceDelivery
  }

  /** The largest coding unit: 32 pixels for HEVC, 16 otherwise. */
  function LcuSize(codec: Codec): u32
  {
    if codec == Hevc then 32 else 16
  }

  /** The frame's size in largest coding units, each side rounded up. */
  function LcuCount(codec: Codec, f: Frame): u32
  {
    var lcu := LcuSize(codec);
    Wrap32((Wrap32(f.width + lcu - 1) / lcu) * (Wrap32(f.height + lcu - 1) / lcu))
  }

  /** msm_vidc_enc_delivery_mode_based_output_buf_size. A slice buffer
      holds the frame size's share for SLICE_MAX_MB units, rounded up, then
      page-rounded. The division is by the frame's unit count, so the
      frame must have at least one unit on that path. */
  function DeliverySize(codec: Codec, s: SliceCfg, f: Frame, frameSize: u32): (r: u32)
    requires SliceSized(codec, s) ==> LcuCount(codec, f) != 0
    ensures !SliceSized(codec, s) ==> r == frameSize
    ensures SliceSized(codec, s) ==> r % 4096 == 0
  {
    if codec != Hevc && codec != H264 then frameSize
    else if !s.maxMbSlices then frameSize
    else if !s.sliceDelivery then frameSize
    else
      Align4K(CeilShare(Wrap32(SliceBytes(frameSize, s)), LcuCount(codec, f)))
  }

  /** `frame_size * SLICE_MAX_MB` before wrapping. */
  function SliceBytes(frameSize: u32, s: SliceCfg): nat
  {
    frameSize * s.sliceMaxMb
  }

  /** `(a + total - 1) / total`: `a` shared out over `total` units, rounded
      up. */
  function CeilShare(a: u32, total: u32): (q: u32)
    requires total > 0
    ensures a + total - 1 < U32_LIMIT ==> a <= q * total < a + total && q <= a + total - 1
  {
    var n := Wrap32(a + total - 1);
    CeilBounds(a, total, n);
    n / total
  }

  lemma CeilBounds(a: nat, total: nat, n: nat)
    requires total > 0
    ensures n == a + total - 1 ==> a <= n / total * total < a + total && n / total <= n
  {
    DivDecompose(n, total);
    MulMonotone(1, total, n / total);
  }

  /** A page-rounded share of `a` bytes over `total` units holds at least
      `a` bytes across the units, and exceeds the share by less than a
      page. */
  lemma PageRoundedShare(a: u32, total: u32)
    requires total > 0 && a + total - 1 + 4095 < U32_LIMIT
    ensures a <= Align4K(CeilShare(a, total)) * total
    ensures Align4K(CeilShare(a, total)) < CeilShare(a, total) + 4096
  {
    var q := CeilShare(a, total);
    MulMonotone(q, Align4K(q), total);
  }

  /** Where nothing wraps, a slice buffer holds at least its share of the
      frame and at most a page more than the share rounded up. */
  lemma SliceHoldsItsShare(codec: Codec, s: SliceCfg, f: Frame, frameSize: u32)
    requires SliceSized(codec, s) && LcuCount(codec, f) != 0
    requires SliceBytes(frameSize, s) + LcuCount(codec, f) - 1 + 4095 < U32_LIMIT
    ensures var r := DeliverySize(codec, s, f, frameSize);
      var total := LcuCount(codec, f);
      && SliceBytes(frameSize, s) <= r * total
      && r < CeilShare(SliceBytes(frameSize, s), total) + 4096
  {
    PageRoundedShare(SliceBytes(frameSize, s), LcuCount(codec, f));
  }

  /** What msm_vidc_encoder_output_size reads. */
  datatype EncOutputCfg = EncOutputCfg(
    frame: Frame,         // the output format's width and height
    codec: Codec,         // the codec of the output format
    image: bool,
    cq: bool,             // BITRATE_MODE is constant quality
    mbsPerFrame: u32,     // macroblocks per frame of the 32-aligned frame
    slice: SliceCfg)

  /** The raw frame share of an encoder's bitstream buffer: twice the YUV
      4:2:0 size of the 32-aligned frame, cut to a quarter of that above
      360p and to an eighth above 4K, unless the session is an image or
      constant quality. */
  function EncoderFrameShare(l: SizeLimits, c: EncOutputCfg): u32
  {
    var yuv2 := Yuv2(AlignTo(c.frame.width, 32), AlignTo(c.frame.height, 32));
    if c.image || c.cq then yuv2
    else if c.mbsPerFrame <= l.mbs360p then yuv2
    else if c.mbsPerFrame <= l.mbs4k then yuv2 / 4
    else yuv2 / 8
  }

  /** `width * height * 3`, twice a YUV 4:2:0 frame, wrapping. */
  function Yuv2(w: u32, h: u32): (r: u32)
    ensures w <= 8223 && h <= 8223 ==> r == w * h * 3 <= 202_853_187
  {
    if w <= 8223 && h <= 8223 then
      MulMonotone(w, 8223, h);
      MulMonotone(h, 8223, 8223);
      Wrap32(w * h * 3)
    else Wrap32(w * h * 3)
  }

  /** msm_vidc_encoder_output_size. */
  function EncoderOutputSize(l: SizeLimits, c: EncOutputCfg): (r: u32)
    requires SliceSized(c.codec, c.slice) ==> LcuCount(c.codec, c.frame) != 0
    ensures r % 4096 == 0
    ensures !SliceSized(c.codec, c.slice) && !(c.codec in {Hevc, Heic}) ==> r == Align4K(EncoderFrameShare(l, c))
  {
    var frame := EncoderFrameShare(l, c);
    var bumped := if c.codec == Hevc || c.codec == Heic then TenBitHeadroom(frame) else frame;
    DeliverySize(c.codec, c.slice, c.frame, Align4K(bumped))
  }

  /** A constant-quality session never gets a smaller bitstream buffer than
      the same session under another rate control, while nothing wraps. */
  lemma ConstantQualityNeverSmaller(l: SizeLimits, c: EncOutputCfg)
    requires !SliceSized(c.codec, c.slice)
    requires c.frame.width <= 8192 && c.frame.height <= 8192
    ensures EncoderOutputSize(l, c.(cq := true)) >= EncoderOutputSize(l, c)
  {
    var cq := EncoderFrameShare(l, c.(cq := true));
    var other := EncoderFrameShare(l, c);
    assert cq <= 202_853_187 && other <= cq;
    if c.codec == Hevc || c.codec == Heic {
      TenBitMonotone(other, cq);
      Align4KMonotone(TenBitHeadroom(other), TenBitHeadroom(cq));
    } else {
      Align4KMonotone(other, cq);
    }
  }

  /** msm_vidc_encoder_output_meta_size. */
  function EncoderOutputMetaSize(l: SizeLimits): u32
  {
    l.metadataSize
  }

  // ---- ROI metadata ----

  /** The trailing zero bits of `n`, and what is left once they are shifted
      out. */
  function Twos(n: nat): nat
    decreases n
  {
    if n == 0 || n % 2 == 1 then 0 else 1 + Twos(n / 2)
  }

  function OddPart(n: nat): (o: nat)
    ensures o <= n
    decreases n
  {
    if n == 0 || n % 2 == 1 then n else OddPart(n / 2)
  }

  /** `x >> n` on a u32, one bit at a time. */
  function Shr(x: u32, n: nat): (r: u32)
    ensures r <= x
    decreases n
  {
    if n == 0 then x else Shr(x / 2, n - 1)
  }

  /** The ROI map for a grid of LCU columns and rows: two bytes per LCU,
      each row padded to a multiple of eight LCUs. */
  function RoiBytes(cols: u32, rows: u32): (r: u32)
    ensures r % 16 == 0
  {
    var units := Wrap32(cols + 7) / 8;
    assert units * 8 * rows * 2 == 16 * (units * rows);
    WrapMultiple16(units * rows);
    Wrap32(units * 8 * rows * 2)
  }

  /** ROI_METADATA_SIZE as written: the loop strips the trailing zero bits
      from `lcu_size` and counts them, and the rounding term then uses what
      is left of `lcu_size`, not its original value. */
  function RoiMetadataSizeAsWritten(width: u32, height: u32, lcuSize: u32): u32
  {
    var odd := OddPart(lcuSize);
    var shift := Twos(lcuSize);
    RoiBytes(Shr(Wrap32(width + odd - 1), shift), Shr(Wrap32(height + odd - 1), shift))
  }

  /** The loop of ROI_METADATA_SIZE computes the same thing. */
  method RoiMetadataSizeLoop(width: u32, height: u32, lcuSize: u32) returns (r: u32)
    ensures r == RoiMetadataSizeAsWritten(width, height, lcuSize)
    ensures r % 16 == 0
  {
    var lcu := lcuSize;
    var shift: nat := 0;
    while lcu != 0 && lcu % 2 == 0
      invariant OddPart(lcu) == OddPart(lcuSize)
      invariant shift + Twos(lcu) == Twos(lcuSize)
      decreases lcu
    {
      shift := shift + 1;
      lcu := lcu / 2;
    }
    var cols := Shr(Wrap32(width + (lcu as int - 1)), shift);
    var rows := Shr(Wrap32(height + (lcu as int - 1)), shift);
    r := RoiBytes(cols, rows);
  }

  /** The LCU sizes the encoder uses: 16 for H.264 and 32 for HEVC. */
  predicate DriverLcu(lcu: u32)
  {
    lcu == 16 || lcu == 32
  }

  lemma ShrByLcu(x: u32, lcu: u32)
    requires DriverLcu(lcu)
    ensures Shr(x, Twos(lcu)) == x / lcu
  {
    assert Twos(16) == 4 && Twos(32) == 5;
    assert Shr(x, 5) == Shr(x / 2, 4);
    assert Shr(x, 4) == Shr(x / 2, 3);
    assert Shr(x / 2, 4) == Shr(x / 2 / 2, 3);
    assert Shr(x / 2, 3) == Shr(x / 2 / 2, 2);
    assert Shr(x / 2 / 2, 3) == Shr(x / 2 / 2 / 2, 2);
    assert Shr(x / 2 / 2, 2) == Shr(x / 2 / 2 / 2, 1);
    assert Shr(x / 2 / 2 / 2, 2) == Shr(x / 2 / 2 / 2 / 2, 1);
    assert Shr(x / 2 / 2 / 2, 1) == x / 2 / 2 / 2 / 2;
    assert Shr(x / 2 / 2 / 2 / 2, 1) == x / 2 / 2 / 2 / 2 / 2;
  }

  /** For the encoder's LCU sizes, as written, the rounding term is zero:
      the map has `width / lcu` columns and `height / lcu` rows, rounded
      down. */
  lemma RoiAsWrittenRoundsDown(width: u32, height: u32, lcuSize: u32)
    requires DriverLcu(lcuSize)
    ensures RoiMetadataSizeAsWritten(width, height, lcuSize) == RoiBytes(width / lcuSize, height / lcuSize)
  {
    SideAsWritten(width, lcuSize);
    SideAsWritten(height, lcuSize);
  }

  /** One side of the map as written: the odd part of 16 or 32 is 1, so
      nothing is added before the shift. */
  lemma SideAsWritten(x: u32, lcuSize: u32)
    requires DriverLcu(lcuSize)
    ensures Shr(Wrap32(x + OddPart(lcuSize) - 1), Twos(lcuSize)) == x / lcuSize
  {
    assert OddPart(16) == 1 && OddPart(32) == 1;
    assert Wrap32(x + OddPart(lcuSize) - 1) == x;
    ShrByLcu(x, lcuSize);
  }

  /** ROI_METADATA_SIZE as evidently intended: the rounding term uses the
      original `lcu_size`, so the map has one entry for every LCU the frame
      touches, the last partial column and row included. */
  function RoiMetadataSize(width: u32, height: u32, lcuSize: u32): (r: u32)
    ensures r % 16 == 0
  {
    var shift := Twos(lcuSize);
    RoiBytes(Shr(Wrap32(width + lcuSize - 1), shift), Shr(Wrap32(height + lcuSize - 1), shift))
  }

  /** As intended, for the encoder's LCU sizes and frames below 64K pixels a
      side, the map's columns and rows cover the whole frame and no more
      than one LCU beyond it. */
  lemma RoiCoversFrame(width: u32, height: u32, lcuSize: u32)
    requires DriverLcu(lcuSize) && width <= 0xFFFF && height <= 0xFFFF
    ensures var cols := (width + lcuSize - 1) / lcuSize;
      var rows := (height + lcuSize - 1) / lcuSize;
      && RoiMetadataSize(width, height, lcuSize) == RoiBytes(cols, rows)
      && width <= cols * lcuSize < width + lcuSize
      && height <= rows * lcuSize < height + lcuSize
  {
    RoiGrid(width, height, lcuSize);
    CeilBounds(width, lcuSize, width + lcuSize - 1);
    CeilBounds(height, lcuSize, height + lcuSize - 1);
  }

  lemma RoiGrid(width: u32, height: u32, lcuSize: u32)
    requires DriverLcu(lcuSize) && width <= 0xFFFF && height <= 0xFFFF
    ensures RoiMetadataSize(width, height, lcuSize) ==
      RoiBytes((width + lcuSize - 1) / lcuSize, (height + lcuSize - 1) / lcuSize)
  {
    SideIntended(width, lcuSize);
    SideIntended(height, lcuSize);
  }

  /** One side of the intended map: the side rounded up to whole LCUs. */
  lemma SideIntended(x: u32, lcuSize: u32)
    requires DriverLcu(lcuSize) && x <= 0xFFFF
    ensures Shr(Wrap32(x + lcuSize - 1), Twos(lcuSize)) == (x + lcuSize - 1) / lcuSize
  {
    assert Wrap32(x + lcuSize - 1) == x + lcuSize - 1;
    ShrByLcu(x + lcuSize - 1, lcuSize);
  }

  /** A 1080-line frame with 16-pixel LCUs has 67.5 LCU rows: as written
      the map has 67 rows, one short of the 68 the frame touches. */
  lemma RoiAsWrittenDropsLastRow()
    ensures RoiMetadataSizeAsWritten(1920, 1080, 16) == 120 * 67 * 2
    ensures RoiMetadataSize(1920, 1080, 16) == 120 * 68 * 2
    ensures 67 * 16 < 1080
  {
    assert OddPart(16) == 1 && Twos(16) == 4;
    ShrByLcu(1920, 16);
    ShrByLcu(1080, 16);
    ShrByLcu(1935, 16);
    ShrByLcu(1095, 16);
    assert RoiBytes(120, 67) == 16080;
    assert RoiBytes(120, 68) == 16320;
  }

  /** What msm_vidc_encoder_input_meta_size reads. */
  datatype EncMetaCfg = EncMetaCfg(
    roi: bool,            // META_ROI_INFO
    codec: Codec,         // the codec of the output format
    frame: Frame,         // the input format's width and height
    image: bool,
    grid: u32,            // GRID_SIZE
    dolby: bool)          // META_DOLBY_RPU

  /** msm_vidc_encoder_input_meta_size: the metadata area, plus an ROI map
      sized for the encoder's input frame by ROI_METADATA_SIZE as written,
      plus Dolby RPU data, each addition page-rounded. */
  function EncoderInputMetaSize(l: SizeLimits, c: EncMetaCfg): (r: u32)
    ensures !c.roi && !c.dolby ==> r == l.metadataSize
    ensures c.roi || c.dolby ==> r % 4096 == 0
  {
    var f := EncoderInputFrame(c.image, c.grid, c.frame);
    EncoderInputMetaWith(l, c, RoiMetadataSizeAsWritten(f.width, f.height, LcuSize(c.codec)))
  }

  /** The same buffer with the ROI map sized as evidently intended. */
  function EncoderInputMetaSizeIntended(l: SizeLimits, c: EncMetaCfg): (r: u32)
    ensures !c.roi && !c.dolby ==> r == l.metadataSize
    ensures c.roi || c.dolby ==> r % 4096 == 0
  {
    var f := EncoderInputFrame(c.image, c.grid, c.frame);
    EncoderInputMetaWith(l, c, RoiMetadataSize(f.width, f.height, LcuSize(c.codec)))
  }

  /** The additions of msm_vidc_encoder_input_meta_size, given the ROI map's
      size. */
  function EncoderInputMetaWith(l: SizeLimits, c: EncMetaCfg, roi: u32): (r: u32)
    ensures !c.roi && !c.dolby ==> r == l.metadataSize
    ensures c.roi || c.dolby ==> r % 4096 == 0
    ensures c.roi && l.metadataSize + roi + l.dolbyRpuSize + 4096 + 4095 < U32_LIMIT ==>
      r >= l.metadataSize + roi
  {
    var withRoi := if c.roi then Align4K(Wrap32(l.metadataSize + roi)) else l.metadataSize;
    if c.dolby then Align4K(Wrap32(withRoi + l.dolbyRpuSize)) else withRoi
  }

  /** Where nothing wraps, every metadata buffer has room for the base
      metadata area, and an encoder's input metadata also for the ROI map
      the driver sizes (as written), or the full map once corrected. */
  lemma MetadataRoomForBase(l: SizeLimits, dolby: bool, c: EncMetaCfg)
    requires l.metadataSize + l.dolbyRpuSize + 4095 < U32_LIMIT
    ensures DecoderOutputMetaSize(l, dolby) >= l.metadataSize
    ensures DecoderInputMetaSize(l) >= l.metadataSize && EncoderOutputMetaSize(l) >= l.metadataSize
    ensures var f := EncoderInputFrame(c.image, c.grid, c.frame);
      var roi := RoiMetadataSizeAsWritten(f.width, f.height, LcuSize(c.codec));
      c.roi && l.metadataSize + roi + l.dolbyRpuSize + 4096 + 4095 < U32_LIMIT ==>
        EncoderInputMetaSize(l, c) >= l.metadataSize + roi
    ensures var f := EncoderInputFrame(c.image, c.grid, c.frame);
      var roi := RoiMetadataSize(f.width, f.height, LcuSize(c.codec));
      c.roi && l.metadataSize + roi + l.dolbyRpuSize + 4096 + 4095 < U32_LIMIT ==>
        EncoderInputMetaSizeIntended(l, c) >= l.metadataSize + roi
  {
  }

  /** A 128x4104 H.264 input has 256.5 LCU rows. As written its metadata
      buffer is 20480 bytes, 16 bytes short of the base area plus the
      257-row map the frame needs; as intended it is a page larger. */
  lemma RoiAsWrittenShortOfFrame()
    ensures var l := SizeLimits(16384, 0, 0, 0);
      var c := EncMetaCfg(true, H264, Frame(128, 4104), false, 0, false);
      && EncoderInputMetaSize(l, c) == 20480
      && EncoderInputMetaSizeIntended(l, c) == 24576
      && EncoderInputMetaSize(l, c) < l.metadataSize + RoiMetadataSize(128, 4104, 16)
  {
    var l := SizeLimits(16384, 0, 0, 0);
    var c := EncMetaCfg(true, H264, Frame(128, 4104), false, 0, false);
    assert EncoderInputFrame(c.image, c.grid, c.frame) == Frame(128, 4104) && LcuSize(c.codec) == 16;
    RoiAt128x4104();
    RoiOnlyMeta(l, c, 4096);
    RoiOnlyMeta(l, c, 4112);
    PageCount(20480, 5);
    PageCount(20496, 6);
  }

  /** A size in the `m`-th page rounds up to `m` whole pages. */
  lemma PageCount(x: u32, m: nat)
    requires 4096 * (m - 1) < x <= 4096 * m && x + 4095 < U32_LIMIT
    ensures Align4K(x) == 4096 * m
  {
    assert Wrap32(x + 4095) == x + 4095;
    assert (x + 4095) / 4096 == m;
  }

  /** With ROI on and Dolby off, the buffer is the base area plus the map,
      page-rounded. */
  lemma RoiOnlyMeta(l: SizeLimits, c: EncMetaCfg, roi: u32)
    requires c.roi && !c.dolby && l.metadataSize + roi < U32_LIMIT
    ensures EncoderInputMetaWith(l, c, roi) == Align4K(l.metadataSize + roi)
  {
  }

  /** The 128x4104 frame's map at LCU 16: 256 rows as written, 257 as
      intended, of one 8-LCU unit each. */
  lemma RoiAt128x4104()
    ensures RoiMetadataSizeAsWritten(128, 4104, 16) == 4096
    ensures RoiMetadataSize(128, 4104, 16) == 4112
  {
    RoiAsWrittenAt(128, 4104, 8, 256);
    RoiIntendedAt(128, 4104, 8, 257);
  }

  lemma RoiAsWrittenAt(width: u32, height: u32, cols: u32, rows: u32)
    requires width <= 0xFFFF && height <= 0xFFFF && cols == width / 16 && rows == height / 16
    requires 1 <= cols <= 8
    ensures RoiMetadataSizeAsWritten(width, height, 16) == 16 * rows
  {
    RoiAsWrittenRoundsDown(width, height, 16);
    RoiBytesOneUnit(cols, rows);
  }

  lemma RoiIntendedAt(width: u32, height: u32, cols: u32, rows: u32)
    requires width <= 0xFFFF && height <= 0xFFFF && cols == (width + 15) / 16 && rows == (height + 15) / 16
    requires 1 <= cols <= 8
    ensures RoiMetadataSize(width, height, 16) == 16 * rows
  {
    RoiGrid(width, height, 16);
    RoiBytesOneUnit(cols, rows);
  }

  /** Up to eight columns make one padded unit: 16 bytes per row. */
  lemma RoiBytesOneUnit(cols: u32, rows: u32)
    requires 1 <= cols <= 8 && rows < 0x1000_0000
    ensures RoiBytes(cols, rows) == 16 * rows
  {
    assert Wrap32(cols + 7) == cols + 7;
    assert (cols + 7) / 8 == 1;
    assert Wrap32(1 * 8 * rows * 2) == 16 * rows;
  }
}
