/** Property packets (venus_hfi_response.c, handle_dpb_list_property,
    handle_property_with_payload, handle_property_without_payload,
    handle_session_property, handle_image_version_property and
    handle_system_property). A session property records what the firmware
    reports into the subscription parameters of a port, into the frame
    information of the message, or into the read-only bookkeeping. */
module Properties {
  import opened Common
  import opened Hfi
  import opened Wire
  import opened Instance
  import opened Packets
  import opened ReadOnly
  import opened SessionBuffer

  /** MAX_DPB_LIST_PAYLOAD_SIZE: sixteen entries of four words. */
  const MAX_DPB_LIST_PAYLOAD_SIZE: nat := 16 * 4 * 4
  /** VENUS_VERSION_LENGTH, the terminating NUL included. */
  const VERSION_LENGTH: nat := 128

  /** The payload bytes of a packet, and its length in whole words. */
  function PayloadSize(p: Packet): nat
    requires WellFormed(p)
  {
    p.size - PACKET_SIZE
  }

  // ---- the DPB list ----

  /** `addr` is the base address of a whole 16-byte entry of the payload. */
  ghost predicate Listed(payload: seq<byte>, addr: u64)
  {
    exists k: nat :: 16 * k + 16 <= |payload| && U64At(payload, 16 * k) == addr
  }

  /** The marking loop only looks at whole entries: a trailing partial entry
      names no buffer, and the entries it does read lie inside the payload. */
  lemma DpbEntriesAreWhole(payload: seq<byte>, addr: u64)
    ensures InDpb(payload, |payload| / 4, addr) <==> Listed(payload, addr)
  {
    var words := |payload| / 4;
    if InDpb(payload, words, addr) {
      var k: nat :| k < words && 4 * k + 3 < words && DpbAddress(payload, k) == addr;
      assert 16 * k + 16 <= |payload|;
    }
    if Listed(payload, addr) {
      var k: nat :| 16 * k + 16 <= |payload| && U64At(payload, 16 * k) == addr;
      assert 4 * k + 4 <= words;
      assert DpbAddress(payload, k) == addr;
    }
  }

  /** handle_dpb_list_property. Only a decoder has a DPB list. The stored
      list is cleared first; a payload above the maximum leaves it cleared
      and puts the session in error. Otherwise the list is stored and every
      read-only entry that is neither already eligible nor pending release
      and that the list no longer names becomes eligible for release. */
  function HandleDpbList(inst: Inst, p: Packet): (r: Out)
    requires WellFormed(p)
    ensures !inst.IsDecode() ==> r == Out(inst, EInval)
    ensures inst.IsDecode() && PayloadSize(p) > MAX_DPB_LIST_PAYLOAD_SIZE ==>
      r == Out(inst.(dpbList := []).Fail(), EInval)
    ensures inst.IsDecode() && PayloadSize(p) <= MAX_DPB_LIST_PAYLOAD_SIZE ==>
      && r.rc == Ok
      && r.inst == inst.(dpbList := p.OwnPayload(), readOnly := r.inst.readOnly)
      && |r.inst.readOnly| == |inst.readOnly|
      && forall i :: 0 <= i < |inst.readOnly| ==>
           && r.inst.readOnly[i].deviceAddr == inst.readOnly[i].deviceAddr
           && r.inst.readOnly[i].attr - {ReleaseEligible} == inst.readOnly[i].attr - {ReleaseEligible}
           && (ReleaseEligible in r.inst.readOnly[i].attr <==>
                 || ReleaseEligible in inst.readOnly[i].attr
                 || (ReadOnly in inst.readOnly[i].attr && PendingRelease !in inst.readOnly[i].attr &&
                     !Listed(p.OwnPayload(), inst.readOnly[i].deviceAddr)))
    ensures RoUnique(inst.readOnly) ==> RoUnique(r.inst.readOnly)
    ensures r.inst == inst.(dpbList := r.inst.dpbList, readOnly := r.inst.readOnly, errored := r.inst.errored)
    ensures r.rc == Ok || r.rc == EInval
  {
    if !inst.IsDecode() then Out(inst, EInval)
    else if PayloadSize(p) > MAX_DPB_LIST_PAYLOAD_SIZE then Out(inst.(dpbList := []).Fail(), EInval)
    else
      var payload := p.OwnPayload();
      forall a: u64 ensures InDpb(payload, |payload| / 4, a) <==> Listed(payload, a) {
        DpbEntriesAreWhole(payload, a);
      }
      Out(inst.(dpbList := payload, readOnly := MarkReleaseEligible(inst.readOnly, payload, |payload| / 4)), Ok)
  }

  /** Receiving the same DPB list twice marks nothing more the second time. */
  lemma DpbListIdempotent(inst: Inst, p: Packet)
    requires WellFormed(p) && inst.IsDecode() && PayloadSize(p) <= MAX_DPB_LIST_PAYLOAD_SIZE
    ensures HandleDpbList(HandleDpbList(inst, p).inst, p) == HandleDpbList(inst, p)
  {
    var once := HandleDpbList(inst, p);
    var twice := HandleDpbList(once.inst, p);
    assert twice.inst.readOnly == once.inst.readOnly by {
      forall i | 0 <= i < |once.inst.readOnly|
        ensures twice.inst.readOnly[i] == once.inst.readOnly[i]
      {
        assert twice.inst.readOnly[i].attr == once.inst.readOnly[i].attr;
      }
    }
  }

  // ---- properties with a payload ----

  /** The scalar subscription properties and the field each one sets. */
  function SubcrFieldOf(ptype: u32): Option<SubcrField>
  {
    if ptype == PROP_BITSTREAM_RESOLUTION then Some(BitstreamResolution)
    else if ptype == PROP_LUMA_CHROMA_BIT_DEPTH then Some(BitDepth)
    else if ptype == PROP_CODED_FRAMES then Some(CodedFrames)
    else if ptype == PROP_BUFFER_FW_MIN_OUTPUT_COUNT then Some(FwMinCount)
    else if ptype == PROP_PIC_ORDER_CNT_TYPE then Some(PicOrderCnt)
    else if ptype == PROP_SIGNAL_COLOR_INFO then Some(ColorInfo)
    else if ptype == PROP_PROFILE then Some(Profile)
    else if ptype == PROP_LEVEL then Some(Level)
    else if ptype == PROP_TIER then Some(Tier)
    else if ptype == PROP_AV1_FILM_GRAIN_PRESENT then Some(Av1FilmGrainPresent)
    else if ptype == PROP_AV1_SUPER_BLOCK_ENABLED then Some(Av1SuperBlockEnabled)
    else if ptype == PROP_MAX_NUM_REORDER_FRAMES then Some(MaxNumReorderFrames)
    else None
  }

  /** Store one subscription parameter of a port. */
  function SetSubcr(inst: Inst, port: DrvPort, f: SubcrField, v: u32): (s: Inst)
    requires port != MaxPort
    ensures s == inst.(subcr := s.subcr)
    ensures f in s.subcr.Get(port) && s.subcr.Get(port)[f] == v
    ensures forall g :: g != f && g in inst.subcr.Get(port) ==> g in s.subcr.Get(port) && s.subcr.Get(port)[g] == inst.subcr.Get(port)[g]
    ensures forall q :: q != port && q != MaxPort ==> s.subcr.Get(q) == inst.subcr.Get(q)
  {
    inst.(subcr := inst.subcr.Set(port, inst.subcr.Get(port)[f := v]))
  }

  /** The frame information a picture-type property leaves: the type is
      stored, a B picture is remembered for the session, and the session's
      last picture counts as an I frame exactly when it is IDR. */
  function PictureType(inst: Inst, pt: Flags): (s: Inst)
    ensures s == inst.(frame := s.frame, hasBframe := s.hasBframe, iframe := s.iframe)
    ensures s.frame == inst.frame.(pictureType := pt)
    ensures s.hasBframe <==> inst.hasBframe || HasFlag(pt, PICTURE_B)
    ensures s.iframe <==> HasFlag(pt, PICTURE_IDR)
  {
    inst.(frame := inst.frame.(pictureType := pt),
          hasBframe := inst.hasBframe || HasFlag(pt, PICTURE_B),
          iframe := HasFlag(pt, PICTURE_IDR))
  }

  /** The properties that describe the frame being returned. */
  const FrameProperties: set<u32> := {
    PROP_PICTURE_TYPE, PROP_SUBFRAME_INPUT, PROP_WORST_COMPRESSION_RATIO, PROP_WORST_COMPLEXITY_FACTOR,
    PROP_AV1_TILE_ROWS_COLUMNS, PROP_AV1_UNIFORM_TILE_SPACING, PROP_FENCE}

  /** The frame-information cases of handle_property_with_payload. A
      sub-frame report is only taken on the input port; a uniform tile
      spacing report of zero marks the spacing non-uniform. */
  function FrameProperty(inst: Inst, ptype: u32, w0: u32, port: DrvPort): (s: Inst)
    requires ptype in FrameProperties
    ensures ptype == PROP_PICTURE_TYPE ==> s == PictureType(inst, w0 as Flags)
    ensures ptype == PROP_SUBFRAME_INPUT ==>
      s == if port == InputPort then inst.(frame := inst.frame.(subframeInput := true)) else inst
    ensures ptype == PROP_WORST_COMPRESSION_RATIO ==> s == inst.(frame := inst.frame.(cr := w0))
    ensures ptype == PROP_WORST_COMPLEXITY_FACTOR ==> s == inst.(frame := inst.frame.(cf := w0))
    ensures ptype == PROP_AV1_TILE_ROWS_COLUMNS ==> s == inst.(frame := inst.frame.(av1TileRowsColumns := w0))
    ensures ptype == PROP_AV1_UNIFORM_TILE_SPACING ==>
      s == if w0 == 0 then inst.(frame := inst.frame.(av1NonUniformTileSpacing := true)) else inst
    ensures ptype == PROP_FENCE ==> s == inst.(frame := inst.frame.(fenceId := w0))
    ensures s == inst.(frame := s.frame, hasBframe := s.hasBframe, iframe := s.iframe)
  {
    if ptype == PROP_PICTURE_TYPE then PictureType(inst, w0 as Flags)
    else if ptype == PROP_SUBFRAME_INPUT then
      if port != InputPort then inst else inst.(frame := inst.frame.(subframeInput := true))
    else if ptype == PROP_WORST_COMPRESSION_RATIO then inst.(frame := inst.frame.(cr := w0))
    else if ptype == PROP_WORST_COMPLEXITY_FACTOR then inst.(frame := inst.frame.(cf := w0))
    else if ptype == PROP_AV1_TILE_ROWS_COLUMNS then inst.(frame := inst.frame.(av1TileRowsColumns := w0))
    else if ptype == PROP_AV1_UNIFORM_TILE_SPACING then
      if w0 == 0 then inst.(frame := inst.frame.(av1NonUniformTileSpacing := true)) else inst
    else inst.(frame := inst.frame.(fenceId := w0))
  }

  /** handle_property_with_payload. The firmware's first payload word is
      `w0`; crop offsets take a second word. Quality mode, stage and pipe are
      only compared with the session's settings; an unknown property is
      ignored. Only the DPB list can fail. */
  function HandleWithPayload(inst: Inst, p: Packet, port: DrvPort): (r: Out)
    requires WellFormed(p) && port != MaxPort
    ensures p.ptype != PROP_DPB_LIST ==> r.rc == Ok
    ensures p.ptype == PROP_DPB_LIST ==> r == HandleDpbList(inst, p)
    ensures SubcrFieldOf(p.ptype).Some? ==> r.inst == SetSubcr(inst, port, SubcrFieldOf(p.ptype).value, PayloadWord(p, 0))
    ensures p.ptype == PROP_CROP_OFFSETS ==>
      r.inst == SetSubcr(SetSubcr(inst, port, CropOffset0, PayloadWord(p, 0)), port, CropOffset1, PayloadWord(p, 1))
    ensures p.ptype in FrameProperties ==> r.inst == FrameProperty(inst, p.ptype, PayloadWord(p, 0), port)
    ensures p.ptype == PROP_CABAC_SESSION ==>
      r.inst == inst.(entropy := if PayloadWord(p, 0) == 1 then Cabac else Cavlc)
    ensures p.ptype in {PROP_QUALITY_MODE, PROP_STAGE, PROP_PIPE} ==> r == Out(inst, Ok)
    ensures r.inst == inst.(subcr := r.inst.subcr, frame := r.inst.frame, hasBframe := r.inst.hasBframe,
                            iframe := r.inst.iframe, entropy := r.inst.entropy, dpbList := r.inst.dpbList,
                            readOnly := r.inst.readOnly, errored := r.inst.errored)
    ensures r.rc != Ok ==> r.rc == EInval && p.ptype == PROP_DPB_LIST
    ensures RoUnique(inst.readOnly) ==> RoUnique(r.inst.readOnly)
  {
    match SubcrFieldOf(p.ptype)
    case Some(f) =>
      SubscribedIsNoOtherProperty(p.ptype);
      Out(SetSubcr(inst, port, f, PayloadWord(p, 0)), Ok)
    case None => UnsubscribedProperty(inst, p, port)
  }

  /** A subscription parameter is none of the other properties. */
  lemma SubscribedIsNoOtherProperty(t: u32)
    requires SubcrFieldOf(t).Some?
    ensures t != PROP_CROP_OFFSETS && t !in FrameProperties && t != PROP_CABAC_SESSION && t != PROP_DPB_LIST
    ensures t !in {PROP_QUALITY_MODE, PROP_STAGE, PROP_PIPE}
  {
  }

  /** The properties with a payload that are not subscription parameters. */
  function UnsubscribedProperty(inst: Inst, p: Packet, port: DrvPort): (r: Out)
    requires WellFormed(p) && port != MaxPort
    ensures p.ptype != PROP_DPB_LIST ==> r.rc == Ok
    ensures p.ptype == PROP_DPB_LIST ==> r == HandleDpbList(inst, p)
    ensures p.ptype == PROP_CROP_OFFSETS ==>
      r.inst == SetSubcr(SetSubcr(inst, port, CropOffset0, PayloadWord(p, 0)), port, CropOffset1, PayloadWord(p, 1))
    ensures p.ptype in FrameProperties ==> r.inst == FrameProperty(inst, p.ptype, PayloadWord(p, 0), port)
    ensures p.ptype == PROP_CABAC_SESSION ==>
      r.inst == inst.(entropy := if PayloadWord(p, 0) == 1 then Cabac else Cavlc)
    ensures p.ptype in {PROP_QUALITY_MODE, PROP_STAGE, PROP_PIPE} ==> r == Out(inst, Ok)
    ensures r.inst == inst.(subcr := r.inst.subcr, frame := r.inst.frame, hasBframe := r.inst.hasBframe,
                            iframe := r.inst.iframe, entropy := r.inst.entropy, dpbList := r.inst.dpbList,
                            readOnly := r.inst.readOnly, errored := r.inst.errored)
    ensures RoUnique(inst.readOnly) ==> RoUnique(r.inst.readOnly)
  {
    var w0 := PayloadWord(p, 0);
    if p.ptype == PROP_CROP_OFFSETS then
      Out(SetSubcr(SetSubcr(inst, port, CropOffset0, w0), port, CropOffset1, PayloadWord(p, 1)), Ok)
    else if p.ptype in FrameProperties then Out(FrameProperty(inst, p.ptype, w0, port), Ok)
    else if p.ptype == PROP_CABAC_SESSION then
      Out(inst.(entropy := if w0 == 1 then Cabac else Cavlc), Ok)
    else if p.ptype == PROP_DPB_LIST then HandleDpbList(inst, p)
    else Out(inst, Ok)
  }

  /** handle_property_without_payload: an empty DPB list means the firmware
      holds no more references; "no output" is a fact about the input. */
  function HandleWithoutPayload(inst: Inst, p: Packet, port: DrvPort): (r: Out)
    requires WellFormed(p)
    ensures p.ptype == PROP_DPB_LIST ==> r == HandleDpbList(inst, p)
    ensures p.ptype == PROP_NO_OUTPUT ==>
      r == Out(if port == InputPort then inst.(frame := inst.frame.(noOutput := true)) else inst, Ok)
    ensures p.ptype != PROP_DPB_LIST && p.ptype != PROP_NO_OUTPUT ==> r == Out(inst, Ok)
    ensures r.inst == inst.(subcr := r.inst.subcr, frame := r.inst.frame, hasBframe := r.inst.hasBframe,
                            iframe := r.inst.iframe, entropy := r.inst.entropy, dpbList := r.inst.dpbList,
                            readOnly := r.inst.readOnly, errored := r.inst.errored)
    ensures r.rc != Ok ==> r.rc == EInval && p.ptype == PROP_DPB_LIST
    ensures RoUnique(inst.readOnly) ==> RoUnique(r.inst.readOnly)
  {
    if p.ptype == PROP_DPB_LIST then HandleDpbList(inst, p)
    else if p.ptype == PROP_NO_OUTPUT then
      if port != InputPort then Out(inst, Ok)
      else Out(inst.(frame := inst.frame.(noOutput := true)), Ok)
    else Out(inst, Ok)
  }

  /** handle_session_property. A property for no known port is invalid; one
      flagged as information is ignored; otherwise the payload check decides
      which of the two handlers reads it. */
  function HandleSessionProperty(inst: Inst, p: Packet): (r: Out)
    requires WellFormed(p)
    ensures PortFromHfi(inst.cfg.domain, p.port) == MaxPort ==> r == Out(inst, EInval)
    ensures PortFromHfi(inst.cfg.domain, p.port) != MaxPort && HasFlag(p.flags, FW_FLAGS_INFORMATION) ==>
      r == Out(inst, Ok)
    ensures PortFromHfi(inst.cfg.domain, p.port) != MaxPort && !HasFlag(p.flags, FW_FLAGS_INFORMATION) ==>
      r == if HasPayload(p) then HandleWithPayload(inst, p, PortFromHfi(inst.cfg.domain, p.port))
           else HandleWithoutPayload(inst, p, PortFromHfi(inst.cfg.domain, p.port))
  {
    var port := PortFromHfi(inst.cfg.domain, p.port);
    if port == MaxPort then Out(inst, EInval)
    else if HasFlag(p.flags, FW_FLAGS_INFORMATION) then Out(inst, Ok)
    else if HasPayload(p) then HandleWithPayload(inst, p, port)
    else HandleWithoutPayload(inst, p, port)
  }

  /** A property packet never returns a buffer to the client, never changes
      the session configuration, keeps the session invariant, and fails
      only on an unknown port or a bad DPB list. */
  lemma PropertyTouchesNoClientBuffer(inst: Inst, p: Packet)
    requires WellFormed(p)
    ensures var r := HandleSessionProperty(inst, p);
      && r.inst.cfg == inst.cfg && r.inst.events == inst.events
      && r.inst.input == inst.input && r.inst.output == inst.output
      && r.inst.inputMeta == inst.inputMeta && r.inst.outputMeta == inst.outputMeta
      && (Invariant(inst) ==> Invariant(r.inst))
      && (inst.errored ==> r.inst.errored)
      && (r.rc != Ok ==>
            r.rc == EInval && (PortFromHfi(inst.cfg.domain, p.port) == MaxPort || p.ptype == PROP_DPB_LIST))
  {
  }

  /** A subscription parameter reads back as the firmware sent it, and a
      repeated report changes nothing: the last value wins. */
  lemma SubscriptionReadBack(inst: Inst, p: Packet, port: DrvPort)
    requires WellFormed(p) && port != MaxPort && SubcrFieldOf(p.ptype).Some?
    ensures var r := HandleWithPayload(inst, p, port);
      && r.inst.subcr.Get(port)[SubcrFieldOf(p.ptype).value] == PayloadWord(p, 0)
      && HandleWithPayload(r.inst, p, port) == r
  {
    var r := HandleWithPayload(inst, p, port);
    var f := SubcrFieldOf(p.ptype).value;
    assert r.inst.subcr.Get(port)[f := PayloadWord(p, 0)] == r.inst.subcr.Get(port);
    assert r.inst.subcr.Set(port, r.inst.subcr.Get(port)) == r.inst.subcr by {
      match port
      case InputPort =>
      case OutputPort =>
      case PortNone =>
    }
  }

  // ---- system properties ----

  /** The firmware version string: the first 127 payload bytes with every
      NUL turned into a space, then a terminating NUL. */
  function ImageVersion(p: Packet): (r: Option<seq<byte>>)
    requires WellFormed(p)
    ensures r.None? <==> PayloadSize(p) < VERSION_LENGTH - 1
    ensures r.Some? ==>
      && |r.value| == VERSION_LENGTH
      && r.value[VERSION_LENGTH - 1] == 0
      && forall i :: 0 <= i < VERSION_LENGTH - 1 ==>
           r.value[i] != 0 && (p.rest[i] != 0 ==> r.value[i] == p.rest[i])
  {
    if PayloadSize(p) < VERSION_LENGTH - 1 then None
    else
      Some(seq(VERSION_LENGTH - 1, i requires 0 <= i < VERSION_LENGTH - 1 =>
             if p.rest[i] != 0 then p.rest[i] else ' ' as byte) + [0])
  }

  /** The version string reads as one C string of 127 characters, and
      reading it back through the same rewrite gives the same string. */
  lemma VersionIsOneString(p: Packet)
    requires WellFormed(p) && ImageVersion(p).Some?
    ensures var v := ImageVersion(p).value;
      && (forall i :: 0 <= i < |v| && v[i] == 0 ==> i == VERSION_LENGTH - 1)
      && forall i :: 0 <= i < VERSION_LENGTH - 1 ==> v[i] == (if p.rest[i] != 0 then p.rest[i] else ' ' as byte)
  {
  }

  /** handle_system_property: only the image version is read; the firmware
      version stays as it was when the payload is too short. */
  function HandleSystemProperty(fwVersion: seq<byte>, p: Packet): (r: (seq<byte>, Rc))
    requires WellFormed(p)
    ensures p.ptype != PROP_IMAGE_VERSION ==> r == (fwVersion, Ok)
    ensures p.ptype == PROP_IMAGE_VERSION ==>
      && (r.1 == Ok <==> ImageVersion(p).Some?)
      && (r.1 == Ok ==> r.0 == ImageVersion(p).value)
      && (r.1 != Ok ==> r == (fwVersion, EInval))
  {
    if p.ptype != PROP_IMAGE_VERSION then (fwVersion, Ok)
    else match ImageVersion(p)
      case None => (fwVersion, EInval)
      case Some(v) => (v, Ok)
  }
}
