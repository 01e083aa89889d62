/** Translation of what the firmware reported about a frame into the flags
    the client sees (venus_hfi_response.c, get_driver_buffer_flags). */
module DriverFlags {
  import opened Common
  import opened Hfi
  import opened Instance

  /** Picture-type bits in the order the translation tests them, with the
      client flag each one yields. The first bit that is set wins. */
  const PicturePrecedence: seq<(Flags, DriverFlag)> := [
    (PICTURE_IDR, Keyframe),
    (PICTURE_P, PFrame),
    (PICTURE_B, BFrame),
    (PICTURE_I, Keyframe),
    (PICTURE_CRA, Keyframe),
    (PICTURE_BLA, Keyframe)]

  /** The frame-type flag of a picture type: the one of the first listed bit
      that is set, and none when no listed bit is set. */
  function PictureFlag(pt: Flags): (r: set<DriverFlag>)
    ensures r == {} <==>
      forall i :: 0 <= i < |PicturePrecedence| ==> !HasFlag(pt, PicturePrecedence[i].0)
    ensures forall i ::
      (0 <= i < |PicturePrecedence| && HasFlag(pt, PicturePrecedence[i].0) &&
       forall j :: 0 <= j < i ==> !HasFlag(pt, PicturePrecedence[j].0))
      ==> r == {PicturePrecedence[i].1}
    ensures r <= {Keyframe, PFrame, BFrame}
  {
    assert PicturePrecedence[0] == (PICTURE_IDR, Keyframe) && PicturePrecedence[1] == (PICTURE_P, PFrame);
    assert PicturePrecedence[2] == (PICTURE_B, BFrame) && PicturePrecedence[3] == (PICTURE_I, Keyframe);
    assert PicturePrecedence[4] == (PICTURE_CRA, Keyframe) && PicturePrecedence[5] == (PICTURE_BLA, Keyframe);
    if HasFlag(pt, PICTURE_IDR) then {Keyframe}
    else if HasFlag(pt, PICTURE_P) then {PFrame}
    else if HasFlag(pt, PICTURE_B) then {BFrame}
    else if HasFlag(pt, PICTURE_I) then {Keyframe}
    else if HasFlag(pt, PICTURE_CRA) then {Keyframe}
    else if HasFlag(pt, PICTURE_BLA) then {Keyframe}
    else {}
  }

  /** The conditions under which a returned frame is marked in error: the
      firmware reported corruption or overflow; or, with buffer tagging on,
      the input produced no output (unless it carried codec config) or was
      only part of a frame. */
  predicate FrameInError(cfg: Config, frame: FrameInfo, hfiFlags: Flags)
  {
    || frame.dataCorrupt
    || frame.overflow
    || (frame.noOutput && cfg.metaBufTag && !HasFlag(hfiFlags, BUF_FW_FLAG_CODEC_CONFIG))
    || (frame.subframeInput && cfg.metaBufTag)
  }

  /** The firmware flagged the buffer as the last one of a drain or of a
      port-settings change. */
  predicate LastBuffer(hfiFlags: Flags)
  {
    HasFlag(hfiFlags, BUF_FW_FLAG_LAST) || HasFlag(hfiFlags, BUF_FW_FLAG_PSC_LAST)
  }

  function BufferFlags(cfg: Config, frame: FrameInfo, hfiFlags: Flags): (r: set<DriverFlag>)
    ensures r * {Keyframe, PFrame, BFrame} == PictureFlag(frame.pictureType)
    ensures ErrorFlag in r <==> FrameInError(cfg, frame, hfiFlags)
    ensures CodecConfig in r <==> HasFlag(hfiFlags, BUF_FW_FLAG_CODEC_CONFIG)
    ensures LastFlag in r <==> LastBuffer(hfiFlags) && !cfg.lastFlagEvent
  {
    var picture := PictureFlag(frame.pictureType);
    var error: set<DriverFlag> := if FrameInError(cfg, frame, hfiFlags) then {ErrorFlag} else {};
    var config: set<DriverFlag> := if HasFlag(hfiFlags, BUF_FW_FLAG_CODEC_CONFIG) then {CodecConfig} else {};
    var last: set<DriverFlag> := if LastBuffer(hfiFlags) && !cfg.lastFlagEvent then {LastFlag} else {};
    assert (error + config + last) * {Keyframe, PFrame, BFrame} == {};
    picture + error + config + last
  }

  /** Metadata buffers carry only the last flag, under the same rule. */
  function MetaBufferFlags(cfg: Config, hfiFlags: Flags): (r: set<DriverFlag>)
    ensures r <= {LastFlag}
  {
    var last := if LastBuffer(hfiFlags) then {LastFlag} else {};
    if cfg.lastFlagEvent then last - {LastFlag} else last
  }

  /** A returned frame is at most one of key, P or B frame; a metadata
      buffer is flagged last exactly when its data buffer would be; and with
      the last-flag event enabled no buffer is ever flagged last. */
  lemma FlagsConsistent(cfg: Config, frame: FrameInfo, hfiFlags: Flags)
    ensures |BufferFlags(cfg, frame, hfiFlags) * {Keyframe, PFrame, BFrame}| <= 1
    ensures MetaBufferFlags(cfg, hfiFlags) == BufferFlags(cfg, frame, hfiFlags) * {LastFlag}
    ensures cfg.lastFlagEvent ==>
      LastFlag !in BufferFlags(cfg, frame, hfiFlags) && LastFlag !in MetaBufferFlags(cfg, hfiFlags)
  {
  }

  /** An IDR picture is a key frame whatever other bits accompany it, and a
      picture with no type bits set has no frame-type flag. */
  lemma IdrWins(pt: Flags)
    ensures HasFlag(pt, PICTURE_IDR) ==> PictureFlag(pt) == {Keyframe}
    ensures pt == 0 ==> PictureFlag(pt) == {}
  {
  }
}
