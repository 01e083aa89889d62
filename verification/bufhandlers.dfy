/** The handlers for buffers the firmware returns (venus_hfi_response.c,
    handle_input_buffer, handle_output_buffer, handle_input_metadata_buffer,
    handle_output_metadata_buffer, handle_release_internal_buffer, and the
    last-flag and fence helpers they call). A handler moves one queued
    buffer to dequeued and records what the firmware said about it; the
    client is told later, by the batcher. */
module BufHandlers {
  import opened Common
  import opened Hfi
  import opened Instance
  import opened Lookup
  import opened Packets
  import opened DriverFlags
  import opened ReadOnly

  // ---- last-flag processing ----

  /** msm_vidc_allow_drain_last_flag, then msm_vidc_process_drain_last_flag. */
  function ProcessDrainLast(inst: Inst, env: Env): (r: Out)
    ensures r.rc == Ok <==> env.allowDrainLast && env.drainLastRc == Ok
    ensures r.inst == if env.allowDrainLast then inst.Log(DrainLastProcessed) else inst
  {
    if !env.allowDrainLast then Out(inst, EInval)
    else Out(inst.Log(DrainLastProcessed), env.drainLastRc)
  }

  /** msm_vidc_allow_psc_last_flag, then msm_vidc_process_psc_last_flag. */
  function ProcessPscLast(inst: Inst, env: Env): (r: Out)
    ensures r.rc == Ok <==> env.allowPscLast && env.pscLastRc == Ok
    ensures r.inst == if env.allowPscLast then inst.Log(PscLastProcessed) else inst
  {
    if !env.allowPscLast then Out(inst, EInval)
    else Out(inst.Log(PscLastProcessed), env.pscLastRc)
  }

  /** Run a step whose failure puts the session in error. */
  function FailOnError(o: Out): (s: Inst)
    ensures s.errored <==> o.inst.errored || o.rc != Ok
    ensures s == o.inst.(errored := s.errored)
  {
    if o.rc != Ok then o.inst.Fail() else o.inst
  }

  // ---- super buffers ----

  /** With super buffers the firmware returns one buffer per sub-frame; the
      buffer size or the batch size being zero makes the response invalid. */
  predicate BatchInvalid(cfg: Config, frameSize: u32)
  {
    cfg.superBuffer && (frameSize == 0 || cfg.superFrame == 0)
  }

  /** The returned sub-frame is not the last of its batch: the buffer stays
      queued. */
  predicate SubframePending(cfg: Config, frameSize: u32, hb: HfiBuffer)
  {
    cfg.superBuffer && frameSize != 0 && cfg.superFrame != 0 &&
    hb.addrOffset / frameSize < cfg.superFrame - 1
  }

  /** `after` is `before` with entry `j` and nothing else returned. */
  predicate ReturnedOnly(before: seq<Buf>, after: seq<Buf>, j: nat)
  {
    && |after| == |before| && j < |before|
    && (forall k :: 0 <= k < |before| && k != j ==> after[k] == before[k])
    && Queued in before[j].attr
    && after[j].attr - {ReadOnly} == Dequeue(before[j]).attr - {ReadOnly}
    && after[j].index == before[j].index
    && after[j].deviceAddr == before[j].deviceAddr
  }

  lemma ReturnedOnlyKeepsSane(before: seq<Buf>, after: seq<Buf>, j: nat)
    requires ReturnedOnly(before, after, j)
    ensures ListSane(before) ==> ListSane(after)
  {
    assert Queued !in after[j].attr - {ReadOnly};
    if ListSane(before) {
      forall k | 0 <= k < |after|
        ensures Sane(after[k])
      {
        if k != j {
          assert after[k] == before[k];
        }
      }
    }
  }

  /** The input port's AV1 tile layout, packed as rows in the upper and
      columns in the lower 16 bits. */
  function Av1Tiles(inst: Inst): (p: Power)
    ensures inst.frame.av1TileRowsColumns == 0 ==> p == inst.power
    ensures p.fwCr == inst.power.fwCr && p.fwCf == inst.power.fwCf
    ensures inst.frame.av1TileRowsColumns != 0 ==>
      p.av1TileRows * 0x1_0000 + p.av1TileColumns == inst.frame.av1TileRowsColumns &&
      p.av1TileColumns < 0x1_0000
  {
    var rc := inst.frame.av1TileRowsColumns;
    if rc == 0 then inst.power
    else inst.power.(av1TileRows := rc / 0x1_0000, av1TileColumns := rc % 0x1_0000)
  }

  /** handle_input_buffer. */
  function HandleInputBuffer(inst: Inst, hb: HfiBuffer, env: Env): (r: Out)
    ensures r.rc == EInval <==>
      Find(inst.input, ByIndex(hb.index)).None? || BatchInvalid(inst.cfg, env.inputFrameSize)
    ensures r.rc != EInval ==> r.rc == Ok
    ensures r.inst == inst.(input := r.inst.input, power := r.inst.power)
    ensures r.inst.input == inst.input ||
      exists j: nat ::
        && ReturnedOnly(inst.input, r.inst.input, j)
        && inst.input[j].index == hb.index
        && r.inst.input[j].dataSize == hb.dataSize
        && r.inst.input[j].flags == BufferFlags(inst.cfg, inst.frame, hb.flags)
    ensures var f := Find(inst.input, ByIndex(hb.index));
      f.Some? && Queued in inst.input[f.value].attr && !BatchInvalid(inst.cfg, env.inputFrameSize) &&
      !SubframePending(inst.cfg, env.inputFrameSize, hb) ==>
        Dequeued in r.inst.input[f.value].attr
    ensures SubframePending(inst.cfg, env.inputFrameSize, hb) ==> r.inst == inst
    ensures ListSane(inst.input) ==> ListSane(r.inst.input)
  {
    match Find(inst.input, ByIndex(hb.index))
    case None => Out(inst, EInval)
    case Some(j) =>
      var b := inst.input[j];
      if BatchInvalid(inst.cfg, env.inputFrameSize) then Out(inst, EInval)
      else if SubframePending(inst.cfg, env.inputFrameSize, hb) then Out(inst, Ok)
      else if Queued !in b.attr then Out(inst, Ok)
      else
        var power := if inst.IsDecode() && inst.cfg.codec == Av1 then Av1Tiles(inst) else inst.power;
        var b' := Dequeue(b).(dataSize := hb.dataSize, flags := BufferFlags(inst.cfg, inst.frame, hb.flags));
        var input' := inst.input[j := b'];
        assert ReturnedOnly(inst.input, input', j);
        ReturnedOnlyKeepsSane(inst.input, input', j);
        Out(inst.(input := input', power := power), Ok)
  }

  /** The shared body of the two metadata handlers once the buffer is
      found and due: return it with the firmware's size and the last flag. */
  function ReturnMeta(inst: Inst, k: BufKind, j: nat, hb: HfiBuffer): (r: Out)
    requires k == InputMetaK || k == OutputMetaK
    requires j < |inst.List(k)| && Queued in inst.List(k)[j].attr
    ensures r.rc == Ok
    ensures ReturnedOnly(inst.List(k), r.inst.List(k), j)
    ensures r.inst.List(k)[j].dataSize == hb.dataSize
    ensures r.inst.List(k)[j].flags == MetaBufferFlags(inst.cfg, hb.flags)
    ensures r.inst == inst.WithList(k, r.inst.List(k))
  {
    var bs := inst.List(k);
    var b' := Dequeue(bs[j]).(dataSize := hb.dataSize, flags := MetaBufferFlags(inst.cfg, hb.flags));
    var bs' := bs[j := b'];
    assert ReturnedOnly(bs, bs', j);
    Out(inst.WithList(k, bs'), Ok)
  }

  /** handle_input_metadata_buffer. */
  function HandleInputMetaBuffer(inst: Inst, hb: HfiBuffer, env: Env): (r: Out)
    ensures r.rc == EInval <==>
      Find(inst.inputMeta, ByIndex(hb.index)).None? || BatchInvalid(inst.cfg, env.inputMetaFrameSize)
    ensures r.rc != EInval ==> r.rc == Ok
    ensures r.inst == inst.(inputMeta := r.inst.inputMeta)
    ensures r.inst.inputMeta == inst.inputMeta ||
      exists j: nat :: ReturnedOnly(inst.inputMeta, r.inst.inputMeta, j) && inst.inputMeta[j].index == hb.index
    ensures var f := Find(inst.inputMeta, ByIndex(hb.index));
      f.Some? && Queued in inst.inputMeta[f.value].attr && !BatchInvalid(inst.cfg, env.inputMetaFrameSize) &&
      !SubframePending(inst.cfg, env.inputMetaFrameSize, hb) ==>
        Dequeued in r.inst.inputMeta[f.value].attr
    ensures ListSane(inst.inputMeta) ==> ListSane(r.inst.inputMeta)
  {
    match Find(inst.inputMeta, ByIndex(hb.index))
    case None => Out(inst, EInval)
    case Some(j) =>
      if BatchInvalid(inst.cfg, env.inputMetaFrameSize) then Out(inst, EInval)
      else if SubframePending(inst.cfg, env.inputMetaFrameSize, hb) then Out(inst, Ok)
      else if Queued !in inst.inputMeta[j].attr then Out(inst, Ok)
      else
        var r := ReturnMeta(inst, InputMetaK, j, hb);
        ReturnedOnlyKeepsSane(inst.inputMeta, r.inst.inputMeta, j);
        r
  }

  /** handle_output_metadata_buffer: as for input metadata, without super
      buffers. */
  function HandleOutputMetaBuffer(inst: Inst, hb: HfiBuffer): (r: Out)
    ensures r.rc == EInval <==> Find(inst.outputMeta, ByIndex(hb.index)).None?
    ensures r.rc != EInval ==> r.rc == Ok
    ensures r.inst == inst.(outputMeta := r.inst.outputMeta)
    ensures r.inst.outputMeta == inst.outputMeta ||
      exists j: nat :: ReturnedOnly(inst.outputMeta, r.inst.outputMeta, j) && inst.outputMeta[j].index == hb.index
    ensures var f := Find(inst.outputMeta, ByIndex(hb.index));
      f.Some? && Queued in inst.outputMeta[f.value].attr ==> Dequeued in r.inst.outputMeta[f.value].attr
    ensures ListSane(inst.outputMeta) ==> ListSane(r.inst.outputMeta)
  {
    match Find(inst.outputMeta, ByIndex(hb.index))
    case None => Out(inst, EInval)
    case Some(j) =>
      if Queued !in inst.outputMeta[j].attr then Out(inst, Ok)
      else
        var r := ReturnMeta(inst, OutputMetaK, j, hb);
        ReturnedOnlyKeepsSane(inst.outputMeta, r.inst.outputMeta, j);
        r
  }

  // ---- fences ----

  /** What msm_vidc_handle_fence_signal does with the fence of a returned
      output buffer. */
  datatype FenceAction = NoFence | Signal(id: u32) | Destroy(id: u32) | FenceInvalid

  function FenceDecision(cfg: Config, frame: FrameInfo, dataSize: u32): (a: FenceAction)
    ensures a == NoFence <==>
      cfg.fenceType == FenceNone || (!cfg.fenceMetaEnabled && frame.fenceId == 0)
    ensures a == FenceInvalid <==>
      cfg.fenceType != FenceNone && cfg.fenceMetaEnabled &&
      (frame.fenceId == 0 || cfg.fenceType == OtherFence)
    ensures a.Signal? ==>
      && a.id == frame.fenceId != 0
      && cfg.fenceMetaEnabled
      && ((cfg.fenceType == SynxV2Fence && !frame.fenceError) || (cfg.fenceType == SwFence && dataSize != 0))
    ensures a.Destroy? ==>
      && a.id == frame.fenceId != 0
      && cfg.fenceType != FenceNone
      && (!cfg.fenceMetaEnabled || (cfg.fenceType == SynxV2Fence && frame.fenceError) ||
          (cfg.fenceType == SwFence && dataSize == 0))
  {
    if cfg.fenceType == FenceNone then NoFence
    else if !cfg.fenceMetaEnabled then
      // a fence id the client did not ask for is destroyed whatever the type
      if frame.fenceId == 0 then NoFence else Destroy(frame.fenceId)
    else if frame.fenceId == 0 then FenceInvalid
    else if cfg.fenceType == SynxV2Fence then
      if frame.fenceError then Destroy(frame.fenceId) else Signal(frame.fenceId)
    else if cfg.fenceType == SwFence then
      if dataSize == 0 then Destroy(frame.fenceId) else Signal(frame.fenceId)
    else
      assert cfg.fenceType == OtherFence;
      FenceInvalid
  }

  function HandleFenceSignal(inst: Inst, dataSize: u32, env: Env): (r: Out)
    ensures r.rc == Ok || r.rc == EInval
    ensures r.rc == Ok <==>
      match FenceDecision(inst.cfg, inst.frame, dataSize)
      case FenceInvalid => false
      case Signal(_) => env.fenceSignalRc == Ok
      case _ => true
    ensures r.inst == inst.(events := r.inst.events)
    ensures FenceDecision(inst.cfg, inst.frame, dataSize).Signal? ==>
      r.inst.events == inst.events + [FenceSignalled(inst.frame.fenceId)]
    ensures FenceDecision(inst.cfg, inst.frame, dataSize).Destroy? ==>
      r.inst.events == inst.events + [FenceDestroyed(inst.frame.fenceId)]
  {
    match FenceDecision(inst.cfg, inst.frame, dataSize)
    case NoFence => Out(inst, Ok)
    case FenceInvalid => Out(inst, EInval)
    case Destroy(id) => Out(inst.Log(FenceDestroyed(id)), Ok)
    case Signal(id) => Out(inst.Log(FenceSignalled(id)), if env.fenceSignalRc == Ok then Ok else EInval)
  }

  // ---- output buffers ----

  /** The steps of handle_output_buffer before the buffer lookup for a
      buffer that is not a release response: the drain last flag, and for a
      decoder the port-settings-change last flag and the read-only state.
      A failing step puts the session in error and processing goes on. */
  function OutputPrelude(inst: Inst, hb: HfiBuffer, env: Env): (s: Inst)
    ensures s.readOnly == (if inst.IsDecode() then HandleNonReadOnly(true, inst.readOnly, hb.btype, hb.flags, hb.baseAddress) else inst.readOnly)
    ensures s == inst.(readOnly := s.readOnly, errored := s.errored, events := s.events)
    ensures inst.errored ==> s.errored
    ensures HasFlag(hb.flags, BUF_FW_FLAG_LAST) && !(env.allowDrainLast && env.drainLastRc == Ok) ==> s.errored
    ensures inst.IsDecode() && HasFlag(hb.flags, BUF_FW_FLAG_PSC_LAST) && !(env.allowPscLast && env.pscLastRc == Ok) ==> s.errored
  {
    var s1 := if HasFlag(hb.flags, BUF_FW_FLAG_LAST) then FailOnError(ProcessDrainLast(inst, env)) else inst;
    if !inst.IsDecode() then s1
    else
      var s2 := if HasFlag(hb.flags, BUF_FW_FLAG_PSC_LAST) then FailOnError(ProcessPscLast(s1, env)) else s1;
      s2.(readOnly := HandleNonReadOnly(true, s2.readOnly, hb.btype, hb.flags, hb.baseAddress))
  }

  /** An encoder output the firmware should never produce: corrupt, or
      overflowing in an image session or in an empty constant-bitrate frame. */
  predicate EncoderOutputFatal(inst: Inst, hb: HfiBuffer)
  {
    inst.IsEncode() &&
    (inst.frame.dataCorrupt ||
     (inst.frame.overflow && (inst.cfg.isImage || (hb.dataSize == 0 && inst.cfg.hfiRcType == RC_CBR_CFR))))
  }

  /** The read-only flag as the handler acts on it: a last-flag buffer is
      never read-only. */
  function EffectiveFlags(hb: HfiBuffer): (f: Flags)
    ensures HasFlag(f, BUF_FW_FLAG_READONLY) <==>
      HasFlag(hb.flags, BUF_FW_FLAG_READONLY) && !LastBuffer(hb.flags)
    ensures LastBuffer(f) == LastBuffer(hb.flags)
    ensures HasFlag(f, BUF_FW_FLAG_CODEC_CONFIG) == HasFlag(hb.flags, BUF_FW_FLAG_CODEC_CONFIG)
  {
    if LastBuffer(hb.flags) then ClearFlag(hb.flags, BUF_FW_FLAG_READONLY) else hb.flags
  }

  /** The returned output buffer as the handler leaves it, before the
      read-only list is updated. */
  function ReturnedOutput(inst: Inst, b: Buf, hb: HfiBuffer): (d: Buf)
    ensures d.attr - {ReadOnly} == Dequeue(b).attr - {ReadOnly}
    ensures ReadOnly in d.attr <==>
      if inst.IsDecode() then HasFlag(EffectiveFlags(hb), BUF_FW_FLAG_READONLY) else ReadOnly in b.attr
    ensures d.index == b.index && d.deviceAddr == b.deviceAddr
    ensures d.dataOffset == hb.dataOffset && d.timestamp == hb.timestamp
    ensures d.dataSize == if LastBuffer(hb.flags) then 0 else hb.dataSize
    ensures d.flags == BufferFlags(inst.cfg, inst.frame, EffectiveFlags(hb))
  {
    var f := EffectiveFlags(hb);
    var d := Dequeue(b).(dataOffset := hb.dataOffset,
                         dataSize := if LastBuffer(hb.flags) then 0 else hb.dataSize,
                         timestamp := hb.timestamp,
                         flags := BufferFlags(inst.cfg, inst.frame, f));
    if !inst.IsDecode() then d
    else if HasFlag(f, BUF_FW_FLAG_READONLY) then d.(attr := d.attr + {ReadOnly})
    else d.(attr := d.attr - {ReadOnly})
  }

  /** The consistency checks on a returned output buffer: a fatal encoder
      output, or a read-only buffer while the driver supplies its own DPB,
      puts the session in error. */
  function OutputChecks(inst: Inst, hb: HfiBuffer): (s: Inst)
    ensures s == inst.(errored := s.errored)
    ensures s.errored <==>
      || inst.errored
      || EncoderOutputFatal(inst, hb)
      || (inst.IsDecode() && inst.cfg.dpbSize > 0 && HasFlag(EffectiveFlags(hb), BUF_FW_FLAG_READONLY))
  {
    var s1 := if EncoderOutputFatal(inst, hb) then inst.Fail() else inst;
    if inst.IsDecode() && inst.cfg.dpbSize > 0 && HasFlag(EffectiveFlags(hb), BUF_FW_FLAG_READONLY)
    then s1.Fail() else s1
  }

  /** A decoder output the firmware keeps as a reference enters the
      read-only list; a failed allocation puts the session in error. */
  function OutputReadOnly(inst: Inst, d: Buf, env: Env): (s: Inst)
    ensures s == inst.(readOnly := s.readOnly, errored := s.errored)
    ensures s.readOnly == HandleReadOnlyBuffer(inst.IsDecode(), inst.readOnly, d, env.poolAllocOk).0
    ensures s.errored <==> inst.errored || HandleReadOnlyBuffer(inst.IsDecode(), inst.readOnly, d, env.poolAllocOk).1 != Ok
    ensures RoUnique(inst.readOnly) ==> RoUnique(s.readOnly)
  {
    var (ro, rc) := HandleReadOnlyBuffer(inst.IsDecode(), inst.readOnly, d, env.poolAllocOk);
    var t := inst.(readOnly := ro);
    if rc != Ok then t.Fail() else t
  }

  /** The fence of the returned buffer, then the decoder telemetry: the
      worst compression ratio always, the complexity factor for a decoder. */
  function OutputFence(inst: Inst, dataSize: u32, env: Env): (r: Out)
    ensures r.rc == HandleFenceSignal(inst, dataSize, env).rc
    ensures r.inst.errored <==> inst.errored || r.rc != Ok
    ensures r.inst.power.fwCr == inst.frame.cr
    ensures r.inst.power.fwCf == if inst.IsDecode() then inst.frame.cf else inst.power.fwCf
    ensures r.inst == inst.(errored := r.inst.errored, power := r.inst.power, events := r.inst.events)
  {
    var f := HandleFenceSignal(inst, dataSize, env);
    var s := FailOnError(f);
    var power := if inst.IsDecode() then s.power.(fwCr := inst.frame.cr, fwCf := inst.frame.cf)
                 else s.power.(fwCr := inst.frame.cr);
    Out(s.(power := power), f.rc)
  }

  /** handle_output_buffer once the queued buffer at `j` has been found. */
  function ReturnOutput(inst: Inst, j: nat, hb: HfiBuffer, env: Env): (r: Out)
    requires j < |inst.output| && Queued in inst.output[j].attr
    ensures ReturnedOnly(inst.output, r.inst.output, j)
    ensures r.inst.output[j] == ReturnedOutput(inst, inst.output[j], hb)
    ensures r.rc == HandleFenceSignal(inst, r.inst.output[j].dataSize, env).rc
    ensures r.inst.readOnly == HandleReadOnlyBuffer(inst.IsDecode(), inst.readOnly, r.inst.output[j], env.poolAllocOk).0
    ensures inst.errored ==> r.inst.errored
    ensures EncoderOutputFatal(inst, hb) ==> r.inst.errored
    ensures inst.IsDecode() && inst.cfg.dpbSize > 0 && HasFlag(EffectiveFlags(hb), BUF_FW_FLAG_READONLY) ==> r.inst.errored
    ensures r.inst.power.fwCr == inst.frame.cr
    ensures inst.IsDecode() ==> r.inst.power.fwCf == inst.frame.cf
    ensures r.inst == inst.(output := r.inst.output, readOnly := r.inst.readOnly, errored := r.inst.errored,
                            power := r.inst.power, events := r.inst.events)
    ensures RoUnique(inst.readOnly) ==> RoUnique(r.inst.readOnly)
  {
    var d := ReturnedOutput(inst, inst.output[j], hb);
    var output' := inst.output[j := d];
    assert ReturnedOnly(inst.output, output', j);
    var s1 := OutputChecks(inst.(output := output'), hb);
    var s2 := OutputReadOnly(s1, d, env);
    OutputFence(s2, d.dataSize, env)
  }

  /** A decoder output returned with RELEASE_DONE answers a release the
      driver requested; after the drain last flag nothing else is done. */
  function OutputRelease(inst: Inst, hb: HfiBuffer, env: Env): (r: Out)
    ensures r.inst == inst.(readOnly := r.inst.readOnly, errored := r.inst.errored, events := r.inst.events)
    ensures r.rc == Ok <==>
      exists i :: 0 <= i < |inst.readOnly| &&
        inst.readOnly[i].deviceAddr == hb.baseAddress && PendingRelease in inst.readOnly[i].attr
    ensures inst.errored ==> r.inst.errored
    ensures HasFlag(hb.flags, BUF_FW_FLAG_LAST) && !(env.allowDrainLast && env.drainLastRc == Ok) ==> r.inst.errored
    ensures RoUnique(inst.readOnly) ==> RoUnique(r.inst.readOnly)
    ensures r.rc == Ok ==>
      exists i :: 0 <= i < |inst.readOnly| && inst.readOnly[i].deviceAddr == hb.baseAddress &&
        PendingRelease in inst.readOnly[i].attr &&
        r.inst.readOnly == inst.readOnly[i := inst.readOnly[i].(attr := inst.readOnly[i].attr - {ReadOnly, PendingRelease})]
    ensures r.rc != Ok ==> r.rc == EInval && r.inst.readOnly == inst.readOnly
  {
    var s := if HasFlag(hb.flags, BUF_FW_FLAG_LAST) then FailOnError(ProcessDrainLast(inst, env)) else inst;
    var (ro, rc) := ReleaseOutput(s.readOnly, hb.baseAddress);
    Out(s.(readOnly := ro), rc)
  }

  /** Every other output buffer: the prelude, then the queued buffer that
      matches is returned; a response for no queued buffer is ignored. */
  function OutputReturn(inst: Inst, hb: HfiBuffer, env: Env): (r: Out)
    ensures var s := OutputPrelude(inst, hb, env);
      var f := Find(s.output, QueuedOutput(inst.IsDecode(), hb.index, hb.baseAddress, hb.dataOffset));
      && (f.None? ==> r == Out(s, Ok))
      && (f.Some? ==>
            && ReturnedOnly(s.output, r.inst.output, f.value)
            && r.inst.output[f.value] == ReturnedOutput(s, s.output[f.value], hb)
            && r.rc == HandleFenceSignal(s, r.inst.output[f.value].dataSize, env).rc
            && (EncoderOutputFatal(s, hb) ==> r.inst.errored))
    ensures OutputPrelude(inst, hb, env).errored ==> r.inst.errored
    ensures r.inst == inst.(output := r.inst.output, readOnly := r.inst.readOnly, errored := r.inst.errored,
                            power := r.inst.power, events := r.inst.events)
    ensures Invariant(inst) ==> Invariant(r.inst)
  {
    ReturnMatching(OutputPrelude(inst, hb, env), hb, env)
  }

  /** After the prelude: the queued buffer that matches is returned, and a
      response for no queued buffer is ignored. */
  function ReturnMatching(s: Inst, hb: HfiBuffer, env: Env): (r: Out)
    ensures var f := Find(s.output, QueuedOutput(s.IsDecode(), hb.index, hb.baseAddress, hb.dataOffset));
      && (f.None? ==> r == Out(s, Ok))
      && (f.Some? ==>
            && ReturnedOnly(s.output, r.inst.output, f.value)
            && r.inst.output[f.value] == ReturnedOutput(s, s.output[f.value], hb)
            && r.rc == HandleFenceSignal(s, r.inst.output[f.value].dataSize, env).rc
            && (EncoderOutputFatal(s, hb) ==> r.inst.errored))
    ensures s.errored ==> r.inst.errored
    ensures r.inst == s.(output := r.inst.output, readOnly := r.inst.readOnly, errored := r.inst.errored,
                         power := r.inst.power, events := r.inst.events)
    ensures Invariant(s) ==> Invariant(r.inst)
  {
    match Find(s.output, QueuedOutput(s.IsDecode(), hb.index, hb.baseAddress, hb.dataOffset))
    case None => Out(s, Ok)
    case Some(j) => ReturnFound(s, j, hb, env)
  }

  /** ReturnOutput on a buffer the lookup found, with the session invariant
      carried across. */
  function ReturnFound(s: Inst, j: nat, hb: HfiBuffer, env: Env): (r: Out)
    requires j < |s.output| && Queued in s.output[j].attr
    ensures r == ReturnOutput(s, j, hb, env)
    ensures Invariant(s) ==> Invariant(r.inst)
  {
    var r := ReturnOutput(s, j, hb, env);
    ReturnedOnlyKeepsSane(s.output, r.inst.output, j);
    r
  }

  /** handle_output_buffer. */
  function HandleOutputBuffer(inst: Inst, hb: HfiBuffer, env: Env): (r: Out)
    ensures inst.IsDecode() && HasFlag(hb.flags, BUF_FW_FLAG_RELEASE_DONE) ==> r == OutputRelease(inst, hb, env)
    ensures !(inst.IsDecode() && HasFlag(hb.flags, BUF_FW_FLAG_RELEASE_DONE)) ==> r == OutputReturn(inst, hb, env)
    ensures inst.errored ==> r.inst.errored
    ensures HasFlag(hb.flags, BUF_FW_FLAG_LAST) && !(env.allowDrainLast && env.drainLastRc == Ok) ==> r.inst.errored
    ensures r.inst == inst.(output := r.inst.output, readOnly := r.inst.readOnly, errored := r.inst.errored,
                            power := r.inst.power, events := r.inst.events)
    ensures Invariant(inst) ==> Invariant(r.inst)
  {
    if inst.IsDecode() && HasFlag(hb.flags, BUF_FW_FLAG_RELEASE_DONE) then OutputRelease(inst, hb, env)
    else OutputReturn(inst, hb, env)
  }

  // ---- internal buffers ----

  /** hfi_buf_type_to_driver for the internal buffer types. */
  function InternalKindOf(btype: u32): Option<InternalKind>
  {
    if btype == BUFFER_BIN then Some(BinK)
    else if btype == BUFFER_ARP then Some(ArpK)
    else if btype == BUFFER_COMV then Some(ComvK)
    else if btype == BUFFER_NON_COMV then Some(NonComvK)
    else if btype == BUFFER_LINE then Some(LineK)
    else if btype == BUFFER_DPB then Some(DpbK)
    else if btype == BUFFER_PERSIST then Some(PersistK)
    else if btype == BUFFER_VPSS then Some(VpssK)
    else if btype == BUFFER_PARTIAL_DATA then Some(PartialDataK)
    else None
  }

  /** handle_release_internal_buffer: the firmware returns a scratch
      buffer. It is no longer queued; if the driver had asked for its
      release it is destroyed, otherwise it stays for reuse. */
  function HandleReleaseInternal(inst: Inst, hb: HfiBuffer): (r: Out)
    ensures r.rc == Ok <==>
      InternalKindOf(hb.btype).Some? &&
      exists i :: 0 <= i < |inst.Internal(InternalKindOf(hb.btype).value)| &&
        inst.Internal(InternalKindOf(hb.btype).value)[i].deviceAddr == hb.baseAddress
    ensures r.rc != Ok ==> r == Out(inst, EInval)
    ensures r.inst == inst.(internal := r.inst.internal, events := r.inst.events)
    ensures r.rc == Ok ==>
      var k := InternalKindOf(hb.btype).value;
      var before := inst.Internal(k);
      var i := Find(before, ByAddr(hb.baseAddress)).value;
      && (forall k' :: k' != k ==> r.inst.Internal(k') == inst.Internal(k'))
      && (PendingRelease in before[i].attr ==>
            r.inst.Internal(k) == RemoveAt(before, i) &&
            r.inst.events == inst.events + [InternalDestroyed(k, hb.baseAddress)])
      && (PendingRelease !in before[i].attr ==>
            r.inst.Internal(k) == before[i := before[i].(attr := before[i].attr - {Queued})] &&
            r.inst.events == inst.events)
  {
    match InternalKindOf(hb.btype)
    case None => Out(inst, EInval)
    case Some(k) =>
      var bs := inst.Internal(k);
      match Find(bs, ByAddr(hb.baseAddress))
      case None => Out(inst, EInval)
      case Some(i) =>
        if PendingRelease in bs[i].attr then
          Out(inst.(internal := inst.internal[k := RemoveAt(bs, i)]).Log(InternalDestroyed(k, hb.baseAddress)), Ok)
        else
          Out(inst.(internal := inst.internal[k := bs[i := bs[i].(attr := bs[i].attr - {Queued})]]), Ok)
  }
}
