/** Session error, information and command packets (venus_hfi_response.c,
    handle_session_error, handle_session_last_flag_info,
    handle_session_info, the session command handlers, the port-settings
    change handlers and handle_session_command). */
module Commands {
  import opened Common
  import opened Hfi
  import opened Instance
  import opened Packets
  import opened BufHandlers
  import opened SessionBuffer

  /** handle_session_error: whatever the error, the session goes to the
      error state. */
  function HandleSessionError(inst: Inst): (r: Out)
    ensures r.rc == Ok && r.inst.errored
    ensures r.inst == inst.(errored := true)
  {
    Out(inst.Fail(), Ok)
  }

  // ---- information ----

  /** handle_session_last_flag_info: the firmware's last-flag information
      is processed if allowed; refusal or failure puts the session in error. */
  function HandleLastFlagInfo(inst: Inst, p: Packet, env: Env): (r: Out)
    ensures p.ptype == INFO_HFI_FLAG_PSC_LAST ==>
      r.rc == ProcessPscLast(inst, env).rc && r.inst == FailOnError(ProcessPscLast(inst, env))
    ensures p.ptype == INFO_HFI_FLAG_DRAIN_LAST ==>
      r.rc == ProcessDrainLast(inst, env).rc && r.inst == FailOnError(ProcessDrainLast(inst, env))
    ensures p.ptype != INFO_HFI_FLAG_PSC_LAST && p.ptype != INFO_HFI_FLAG_DRAIN_LAST ==> r == Out(inst, Ok)
    ensures r.rc != Ok ==> r.inst.errored
    ensures inst.errored ==> r.inst.errored
  {
    var o :=
      if p.ptype == INFO_HFI_FLAG_PSC_LAST then ProcessPscLast(inst, env)
      else if p.ptype == INFO_HFI_FLAG_DRAIN_LAST then ProcessDrainLast(inst, env)
      else Out(inst, Ok);
    Out(FailOnError(o), o.rc)
  }

  /** handle_session_info: corruption, overflow and fence errors are noted
      against the frame of this message; last flags go to their helper; any
      other information is only logged. */
  function HandleSessionInfo(inst: Inst, p: Packet, env: Env): (r: Out)
    ensures p.ptype == INFO_DATA_CORRUPT ==> r == Out(inst.(frame := inst.frame.(dataCorrupt := true)), Ok)
    ensures p.ptype == INFO_BUFFER_OVERFLOW ==> r == Out(inst.(frame := inst.frame.(overflow := true)), Ok)
    ensures p.ptype == INFO_FENCE_SIGNAL_ERROR ==> r == Out(inst.(frame := inst.frame.(fenceError := true)), Ok)
    ensures p.ptype in {INFO_HFI_FLAG_DRAIN_LAST, INFO_HFI_FLAG_PSC_LAST} ==> r == HandleLastFlagInfo(inst, p, env)
    ensures (p.ptype !in {INFO_DATA_CORRUPT, INFO_BUFFER_OVERFLOW, INFO_FENCE_SIGNAL_ERROR,
                          INFO_HFI_FLAG_DRAIN_LAST, INFO_HFI_FLAG_PSC_LAST}) ==> r == Out(inst, Ok)
    ensures r.inst == inst.(frame := r.inst.frame, errored := r.inst.errored, events := r.inst.events)
    ensures inst.errored ==> r.inst.errored
  {
    if p.ptype == INFO_DATA_CORRUPT then Out(inst.(frame := inst.frame.(dataCorrupt := true)), Ok)
    else if p.ptype == INFO_BUFFER_OVERFLOW then Out(inst.(frame := inst.frame.(overflow := true)), Ok)
    else if p.ptype == INFO_FENCE_SIGNAL_ERROR then Out(inst.(frame := inst.frame.(fenceError := true)), Ok)
    else if p.ptype == INFO_HFI_FLAG_DRAIN_LAST || p.ptype == INFO_HFI_FLAG_PSC_LAST then HandleLastFlagInfo(inst, p, env)
    else Out(inst, Ok)
  }

  // ---- session commands ----

  /** handle_session_stop: the stop is signalled for the driver port the
      packet's HFI port stands for; a session that is neither decoder nor
      encoder, or a port that is not a data port, is invalid. */
  function HandleStop(inst: Inst, p: Packet, env: Env): (r: Out)
    ensures var port := PortFromHfi(inst.cfg.domain, p.port);
      && (port in {InputPort, OutputPort} ==>
            r == Out(inst.Log(StopDone(port == InputPort)), env.stopDoneRc))
      && (port !in {InputPort, OutputPort} ==> r == Out(inst, EInval))
    ensures r.inst == inst.(events := r.inst.events)
  {
    if inst.IsEncode() then
      if p.port == PORT_RAW then Out(inst.Log(StopDone(true)), env.stopDoneRc)
      else if p.port == PORT_BITSTREAM then Out(inst.Log(StopDone(false)), env.stopDoneRc)
      else Out(inst, EInval)
    else if inst.IsDecode() then
      if p.port == PORT_RAW then Out(inst.Log(StopDone(false)), env.stopDoneRc)
      else if p.port == PORT_BITSTREAM then Out(inst.Log(StopDone(true)), env.stopDoneRc)
      else Out(inst, EInval)
    else Out(inst, EInval)
  }

  /** handle_input_port_settings_change: a change the state machine refuses
      is invalid; one it defers is accepted without action; otherwise the
      state changes first and the decoder then reconfigures its input, each
      step's failure ending the handler. */
  function InputPsc(inst: Inst, env: Env): (r: Out)
    ensures env.inputPscAllow == Disallow ==> r == Out(inst, EInval)
    ensures env.inputPscAllow == Defer ==> r == Out(inst, Ok)
    ensures env.inputPscAllow == AllowNow ==>
      && (env.inputPscStateRc != Ok ==> r == Out(inst.Log(InputPscStateChanged), env.inputPscStateRc))
      && (env.inputPscStateRc == Ok ==>
            r == Out(inst.Log(InputPscStateChanged).Log(InputPscHandled), env.inputPscRc))
    ensures r.inst == inst.(events := r.inst.events)
  {
    match env.inputPscAllow
    case Disallow => Out(inst, EInval)
    case Defer => Out(inst, Ok)
    case AllowNow =>
      var s := inst.Log(InputPscStateChanged);
      if env.inputPscStateRc != Ok then Out(s, env.inputPscStateRc)
      else Out(s.Log(InputPscHandled), env.inputPscRc)
  }

  /** handle_port_settings_change: the raw port's change reconfigures the
      output, the bitstream port's the input; any failure puts the session
      in error. */
  function HandlePortSettingsChange(inst: Inst, p: Packet, env: Env): (r: Out)
    ensures p.port == PORT_RAW ==>
      r.rc == env.outputPscRc && r.inst == FailOnError(Out(inst.Log(OutputPscHandled), env.outputPscRc))
    ensures p.port == PORT_BITSTREAM ==> r.rc == InputPsc(inst, env).rc && r.inst == FailOnError(InputPsc(inst, env))
    ensures p.port != PORT_RAW && p.port != PORT_BITSTREAM ==> r == Out(inst.Fail(), EInval)
    ensures r.rc != Ok ==> r.inst.errored
    ensures inst.errored ==> r.inst.errored
    ensures r.inst == inst.(errored := r.inst.errored, events := r.inst.events)
  {
    var o :=
      if p.port == PORT_RAW then Out(inst.Log(OutputPscHandled), env.outputPscRc)
      else if p.port == PORT_BITSTREAM then InputPsc(inst, env)
      else Out(inst, EInval);
    Out(FailOnError(o), o.rc)
  }

  /** The commands whose response is only logged. */
  const AcknowledgedCommands: set<u32> := {
    CMD_OPEN, CMD_START, CMD_SUBSCRIBE_MODE, CMD_DELIVERY_MODE, CMD_PAUSE, CMD_RESUME, CMD_STABILITY}

  /** handle_session_command: the twelve session commands each have their
      handler; any other command is unsupported. */
  function HandleSessionCommand(inst: Inst, p: Packet, env: Env): (r: Out)
    ensures p.ptype !in SessionCommands ==> r == Out(inst, EInval)
    ensures p.ptype in AcknowledgedCommands ==> r == Out(inst, Ok)
    ensures p.ptype == CMD_CLOSE ==> r == Out(inst.Log(SessionCloseSignalled), Ok)
    ensures p.ptype == CMD_STOP ==> r == HandleStop(inst, p, env)
    ensures p.ptype == CMD_DRAIN ==> r == Out(inst.Log(DrainDone), env.drainDoneRc)
    ensures p.ptype == CMD_BUFFER ==> r == HandleSessionBuffer(inst, p, env)
    ensures p.ptype == CMD_SETTINGS_CHANGE ==> r == HandlePortSettingsChange(inst, p, env)
    ensures inst.errored ==> r.inst.errored
    ensures r.inst.cfg == inst.cfg
    ensures Invariant(inst) ==> Invariant(r.inst)
  {
    CommandTableComplete(p.ptype);
    if p.ptype in AcknowledgedCommands then Out(inst, Ok)
    else if p.ptype == CMD_CLOSE then Out(inst.Log(SessionCloseSignalled), Ok)
    else if p.ptype == CMD_STOP then HandleStop(inst, p, env)
    else if p.ptype == CMD_DRAIN then Out(inst.Log(DrainDone), env.drainDoneRc)
    else if p.ptype == CMD_BUFFER then HandleSessionBuffer(inst, p, env)
    else if p.ptype == CMD_SETTINGS_CHANGE then HandlePortSettingsChange(inst, p, env)
    else Out(inst, EInval)
  }

  /** Every listed session command reaches a handler: the acknowledged ones
      and the five with actions make up the twelve. */
  lemma CommandTableComplete(t: u32)
    ensures t in SessionCommands <==>
      t in AcknowledgedCommands || t in {CMD_CLOSE, CMD_STOP, CMD_DRAIN, CMD_BUFFER, CMD_SETTINGS_CHANGE}
  {
  }
}
