/** The entry point of the decoder and its two paths (venus_hfi_response.c,
    handle_system_error, handle_system_init, handle_system_response,
    __handle_session_response, handle_session_response and
    handle_response). A validated message is either for the core (session
    id 0) or for one session; either way its packets are visited in several
    passes, one per packet-type range, in a fixed order. */
module Response {
  import opened Common
  import opened Hfi
  import opened Wire
  import opened Validate
  import opened Instance
  import opened Packets
  import opened Batcher
  import opened Properties
  import opened Commands

  predicate AllWellFormed(ps: seq<Packet>)
  {
    forall i :: 0 <= i < |ps| ==> WellFormed(ps[i])
  }

  // ---- the session path ----

  /** The passes of __handle_session_response, in the order they run. */
  datatype Stage = ErrorStage | InfoStage | PropertyStage | CommandStage

  function StageRange(k: Stage): Range
  {
    match k
    case ErrorStage => SessionErrorRange
    case InfoStage => InformationRange
    case PropertyStage => PropRange
    case CommandStage => CmdRange
  }

  function StageIndex(k: Stage): nat
  {
    match k
    case ErrorStage => 0
    case InfoStage => 1
    case PropertyStage => 2
    case CommandStage => 3
  }

  /** The handler a pass calls for a packet in its range. */
  function HandleInStage(k: Stage, inst: Inst, p: Packet, env: Env): (r: Out)
    requires WellFormed(p)
    ensures inst.errored ==> r.inst.errored
    ensures r.inst.cfg == inst.cfg
    ensures Invariant(inst) ==> Invariant(r.inst)
  {
    match k
    case ErrorStage => HandleSessionError(inst)
    case InfoStage => HandleSessionInfo(inst, p, env)
    case PropertyStage =>
      PropertyTouchesNoClientBuffer(inst, p);
      HandleSessionProperty(inst, p)
    case CommandStage => HandleSessionCommand(inst, p, env)
  }

  /** What the passes carry from packet to packet: the session, the return
      code of the last handler called, whether a buffer command was seen,
      and the (pass, packet index) of every handler call so far. */
  datatype Acc = Acc(inst: Inst, rc: Rc, dequeue: bool, trace: seq<(Stage, nat)>)

  /** The handler calls one pass makes over packets `j` onwards: one per
      packet in the pass's range, in packet order. */
  function StageTrace(k: Stage, ps: seq<Packet>, j: nat): (t: seq<(Stage, nat)>)
    requires j <= |ps|
    decreases |ps| - j
  {
    if j == |ps| then []
    else (if StageRange(k).Contains(ps[j].ptype) then [(k, j)] else []) + StageTrace(k, ps, j + 1)
  }

  /** One packet in one pass. A packet flagged as a session error puts the
      session in error in every pass; a packet in the pass's range goes to
      the pass's handler, whose failure also puts the session in error. */
  function StepPacket(k: Stage, a: Acc, p: Packet, j: nat, env: Env): (b: Acc)
    requires WellFormed(p)
    ensures b.trace == a.trace + (if StageRange(k).Contains(p.ptype) then [(k, j)] else [])
    ensures b.dequeue <==> a.dequeue || (StageRange(k).Contains(p.ptype) && p.ptype == CMD_BUFFER)
    ensures a.inst.errored || HasFlag(p.flags, FW_FLAGS_SESSION_ERROR) ==> b.inst.errored
    ensures !StageRange(k).Contains(p.ptype) ==> b.rc == a.rc
    ensures b.inst.cfg == a.inst.cfg
    ensures Invariant(a.inst) ==> Invariant(b.inst)
  {
    var s := if HasFlag(p.flags, FW_FLAGS_SESSION_ERROR) then HandleSessionError(a.inst).inst else a.inst;
    if StageRange(k).Contains(p.ptype) then
      var o := HandleInStage(k, s, p, env);
      Acc(if o.rc != Ok then o.inst.Fail() else o.inst, o.rc, a.dequeue || p.ptype == CMD_BUFFER, a.trace + [(k, j)])
    else a.(inst := s)
  }

  /** The inner loop of one pass, over packets `j` onwards. */
  function RunStage(k: Stage, a: Acc, ps: seq<Packet>, j: nat, env: Env): (b: Acc)
    requires j <= |ps| && AllWellFormed(ps)
    decreases |ps| - j
    ensures b.trace == a.trace + StageTrace(k, ps, j)
    ensures b.dequeue <==>
      a.dequeue || exists i :: j <= i < |ps| && StageRange(k).Contains(ps[i].ptype) && ps[i].ptype == CMD_BUFFER
    ensures a.inst.errored ==> b.inst.errored
    ensures (exists i :: j <= i < |ps| && HasFlag(ps[i].flags, FW_FLAGS_SESSION_ERROR)) ==> b.inst.errored
    ensures StageTrace(k, ps, j) == [] ==> b.rc == a.rc
    ensures b.inst.cfg == a.inst.cfg
    ensures Invariant(a.inst) ==> Invariant(b.inst)
  {
    if j == |ps| then a
    else
      var a1 := StepPacket(k, a, ps[j], j, env);
      var x := if StageRange(k).Contains(ps[j].ptype) then [(k, j)] else [];
      assert StageTrace(k, ps, j) == x + StageTrace(k, ps, j + 1);
      assert a1.trace + StageTrace(k, ps, j + 1) == a.trace + StageTrace(k, ps, j);
      RunStage(k, a1, ps, j + 1, env)
  }

  /** The outer loop: the passes of `ks`, in order. */
  function RunStages(ks: seq<Stage>, a: Acc, ps: seq<Packet>, env: Env): (b: Acc)
    requires AllWellFormed(ps)
    ensures a.inst.errored ==> b.inst.errored
    ensures |ks| > 0 && (exists i :: 0 <= i < |ps| && HasFlag(ps[i].flags, FW_FLAGS_SESSION_ERROR)) ==> b.inst.errored
    ensures b.inst.cfg == a.inst.cfg
    ensures Invariant(a.inst) ==> Invariant(b.inst)
  {
    if |ks| == 0 then a
    else RunStages(ks[1..], RunStage(ks[0], a, ps, 0, env), ps, env)
  }

  const SessionStages: seq<Stage> := [ErrorStage, InfoStage, PropertyStage, CommandStage]

  /** The message carries a buffer command. */
  predicate HasBufferCommand(ps: seq<Packet>)
  {
    exists i :: 0 <= i < |ps| && ps[i].ptype == CMD_BUFFER
  }

  /** The handler calls of the four passes: every session-error packet in
      packet order, then every information packet, then every property,
      then every command. */
  function ExpectedTrace(ps: seq<Packet>): seq<(Stage, nat)>
  {
    StageTrace(ErrorStage, ps, 0) + StageTrace(InfoStage, ps, 0)
      + StageTrace(PropertyStage, ps, 0) + StageTrace(CommandStage, ps, 0)
  }

  lemma SessionPasses(a: Acc, ps: seq<Packet>, env: Env)
    requires AllWellFormed(ps) && a.trace == [] && !a.dequeue
    ensures RunStages(SessionStages, a, ps, env).trace == ExpectedTrace(ps)
    ensures RunStages(SessionStages, a, ps, env).dequeue <==> HasBufferCommand(ps)
    ensures ExpectedTrace(ps) == [] ==> RunStages(SessionStages, a, ps, env).rc == a.rc
    ensures HasBufferCommand(ps) ==> ExpectedTrace(ps) != []
  {
    PassesTrace(a, ps, env);
    PassesDequeue(a, ps, env);
    BufferCommandIsTraced(ps);
  }

  /** The passes make exactly the expected calls; with none, the return
      code is untouched. */
  lemma PassesTrace(a: Acc, ps: seq<Packet>, env: Env)
    requires AllWellFormed(ps) && a.trace == []
    ensures RunStages(SessionStages, a, ps, env).trace == ExpectedTrace(ps)
    ensures ExpectedTrace(ps) == [] ==> RunStages(SessionStages, a, ps, env).rc == a.rc
  {
    var a1 := RunStage(ErrorStage, a, ps, 0, env);
    var a2 := RunStage(InfoStage, a1, ps, 0, env);
    var a3 := RunStage(PropertyStage, a2, ps, 0, env);
    var a4 := RunStage(CommandStage, a3, ps, 0, env);
    UnfoldSessionStages(a, ps, env);
    FourPasses(a, a1, a2, a3, a4, StageTrace(ErrorStage, ps, 0), StageTrace(InfoStage, ps, 0),
               StageTrace(PropertyStage, ps, 0), StageTrace(CommandStage, ps, 0));
  }

  /** Four passes in a row, each adding its own calls, add the calls of all
      four; when they add none, the return code is untouched. */
  lemma FourPasses(a: Acc, a1: Acc, a2: Acc, a3: Acc, a4: Acc,
                   t1: seq<(Stage, nat)>, t2: seq<(Stage, nat)>, t3: seq<(Stage, nat)>, t4: seq<(Stage, nat)>)
    requires a1.trace == a.trace + t1 && (t1 == [] ==> a1.rc == a.rc)
    requires a2.trace == a1.trace + t2 && (t2 == [] ==> a2.rc == a1.rc)
    requires a3.trace == a2.trace + t3 && (t3 == [] ==> a3.rc == a2.rc)
    requires a4.trace == a3.trace + t4 && (t4 == [] ==> a4.rc == a3.rc)
    ensures a4.trace == a.trace + (t1 + t2 + t3 + t4)
    ensures t1 + t2 + t3 + t4 == [] ==> a4.rc == a.rc
  {
    if t1 + t2 + t3 + t4 == [] {
      assert |t1 + t2 + t3 + t4| == 0;
    }
  }

  /** Only the command pass raises the dequeue flag, and it does so exactly
      for a buffer command. */
  lemma PassesDequeue(a: Acc, ps: seq<Packet>, env: Env)
    requires AllWellFormed(ps) && !a.dequeue
    ensures RunStages(SessionStages, a, ps, env).dequeue <==> HasBufferCommand(ps)
  {
    var a1 := RunStage(ErrorStage, a, ps, 0, env);
    var a2 := RunStage(InfoStage, a1, ps, 0, env);
    var a3 := RunStage(PropertyStage, a2, ps, 0, env);
    UnfoldSessionStages(a, ps, env);
    BufferCommandOnlyInCommandPass(ErrorStage, ps);
    BufferCommandOnlyInCommandPass(InfoStage, ps);
    BufferCommandOnlyInCommandPass(PropertyStage, ps);
    BufferCommandOnlyInCommandPass(CommandStage, ps);
  }

  /** The buffer command is in the command range and no other. */
  lemma BufferCommandOnlyInCommandPass(k: Stage, ps: seq<Packet>)
    ensures (exists i :: 0 <= i < |ps| && StageRange(k).Contains(ps[i].ptype) && ps[i].ptype == CMD_BUFFER)
        <==> k == CommandStage && HasBufferCommand(ps)
  {
    Hfi.IdentifiersWellPlaced();
    assert CmdRange.Contains(CMD_BUFFER) by {
      assert SessionCommands[5] == CMD_BUFFER;
    }
    if k == CommandStage && HasBufferCommand(ps) {
      var i :| 0 <= i < |ps| && ps[i].ptype == CMD_BUFFER;
      assert StageRange(k).Contains(ps[i].ptype);
    }
  }

  /** The four session passes run one after the other. */
  lemma UnfoldSessionStages(a: Acc, ps: seq<Packet>, env: Env)
    requires AllWellFormed(ps)
    ensures RunStages(SessionStages, a, ps, env)
         == RunStage(CommandStage, RunStage(PropertyStage, RunStage(InfoStage,
              RunStage(ErrorStage, a, ps, 0, env), ps, 0, env), ps, 0, env), ps, 0, env)
  {
    var a1 := RunStage(ErrorStage, a, ps, 0, env);
    var a2 := RunStage(InfoStage, a1, ps, 0, env);
    var a3 := RunStage(PropertyStage, a2, ps, 0, env);
    var a4 := RunStage(CommandStage, a3, ps, 0, env);
    assert SessionStages[1..] == [InfoStage, PropertyStage, CommandStage];
    assert SessionStages[1..][1..] == [PropertyStage, CommandStage];
    assert SessionStages[1..][1..][1..] == [CommandStage];
    assert RunStages(SessionStages, a, ps, env) == RunStages(SessionStages[1..], a1, ps, env);
    assert RunStages(SessionStages[1..], a1, ps, env) == RunStages(SessionStages[1..][1..], a2, ps, env);
    assert RunStages(SessionStages[1..][1..], a2, ps, env) == RunStages(SessionStages[1..][1..][1..], a3, ps, env);
    assert RunStages([CommandStage], a3, ps, env) == RunStages([CommandStage][1..], a4, ps, env);
    assert [CommandStage][1..] == [];
  }

  /** A buffer command is handled by the command pass. */
  lemma BufferCommandIsTraced(ps: seq<Packet>)
    ensures HasBufferCommand(ps) ==> ExpectedTrace(ps) != []
  {
    Hfi.IdentifiersWellPlaced();
    assert CmdRange.Contains(CMD_BUFFER) by {
      assert SessionCommands[5] == CMD_BUFFER;
    }
    if HasBufferCommand(ps) {
      var i :| 0 <= i < |ps| && ps[i].ptype == CMD_BUFFER;
      assert StageRange(CommandStage).Contains(ps[i].ptype);
      StageTraceExact(CommandStage, ps, 0, (CommandStage, i));
      assert (CommandStage, i) in ExpectedTrace(ps);
    }
  }

  /** A pass calls its handler for exactly the packets in its range. */
  lemma {:induction false} StageTraceExact(k: Stage, ps: seq<Packet>, j: nat, x: (Stage, nat))
    requires j <= |ps|
    decreases |ps| - j
    ensures x in StageTrace(k, ps, j) <==> x.0 == k && j <= x.1 < |ps| && StageRange(k).Contains(ps[x.1].ptype)
  {
    if j < |ps| {
      StageTraceExact(k, ps, j + 1, x);
    }
  }

  /** Handler calls are ordered by pass, then by packet. */
  predicate InOrder(t: seq<(Stage, nat)>)
  {
    forall x, y :: 0 <= x < y < |t| ==>
      StageIndex(t[x].0) < StageIndex(t[y].0) || (t[x].0 == t[y].0 && t[x].1 < t[y].1)
  }

  /** Every call in `t` belongs to pass `k` and to packet `j` or later. */
  predicate AllAt(t: seq<(Stage, nat)>, k: Stage, j: nat)
  {
    forall x :: 0 <= x < |t| ==> t[x].0 == k && j <= t[x].1
  }

  lemma {:induction false} StageTraceInOrder(k: Stage, ps: seq<Packet>, j: nat)
    requires j <= |ps|
    decreases |ps| - j
    ensures InOrder(StageTrace(k, ps, j)) && AllAt(StageTrace(k, ps, j), k, j)
  {
    if j < |ps| {
      StageTraceInOrder(k, ps, j + 1);
    }
  }

  lemma InOrderAppend(t1: seq<(Stage, nat)>, t2: seq<(Stage, nat)>, k: Stage)
    requires InOrder(t1) && InOrder(t2) && AllAt(t2, k, 0)
    requires forall x :: 0 <= x < |t1| ==> StageIndex(t1[x].0) < StageIndex(k)
    ensures InOrder(t1 + t2)
    ensures forall x :: 0 <= x < |t1 + t2| ==> StageIndex((t1 + t2)[x].0) <= StageIndex(k)
  {
  }

  /** The handler calls of a session message are ordered: every
      session-error packet before every information packet, before every
      property, before every command, and packets of one kind in the
      order they arrived; and they are exactly the packets in the passes'
      ranges. */
  lemma ExpectedTraceInOrder(ps: seq<Packet>, x: (Stage, nat))
    ensures InOrder(ExpectedTrace(ps))
    ensures x in ExpectedTrace(ps) <==> x.1 < |ps| && StageRange(x.0).Contains(ps[x.1].ptype)
  {
    var t0 := StageTrace(ErrorStage, ps, 0);
    var t1 := StageTrace(InfoStage, ps, 0);
    var t2 := StageTrace(PropertyStage, ps, 0);
    var t3 := StageTrace(CommandStage, ps, 0);
    StageTraceInOrder(ErrorStage, ps, 0);
    StageTraceInOrder(InfoStage, ps, 0);
    StageTraceInOrder(PropertyStage, ps, 0);
    StageTraceInOrder(CommandStage, ps, 0);
    InOrderAppend(t0, t1, InfoStage);
    InOrderAppend(t0 + t1, t2, PropertyStage);
    InOrderAppend(t0 + t1 + t2, t3, CommandStage);
    StageTraceExact(ErrorStage, ps, 0, x);
    StageTraceExact(InfoStage, ps, 0, x);
    StageTraceExact(PropertyStage, ps, 0, x);
    StageTraceExact(CommandStage, ps, 0, x);
  }

  /** The result of one session message: the session after it, the return
      code, the handler calls in order, and whether the batch of completions
      ran. */
  datatype Handled = Handled(inst: Inst, rc: Rc, trace: seq<(Stage, nat)>, completed: bool)

  /** __handle_session_response. The frame information is cleared, the four
      passes run, and if any packet was a buffer command the returned
      buffers are completed towards the client. The frame information is
      cleared again unless that completion failed. The return code is the
      completion's, or else that of the last handler called. */
  function HandleSessionMessage(inst: Inst, ps: seq<Packet>, env: Env): (r: Handled)
    requires AllWellFormed(ps)
    ensures r.trace == ExpectedTrace(ps)
    ensures r.completed <==> HasBufferCommand(ps)
    ensures inst.errored ==> r.inst.errored
    ensures (exists i :: 0 <= i < |ps| && HasFlag(ps[i].flags, FW_FLAGS_SESSION_ERROR)) ==> r.inst.errored
    ensures !r.completed || r.rc == Ok ==> r.inst.frame == EmptyFrameInfo
    ensures r.completed && r.rc == Ok ==>
      Settled(r.inst.input) && Settled(r.inst.output) && Settled(r.inst.inputMeta) && Settled(r.inst.outputMeta)
    ensures r.trace == [] ==> r.rc == Ok
    ensures r.inst.cfg == inst.cfg
    ensures Invariant(inst) ==> Invariant(r.inst)
  {
    var a0 := Acc(inst.(frame := EmptyFrameInfo), Ok, false, []);
    var a := RunStages(SessionStages, a0, ps, env);
    SessionPasses(a0, ps, env);
    FinishMessage(a, env)
  }

  /** The end of __handle_session_response: complete the returned buffers
      if a buffer command asked for it, then clear the frame information
      unless that completion failed. */
  function FinishMessage(a: Acc, env: Env): (r: Handled)
    ensures r.trace == a.trace && r.completed == a.dequeue
    ensures !r.completed ==> r.rc == a.rc
    ensures a.inst.errored ==> r.inst.errored
    ensures !r.completed || r.rc == Ok ==> r.inst.frame == EmptyFrameInfo
    ensures r.completed && r.rc == Ok ==>
      Settled(r.inst.input) && Settled(r.inst.output) && Settled(r.inst.inputMeta) && Settled(r.inst.outputMeta)
    ensures r.inst.cfg == a.inst.cfg
    ensures Invariant(a.inst) ==> Invariant(r.inst)
  {
    if a.dequeue then
      var d := HandleDequeueBuffers(a.inst, env);
      if d.rc != Ok then Handled(d.inst, d.rc, a.trace, true)
      else Handled(d.inst.(frame := EmptyFrameInfo), Ok, a.trace, true)
    else Handled(a.inst.(frame := EmptyFrameInfo), a.rc, a.trace, false)
  }

  // ---- the core ----

  /** The state of the core this decoder updates: the open sessions by id,
      the id of the pending system-init command, whether the core reached
      the initialised state, the firmware version string, and how many
      times a system error tore the core down. */
  datatype Core = Core(
    sessions: map<u32, Inst>,
    sysInitId: u32,
    initialised: bool,
    fwVersion: seq<byte>,
    deinits: nat)

  /** The first packet that announces an input port-settings change. */
  function FindInputPsc(ps: seq<Packet>, j: nat): (found: bool)
    requires j <= |ps|
    decreases |ps| - j
    ensures found <==> exists i :: j <= i < |ps| && ps[i].ptype == CMD_SETTINGS_CHANGE && ps[i].port == PORT_BITSTREAM
  {
    if j == |ps| then false
    else if ps[j].ptype == CMD_SETTINGS_CHANGE && ps[j].port == PORT_BITSTREAM then true
    else FindInputPsc(ps, j + 1)
  }

  /** handle_session_response: a message for an unknown session is invalid.
      Before the passes, an input port-settings change anywhere in the
      message re-initialises the input subscription parameters. Only the
      addressed session changes. */
  function HandleSessionResponse(core: Core, sid: u32, ps: seq<Packet>, env: Env): (r: (Core, Rc))
    requires AllWellFormed(ps)
    ensures sid !in core.sessions ==> r == (core, EInval)
    ensures sid in core.sessions ==>
      && sid in r.0.sessions
      && r.0 == core.(sessions := core.sessions[sid := r.0.sessions[sid]])
      && r.0.sessions[sid].cfg == core.sessions[sid].cfg
      && ((exists i :: 0 <= i < |ps| && HasFlag(ps[i].flags, FW_FLAGS_SESSION_ERROR)) ==> r.0.sessions[sid].errored)
      && (Invariant(core.sessions[sid]) ==> Invariant(r.0.sessions[sid]))
  {
    if sid !in core.sessions then (core, EInval)
    else
      var inst := core.sessions[sid];
      var s := if FindInputPsc(ps, 0) then inst.(subcr := inst.subcr.(input := env.initInputSubcr)).Log(InputSubcrInitialised)
               else inst;
      var h := HandleSessionMessage(s, ps, env);
      (core.(sessions := core.sessions[sid := h.inst]), h.rc)
  }

  // ---- the system path ----

  /** handle_system_error: the core is torn down (msm_vidc_core_deinit);
      the handler itself always succeeds. */
  function HandleSystemError(core: Core): (c: Core)
    ensures c == core.(deinits := core.deinits + 1)
  {
    core.(deinits := core.deinits + 1)
  }

  /** handle_system_init: a successful response to the pending init command
      moves the core to the initialised state; anything else is ignored. */
  function HandleSystemInit(core: Core, p: Packet): (c: Core)
    ensures c == core.(initialised := c.initialised)
    ensures c.initialised <==>
      core.initialised || (HasFlag(p.flags, FW_FLAGS_SUCCESS) && p.packetId == core.sysInitId)
  {
    if !HasFlag(p.flags, FW_FLAGS_SUCCESS) then core
    else if p.packetId != core.sysInitId then core
    else core.(initialised := true)
  }

  /** The passes of handle_system_response, in order. */
  datatype SysStage = SysErrorStage | SysPropertyStage | SysInitStage

  function SysRange(k: SysStage): Range
  {
    match k
    case SysErrorStage => SystemErrorRange
    case SysPropertyStage => PropRange
    case SysInitStage => CmdRange
  }

  const SystemStages: seq<SysStage> := [SysErrorStage, SysPropertyStage, SysInitStage]

  /** The state across the system passes; `stop` is the jump to the exit. */
  datatype SysAcc = SysAcc(core: Core, rc: Rc, stop: bool)

  /** A system error reported for the packet: by its flag, or, in the first
      pass, by its type. */
  predicate SystemErrorAt(k: SysStage, p: Packet)
  {
    HasFlag(p.flags, FW_FLAGS_SYSTEM_ERROR) || (k == SysErrorStage && SystemErrorRange.Contains(p.ptype))
  }

  /** One packet of one system pass. A packet flagged as a system error is
      handled as one and ends the message; a packet in the pass's range
      goes to its handler, and a failure ends the message, as does anything
      handled in the first pass. */
  function SysStep(k: SysStage, a: SysAcc, p: Packet): (b: SysAcc)
    requires WellFormed(p) && !a.stop
    ensures SystemErrorAt(k, p) ==> b == SysAcc(HandleSystemError(a.core), Ok, true)
    ensures !SystemErrorAt(k, p) ==> b.core.deinits == a.core.deinits
    ensures !SysRange(k).Contains(p.ptype) && !HasFlag(p.flags, FW_FLAGS_SYSTEM_ERROR) ==> b == a
    ensures b.core.sessions == a.core.sessions
  {
    if HasFlag(p.flags, FW_FLAGS_SYSTEM_ERROR) then SysAcc(HandleSystemError(a.core), Ok, true)
    else if !SysRange(k).Contains(p.ptype) then a
    else
      match k
      case SysErrorStage => SysAcc(HandleSystemError(a.core), Ok, true)
      case SysPropertyStage =>
        var (v, rc) := HandleSystemProperty(a.core.fwVersion, p);
        SysAcc(a.core.(fwVersion := v), rc, rc != Ok)
      case SysInitStage => SysAcc(HandleSystemInit(a.core, p), Ok, false)
  }

  /** The inner loop of one system pass, over packets `j` onwards, until
      something ends the message. */
  function SysRunStage(k: SysStage, a: SysAcc, ps: seq<Packet>, j: nat): (b: SysAcc)
    requires j <= |ps| && AllWellFormed(ps)
    decreases |ps| - j
    ensures a.stop ==> b == a
    ensures !a.stop && (forall i :: j <= i < |ps| ==> !SystemErrorAt(k, ps[i])) ==> b.core.deinits == a.core.deinits
    ensures !a.stop && (exists i :: j <= i < |ps| && SystemErrorAt(k, ps[i])) && k == SysErrorStage ==>
      b == SysAcc(HandleSystemError(a.core), Ok, true)
    ensures b.core.sessions == a.core.sessions
  {
    if a.stop || j == |ps| then a
    else SysRunStage(k, SysStep(k, a, ps[j]), ps, j + 1)
  }

  function SysRunStages(ks: seq<SysStage>, a: SysAcc, ps: seq<Packet>): (b: SysAcc)
    requires AllWellFormed(ps)
    ensures a.stop ==> b == a
    ensures b.core.sessions == a.core.sessions
  {
    if |ks| == 0 then a
    else SysRunStages(ks[1..], SysRunStage(ks[0], a, ps, 0), ps)
  }

  /** handle_system_response. */
  function HandleSystemResponse(core: Core, ps: seq<Packet>): (r: (Core, Rc))
    requires AllWellFormed(ps)
    ensures r.0.sessions == core.sessions
  {
    var b := SysRunStages(SystemStages, SysAcc(core, Ok, false), ps);
    assert SystemStages[1..] == [SysPropertyStage, SysInitStage];
    assert SystemStages[1..][1..] == [SysInitStage];
    (b.core, b.rc)
  }

  /** A system error anywhere in a core message, flagged or by type, tears
      the core down exactly once, succeeds, and stops the message: no
      property or init response in it takes effect. */
  lemma SystemErrorStopsMessage(core: Core, ps: seq<Packet>)
    requires AllWellFormed(ps)
    requires exists i :: 0 <= i < |ps| && SystemErrorAt(SysErrorStage, ps[i])
    ensures HandleSystemResponse(core, ps) == (HandleSystemError(core), Ok)
  {
    assert SystemStages[1..] == [SysPropertyStage, SysInitStage];
    assert SystemStages[1..][1..] == [SysInitStage];
  }

  /** A successful IMAGE_VERSION property replaces the version; anything
      else leaves it. */
  function ReadVersion(v: seq<byte>, p: Packet): seq<byte>
    requires WellFormed(p)
  {
    if p.ptype == PROP_IMAGE_VERSION && ImageVersion(p).Some? then ImageVersion(p).value else v
  }

  /** The version left by packets `j` to `k`: the last IMAGE_VERSION among
      them read successfully, or `v` where none was. */
  function VersionsRead(v: seq<byte>, ps: seq<Packet>, j: nat, k: nat): (r: seq<byte>)
    requires j <= k <= |ps| && AllWellFormed(ps)
    decreases k - j
    ensures (forall i :: j <= i < k ==> ReadVersion(v, ps[i]) == v) ==> r == v
    ensures r == v || exists i :: j <= i < k && ps[i].ptype == PROP_IMAGE_VERSION && ImageVersion(ps[i]) == Some(r)
  {
    if j == k then v else VersionsRead(ReadVersion(v, ps[j]), ps, j + 1, k)
  }

  /** An IMAGE_VERSION property whose payload is too short to read. */
  predicate BadVersion(p: Packet)
    requires WellFormed(p)
  {
    p.ptype == PROP_IMAGE_VERSION && ImageVersion(p).None?
  }

  /** A successful response to the pending init command. */
  predicate InitAck(p: Packet, sysInitId: u32)
  {
    CmdRange.Contains(p.ptype) && HasFlag(p.flags, FW_FLAGS_SUCCESS) && p.packetId == sysInitId
  }

  /** No packet of the message reports a system error, by flag or by type. */
  predicate NoSystemError(ps: seq<Packet>)
  {
    forall i :: 0 <= i < |ps| ==> !SystemErrorAt(SysErrorStage, ps[i])
  }

  lemma {:induction false} ErrorPassIdle(a: SysAcc, ps: seq<Packet>, j: nat)
    requires j <= |ps| && AllWellFormed(ps) && NoSystemError(ps) && !a.stop
    ensures SysRunStage(SysErrorStage, a, ps, j) == a
    decreases |ps| - j
  {
    if j < |ps| {
      assert !SystemErrorAt(SysErrorStage, ps[j]);
      ErrorPassIdle(a, ps, j + 1);
    }
  }

  /** One packet of the property pass, in a message without system errors:
      a readable or non-version packet updates the version and goes on, an
      unreadable IMAGE_VERSION stops with -EINVAL. */
  lemma PropertyStep(a: SysAcc, p: Packet)
    requires WellFormed(p) && !SystemErrorAt(SysErrorStage, p) && !a.stop && a.rc == Ok
    ensures SysStep(SysPropertyStage, a, p) ==
      if BadVersion(p) then SysAcc(a.core, EInval, true)
      else SysAcc(a.core.(fwVersion := ReadVersion(a.core.fwVersion, p)), Ok, false)
  {
    assert PropRange.Contains(PROP_IMAGE_VERSION);
  }

  /** The property pass over packets `j` onwards, where `k` is the first
      unreadable IMAGE_VERSION (or the end): the versions before `k` are
      read, and an unreadable one ends the message with -EINVAL. */
  lemma {:induction false} PropertyPass(a: SysAcc, ps: seq<Packet>, j: nat, k: nat)
    requires j <= k <= |ps| && AllWellFormed(ps) && NoSystemError(ps)
    requires !a.stop && a.rc == Ok
    requires forall i :: j <= i < k ==> !BadVersion(ps[i])
    requires k == |ps| || BadVersion(ps[k])
    ensures SysRunStage(SysPropertyStage, a, ps, j) ==
      SysAcc(a.core.(fwVersion := VersionsRead(a.core.fwVersion, ps, j, k)), if k == |ps| then Ok else EInval, k < |ps|)
    decreases k - j
  {
    if j == k {
      if k < |ps| {
        PropertyStep(a, ps[k]);
      }
    } else {
      PropertyStep(a, ps[j]);
      var b := SysStep(SysPropertyStage, a, ps[j]);
      PropertyPass(b, ps, j + 1, k);
    }
  }

  /** The init pass over packets `j` onwards marks the core initialised
      exactly when one of them acknowledges the pending init command. */
  lemma {:induction false} InitPass(a: SysAcc, ps: seq<Packet>, j: nat)
    requires j <= |ps| && AllWellFormed(ps) && NoSystemError(ps) && !a.stop && a.rc == Ok
    ensures SysRunStage(SysInitStage, a, ps, j) ==
      SysAcc(a.core.(initialised := a.core.initialised || exists i :: j <= i < |ps| && InitAck(ps[i], a.core.sysInitId)), Ok, false)
    decreases |ps| - j
  {
    if j < |ps| {
      assert !SystemErrorAt(SysErrorStage, ps[j]);
      var b := SysStep(SysInitStage, a, ps[j]);
      assert b == SysAcc(a.core.(initialised := a.core.initialised || InitAck(ps[j], a.core.sysInitId)), Ok, false);
      InitPass(b, ps, j + 1);
      assert (exists i :: j <= i < |ps| && InitAck(ps[i], a.core.sysInitId)) <==>
        InitAck(ps[j], a.core.sysInitId) || exists i :: j + 1 <= i < |ps| && InitAck(ps[i], a.core.sysInitId);
    }
  }

  /** A core message without a system error: the stored version is the
      last IMAGE_VERSION read successfully before the first unreadable one.
      An unreadable one returns -EINVAL and skips the init pass; otherwise
      the core becomes initialised exactly when a SUCCESS response to the
      pending init command arrives. Nothing is torn down. */
  lemma {:induction false} SystemMessageWithoutError(core: Core, ps: seq<Packet>, k: nat)
    requires AllWellFormed(ps) && NoSystemError(ps)
    requires k <= |ps| && (forall i :: 0 <= i < k ==> !BadVersion(ps[i])) && (k == |ps| || BadVersion(ps[k]))
    ensures k == |ps| ==>
      var acked := exists i :: 0 <= i < |ps| && InitAck(ps[i], core.sysInitId);
      var v := VersionsRead(core.fwVersion, ps, 0, k);
      HandleSystemResponse(core, ps) == (core.(fwVersion := v, initialised := core.initialised || acked), Ok)
    ensures k < |ps| ==>
      HandleSystemResponse(core, ps) == (core.(fwVersion := VersionsRead(core.fwVersion, ps, 0, k)), EInval)
  {
    var a := SysAcc(core, Ok, false);
    ErrorPassIdle(a, ps, 0);
    PropertyPass(a, ps, 0, k);
    var b := SysRunStage(SysPropertyStage, a, ps, 0);
    var c := SysRunStage(SysInitStage, b, ps, 0);
    assert SystemStages[1..] == [SysPropertyStage, SysInitStage];
    assert [SysPropertyStage, SysInitStage][1..] == [SysInitStage];
    assert SysRunStages(SystemStages, a, ps) == SysRunStages([SysInitStage], b, ps);
    assert SysRunStages([SysInitStage], b, ps) == SysRunStages([], c, ps) == c;
    if k == |ps| {
      InitPass(b, ps, 0);
    }
  }

  // ---- the entry point ----

  /** handle_response. A message that fails validation is handled as a
      system error; otherwise session id 0 addresses the core and any other
      id a session. */
  function HandleResponse(core: Core, buf: seq<byte>, env: Env): (r: (Core, Rc))
    requires |buf| >= HEADER_SIZE
    ensures ValidateHeader(buf).None? ==> r == (HandleSystemError(core), Ok)
    ensures ValidateHeader(buf).Some? && SessionId(buf) == 0 ==> r.0.sessions == core.sessions
    ensures ValidateHeader(buf).Some? && SessionId(buf) != 0 ==>
      var sid := SessionId(buf);
      && (sid !in core.sessions ==> r == (core, EInval))
      && (sid in core.sessions ==>
            && sid in r.0.sessions
            && r.0 == core.(sessions := core.sessions[sid := r.0.sessions[sid]])
            && (Invariant(core.sessions[sid]) ==> Invariant(r.0.sessions[sid])))
  {
    match ValidateHeader(buf)
    case None => (HandleSystemError(core), Ok)
    case Some(offs) =>
      var ps := DecodePackets(buf, offs);
      if SessionId(buf) == 0 then HandleSystemResponse(core, ps)
      else HandleSessionResponse(core, SessionId(buf), ps, env)
  }

  /** Every session keeps its invariant across any message. */
  lemma ResponsePreservesInvariant(core: Core, buf: seq<byte>, env: Env)
    requires |buf| >= HEADER_SIZE
    requires forall sid :: sid in core.sessions ==> Invariant(core.sessions[sid])
    ensures var c := HandleResponse(core, buf, env).0;
      forall sid :: sid in c.sessions ==> Invariant(c.sessions[sid])
  {
  }
}
