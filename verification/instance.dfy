/** The per-session state the response decoder reads and updates: tracked
    buffers with their attribute sets, the read-only list, the per-message
    frame info, the subscription parameters, the error state, and a log of
    the calls made to collaborators outside this core. */
module Instance {
  import opened Common
  import opened Hfi
  import opened Wire

  /** Buffer attributes (MSM_VIDC_ATTR_*). */
  datatype Attr = Queued | Dequeued | BufferDone | ReadOnly | PendingRelease | ReleaseEligible

  /** Driver-visible buffer flags (MSM_VIDC_BUF_FLAG_*). */
  datatype DriverFlag = Keyframe | PFrame | BFrame | ErrorFlag | CodecConfig | LastFlag

  /** A tracked buffer (struct msm_vidc_buffer), reduced to the fields this
      core reads or writes. */
  datatype Buf = Buf(
    index: u32,
    deviceAddr: u64,
    dataOffset: u32,
    dataSize: u32,
    timestamp: u64,
    attr: set<Attr>,
    flags: set<DriverFlag>)

  /** The four client-visible buffer lists. */
  datatype BufKind = InputK | OutputK | InputMetaK | OutputMetaK

  /** Firmware-managed scratch buffer lists, keyed by kind. */
  datatype InternalKind = BinK | ArpK | ComvK | NonComvK | LineK | DpbK | PersistK | VpssK | PartialDataK

  datatype Domain = Encoder | Decoder | NoDomain
  datatype Codec = H264 | Hevc | Vp9 | Av1 | Heic | OtherCodec
  datatype FenceType = FenceNone | SynxV2Fence | SwFence | OtherFence
  datatype Entropy = Cavlc | Cabac

  /** Session configuration the handlers consult but never change. */
  datatype Config = Config(
    domain: Domain,
    codec: Codec,
    isImage: bool,
    metaBufTag: bool,          // capabilities[META_BUF_TAG] is non-zero
    lastFlagEvent: bool,       // capabilities[LAST_FLAG_EVENT_ENABLE] is non-zero
    superBuffer: bool,         // msm_vidc_is_super_buffer
    superFrame: u32,           // capabilities[SUPER_FRAME]
    fenceType: FenceType,      // capabilities[OUTBUF_FENCE_TYPE]
    fenceMetaEnabled: bool,    // is_meta_rx_inp_enabled(META_OUTBUF_FENCE)
    inputMetaEnabled: bool,
    outputMetaEnabled: bool,
    hfiRcType: u32,
    dpbSize: nat)              // inst->buffers.dpb.size

  /** struct msm_vidc_hfi_frame_info: what the packets of one message said
      about the frame being returned. */
  datatype FrameInfo = FrameInfo(
    pictureType: Flags,
    noOutput: bool,
    subframeInput: bool,
    cr: u32,
    cf: u32,
    dataCorrupt: bool,
    overflow: bool,
    fenceId: u32,
    fenceError: bool,
    av1TileRowsColumns: u32,
    av1NonUniformTileSpacing: bool)

  const EmptyFrameInfo := FrameInfo(0, false, false, 0, 0, false, false, 0, false, 0, false)

  /** The driver's port numbering (enum msm_vidc_port_type) as far as the
      property path uses it; `MaxPort` is the "no such port" answer. */
  datatype DrvPort = InputPort | OutputPort | PortNone | MaxPort

  /** Fields of struct msm_vidc_subscription_params. */
  datatype SubcrField =
    | BitstreamResolution | CropOffset0 | CropOffset1 | BitDepth | CodedFrames
    | FwMinCount | PicOrderCnt | ColorInfo | Profile | Level | Tier
    | Av1FilmGrainPresent | Av1SuperBlockEnabled | MaxNumReorderFrames

  type SubcrParams = map<SubcrField, u32>

  /** inst->subcr_params[], one entry per addressable port. */
  datatype SubcrTable = SubcrTable(input: SubcrParams, output: SubcrParams, none: SubcrParams) {
    function Get(p: DrvPort): SubcrParams
    {
      match p
      case InputPort => input
      case OutputPort => output
      case _ => none
    }

    function Set(p: DrvPort, v: SubcrParams): (t: SubcrTable)
      requires p != MaxPort
      ensures t.Get(p) == v
      ensures forall q :: q != p && q != MaxPort ==> t.Get(q) == Get(q)
    {
      match p
      case InputPort => this.(input := v)
      case OutputPort => this.(output := v)
      case _ => this.(none := v)
    }
  }

  /** Decoder telemetry the power model consumes (inst->power). */
  datatype Power = Power(fwCr: u32, fwCf: u32, av1TileRows: u32, av1TileColumns: u32)

  /** Calls into collaborators outside this core, in the order made. */
  datatype Event =
    | SessionCloseSignalled
    | StopDone(inputPort: bool)
    | DrainDone
    | DrainLastProcessed
    | PscLastProcessed
    | InputPscStateChanged
    | InputPscHandled
    | OutputPscHandled
    | InputSubcrInitialised
    | InternalDestroyed(ikind: InternalKind, deviceAddr: u64)
    | BufferDoneSent(kind: BufKind, index: u32)
    | FenceSignalled(id: u32)
    | FenceDestroyed(id: u32)

  datatype Inst = Inst(
    cfg: Config,
    input: seq<Buf>,
    output: seq<Buf>,
    inputMeta: seq<Buf>,
    outputMeta: seq<Buf>,
    readOnly: seq<Buf>,
    internal: map<InternalKind, seq<Buf>>,
    frame: FrameInfo,
    subcr: SubcrTable,
    errored: bool,            // the session is in MSM_VIDC_ERROR
    hasBframe: bool,
    iframe: bool,
    entropy: Entropy,
    power: Power,
    dpbList: seq<byte>,       // inst->dpb_list_payload; bytes past its end read as zero
    events: seq<Event>)
  {
    predicate IsDecode() { cfg.domain == Decoder }
    predicate IsEncode() { cfg.domain == Encoder }

    function List(k: BufKind): seq<Buf>
    {
      match k
      case InputK => input
      case OutputK => output
      case InputMetaK => inputMeta
      case OutputMetaK => outputMeta
    }

    function WithList(k: BufKind, bs: seq<Buf>): (r: Inst)
      ensures r.List(k) == bs
      ensures forall k' :: k' != k ==> r.List(k') == List(k')
      ensures r.readOnly == readOnly && r.internal == internal && r.events == events
      ensures r.cfg == cfg && r.errored == errored && r.frame == frame
    {
      match k
      case InputK => this.(input := bs)
      case OutputK => this.(output := bs)
      case InputMetaK => this.(inputMeta := bs)
      case OutputMetaK => this.(outputMeta := bs)
    }

    function Internal(k: InternalKind): seq<Buf>
    {
      if k in internal then internal[k] else []
    }

    /** msm_vidc_change_state(inst, MSM_VIDC_ERROR, ...). */
    function Fail(): Inst
    {
      this.(errored := true)
    }

    function Log(e: Event): Inst
    {
      this.(events := events + [e])
    }
  }

  /** A handler's result: the session after it, and its return code. */
  datatype Out = Out(inst: Inst, rc: Rc)

  /** A returned buffer: no longer queued, now dequeued. */
  function Dequeue(b: Buf): (d: Buf)
    ensures Queued !in d.attr && Dequeued in d.attr
    ensures d.attr - {Queued, Dequeued} == b.attr - {Queued, Dequeued}
  {
    b.(attr := b.attr - {Queued} + {Dequeued})
  }

  /** A buffer is never queued to the firmware and dequeued from it at once. */
  predicate Sane(b: Buf)
  {
    !(Queued in b.attr && Dequeued in b.attr)
  }

  predicate ListSane(bs: seq<Buf>)
  {
    forall i :: 0 <= i < |bs| ==> Sane(bs[i])
  }

  /** The session invariant: every client buffer is sane and the read-only
      list holds each device address at most once. */
  predicate Invariant(inst: Inst)
  {
    && ListSane(inst.input) && ListSane(inst.output)
    && ListSane(inst.inputMeta) && ListSane(inst.outputMeta)
    && RoUnique(inst.readOnly)
  }

  /** Whether a collaborator allows an input port-settings change now. */
  datatype Allow = Disallow | AllowNow | Defer

  /** What the collaborators outside this core answer. Each call of the same
      collaborator within one message gets the same answer. */
  datatype Env = Env(
    allowPscLast: bool,            // msm_vidc_allow_psc_last_flag
    pscLastRc: Rc,                 // msm_vidc_process_psc_last_flag
    allowDrainLast: bool,          // msm_vidc_allow_drain_last_flag
    drainLastRc: Rc,               // msm_vidc_process_drain_last_flag
    inputPscAllow: Allow,          // msm_vidc_allow_input_psc
    inputPscStateRc: Rc,           // msm_vidc_state_change_input_psc
    inputPscRc: Rc,                // msm_vdec_input_port_settings_change
    outputPscRc: Rc,               // msm_vdec_output_port_settings_change
    stopDoneRc: Rc,                // msm_vidc_process_stop_done
    drainDoneRc: Rc,               // msm_vidc_process_drain_done
    poolAllocOk: bool,             // msm_vidc_pool_alloc succeeds
    inputFrameSize: u32,           // buffer_size session op, input buffers
    inputMetaFrameSize: u32,       // buffer_size session op, input metadata buffers
    cacheFails: set<(BufKind, u32)>,  // msm_vidc_dqbuf_cache_operation fails for these
    vb2Rc: Rc,                     // msm_vidc_vb2_buffer_done
    fenceSignalRc: Rc,             // fence_signal
    initInputSubcr: SubcrParams)   // what msm_vdec_init_input_subcr_params stores

  /** No two read-only entries share a device address. */
  predicate RoUnique(ro: seq<Buf>)
  {
    forall i, j :: 0 <= i < j < |ro| ==> ro[i].deviceAddr != ro[j].deviceAddr
  }

  /** The read-only list holds an entry for `addr`. */
  predicate RoHas(ro: seq<Buf>, addr: u64)
  {
    exists i :: 0 <= i < |ro| && ro[i].deviceAddr == addr
  }
}
