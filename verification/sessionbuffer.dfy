/** Routing of a buffer command to its handler (venus_hfi_response.c,
    vidc_port_from_hfi, is_valid_hfi_port, is_valid_hfi_buffer_type and
    handle_session_buffer). A decoder reads bitstream and writes raw
    frames, an encoder the other way round; each (session, port) pair has a
    table from buffer type to handler, searched in order. */
module SessionBuffer {
  import opened Common
  import opened Hfi
  import opened Instance
  import opened Packets
  import opened BufHandlers

  /** vidc_port_from_hfi: the driver port an HFI port stands for. The
      bitstream port is the input of a decoder and the output of an
      encoder; an unknown port or domain maps to MAX_PORT. */
  function PortFromHfi(domain: Domain, hfiPort: u32): (p: DrvPort)
    ensures p == PortNone <==> domain != NoDomain && hfiPort == PORT_NONE
    ensures p == InputPort <==>
      (domain == Decoder && hfiPort == PORT_BITSTREAM) || (domain == Encoder && hfiPort == PORT_RAW)
    ensures p == OutputPort <==>
      (domain == Decoder && hfiPort == PORT_RAW) || (domain == Encoder && hfiPort == PORT_BITSTREAM)
  {
    match domain
    case Decoder =>
      if hfiPort == PORT_BITSTREAM then InputPort
      else if hfiPort == PORT_RAW then OutputPort
      else if hfiPort == PORT_NONE then PortNone
      else MaxPort
    case Encoder =>
      if hfiPort == PORT_RAW then InputPort
      else if hfiPort == PORT_BITSTREAM then OutputPort
      else if hfiPort == PORT_NONE then PortNone
      else MaxPort
    case NoDomain => MaxPort
  }

  /** The two data ports swap roles between decoder and encoder, and each
      data port is a data port in both. */
  lemma PortsSwapWithDomain(hfiPort: u32)
    requires hfiPort == PORT_BITSTREAM || hfiPort == PORT_RAW
    ensures PortFromHfi(Decoder, hfiPort) in {InputPort, OutputPort}
    ensures PortFromHfi(Encoder, hfiPort) in {InputPort, OutputPort}
    ensures PortFromHfi(Decoder, hfiPort) != PortFromHfi(Encoder, hfiPort)
  {
  }

  /** is_valid_hfi_buffer_type: the twelve buffer types the driver knows. */
  predicate ValidBufferType(btype: u32)
  {
    btype in {BUFFER_BITSTREAM, BUFFER_RAW, BUFFER_METADATA, BUFFER_BIN, BUFFER_ARP, BUFFER_COMV,
              BUFFER_NON_COMV, BUFFER_LINE, BUFFER_DPB, BUFFER_PERSIST, BUFFER_VPSS, BUFFER_PARTIAL_DATA}
  }

  /** The known buffer types are the client buffers and the internal ones. */
  lemma ValidTypesAreClientOrInternal(btype: u32)
    ensures ValidBufferType(btype) <==>
      btype in {BUFFER_BITSTREAM, BUFFER_RAW, BUFFER_METADATA} || InternalKindOf(btype).Some?
  {
  }

  /** is_valid_hfi_port, as written: PORT_NONE is singled out for every
      buffer type but ARP and PERSIST, and then every port other than the
      two data ports is refused anyway. */
  predicate ValidHfiPort(port: u32, btype: u32)
  {
    if port == PORT_NONE && btype != BUFFER_ARP && btype != BUFFER_PERSIST then false
    else if port != PORT_BITSTREAM && port != PORT_RAW then false
    else true
  }

  /** The exception for ARP and PERSIST buffers has no effect: a buffer
      command is accepted on the two data ports only, whatever its type. */
  lemma PortNoneAlwaysRejected(port: u32, btype: u32)
    ensures ValidHfiPort(port, btype) <==> port == PORT_BITSTREAM || port == PORT_RAW
    ensures !ValidHfiPort(PORT_NONE, BUFFER_ARP) && !ValidHfiPort(PORT_NONE, BUFFER_PERSIST)
  {
  }

  // ---- the handler tables ----

  datatype Handler = InputData | OutputData | InputMeta | OutputMeta | ReleaseInternal

  type HandlerTable = seq<(u32, Handler)>

  const EncInputTable: HandlerTable := [
    (BUFFER_METADATA, InputMeta), (BUFFER_RAW, InputData), (BUFFER_VPSS, ReleaseInternal)]
  const EncOutputTable: HandlerTable := [
    (BUFFER_METADATA, OutputMeta), (BUFFER_BITSTREAM, OutputData),
    (BUFFER_BIN, ReleaseInternal), (BUFFER_COMV, ReleaseInternal), (BUFFER_NON_COMV, ReleaseInternal),
    (BUFFER_LINE, ReleaseInternal), (BUFFER_ARP, ReleaseInternal), (BUFFER_DPB, ReleaseInternal)]
  const DecInputTable: HandlerTable := [
    (BUFFER_METADATA, InputMeta), (BUFFER_BITSTREAM, InputData),
    (BUFFER_BIN, ReleaseInternal), (BUFFER_COMV, ReleaseInternal), (BUFFER_NON_COMV, ReleaseInternal),
    (BUFFER_LINE, ReleaseInternal), (BUFFER_PERSIST, ReleaseInternal), (BUFFER_PARTIAL_DATA, ReleaseInternal)]
  const DecOutputTable: HandlerTable := [
    (BUFFER_METADATA, OutputMeta), (BUFFER_RAW, OutputData), (BUFFER_DPB, ReleaseInternal)]

  /** The table for a session and packet port; none for a session that is
      neither decoder nor encoder, or for a port that is not a data port. */
  function TableFor(domain: Domain, port: u32): (t: Option<HandlerTable>)
    ensures t.Some? <==> domain != NoDomain && (port == PORT_BITSTREAM || port == PORT_RAW)
  {
    match domain
    case Encoder =>
      if port == PORT_RAW then Some(EncInputTable)
      else if port == PORT_BITSTREAM then Some(EncOutputTable)
      else None
    case Decoder =>
      if port == PORT_BITSTREAM then Some(DecInputTable)
      else if port == PORT_RAW then Some(DecOutputTable)
      else None
    case NoDomain => None
  }

  /** The handler of the first entry for `btype`. */
  function LookupHandler(t: HandlerTable, btype: u32): (h: Option<Handler>)
    ensures h.None? <==> forall i :: 0 <= i < |t| ==> t[i].0 != btype
    ensures h.Some? ==> exists i :: 0 <= i < |t| && t[i] == (btype, h.value)
  {
    if |t| == 0 then None
    else if t[0].0 == btype then Some(t[0].1)
    else
      var h := LookupHandler(t[1..], btype);
      assert forall i :: 1 <= i < |t| ==> t[i] == t[1..][i - 1];
      h
  }

  /** The compressed side is the bitstream, the uncompressed side raw. */
  function DataType(domain: Domain, p: DrvPort): u32
  {
    if (domain == Decoder) == (p == InputPort) then BUFFER_BITSTREAM else BUFFER_RAW
  }

  /** The scratch buffers the firmware may hand back on a port. */
  function InternalTypes(domain: Domain, p: DrvPort): set<u32>
  {
    match (domain, p)
    case (Encoder, InputPort) => {BUFFER_VPSS}
    case (Encoder, OutputPort) => {BUFFER_BIN, BUFFER_COMV, BUFFER_NON_COMV, BUFFER_LINE, BUFFER_ARP, BUFFER_DPB}
    case (Decoder, InputPort) => {BUFFER_BIN, BUFFER_COMV, BUFFER_NON_COMV, BUFFER_LINE, BUFFER_PERSIST, BUFFER_PARTIAL_DATA}
    case (Decoder, OutputPort) => {BUFFER_DPB}
    case _ => {}
  }

  /** No table lists a buffer type twice. */
  predicate KeysDistinct(t: HandlerTable)
  {
    forall i, j :: 0 <= i < j < |t| ==> t[i].0 != t[j].0
  }

  /** In a table without repeated types the first-match search finds exactly
      the entries of the table. */
  lemma {:induction false} LookupIsMembership(t: HandlerTable, btype: u32, h: Handler)
    requires KeysDistinct(t)
    ensures LookupHandler(t, btype) == Some(h) <==> (btype, h) in t
    decreases |t|
  {
    if |t| > 0 {
      assert t == [t[0]] + t[1..];
      if t[0].0 == btype {
        if (btype, h) in t {
          var i :| 0 <= i < |t| && t[i] == (btype, h);
          assert i == 0;
        }
      } else {
        assert KeysDistinct(t[1..]) by {
          forall i, j | 0 <= i < j < |t[1..]| ensures t[1..][i].0 != t[1..][j].0 {
            assert t[1..][i] == t[i + 1] && t[1..][j] == t[j + 1];
          }
        }
        LookupIsMembership(t[1..], btype, h);
      }
    }
  }

  lemma TablesDistinct()
    ensures KeysDistinct(EncInputTable) && KeysDistinct(EncOutputTable)
    ensures KeysDistinct(DecInputTable) && KeysDistinct(DecOutputTable)
  {
  }

  /** The entries of a table, stated by the port it serves. */
  lemma TableMembership(domain: Domain, port: u32, btype: u32)
    requires TableFor(domain, port).Some?
    ensures var t := TableFor(domain, port).value; var dir := PortFromHfi(domain, port);
      && ((btype, InputData) in t <==> dir == InputPort && btype == DataType(domain, dir))
      && ((btype, OutputData) in t <==> dir == OutputPort && btype == DataType(domain, dir))
      && ((btype, InputMeta) in t <==> dir == InputPort && btype == BUFFER_METADATA)
      && ((btype, OutputMeta) in t <==> dir == OutputPort && btype == BUFFER_METADATA)
      && ((btype, ReleaseInternal) in t <==> btype in InternalTypes(domain, dir))
  {
  }

  /** The routing table sends each buffer type to the handler of the port it
      arrived on: the port's data buffers to its data handler, metadata to
      its metadata handler, and only the scratch buffers of that port to the
      release handler; any other type finds no handler. */
  lemma RoutesFollowDirection(domain: Domain, port: u32, btype: u32)
    requires TableFor(domain, port).Some?
    ensures var h := LookupHandler(TableFor(domain, port).value, btype); var dir := PortFromHfi(domain, port);
      && (h == Some(InputData) <==> dir == InputPort && btype == DataType(domain, dir))
      && (h == Some(OutputData) <==> dir == OutputPort && btype == DataType(domain, dir))
      && (h == Some(InputMeta) <==> dir == InputPort && btype == BUFFER_METADATA)
      && (h == Some(OutputMeta) <==> dir == OutputPort && btype == BUFFER_METADATA)
      && (h == Some(ReleaseInternal) <==> btype in InternalTypes(domain, dir))
  {
    var t := TableFor(domain, port).value;
    TablesDistinct();
    TableMembership(domain, port, btype);
    LookupIsMembership(t, btype, InputData);
    LookupIsMembership(t, btype, OutputData);
    LookupIsMembership(t, btype, InputMeta);
    LookupIsMembership(t, btype, OutputMeta);
    LookupIsMembership(t, btype, ReleaseInternal);
  }

  /** A buffer command the checks turn away before any handler runs: its
      payload is too short, or it names an unknown buffer type or a port
      that carries no buffers. */
  predicate Rejected(p: Packet)
  {
    p.payloadInfo != PAYLOAD_NONE &&
    (!HasPayload(p) || !ValidBufferType(DecodeBuffer(p).btype) || !ValidHfiPort(p.port, DecodeBuffer(p).btype))
  }

  function Dispatch(h: Handler, inst: Inst, hb: HfiBuffer, env: Env): (r: Out)
    ensures Invariant(inst) ==> Invariant(r.inst)
    ensures r.inst.cfg == inst.cfg
    ensures inst.errored ==> r.inst.errored
  {
    match h
    case InputData => HandleInputBuffer(inst, hb, env)
    case OutputData => HandleOutputBuffer(inst, hb, env)
    case InputMeta => HandleInputMetaBuffer(inst, hb, env)
    case OutputMeta => HandleOutputMetaBuffer(inst, hb)
    case ReleaseInternal => HandleReleaseInternal(inst, hb)
  }

  /** handle_session_buffer. A command without payload is ignored; one the
      checks reject puts the session in error but reports success; one that
      reaches no handler is invalid. */
  function HandleSessionBuffer(inst: Inst, p: Packet, env: Env): (r: Out)
    ensures p.payloadInfo == PAYLOAD_NONE ==> r == Out(inst, Ok)
    ensures Rejected(p) ==> r == Out(inst.Fail(), Ok)
    ensures p.payloadInfo != PAYLOAD_NONE && !Rejected(p) ==>
      var hb := DecodeBuffer(p);
      && (inst.cfg.domain == NoDomain ==> r == Out(inst, EInval))
      && (inst.cfg.domain != NoDomain ==>
            var h := LookupHandler(TableFor(inst.cfg.domain, p.port).value, hb.btype);
            && (h.None? ==> r == Out(inst, EInval))
            && (h.Some? ==> r == Dispatch(h.value, inst, hb, env)))
    ensures Invariant(inst) ==> Invariant(r.inst)
    ensures r.inst.cfg == inst.cfg
    ensures inst.errored ==> r.inst.errored
  {
    if p.payloadInfo == PAYLOAD_NONE then Out(inst, Ok)
    else if !HasPayload(p) then Out(inst.Fail(), Ok)
    else
      var hb := DecodeBuffer(p);
      if !ValidBufferType(hb.btype) then Out(inst.Fail(), Ok)
      else if !ValidHfiPort(p.port, hb.btype) then Out(inst.Fail(), Ok)
      else match TableFor(inst.cfg.domain, p.port)
        case None => Out(inst, EInval)
        case Some(t) =>
          match LookupHandler(t, hb.btype)
          case None => Out(inst, EInval)
          case Some(h) => Dispatch(h, inst, hb, env)
  }
}
