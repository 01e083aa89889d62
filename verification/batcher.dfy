/** Client notification at the end of a message (venus_hfi_response.c,
    is_metabuffer_dequeued, msm_vidc_check_meta_buffers and
    handle_dequeue_buffers). Handlers only mark buffers dequeued; here every
    dequeued buffer is completed towards the client once, metadata before
    data and input before output. */
module Batcher {
  import opened Common
  import opened Instance
  import opened Lookup

  /** The metadata list that accompanies a data list, when metadata is on. */
  function MetaKind(cfg: Config, k: BufKind): Option<BufKind>
  {
    if k == InputK && cfg.inputMetaEnabled then Some(InputMetaK)
    else if k == OutputK && cfg.outputMetaEnabled then Some(OutputMetaK)
    else None
  }

  /** is_metabuffer_dequeued: the metadata buffer with the same index has
      been returned too, or was already completed. */
  function MetaReturned(inst: Inst, k: BufKind, b: Buf): (r: bool)
    ensures r <==> match MetaKind(inst.cfg, k)
      case None => true
      case Some(mk) => exists m :: 0 <= m < |inst.List(mk)| && Matches(inst.List(mk)[m], ReturnedMeta(b.index))
  {
    match MetaKind(inst.cfg, k)
    case None => true
    case Some(mk) => Find(inst.List(mk), ReturnedMeta(b.index)).Some?
  }

  /** Every dequeued buffer of `bs` from position `i` on has its metadata. */
  function MetaCheckFrom(inst: Inst, k: BufKind, bs: seq<Buf>, i: nat): (r: bool)
    requires i <= |bs|
    decreases |bs| - i
    ensures r <==> forall j :: i <= j < |bs| && Dequeued in bs[j].attr ==> MetaReturned(inst, k, bs[j])
  {
    if i == |bs| then true
    else if Dequeued in bs[i].attr && !MetaReturned(inst, k, bs[i]) then false
    else MetaCheckFrom(inst, k, bs, i + 1)
  }

  /** msm_vidc_check_meta_buffers: no data buffer is completed before its
      metadata buffer has come back. */
  predicate MetaComplete(inst: Inst)
  {
    && (forall j :: 0 <= j < |inst.input| && Dequeued in inst.input[j].attr ==> MetaReturned(inst, InputK, inst.input[j]))
    && (forall j :: 0 <= j < |inst.output| && Dequeued in inst.output[j].attr ==> MetaReturned(inst, OutputK, inst.output[j]))
  }

  function CheckMetaBuffers(inst: Inst): (rc: Rc)
    ensures rc == Ok <==> MetaComplete(inst)
    ensures rc != Ok ==> rc == EInval
  {
    if MetaCheckFrom(inst, InputK, inst.input, 0) && MetaCheckFrom(inst, OutputK, inst.output, 0) then Ok
    else EInval
  }

  /** The result of completing one list: the list after, the notifications
      sent, and whether a cache operation failed and stopped the walk. */
  datatype Pass = Pass(bufs: seq<Buf>, sent: seq<Event>, failed: bool)

  /** A buffer that is due: returned by the firmware and not yet completed. */
  predicate Due(b: Buf)
  {
    Dequeued in b.attr && BufferDone !in b.attr
  }

  /** The notifications owed for a list: one per due buffer, in list order. */
  function Owed(k: BufKind, bs: seq<Buf>): (es: seq<Event>)
    ensures |es| <= |bs|
  {
    if |bs| == 0 then []
    else (if Due(bs[0]) then [BufferDoneSent(k, bs[0].index)] else []) + Owed(k, bs[1..])
  }

  /** Complete one buffer. */
  function Complete(b: Buf): (c: Buf)
    ensures Dequeued !in c.attr && (BufferDone in c.attr <==> BufferDone in b.attr || Dequeued in b.attr)
    ensures c.attr - {Dequeued, BufferDone} == b.attr - {Dequeued, BufferDone}
    ensures c == b.(attr := c.attr)
  {
    if Dequeued !in b.attr then b
    else if BufferDone in b.attr then b.(attr := b.attr - {Dequeued})
    else b.(attr := b.attr - {Dequeued} + {BufferDone})
  }

  /** The inner loop of handle_dequeue_buffers over one list. A due buffer
      is marked BUFFER_DONE before its cache operation; if that operation
      fails the walk stops there and the buffer is never handed back. */
  function CompleteList(k: BufKind, bs: seq<Buf>, env: Env): (p: Pass)
    decreases |bs|
    ensures |p.bufs| == |bs|
    ensures !p.failed ==> p.sent == Owed(k, bs)
    ensures !p.failed ==> forall j :: 0 <= j < |bs| ==> p.bufs[j] == Complete(bs[j])
    ensures ListSane(bs) ==> ListSane(p.bufs)
  {
    if |bs| == 0 then Pass([], [], false)
    else
      var b := bs[0];
      if Due(b) && (k, b.index) in env.cacheFails then
        var r := [Complete(b)] + bs[1..];
        assert forall j :: 1 <= j < |bs| ==> r[j] == bs[j];
        Pass(r, [], true)
      else
        var rest := CompleteList(k, bs[1..], env);
        var r := [Complete(b)] + rest.bufs;
        assert forall j :: 1 <= j < |bs| ==> r[j] == rest.bufs[j - 1];
        assert ListSane(bs) ==> ListSane(bs[1..]);
        Pass(r, (if Due(b) then [BufferDoneSent(k, b.index)] else []) + rest.sent, rest.failed)
  }

  /** Every entry of `after` is the completed entry of `before`. */
  predicate AllCompleted(before: seq<Buf>, after: seq<Buf>)
  {
    |after| == |before| && forall j :: 0 <= j < |before| ==> after[j] == Complete(before[j])
  }

  /** The lists in the order of handle_dequeue_buffers: input metadata,
      input, output metadata, output. A failed cache operation stops the
      batch with its error (reported as -EINVAL); the lists not yet reached
      are left alone. */
  function CompleteAll(inst: Inst, env: Env): (r: Out)
    ensures r.rc == Ok || r.rc == EInval
    ensures |r.inst.input| == |inst.input| && |r.inst.output| == |inst.output|
    ensures |r.inst.inputMeta| == |inst.inputMeta| && |r.inst.outputMeta| == |inst.outputMeta|
    ensures r.rc == Ok ==>
      && AllCompleted(inst.inputMeta, r.inst.inputMeta) && AllCompleted(inst.input, r.inst.input)
      && AllCompleted(inst.outputMeta, r.inst.outputMeta) && AllCompleted(inst.output, r.inst.output)
    ensures r.rc == Ok ==>
      r.inst.events == inst.events + Owed(InputMetaK, inst.inputMeta) + Owed(InputK, inst.input)
                                   + Owed(OutputMetaK, inst.outputMeta) + Owed(OutputK, inst.output)
    ensures r.inst == inst.(input := r.inst.input, output := r.inst.output, inputMeta := r.inst.inputMeta,
                            outputMeta := r.inst.outputMeta, events := r.inst.events)
    ensures Invariant(inst) ==> Invariant(r.inst)
  {
    var p1 := CompleteList(InputMetaK, inst.inputMeta, env);
    var i1 := inst.(inputMeta := p1.bufs, events := inst.events + p1.sent);
    if p1.failed then Out(i1, EInval)
    else
      var p2 := CompleteList(InputK, inst.input, env);
      var i2 := i1.(input := p2.bufs, events := i1.events + p2.sent);
      if p2.failed then Out(i2, EInval)
      else
        var p3 := CompleteList(OutputMetaK, inst.outputMeta, env);
        var i3 := i2.(outputMeta := p3.bufs, events := i2.events + p3.sent);
        if p3.failed then Out(i3, EInval)
        else
          var p4 := CompleteList(OutputK, inst.output, env);
          var i4 := i3.(output := p4.bufs, events := i3.events + p4.sent);
          if p4.failed then Out(i4, EInval)
          else Out(i4, Ok)
  }

  /** handle_dequeue_buffers. */
  function HandleDequeueBuffers(inst: Inst, env: Env): (r: Out)
    ensures !MetaComplete(inst) ==> r == Out(inst, EInval)
    ensures MetaComplete(inst) ==> r == CompleteAll(inst, env)
    ensures r.inst == inst.(input := r.inst.input, output := r.inst.output, inputMeta := r.inst.inputMeta,
                            outputMeta := r.inst.outputMeta, events := r.inst.events)
    ensures Invariant(inst) ==> Invariant(r.inst)
  {
    var rc := CheckMetaBuffers(inst);
    if rc != Ok then Out(inst, rc)
    else CompleteAll(inst, env)
  }

  // ---- properties ----

  /** No buffer of the list is waiting to be completed. */
  predicate Settled(bs: seq<Buf>)
  {
    forall j :: 0 <= j < |bs| ==> Dequeued !in bs[j].attr
  }

  lemma {:induction false} SettledListIsQuiet(k: BufKind, bs: seq<Buf>, env: Env)
    requires Settled(bs)
    ensures CompleteList(k, bs, env) == Pass(bs, [], false)
    decreases |bs|
  {
    if |bs| > 0 {
      assert Settled(bs[1..]);
      SettledListIsQuiet(k, bs[1..], env);
      assert [bs[0]] + bs[1..] == bs;
    }
  }

  /** Completion is idempotent: once a list has been completed, completing
      it again changes nothing and notifies nobody, so the client hears of
      each returned buffer once, however often the firmware returns it. */
  lemma CompletionIdempotent(k: BufKind, bs: seq<Buf>, env: Env)
    requires !CompleteList(k, bs, env).failed
    ensures Settled(CompleteList(k, bs, env).bufs)
    ensures CompleteList(k, CompleteList(k, bs, env).bufs, env) == Pass(CompleteList(k, bs, env).bufs, [], false)
  {
    SettledListIsQuiet(k, CompleteList(k, bs, env).bufs, env);
  }

  /** A buffer the firmware returns a second time after its completion is
      not notified again: only due buffers are owed a notification. */
  lemma {:induction false} OwedOnlyDue(k: BufKind, bs: seq<Buf>)
    ensures forall e :: e in Owed(k, bs) ==>
      exists j :: 0 <= j < |bs| && Due(bs[j]) && e == BufferDoneSent(k, bs[j].index)
    decreases |bs|
  {
    if |bs| > 0 {
      OwedOnlyDue(k, bs[1..]);
      forall e | e in Owed(k, bs)
        ensures exists j :: 0 <= j < |bs| && Due(bs[j]) && e == BufferDoneSent(k, bs[j].index)
      {
        if Due(bs[0]) && e == BufferDoneSent(k, bs[0].index) {
        } else {
          var j :| 0 <= j < |bs[1..]| && Due(bs[1..][j]) && e == BufferDoneSent(k, bs[1..][j].index);
          assert bs[j + 1] == bs[1..][j];
        }
      }
    }
  }

  /** A failed cache operation loses the buffer: the walk stops at a due
      buffer whose cache operation failed; that buffer ends BUFFER_DONE and
      no longer dequeued, so no later message completes it, yet only the
      buffers before it were notified. */
  lemma {:induction false} CacheFailureLosesBuffer(k: BufKind, bs: seq<Buf>, env: Env)
    requires CompleteList(k, bs, env).failed
    ensures var p := CompleteList(k, bs, env);
      exists j ::
        && 0 <= j < |bs| && Due(bs[j]) && (k, bs[j].index) in env.cacheFails
        && p.bufs[j] == Complete(bs[j])
        && BufferDone in p.bufs[j].attr && Dequeued !in p.bufs[j].attr
        && p.sent == Owed(k, bs[..j])
    decreases |bs|
  {
    var p := CompleteList(k, bs, env);
    var b := bs[0];
    if Due(b) && (k, b.index) in env.cacheFails {
      assert bs[..0] == [];
      assert p.bufs[0] == Complete(b);
    } else {
      var rest := CompleteList(k, bs[1..], env);
      CacheFailureLosesBuffer(k, bs[1..], env);
      var j :|
        && 0 <= j < |bs[1..]| && Due(bs[1..][j]) && (k, bs[1..][j].index) in env.cacheFails
        && rest.bufs[j] == Complete(bs[1..][j])
        && BufferDone in rest.bufs[j].attr && Dequeued !in rest.bufs[j].attr
        && rest.sent == Owed(k, bs[1..][..j]);
      assert bs[..j + 1][1..] == bs[1..][..j];
      assert bs[..j + 1][0] == b;
      assert p.bufs[j + 1] == rest.bufs[j];
    }
  }
}
