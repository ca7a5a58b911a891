/** Whenever the mock executor has nothing queued, every output is off: after a final segment, an underrun,
    an abort and a limit (mock_mcu/src/motion_executor.cpp:214-310, 455-481). */
module MockMotionSafety {
  import opened FixedWidth
  import opened MockMotion
  import opened MockMotionSorting
  import opened MockMotionEdges
  import opened MockMotionAdvance

  ghost predicate AllOff(axes: seq<Axis>) {
    forall i | 0 <= i < |axes| :: !axes[i].level && !axes[i].enabled
  }

  ghost predicate DistinctIds(axes: seq<Axis>) {
    forall i, j | 0 <= i < j < |axes| :: axes[i].config.resourceId != axes[j].config.resourceId
  }

  ghost predicate OffWhenEmpty(e: Executor) {
    DistinctIds(e.axes) && (e.queue == [] ==> AllOff(e.axes))
  }

  lemma DistinctSame(a: seq<Axis>, b: seq<Axis>)
    requires SameConfigs(a, b) && DistinctIds(a)
    ensures DistinctIds(b)
  {
  }

  // ---------------------------------------------------------------- the safe state

  /** An edge that lowers a STEP line or disables an axis. */
  predicate IsStop(x: Edge) {
    !x.level && x.signal != Direction
  }

  ghost predicate Stops(edges: seq<Edge>, axis: u32, signal: Signal) {
    exists x :: x in edges && x.axis == axis && x.signal == signal
  }

  function Stopped(axis: Axis, line: bool, driver: bool): Axis {
    axis.(level := axis.level && !line, enabled := axis.enabled && !driver)
  }

  lemma StopsOne(axes: seq<Axis>, x: Edge, i: nat)
    requires DistinctIds(axes) && IsStop(x) && i < |axes|
    ensures |ApplyEdge(axes, x)| == |axes|
    ensures var id := axes[i].config.resourceId;
            ApplyEdge(axes, x)[i] ==
            Stopped(axes[i], x.axis == id && x.signal == StepLine, x.axis == id && x.signal == Enable)
  {
    var k := IndexOf(axes, x.axis);
    if x.axis == axes[i].config.resourceId {
      assert k == i;
    }
  }

  lemma StopsCons(edges: seq<Edge>, axis: u32, signal: Signal)
    requires edges != []
    ensures Stops(edges, axis, signal) <==>
              (edges[0].axis == axis && edges[0].signal == signal) || Stops(edges[1..], axis, signal)
  {
    assert edges == [edges[0]] + edges[1..];
    if edges[0].axis == axis && edges[0].signal == signal {
      assert edges[0] in edges;
    }
    if Stops(edges[1..], axis, signal) {
      var x :| x in edges[1..] && x.axis == axis && x.signal == signal;
      assert x in edges;
    }
  }

  /** Stopping edges switch off what they name and change nothing else. */
  lemma {:induction false} StopsApply(axes: seq<Axis>, edges: seq<Edge>, i: nat)
    requires DistinctIds(axes) && i < |axes| && forall x | x in edges :: IsStop(x)
    ensures |ApplyEdges(axes, edges)| == |axes|
    ensures var id := axes[i].config.resourceId;
            ApplyEdges(axes, edges)[i] ==
            Stopped(axes[i], Stops(edges, id, StepLine), Stops(edges, id, Enable))
    decreases |edges|
  {
    if edges != [] {
      assert edges[0] in edges;
      StopsOne(axes, edges[0], i);
      StopsCons(edges, axes[i].config.resourceId, StepLine);
      StopsCons(edges, axes[i].config.resourceId, Enable);
      ApplyKeepsConfigs(axes, [edges[0]]);
      assert ApplyEdges(axes, [edges[0]]) == ApplyEdge(axes, edges[0]);
      DistinctSame(axes, ApplyEdge(axes, edges[0]));
      StopsApply(ApplyEdge(axes, edges[0]), edges[1..], i);
    }
  }

  lemma {:induction false} SafeEdgesCover(axes: seq<Axis>, at: u64, i: nat)
    requires i < |axes|
    ensures axes[i].level ==> Stops(SafeEdges(axes, at), axes[i].config.resourceId, StepLine)
    ensures axes[i].enabled ==> Stops(SafeEdges(axes, at), axes[i].config.resourceId, Enable)
  {
    var id := axes[i].config.resourceId;
    var edges := SafeEdges(axes, at);
    if i == 0 {
      assert axes[0].level ==> Edge(at, id, StepLine, false) in edges;
      assert axes[0].enabled ==> Edge(at, id, Enable, false) in edges;
    } else {
      SafeEdgesCover(axes[1..], at, i - 1);
      assert forall x | x in SafeEdges(axes[1..], at) :: x in edges;
    }
  }

  /** The safe state lowers every line and disables every axis, and keeps positions and directions. */
  lemma EnterSafeStops(e: Executor, at: u64, fault: Fault)
    requires DistinctIds(e.axes)
    ensures var after := EnterSafe(e, at, fault).executor;
            && |after.axes| == |e.axes|
            && forall i | 0 <= i < |e.axes| :: after.axes[i] == e.axes[i].(level := false, enabled := false)
  {
    var raw := SafeEdges(e.axes, at);
    var edges := SortEdges(raw);
    SafeEdgesAt(e.axes, at);
    SortMultiset(raw);
    SameMembers(edges, raw);
    ApplyKeepsConfigs(e.axes, edges);
    var after := EnterSafe(e, at, fault).executor;
    assert after.axes == ApplyEdges(e.axes, edges);
    forall i | 0 <= i < |e.axes|
      ensures after.axes[i] == e.axes[i].(level := false, enabled := false)
    {
      StopsApply(e.axes, edges, i);
      SafeEdgesCover(e.axes, at, i);
    }
  }

  lemma EnterSafeIsOff(e: Executor, at: u64, fault: Fault)
    requires DistinctIds(e.axes)
    ensures var after := EnterSafe(e, at, fault).executor; OffWhenEmpty(after) && AllOff(after.axes)
  {
    EnterSafeStops(e, at, fault);
    ApplyKeepsConfigs(e.axes, SortEdges(SafeEdges(e.axes, at)));
  }

  // ---------------------------------------------------------------- every operation

  lemma InitialIsOff(configs: seq<AxisConfig>, capacity: nat, lead: u64)
    requires ConfigsOk(configs, capacity, lead)
    ensures OffWhenEmpty(Initial(configs, capacity, lead))
  {
  }

  lemma {:induction false} LoopKeepsOff(e: Executor, t: u64)
    requires QueueInv(e) && Ready(e) && OffWhenEmpty(e)
    ensures OffWhenEmpty(AdvanceLoop(e, t).executor)
    decreases |e.queue|
  {
    LoopKeeps(e, t);
    DistinctSame(e.axes, AdvanceLoop(e, t).executor.axes);
    if |e.queue| == 0 || t < e.queue[0].segment.start {
      LoopWaits(e, t);
    } else {
      SegmentKnown(e);
      if t < e.queue[0].segment.End() {
        LoopWithin(e, t);
        CollectKeeps(e, t);
      } else {
        PopKeeps(e, t);
        DistinctSame(e.axes, Popped(e, t).axes);
        if Last(e) {
          LoopConcludes(e, t);
          ConcludesOff(Popped(e, t), e.queue[0].segment.final, e.queue[0].segment.End(), Collect(e, t).edges);
        } else {
          LoopContinues(e, t);
          LoopKeepsOff(Popped(e, t), t);
        }
      }
    }
  }

  lemma ConcludesOff(popped: Executor, final: bool, end: u64, edges: seq<Edge>)
    requires DistinctIds(popped.axes)
    ensures OffWhenEmpty(Conclude(popped, final, end, edges).executor)
  {
    EnterSafeIsOff(popped, end, NoFault);
    EnterSafeIsOff(popped.(metrics := popped.metrics.(underruns := popped.metrics.underruns + 1)), end, QueueUnderrun);
  }

  lemma AdvanceKeepsOff(e: Executor, t: u64)
    requires Inv(e) && Ready(e) && OffWhenEmpty(e)
    ensures var r := AdvanceTo(e, t); OffWhenEmpty(if r.Thrown? then r.executor else r.output.executor)
  {
    LoopKeepsOff(e, t);
  }

  lemma EnqueueKeepsOff(e: Executor, request: Segment, now: u64)
    requires Inv(e) && OffWhenEmpty(e)
    ensures OffWhenEmpty(Enqueue(e, request, now).executor)
  {
  }

  lemma ClearFaultKeepsOff(e: Executor)
    requires Inv(e) && OffWhenEmpty(e)
    ensures var r := ClearFault(e); OffWhenEmpty(if r.Thrown? then r.executor else r.output.executor)
  {
  }

  /** An abort is refused exactly for the two reasons that are not given by a caller, over a latched fault,
      or at a time gone by; otherwise it latches the given fault, whatever the advance before it met, and
      leaves nothing queued, every line low and every axis disabled where the advance had brought it. */
  lemma AbortStops(e: Executor, t: u64, fault: Fault)
    requires Inv(e) && Ready(e) && OffWhenEmpty(e)
    ensures Abort(e, t, fault).Thrown? <==>
              fault == NoFault || fault == QueueUnderrun || e.fault != NoFault || t < e.now
    ensures Abort(e, t, fault).Thrown? ==> Abort(e, t, fault).executor == e
    ensures Abort(e, t, fault).Advanced? ==>
              var after := Abort(e, t, fault).output.executor;
              && AdvanceTo(e, t).Advanced?
              && Inv(after) && OffWhenEmpty(after)
              && after.fault == fault && after.mode == Faulted && after.queue == []
              && |after.axes| == |e.axes|
              && forall i | 0 <= i < |e.axes| ::
                   |AdvanceTo(e, t).output.executor.axes| == |e.axes| &&
                   after.axes[i] ==
                   AdvanceTo(e, t).output.executor.axes[i].(level := false, enabled := false)
  {
    AdvanceKeepsInv(e, t);
    AdvanceKeepsOff(e, t);
    if AdvanceTo(e, t).Advanced? {
      var advanced := AdvanceTo(e, t).output.executor;
      EnterSafeKeeps(advanced, t, fault);
      EnterSafeStops(advanced, t, fault);
      EnterSafeIsOff(advanced, t, fault);
    }
  }

  function LimitCounted(e: Executor): Executor {
    e.(metrics := e.metrics.(limitStops := e.metrics.limitStops + 1))
  }

  /** A limit on an axis that the executor has is counted and is an abort; on any other it is refused and counted as a
      rejection. */
  lemma LimitExactly(e: Executor, resourceId: u32, t: u64)
    requires Ready(e) && Ready(LimitCounted(e))
    ensures (exists i :: 0 <= i < |e.axes| && e.axes[i].config.resourceId == resourceId) ==>
              TriggerLimit(e, resourceId, t) == Abort(LimitCounted(e), t, LimitTriggered)
    ensures (forall i | 0 <= i < |e.axes| :: e.axes[i].config.resourceId != resourceId) ==>
              TriggerLimit(e, resourceId, t) ==
              Thrown(e.(metrics := e.metrics.(rejected := e.metrics.rejected + 1)), InvalidAxis)
  {
  }

  lemma LimitStops(e: Executor, resourceId: u32, t: u64)
    requires Inv(e) && Ready(e) && OffWhenEmpty(e)
    ensures var r := TriggerLimit(e, resourceId, t); var after := if r.Thrown? then r.executor else r.output.executor;
            Inv(after) && OffWhenEmpty(after) && (r.Advanced? ==> after.fault == LimitTriggered && AllOff(after.axes))
  {
    MetricsKeep(e, LimitCounted(e));
    MetricsKeep(e, e.(metrics := e.metrics.(rejected := e.metrics.rejected + 1)));
    LimitExactly(e, resourceId, t);
    AbortLeaves(LimitCounted(e), t, LimitTriggered);
  }

  lemma AbortLeaves(e: Executor, t: u64, fault: Fault)
    requires Inv(e) && Ready(e) && OffWhenEmpty(e)
    ensures var r := Abort(e, t, fault); var after := if r.Thrown? then r.executor else r.output.executor;
            Inv(after) && OffWhenEmpty(after) && (r.Advanced? ==> after.fault == fault && AllOff(after.axes))
  {
    AbortStops(e, t, fault);
  }

  lemma MetricsKeep(e: Executor, after: Executor)
    requires Inv(e) && Ready(e) && OffWhenEmpty(e) && after == e.(metrics := after.metrics)
    ensures Inv(after) && Ready(after) && OffWhenEmpty(after)
  {
    InvReady(after);
  }

  // ---------------------------------------------------------------- whole runs

  datatype Operation =
    | EnqueueSegment(request: Segment, now: u64)
    | Advance(now: u64)
    | Stop(now: u64, fault: Fault)
    | Limit(resourceId: u32, now: u64)
    | Clear

  /** The executor after an operation, whether it succeeds or throws. */
  function Apply(e: Executor, op: Operation): Executor
    requires Inv(e) && Ready(e)
  {
    if op.EnqueueSegment? then Enqueue(e, op.request, op.now).executor
    else
      var r :=
        match op
        case Advance(now) => AdvanceTo(e, now)
        case Stop(now, fault) => Abort(e, now, fault)
        case Limit(resourceId, now) => TriggerLimit(e, resourceId, now)
        case _ => ClearFault(e);
      if r.Thrown? then r.executor else r.output.executor
  }

  lemma ApplyKeeps(e: Executor, op: Operation)
    requires Inv(e) && Ready(e) && OffWhenEmpty(e)
    ensures Inv(Apply(e, op)) && Ready(Apply(e, op)) && OffWhenEmpty(Apply(e, op))
  {
    match op
    case EnqueueSegment(request, now) =>
      EnqueueKeepsInv(e, request, now);
      EnqueueKeepsOff(e, request, now);
      InvReady(Apply(e, op));
    case Advance(now) =>
      AdvanceKeepsInv(e, now);
      AdvanceKeepsOff(e, now);
      InvReady(Apply(e, op));
    case Stop(now, fault) =>
      AbortStops(e, now, fault);
      InvReady(Apply(e, op));
    case Limit(resourceId, now) =>
      LimitStops(e, resourceId, now);
      InvReady(Apply(e, op));
    case Clear =>
      ClearFaultKeepsOff(e);
      InvReady(Apply(e, op));
  }

  function Run(e: Executor, ops: seq<Operation>): (after: Executor)
    requires Inv(e) && Ready(e) && OffWhenEmpty(e)
    ensures Inv(after) && OffWhenEmpty(after)
    decreases |ops|
  {
    if ops == [] then e
    else
      ApplyKeeps(e, ops[0]);
      Run(Apply(e, ops[0]), ops[1..])
  }

  /** In every state that operations reach from a valid configuration, successful or refused, the queue is in
      order and nothing is on while nothing is queued: in particular whenever a fault is latched. */
  lemma RunIsSafe(configs: seq<AxisConfig>, capacity: nat, lead: u64, ops: seq<Operation>)
    requires ConfigsOk(configs, capacity, lead)
    ensures var e := Initial(configs, capacity, lead); Inv(e) && Ready(e) && OffWhenEmpty(e)
    ensures var after := Run(Initial(configs, capacity, lead), ops);
            Inv(after) && (after.queue == [] || after.fault != NoFault ==> AllOff(after.axes))
  {
    InitialInv(configs, capacity, lead);
    InvReady(Initial(configs, capacity, lead));
    InitialIsOff(configs, capacity, lead);
  }
}
