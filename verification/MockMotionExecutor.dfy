/** The executor object of mock_mcu/src/motion_executor.cpp.  Its methods update the axes, the queue and
    the per-move counters in place and follow the functions of MockMotion. */
module MockMotionExecutor {
  import opened FixedWidth
  import Spec = MockMotion
  import opened MockMotionEdges
  import opened MockMotionAdvance

  type Edge = Spec.Edge

  /** The checks of the constructor. */
  method ConfigurationValid(configs: seq<Spec.AxisConfig>, capacity: nat, lead: u64) returns (ok: bool)
    ensures ok <==> Spec.ConfigsOk(configs, capacity, lead)
  {
    if |configs| == 0 || |configs| > 64 || capacity == 0 || capacity > 1024 || lead == 0 {
      return false;
    }
    for i := 0 to |configs|
      invariant forall k | 0 <= k < i :: Spec.ConfigOk(configs[k])
      invariant forall k, n | 0 <= k < n < i :: configs[k].resourceId != configs[n].resourceId
    {
      if !Spec.ConfigOk(configs[i]) {
        assert configs[i] in configs;
        return false;
      }
      for k := 0 to i
        invariant forall n | 0 <= n < k :: configs[n].resourceId != configs[i].resourceId
      {
        if configs[k].resourceId == configs[i].resourceId {
          return false;
        }
      }
    }
    return true;
  }

  lemma RawUnfold(axes: seq<Spec.Axis>, segment: Spec.Segment, moves: seq<Spec.MoveState>, i: nat, until: u64)
    requires i < |moves| && Spec.Known(axes, moves[i..])
    ensures Spec.Known(axes, moves[i + 1..]) && Spec.IndexOf(axes, moves[i].move.resourceId) < |axes|
    ensures Spec.RawEdges(axes, segment, moves[i..], until) ==
            Spec.MoveEdges(Spec.AxisOf(axes, moves[i]), segment, moves[i], until)
            + Spec.RawEdges(axes, segment, moves[i + 1..], until)
    ensures Spec.ServedMoves(axes, segment, moves[i..], until) ==
            [Spec.Served(Spec.AxisOf(axes, moves[i]), segment, moves[i], until)]
            + Spec.ServedMoves(axes, segment, moves[i + 1..], until)
  {
    assert moves[i..][0] == moves[i] && moves[i..][1..] == moves[i + 1..];
  }

  function AxisSafeEdges(axis: Spec.Axis, at: u64): seq<Edge> {
    (if axis.level then [Spec.Edge(at, axis.config.resourceId, Spec.StepLine, false)] else [])
    + (if axis.enabled then [Spec.Edge(at, axis.config.resourceId, Spec.Enable, false)] else [])
  }

  lemma SafeUnfold(axes: seq<Spec.Axis>, i: nat, at: u64)
    requires i < |axes|
    ensures Spec.SafeEdges(axes[i..], at) == AxisSafeEdges(axes[i], at) + Spec.SafeEdges(axes[i + 1..], at)
  {
    assert axes[i..][0] == axes[i] && axes[i..][1..] == axes[i + 1..];
  }

  class MotionExecutor {
    const capacity: nat
    const lead: u64
    var axes: seq<Spec.Axis>
    var queue: seq<Spec.SegmentState>
    var now: u64
    var nextAvailable: u64
    var lastAccepted: u32
    var lastCompleted: u32
    var mode: Spec.Mode
    var fault: Spec.Fault
    var metrics: Spec.Metrics

    ghost function View(): Spec.Executor
      reads this
    {
      Spec.Executor(capacity, lead, axes, queue, now, nextAvailable, lastAccepted, lastCompleted,
                    mode, fault, metrics)
    }

    ghost predicate Valid()
      reads this
    {
      Inv(View())
    }

    constructor (configs: seq<Spec.AxisConfig>, capacity: nat, lead: u64)
      requires Spec.ConfigsOk(configs, capacity, lead)
      ensures Valid() && View() == Spec.Initial(configs, capacity, lead)
    {
      this.capacity, this.lead := capacity, lead;
      axes := seq(|configs|, i requires 0 <= i < |configs| => Spec.Axis(configs[i], false, false, false, 0, 0));
      queue := [];
      now, nextAvailable, lastAccepted, lastCompleted := 0, 0, 0, 0;
      mode, fault := Spec.Idle, Spec.NoFault;
      metrics := Spec.Metrics(0, 0, 0, 0, 0, 0, 0, 0, 0);
      new;
      InitialInv(configs, capacity, lead);
    }

    // -------------------------------------------------------------- enqueue

    method Reject()
      modifies this`metrics
      ensures View() == old(View()).(metrics := old(metrics).(rejected := old(metrics).rejected + 1))
    {
      metrics := metrics.(rejected := metrics.rejected + 1);
    }

    method CheckMoves(segment: Spec.Segment) returns (verdict: Spec.Verdict, moves: seq<Spec.MoveState>)
      requires Spec.Configured(axes)
      ensures verdict == Spec.CheckMoves(axes, segment.duration, segment.axes, 0)
      ensures verdict.Fine? ==> moves == Spec.FreshMoves(segment.axes)
    {
      moves := [];
      ghost var whole := Spec.CheckMoves(axes, segment.duration, segment.axes, 0);
      var i := 0;
      while i < |segment.axes|
        invariant 0 <= i <= |segment.axes|
        invariant Spec.CheckMoves(axes, segment.duration, segment.axes, i) == whole
        invariant moves == Spec.FreshMoves(segment.axes)[..i]
      {
        var move := segment.axes[i];
        verdict := Spec.CheckMove(axes, segment.duration, segment.axes, i);
        if verdict.Bad? {
          return;
        }
        moves := moves + [Spec.MoveState(move, AbsoluteSteps(move.steps), 0, 0, false)];
        i := i + 1;
      }
      verdict := Spec.Fine;
    }

    /** Every check before the moves, in the order of the source; `segment` is the request as scheduled. */
    method Schedule(request: Spec.Segment, at: u64)
      returns (verdict: Spec.Verdict, segment: Spec.Segment, moves: seq<Spec.MoveState>)
      requires Valid()
      ensures verdict == Spec.Schedule(View(), request, at)
      ensures verdict.Fine? ==>
                segment == Spec.Scheduled(View(), request, at) &&
                moves == Spec.FreshMoves(segment.axes) && segment.End() <= U64_MAX
    {
      segment, moves := request, [];
      if fault != Spec.NoFault {
        return Spec.Bad(Spec.FaultLatched), segment, moves;
      }
      if at < now {
        return Spec.Bad(Spec.TimeWentBackwards), segment, moves;
      }
      if |queue| >= capacity {
        return Spec.Bad(Spec.QueueFull), segment, moves;
      }
      if |queue| > 0 && queue[|queue| - 1].segment.final {
        return Spec.Bad(Spec.InvalidSegment), segment, moves;
      }
      if request.sequence == 0 || request.sequence != Wrap32(lastAccepted + 1) {
        return Spec.Bad(Spec.SequenceMismatch), segment, moves;
      }
      if request.duration == 0 || |request.axes| != |axes| {
        return Spec.Bad(Spec.InvalidSegment), segment, moves;
      }
      if segment.start == 0 {
        var earliest := if at > U64_MAX - lead then U64_MAX else at + lead;
        segment := segment.(start := Max(earliest, nextAvailable));
      } else if segment.start < at || segment.start - at < lead {
        return Spec.Bad(Spec.SegmentLate), segment, moves;
      }
      if |queue| > 0 && segment.start != nextAvailable {
        return Spec.Bad(Spec.SegmentOverlap), segment, moves;
      }
      if segment.start > U64_MAX - segment.duration {
        return Spec.Bad(Spec.InvalidSegment), segment, moves;
      }
      verdict, moves := CheckMoves(segment);
    }

    method Enqueue(request: Spec.Segment, at: u64) returns (verdict: Spec.Verdict, segment: Spec.Segment)
      requires Valid()
      modifies this
      ensures Valid()
      ensures var outcome := Spec.Enqueue(old(View()), request, at);
              && View() == outcome.executor
              && (verdict.Fine? <==> outcome.Accepted?)
              && (verdict.Fine? ==> segment == outcome.segment)
              && (verdict.Bad? ==> verdict.error == outcome.error)
    {
      EnqueueKeepsInv(View(), request, at);
      var moves;
      verdict, segment, moves := Schedule(request, at);
      if verdict.Bad? {
        Reject();
        return;
      }
      nextAvailable := segment.start + segment.duration;
      lastAccepted := segment.sequence;
      queue := queue + [Spec.SegmentState(segment, moves)];
      mode := Spec.Armed;
      metrics := metrics.(accepted := metrics.accepted + 1,
                          maximumDepth := Max(metrics.maximumDepth, |queue|));
    }

    // -------------------------------------------------------------- edges

    method EmitRises(config: Spec.AxisConfig, segment: Spec.Segment, move: Spec.MoveState, until: u64, before: seq<Edge>)
      returns (rises: u64, edges: seq<Edge>)
      requires move.count > 0 && move.rises <= move.count
      ensures edges == before + Spec.Rises(config, segment, move, move.rises, until)
      ensures rises == move.rises + |Spec.Rises(config, segment, move, move.rises, until)|
    {
      rises, edges := move.rises, before;
      ghost var whole := Spec.Rises(config, segment, move, move.rises, until);
      while rises < move.count && Spec.RiseTime(config, segment, move.count, rises) <= until
        invariant move.rises <= rises <= move.count
        invariant edges + Spec.Rises(config, segment, move, rises, until) == before + whole
        invariant rises + |Spec.Rises(config, segment, move, rises, until)| == move.rises + |whole|
        decreases move.count - rises
      {
        var rise := Spec.RiseTime(config, segment, move.count, rises);
        edges := edges + [Spec.Edge(rise, move.move.resourceId, Spec.StepLine, true)];
        rises := rises + 1;
      }
    }

    method EmitFalls(config: Spec.AxisConfig, segment: Spec.Segment, move: Spec.MoveState, until: u64, before: seq<Edge>)
      returns (falls: u64, edges: seq<Edge>)
      requires move.count > 0 && move.falls <= move.count
      ensures edges == before + Spec.Falls(config, segment, move, move.falls, until)
      ensures falls == move.falls + |Spec.Falls(config, segment, move, move.falls, until)|
    {
      falls, edges := move.falls, before;
      ghost var whole := Spec.Falls(config, segment, move, move.falls, until);
      while falls < move.count && Spec.FallTime(config, segment, move.count, falls) <= until
        invariant move.falls <= falls <= move.count
        invariant edges + Spec.Falls(config, segment, move, falls, until) == before + whole
        invariant falls + |Spec.Falls(config, segment, move, falls, until)| == move.falls + |whole|
        decreases move.count - falls
      {
        var fall := Spec.FallTime(config, segment, move.count, falls);
        edges := edges + [Spec.Edge(fall, move.move.resourceId, Spec.StepLine, false)];
        falls := falls + 1;
      }
    }

    method EmitControls(axis: Spec.Axis, segment: Spec.Segment, move: Spec.MoveState, until: u64, before: seq<Edge>)
      returns (edges: seq<Edge>)
      ensures edges == before + Spec.Controls(axis, segment, move, until)
    {
      edges := before;
      if !move.controls && until >= segment.start {
        if !axis.enabled {
          edges := edges + [Spec.Edge(segment.start, move.move.resourceId, Spec.Enable, true)];
        }
        var positive := move.move.steps >= 0;
        if axis.positive != positive {
          edges := edges + [Spec.Edge(segment.start, move.move.resourceId, Spec.Direction, positive)];
        }
      }
    }

    /** Appends the edges of one move and advances its counters. */
    method ServeMove(axis: Spec.Axis, segment: Spec.Segment, move: Spec.MoveState, until: u64, before: seq<Edge>)
      returns (served: Spec.MoveState, edges: seq<Edge>)
      requires move.count > 0 && move.rises <= move.count && move.falls <= move.count
      ensures served == Spec.Served(axis, segment, move, until)
      ensures edges == before + Spec.MoveEdges(axis, segment, move, until)
    {
      edges := EmitControls(axis, segment, move, until, before);
      ghost var c := Spec.Controls(axis, segment, move, until);
      ghost var r := Spec.Rises(axis.config, segment, move, move.rises, until);
      ghost var f := Spec.Falls(axis.config, segment, move, move.falls, until);
      var rises, falls;
      rises, edges := EmitRises(axis.config, segment, move, until, edges);
      falls, edges := EmitFalls(axis.config, segment, move, until, edges);
      Reassociate(before, c, r);
      Reassociate(before, c + r, f);
      served := move.(rises := rises, falls := falls, controls := move.controls || until >= segment.start);
    }

    method ServeAny(axis: Spec.Axis, segment: Spec.Segment, move: Spec.MoveState, until: u64, before: seq<Edge>)
      returns (served: Spec.MoveState, edges: seq<Edge>)
      requires move.rises <= move.count && move.falls <= move.count
      ensures served == Spec.Served(axis, segment, move, until)
      ensures edges == before + Spec.MoveEdges(axis, segment, move, until)
    {
      served, edges := move, before;
      if move.count != 0 {
        served, edges := ServeMove(axis, segment, move, until, before);
      }
    }

    method ApplyEdges(edges: seq<Edge>)
      modifies this`axes, this`metrics
      ensures axes == Spec.ApplyEdges(old(axes), edges)
      ensures metrics == old(metrics).(steps := old(metrics).steps + Spec.CountRises(edges))
    {
      var i := 0;
      while i < |edges|
        invariant 0 <= i <= |edges|
        invariant Spec.ApplyEdges(axes, edges[i..]) == Spec.ApplyEdges(old(axes), edges)
        invariant metrics == old(metrics).(steps := metrics.steps)
        invariant metrics.steps + Spec.CountRises(edges[i..]) == old(metrics).steps + Spec.CountRises(edges)
      {
        assert edges[i..][0] == edges[i] && edges[i..][1..] == edges[i + 1..];
        axes := Spec.ApplyEdge(axes, edges[i]);
        if edges[i].signal == Spec.StepLine && edges[i].level {
          metrics := metrics.(steps := metrics.steps + 1);
        }
        i := i + 1;
      }
      assert edges[|edges|..] == [];
    }

    method Emit(edges: seq<Edge>)
      modifies this`axes, this`metrics
      ensures View() == Spec.Emit(old(View()), edges)
    {
      ApplyEdges(edges);
      metrics := metrics.(edges := metrics.edges + |edges|);
    }

    method CollectRaw(segment: Spec.Segment, moves: seq<Spec.MoveState>, until: u64)
      returns (edges: seq<Edge>, served: seq<Spec.MoveState>)
      requires MovesOk(axes, segment, moves) && Spec.Known(axes, moves)
      ensures edges == Spec.RawEdges(axes, segment, moves, until)
      ensures served == Spec.ServedMoves(axes, segment, moves, until)
    {
      edges, served := [], [];
      ghost var allEdges := Spec.RawEdges(axes, segment, moves, until);
      ghost var allServed := Spec.ServedMoves(axes, segment, moves, until);
      var i := 0;
      assert moves[0..] == moves;
      while i < |moves|
        invariant 0 <= i <= |moves|
        invariant Spec.Known(axes, moves[i..])
        invariant edges + Spec.RawEdges(axes, segment, moves[i..], until) == allEdges
        invariant served + Spec.ServedMoves(axes, segment, moves[i..], until) == allServed
      {
        RawUnfold(axes, segment, moves, i, until);
        assert MoveOk(axes, segment, moves[i]);
        ghost var before, servedBefore := edges, served;
        var move;
        move, edges := ServeAny(Spec.AxisOf(axes, moves[i]), segment, moves[i], until, edges);
        served := served + [move];
        Reassociate(before, Spec.MoveEdges(Spec.AxisOf(axes, moves[i]), segment, moves[i], until),
                    Spec.RawEdges(axes, segment, moves[i + 1..], until));
        assert (servedBefore + [move]) + Spec.ServedMoves(axes, segment, moves[i + 1..], until)
               == servedBefore + ([move] + Spec.ServedMoves(axes, segment, moves[i + 1..], until));
        i := i + 1;
      }
      assert moves[|moves|..] == [];
    }

    method CollectSegmentEdges(until: u64) returns (edges: seq<Edge>)
      requires QueueInv(View()) && queue != [] && queue[0].segment.start <= until
      requires Spec.Known(axes, queue[0].moves) && queue[0].segment.End() <= U64_MAX
      modifies this`axes, this`queue, this`mode, this`metrics
      ensures Spec.Output(View(), edges) == Spec.Collect(old(View()), until)
    {
      assert MovesOk(axes, queue[0].segment, queue[0].moves) by {
        SegmentKnown(View());
      }
      mode := Spec.Running;
      var segment := queue[0].segment;
      var effective := Min(until, segment.start + segment.duration);
      var served;
      edges, served := CollectRaw(segment, queue[0].moves, effective);
      edges := Spec.SortEdges(edges);
      queue := queue[0 := queue[0].(moves := served)];
      Emit(edges);
    }

    method CollectSafeEdges(at: u64) returns (edges: seq<Edge>)
      ensures edges == Spec.SafeEdges(axes, at)
    {
      edges := [];
      var i := 0;
      assert axes[0..] == axes;
      while i < |axes|
        invariant 0 <= i <= |axes|
        invariant edges + Spec.SafeEdges(axes[i..], at) == Spec.SafeEdges(axes, at)
      {
        SafeUnfold(axes, i, at);
        ghost var before := edges;
        if axes[i].level {
          edges := edges + [Spec.Edge(at, axes[i].config.resourceId, Spec.StepLine, false)];
        }
        if axes[i].enabled {
          edges := edges + [Spec.Edge(at, axes[i].config.resourceId, Spec.Enable, false)];
        }
        assert edges == before + AxisSafeEdges(axes[i], at);
        Reassociate(before, AxisSafeEdges(axes[i], at), Spec.SafeEdges(axes[i + 1..], at));
        i := i + 1;
      }
      assert axes[|axes|..] == [];
    }

    method EnterSafeState(at: u64, reason: Spec.Fault) returns (edges: seq<Edge>)
      modifies this
      ensures Spec.Output(View(), edges) == Spec.EnterSafe(old(View()), at, reason)
    {
      queue, nextAvailable := [], at;
      edges := CollectSafeEdges(at);
      if reason == Spec.NoFault {
        mode, fault := Spec.Idle, Spec.NoFault;
      } else {
        mode, fault := Spec.Faulted, reason;
        metrics := metrics.(safetyStops := metrics.safetyStops + 1);
      }
      edges := Spec.SortEdges(edges);
      Emit(edges);
    }

    // -------------------------------------------------------------- advancing

    method PopFront()
      requires queue != []
      modifies this`lastCompleted, this`queue, this`metrics
      ensures View() == Spec.PopFront(old(View()))
    {
      lastCompleted := queue[0].segment.sequence;
      queue := queue[1..];
      metrics := metrics.(completed := metrics.completed + 1);
    }

    method Conclude(final: bool, end: u64, before: seq<Edge>) returns (edges: seq<Edge>)
      modifies this
      ensures Spec.Output(View(), edges) == Spec.Conclude(old(View()), final, end, before)
    {
      if !final {
        metrics := metrics.(underruns := metrics.underruns + 1);
      }
      var safe := EnterSafeState(end, if final then Spec.NoFault else Spec.QueueUnderrun);
      edges := before + safe;
    }

    /** One turn of the loop: serve the front segment, and if its end has come, take it off the queue and
        stop if nothing may follow it. */
    method Turn(at: u64) returns (edges: seq<Edge>, stop: bool)
      requires QueueInv(View()) && Spec.Ready(View()) && queue != [] && queue[0].segment.start <= at
      modifies this
      ensures stop ==> Spec.AdvanceLoop(old(View()), at) == Spec.Output(View(), edges)
      ensures !stop ==>
                && !Last(old(View())) && old(View()).queue[0].segment.End() <= at
                && Spec.Known(old(View()).axes, old(View()).queue[0].moves)
                && old(View()).queue[0].segment.End() <= U64_MAX
                && View() == Popped(old(View()), at)
                && edges == Spec.Collect(old(View()), at).edges
    {
      ghost var before := View();
      SegmentKnown(before);
      var segment := queue[0].segment;
      var end := segment.start + segment.duration;
      edges := CollectSegmentEdges(at);
      if at < end {
        LoopWithin(before, at);
        return edges, true;
      }
      PopFront();
      if segment.final || queue == [] {
        LoopConcludes(before, at);
        edges := Conclude(segment.final, end, edges);
        return edges, true;
      }
      stop := false;
    }

    /** The loop of advance_to. */
    method Loop(at: u64) returns (output: seq<Edge>)
      requires Valid() && Spec.Ready(View())
      modifies this
      ensures Spec.AdvanceLoop(old(View()), at) == Spec.Output(View(), output)
    {
      ghost var before := View();
      output := [];
      var stop := false;
      while !stop && queue != [] && queue[0].segment.start <= at
        invariant !stop ==> QueueInv(View()) && Spec.Ready(View())
        invariant stop ==> Spec.AdvanceLoop(before, at) == Spec.Output(View(), output)
        invariant !stop ==> Continued(Spec.Output(View(), output), Spec.AdvanceLoop(before, at), at)
        decreases if stop then 0 else 1 + |queue|
      {
        ghost var here, sofar := View(), output;
        var turn;
        turn, stop := Turn(at);
        output := output + turn;
        if !stop {
          SegmentKnown(here);
          PopKeeps(here, at);
          LoopContinues(here, at);
          Reassociate(sofar, turn, Spec.AdvanceLoop(View(), at).edges);
        }
      }
      if !stop {
        LoopWaits(View(), at);
        assert output + [] == output;
      }
    }

    /** Advance to a time.  The edges returned and the state left are those of Spec.AdvanceTo. */
    method AdvanceTo(at: u64) returns (ok: bool, edges: seq<Edge>)
      requires Valid()
      modifies this
      ensures Valid()
      ensures Spec.Ready(old(View()))
      ensures var outcome := Spec.AdvanceTo(old(View()), at);
              && (ok <==> outcome.Advanced?)
              && (ok ==> outcome.output == Spec.Output(View(), edges))
              && (!ok ==> View() == old(View()) && edges == [])
    {
      ghost var before := View();
      InvReady(before);
      if at < now {
        return false, [];
      }
      AdvanceKeepsInv(before, at);
      var output := Loop(at);
      edges := Spec.SortEdges(output);
      now := at;
      if queue == [] && fault == Spec.NoFault && mode != Spec.Faulted {
        mode := Spec.Idle;
      }
      return true, edges;
    }

    method Abort(at: u64, reason: Spec.Fault) returns (result: Spec.Verdict, edges: seq<Edge>)
      requires Valid()
      modifies this
      ensures Valid()
      ensures Spec.Ready(old(View()))
      ensures var outcome := Spec.Abort(old(View()), at, reason);
              && (result.Fine? <==> outcome.Advanced?)
              && (result.Fine? ==> outcome.output == Spec.Output(View(), edges))
              && (result.Bad? ==> View() == outcome.executor && result.error == outcome.error)
    {
      ghost var before := View();
      InvReady(before);
      AbortKeepsInv(before, at, reason);
      if reason == Spec.NoFault || reason == Spec.QueueUnderrun {
        return Spec.Bad(Spec.InvalidSegment), [];
      }
      if fault != Spec.NoFault {
        return Spec.Bad(Spec.FaultLatched), [];
      }
      var ok, output := AdvanceTo(at);
      if !ok {
        return Spec.Bad(Spec.TimeWentBackwards), [];
      }
      var safe := EnterSafeState(at, reason);
      return Spec.Fine, Spec.SortEdges(output + safe);
    }

    method TriggerLimit(resourceId: u32, at: u64) returns (result: Spec.Verdict, edges: seq<Edge>)
      requires Valid()
      modifies this
      ensures Valid()
      ensures Spec.Ready(old(View()))
      ensures var outcome := Spec.TriggerLimit(old(View()), resourceId, at);
              && (result.Fine? <==> outcome.Advanced?)
              && (result.Fine? ==> outcome.output == Spec.Output(View(), edges))
              && (result.Bad? ==> View() == outcome.executor && result.error == outcome.error)
    {
      InvReady(View());
      if Spec.IndexOf(axes, resourceId) == |axes| {
        Reject();
        return Spec.Bad(Spec.InvalidAxis), [];
      }
      metrics := metrics.(limitStops := metrics.limitStops + 1);
      result, edges := Abort(at, Spec.LimitTriggered);
    }

    method ClearFault() returns (ok: bool)
      requires Valid()
      modifies this
      ensures Valid()
      ensures ok <==> Spec.ClearFault(old(View())).Advanced?
      ensures View() == if ok then Spec.ClearFault(old(View())).output.executor else old(View())
    {
      if queue != [] {
        return false;
      }
      fault, mode, nextAvailable := Spec.NoFault, Spec.Idle, now;
      return true;
    }
  }
}
