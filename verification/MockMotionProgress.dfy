/** Where the axes of the mock executor stand, and what is on, during an advance of any length
    (mock_mcu/src/motion_executor.cpp:361-453). */
module MockMotionProgress {
  import opened FixedWidth
  import opened MockMotion
  import opened MockMotionTiming
  import opened MockMotionSorting
  import opened MockMotionEdges
  import opened MockMotionAdvance
  import opened MockMotionDisplacement
  import opened MockMotionSafety

  // ---------------------------------------------------------------- enabling

  /** The axis is enabled and set to the direction of its move. */
  predicate Driven(axis: Axis, m: MoveState) {
    axis.enabled && axis.positive == (m.move.steps >= 0)
  }

  /** Every axis that moves in the segment is driven. */
  ghost predicate AllDriven(axes: seq<Axis>, moves: seq<MoveState>)
    requires Known(axes, moves)
  {
    forall j | 0 <= j < |moves| && moves[j].count > 0 ::
      IndexOf(axes, moves[j].move.resourceId) < |axes| && moves[j].controls && Driven(AxisOf(axes, moves[j]), moves[j])
  }

  /** Nothing of a waiting segment has been emitted; a front segment is as fresh, or all its axes are driven. */
  ghost predicate DriveInv(e: Executor) {
    && DistinctIds(e.axes)
    && (forall k | 0 < k < |e.queue| :: AllFresh(e.queue[k].moves))
    && (|e.queue| > 0 ==>
          Known(e.axes, e.queue[0].moves) &&
          (AllFresh(e.queue[0].moves) || AllDriven(e.axes, e.queue[0].moves)))
  }

  lemma {:induction false} ApplyEnables(axes: seq<Axis>, edges: seq<Edge>, i: nat)
    requires i < |axes| && IndexOf(axes, axes[i].config.resourceId) == i
    requires forall x | x in edges && x.axis == axes[i].config.resourceId && x.signal == Enable :: x.level
    ensures |ApplyEdges(axes, edges)| == |axes|
    ensures axes[i].enabled ||
            (exists x | x in edges :: x.axis == axes[i].config.resourceId && x.signal == Enable) ==>
              ApplyEdges(axes, edges)[i].enabled
    decreases |edges|
  {
    if edges != [] {
      assert edges[0] in edges;
      ApplyEdgeAt(axes, edges[0], i);
      ApplyEnables(ApplyEdge(axes, edges[0]), edges[1..], i);
      if x :| x in edges && x.axis == axes[i].config.resourceId && x.signal == Enable {
        assert x == edges[0] || x in edges[1..];
      }
    }
  }

  /** The start of a fresh segment drives the axes that move in it. */
  lemma StartDrives(e: Executor, j: nat)
    requires QueueInv(e) && |e.queue| > 0 && Known(e.axes, e.queue[0].moves)
    requires AllFresh(e.queue[0].moves) && j < |e.queue[0].moves| && e.queue[0].moves[j].count > 0
    ensures IndexOf(e.axes, e.queue[0].moves[j].move.resourceId) < |e.axes|
    ensures var m := e.queue[0].moves[j]; var k := IndexOf(e.axes, m.move.resourceId);
            var first := Collect(e, e.queue[0].segment.start).executor;
            |first.axes| == |e.axes| && Driven(first.axes[k], m)
  {
    var s := e.queue[0];
    var m := s.moves[j];
    var axis := m.move.resourceId;
    SegmentKnown(e);
    StartPhase(e, j);
    var k := IndexOf(e.axes, axis);
    var raw := RawEdges(e.axes, s.segment, s.moves, s.segment.start);
    var sorted := SortEdges(raw);
    SortMultiset(raw);
    SameMembers(sorted, raw);
    StartRaw(e.axes, s.segment, s.moves);
    StartEdges(e.axes, s.segment, m);
    RawEdgesWithin(e.axes, s.segment, s.moves, s.segment.start);
    if !e.axes[k].enabled {
      var on := Edge(s.segment.start, axis, Enable, true);
      assert on in Controls(AxisOf(e.axes, m), s.segment, m, s.segment.start);
      assert on in sorted;
    }
    ApplyEnables(e.axes, sorted, k);
    assert Min(s.segment.start, s.segment.End()) == s.segment.start;
  }

  // ---------------------------------------------------------------- what is left to move

  /** The signed steps of a move that have not risen yet. */
  function Left(m: MoveState): int {
    if m.move.steps >= 0 then m.count - m.rises else m.rises - m.count
  }

  function LeftIn(moves: seq<MoveState>, axis: u32): int {
    if moves == [] then 0 else (if moves[0].move.resourceId == axis then Left(moves[0]) else 0) + LeftIn(moves[1..], axis)
  }

  function LeftQueued(queue: seq<SegmentState>, axis: u32): int {
    if queue == [] then 0 else LeftIn(queue[0].moves, axis) + LeftQueued(queue[1..], axis)
  }

  /** Where axis i will stand when all that is queued has been carried out. */
  function Goal(e: Executor, i: nat): int
    requires i < |e.axes|
  {
    e.axes[i].position + LeftQueued(e.queue, e.axes[i].config.resourceId)
  }

  lemma {:induction false} LeftOfOthers(moves: seq<MoveState>, axis: u32)
    requires forall j | 0 <= j < |moves| :: moves[j].move.resourceId != axis
    ensures LeftIn(moves, axis) == 0
  {
    if moves != [] {
      LeftOfOthers(moves[1..], axis);
    }
  }

  lemma {:induction false} LeftOfMove(moves: seq<MoveState>, j: nat)
    requires DistinctAxes(moves) && j < |moves|
    ensures LeftIn(moves, moves[j].move.resourceId) == Left(moves[j])
  {
    if j == 0 {
      LeftOfOthers(moves[1..], moves[0].move.resourceId);
    } else {
      assert moves[1..][j - 1] == moves[j];
      LeftOfMove(moves[1..], j - 1);
    }
  }

  // ---------------------------------------------------------------- serving

  lemma {:induction false} DrivenEmitsSteps(axes: seq<Axis>, segment: Segment, moves: seq<MoveState>, t: u64)
    requires MovesOk(axes, segment, moves) && segment.End() <= U64_MAX && Known(axes, moves)
    requires forall j | 0 <= j < |moves| && moves[j].count > 0 :: moves[j].controls
    ensures forall x | x in RawEdges(axes, segment, moves, t) :: x.signal == StepLine
  {
    if moves != [] {
      var m := moves[0];
      if m.count > 0 {
        RisesWithin(AxisOf(axes, m).config, segment, m, m.rises, t, 0);
        FallsWithin(AxisOf(axes, m).config, segment, m, m.falls, t, 0);
      }
      DrivenEmitsSteps(axes, segment, moves[1..], t);
    }
  }

  /** The front segment, served from where it is to a time t in it. */
  ghost predicate InFront(e: Executor, t: u64) {
    && QueueInv(e) && DriveInv(e) && |e.queue| > 0
    && e.queue[0].segment.start <= t <= e.queue[0].segment.End()
  }

  /** What is left of a driven segment shrinks by the rises that are served. */
  lemma RisesTaken(e: Executor, t: u64, i: nat)
    requires InFront(e, t) && AllDriven(e.axes, e.queue[0].moves) && i < |e.axes|
    ensures var s := e.queue[0]; var axis := e.axes[i].config.resourceId;
            var n := RisesOf(RawEdges(e.axes, s.segment, s.moves, t), axis);
            LeftIn(ServedMoves(e.axes, s.segment, s.moves, t), axis) + (if e.axes[i].positive then n else 0 - n) ==
            LeftIn(s.moves, axis)
  {
    var s := e.queue[0];
    var axis := e.axes[i].config.resourceId;
    SegmentKnown(e);
    ServedMovesPointwise(e.axes, s.segment, s.moves, t);
    ServedStays(e, t);
    var served := ServedMoves(e.axes, s.segment, s.moves, t);
    if j :| 0 <= j < |s.moves| && s.moves[j].move.resourceId == axis {
      RawRises(e.axes, s.segment, s.moves, t, j);
      DistinctIndex(e.axes, i);
      LeftOfMove(s.moves, j);
      LeftOfMove(served, j);
    } else {
      OtherRises(e.axes, s.segment, s.moves, t, axis);
      LeftOfOthers(s.moves, axis);
      LeftOfOthers(served, axis);
    }
  }

  /** Serving a driven segment moves axis i by what it takes from the steps that are left. */
  lemma DrivenMoves(e: Executor, t: u64, i: nat)
    requires InFront(e, t) && AllDriven(e.axes, e.queue[0].moves) && i < |e.axes|
    ensures var c := Collect(e, t).executor; var axis := e.axes[i].config.resourceId;
            && |c.axes| == |e.axes| && |c.queue| == |e.queue|
            && c.axes[i].enabled == e.axes[i].enabled && c.axes[i].positive == e.axes[i].positive
            && c.axes[i].position + LeftIn(c.queue[0].moves, axis) ==
               e.axes[i].position + LeftIn(e.queue[0].moves, axis)
  {
    var s := e.queue[0];
    var axis := e.axes[i].config.resourceId;
    SegmentKnown(e);
    var raw := RawEdges(e.axes, s.segment, s.moves, t);
    var sorted := SortEdges(raw);
    assert forall x | x in sorted :: x.signal == StepLine by {
      SortMultiset(raw);
      SameMembers(sorted, raw);
      DrivenEmitsSteps(e.axes, s.segment, s.moves, t);
    }
    DistinctIndex(e.axes, i);
    ApplySteps(e.axes, sorted, i);
    RisesOfSort(raw, axis);
    RisesTaken(e, t, i);
    CollectParts(e, t);
  }

  lemma CollectParts(e: Executor, t: u64)
    requires |e.queue| > 0 && Known(e.axes, e.queue[0].moves) && t <= e.queue[0].segment.End() <= U64_MAX
    ensures var c := Collect(e, t).executor; var s := e.queue[0];
            && c.axes == ApplyEdges(e.axes, SortEdges(RawEdges(e.axes, s.segment, s.moves, t)))
            && c.queue == e.queue[0 := s.(moves := ServedMoves(e.axes, s.segment, s.moves, t))]
  {
  }

  lemma DistinctIndex(axes: seq<Axis>, i: nat)
    requires DistinctIds(axes) && i < |axes|
    ensures IndexOf(axes, axes[i].config.resourceId) == i
  {
  }

  lemma ServedStays(e: Executor, t: u64)
    requires InFront(e, t)
    ensures var served := ServedMoves(e.axes, e.queue[0].segment, e.queue[0].moves, t);
            && |served| == |e.queue[0].moves|
            && (forall j | 0 <= j < |served| ::
                  && served[j].move == e.queue[0].moves[j].move && served[j].count == e.queue[0].moves[j].count
                  && (served[j].count > 0 ==> served[j].controls))
            && DistinctAxes(served)
  {
    var s := e.queue[0];
    SegmentKnown(e);
    ServedMovesPointwise(e.axes, s.segment, s.moves, t);
    var served := ServedMoves(e.axes, s.segment, s.moves, t);
    forall j | 0 <= j < |served|
      ensures served[j].move == s.moves[j].move && served[j].count == s.moves[j].count
      ensures served[j].count > 0 ==> served[j].controls
    {
    }
  }

  /** Serving a driven segment leaves it driven. */
  lemma DrivenStays(e: Executor, t: u64)
    requires InFront(e, t) && AllDriven(e.axes, e.queue[0].moves)
    ensures DriveInv(Collect(e, t).executor)
    ensures |Collect(e, t).executor.queue| == |e.queue| && Known(Collect(e, t).executor.axes, Collect(e, t).executor.queue[0].moves)
    ensures AllDriven(Collect(e, t).executor.axes, Collect(e, t).executor.queue[0].moves)
  {
    var c := Collect(e, t).executor;
    var s := e.queue[0];
    SegmentKnown(e);
    CollectKeeps(e, t);
    SegmentKnown(c);
    CollectParts(e, t);
    ServedStays(e, t);
    DistinctSame(e.axes, c.axes);
    forall j | 0 <= j < |c.queue[0].moves| && c.queue[0].moves[j].count > 0
      ensures IndexOf(c.axes, c.queue[0].moves[j].move.resourceId) < |c.axes|
      ensures c.queue[0].moves[j].controls && Driven(AxisOf(c.axes, c.queue[0].moves[j]), c.queue[0].moves[j])
    {
      var m := s.moves[j];
      IndexOfConfigs(e.axes, c.axes, m.move.resourceId);
      DrivenMoves(e, t, IndexOf(e.axes, m.move.resourceId));
    }
  }

  /** The start of a fresh segment: its axes are driven, and nothing has moved. */
  lemma StartKeeps(e: Executor)
    requires |e.queue| > 0 && e.queue[0].segment.start <= U64_MAX && InFront(e, e.queue[0].segment.start)
    requires AllFresh(e.queue[0].moves)
    ensures var first := Collect(e, e.queue[0].segment.start).executor;
            && |first.queue| == |e.queue| && |first.axes| == |e.axes|
            && DriveInv(first) && AllDriven(first.axes, first.queue[0].moves)
            && forall i | 0 <= i < |e.axes| ::
                 first.axes[i].position == e.axes[i].position &&
                 LeftIn(first.queue[0].moves, e.axes[i].config.resourceId) ==
                 LeftIn(e.queue[0].moves, e.axes[i].config.resourceId)
  {
    var s := e.queue[0];
    var start: u64 := s.segment.start;
    var first := Collect(e, start).executor;
    SegmentKnown(e);
    CollectKeeps(e, start);
    SegmentKnown(first);
    CollectParts(e, start);
    ServedStays(e, start);
    ServedMovesPointwise(e.axes, s.segment, s.moves, start);
    DistinctSame(e.axes, first.axes);
    forall j | 0 <= j < |s.moves|
      ensures first.queue[0].moves[j].rises == s.moves[j].rises
    {
      StartEdges(e.axes, s.segment, s.moves[j]);
    }
    forall j | 0 <= j < |first.queue[0].moves| && first.queue[0].moves[j].count > 0
      ensures IndexOf(first.axes, first.queue[0].moves[j].move.resourceId) < |first.axes|
      ensures first.queue[0].moves[j].controls
      ensures Driven(AxisOf(first.axes, first.queue[0].moves[j]), first.queue[0].moves[j])
    {
      IndexOfConfigs(e.axes, first.axes, s.moves[j].move.resourceId);
      StartDrives(e, j);
    }
    forall i | 0 <= i < |e.axes|
      ensures first.axes[i].position == e.axes[i].position
      ensures LeftIn(first.queue[0].moves, e.axes[i].config.resourceId) ==
              LeftIn(s.moves, e.axes[i].config.resourceId)
    {
      StartPositions(e, i);
      SameLeft(s.moves, first.queue[0].moves, e.axes[i].config.resourceId);
    }
  }

  lemma {:induction false} SameLeft(a: seq<MoveState>, b: seq<MoveState>, axis: u32)
    requires |a| == |b|
    requires forall j | 0 <= j < |a| :: b[j].move == a[j].move && b[j].count == a[j].count && b[j].rises == a[j].rises
    ensures LeftIn(a, axis) == LeftIn(b, axis)
  {
    if a != [] {
      SameLeft(a[1..], b[1..], axis);
    }
  }

  lemma StartPositions(e: Executor, i: nat)
    requires |e.queue| > 0 && e.queue[0].segment.start <= U64_MAX && InFront(e, e.queue[0].segment.start)
    requires AllFresh(e.queue[0].moves) && i < |e.axes|
    ensures |Collect(e, e.queue[0].segment.start).executor.axes| == |e.axes|
    ensures Collect(e, e.queue[0].segment.start).executor.axes[i].position == e.axes[i].position
  {
    var s := e.queue[0];
    SegmentKnown(e);
    var raw := RawEdges(e.axes, s.segment, s.moves, s.segment.start);
    var sorted := SortEdges(raw);
    SortMultiset(raw);
    SameMembers(sorted, raw);
    StartRaw(e.axes, s.segment, s.moves);
    DistinctIndex(e.axes, i);
    NoRisesNoMove(e.axes, sorted, i);
    CollectParts(e, s.segment.start);
  }

  lemma {:induction false} NoRisesNoMove(axes: seq<Axis>, edges: seq<Edge>, i: nat)
    requires i < |axes| && IndexOf(axes, axes[i].config.resourceId) == i
    requires forall x | x in edges :: x.signal != StepLine
    ensures |ApplyEdges(axes, edges)| == |axes| && ApplyEdges(axes, edges)[i].position == axes[i].position
    decreases |edges|
  {
    if edges != [] {
      assert edges[0] in edges;
      ApplyEdgeAt(axes, edges[0], i);
      NoRisesNoMove(ApplyEdge(axes, edges[0]), edges[1..], i);
    }
  }

  /** Serving the front segment, fresh or begun, drives its axes and moves axis i by what it takes from what is left. */
  lemma ServesAndMoves(e: Executor, t: u64, i: nat)
    requires InFront(e, t) && i < |e.axes|
    ensures var c := Collect(e, t).executor; var axis := e.axes[i].config.resourceId;
            && |c.axes| == |e.axes| && |c.queue| == |e.queue|
            && DriveInv(c) && AllDriven(c.axes, c.queue[0].moves)
            && c.axes[i].position + LeftIn(c.queue[0].moves, axis) ==
               e.axes[i].position + LeftIn(e.queue[0].moves, axis)
  {
    SegmentKnown(e);
    if AllDriven(e.axes, e.queue[0].moves) {
      DrivenStays(e, t);
      DrivenMoves(e, t, i);
    } else {
      var start: u64 := e.queue[0].segment.start;
      StartKeeps(e);
      CollectAdds(e, start, t);
      CollectKeeps(e, start);
      var first := Collect(e, start).executor;
      DrivenStays(first, t);
      DrivenMoves(first, t, i);
    }
  }

  // ---------------------------------------------------------------- advancing

  /** A segment that has ended has nothing left. */
  lemma EndLeavesNothing(e: Executor, end: u64, axis: u32)
    requires |e.queue| > 0 && end == e.queue[0].segment.End() && InFront(e, end)
    ensures |Collect(e, end).executor.queue| > 0 && LeftIn(Collect(e, end).executor.queue[0].moves, axis) == 0
  {
    var s := e.queue[0];
    SegmentKnown(e);
    CollectParts(e, end);
    ServedMovesPointwise(e.axes, s.segment, s.moves, end);
    var served := ServedMoves(e.axes, s.segment, s.moves, end);
    forall j | 0 <= j < |served|
      ensures Left(served[j]) == 0
    {
      AllServed(e.axes, s.segment, s.moves[j]);
    }
    NothingLeft(served, axis);
  }

  lemma {:induction false} NothingLeft(moves: seq<MoveState>, axis: u32)
    requires forall j | 0 <= j < |moves| :: Left(moves[j]) == 0
    ensures LeftIn(moves, axis) == 0
  {
    if moves != [] {
      NothingLeft(moves[1..], axis);
    }
  }

  /** Completing the front segment moves axis i by all that was left of it. */
  lemma PopMoves(e: Executor, t: u64, i: nat)
    requires QueueInv(e) && DriveInv(e) && |e.queue| > 0 && e.queue[0].segment.End() <= t && i < |e.axes|
    ensures Known(e.axes, e.queue[0].moves) && e.queue[0].segment.End() <= U64_MAX
    ensures var popped := Popped(e, t);
            DriveInv(popped) && |popped.axes| == |e.axes| && Goal(popped, i) == Goal(e, i)
  {
    SegmentKnown(e);
    var end: u64 := e.queue[0].segment.End();
    CollectPastEnd(e, end, t);
    ServesAndMoves(e, end, i);
    EndLeavesNothing(e, end, e.axes[i].config.resourceId);
    PopKeeps(e, t);
    CollectParts(e, end);
    var popped := Popped(e, t);
    assert e.queue[1..] == popped.queue;
    if popped.queue != [] {
      SegmentKnown(popped);
      assert popped.queue[0] == e.queue[1];
    }
  }

  lemma SafeKeepsGoal(e: Executor, at: u64, fault: Fault, i: nat)
    requires DistinctIds(e.axes) && e.queue == [] && i < |e.axes|
    ensures var after := EnterSafe(e, at, fault).executor;
            DriveInv(after) && |after.axes| == |e.axes| && Goal(after, i) == Goal(e, i)
  {
    EnterSafeStops(e, at, fault);
    EnterSafeIsOff(e, at, fault);
  }

  lemma LastMoves(e: Executor, t: u64, i: nat)
    requires QueueInv(e) && Ready(e) && DriveInv(e) && Last(e) && e.queue[0].segment.End() <= t && i < |e.axes|
    ensures var after := AdvanceLoop(e, t).executor;
            DriveInv(after) && after.queue == [] && |after.axes| == |e.axes| && Goal(after, i) == Goal(e, i)
  {
    PopMoves(e, t, i);
    PopKeeps(e, t);
    LoopConcludes(e, t);
    var popped := Popped(e, t);
    var end: u64 := e.queue[0].segment.End();
    SafeKeepsGoal(popped, end, NoFault, i);
    SafeKeepsGoal(popped.(metrics := popped.metrics.(underruns := popped.metrics.underruns + 1)), end, QueueUnderrun, i);
  }

  lemma WithinMoves(e: Executor, t: u64, i: nat)
    requires QueueInv(e) && Ready(e) && DriveInv(e) && i < |e.axes|
    requires |e.queue| > 0 && e.queue[0].segment.start <= t < e.queue[0].segment.End()
    ensures var after := AdvanceLoop(e, t).executor;
            && DriveInv(after) && |after.axes| == |e.axes| && Goal(after, i) == Goal(e, i)
            && |after.queue| > 0 && Known(after.axes, after.queue[0].moves) && AllDriven(after.axes, after.queue[0].moves)
  {
    SegmentKnown(e);
    LoopWithin(e, t);
    ServesAndMoves(e, t, i);
    CollectKeeps(e, t);
    assert Collect(e, t).executor.queue[1..] == e.queue[1..] by {
      CollectParts(e, t);
    }
    FrontMoves(e, Collect(e, t).executor, i);
  }

  lemma FrontMoves(e: Executor, c: Executor, i: nat)
    requires |e.queue| > 0 && |c.queue| > 0 && c.queue[1..] == e.queue[1..]
    requires i < |e.axes| == |c.axes| && c.axes[i].config == e.axes[i].config
    requires var axis := e.axes[i].config.resourceId;
             c.axes[i].position + LeftIn(c.queue[0].moves, axis) == e.axes[i].position + LeftIn(e.queue[0].moves, axis)
    ensures Goal(c, i) == Goal(e, i)
  {
  }

  lemma {:induction false} LoopMoves(e: Executor, t: u64, i: nat)
    requires QueueInv(e) && Ready(e) && DriveInv(e) && i < |e.axes|
    ensures var after := AdvanceLoop(e, t).executor;
            DriveInv(after) && |after.axes| == |e.axes| && Goal(after, i) == Goal(e, i)
    ensures var after := AdvanceLoop(e, t).executor;
            |after.queue| > 0 && after.queue[0].segment.start <= t ==>
              Known(after.axes, after.queue[0].moves) && AllDriven(after.axes, after.queue[0].moves)
    decreases |e.queue|
  {
    if |e.queue| == 0 || t < e.queue[0].segment.start {
      LoopWaits(e, t);
    } else if t < e.queue[0].segment.End() {
      WithinMoves(e, t, i);
    } else if Last(e) {
      LastMoves(e, t, i);
    } else {
      SegmentKnown(e);
      PopMoves(e, t, i);
      PopKeeps(e, t);
      LoopContinues(e, t);
      LoopMoves(Popped(e, t), t, i);
    }
  }

  /** An advance of any length, across any number of segments and any ending, never changes where an axis will stand when
      all that is queued has been carried out; while a segment runs, every axis that moves in it is enabled and set to its
      direction. */
  lemma AdvanceMoves(e: Executor, t: u64, i: nat)
    requires Inv(e) && Ready(e) && DriveInv(e) && e.now <= t && i < |e.axes|
    ensures AdvanceTo(e, t).Advanced?
    ensures var after := AdvanceTo(e, t).output.executor;
            && DriveInv(after) && |after.axes| == |e.axes| && Goal(after, i) == Goal(e, i)
            && (after.queue == [] ==>
                  after.axes[i].position == e.axes[i].position + LeftQueued(e.queue, e.axes[i].config.resourceId))
            && (|after.queue| > 0 && after.queue[0].segment.start <= t ==> AllDriven(after.axes, after.queue[0].moves))
  {
    LoopMoves(e, t, i);
  }

  // ---------------------------------------------------------------- whole runs

  lemma {:induction false} LeftAppended(queue: seq<SegmentState>, s: SegmentState, axis: u32)
    ensures LeftQueued(queue + [s], axis) == LeftQueued(queue, axis) + LeftIn(s.moves, axis)
  {
    if queue == [] {
      assert queue + [s] == [s];
      assert LeftQueued([s], axis) == LeftIn(s.moves, axis) + LeftQueued([s][1..], axis);
    } else {
      assert (queue + [s])[1..] == queue[1..] + [s];
      LeftAppended(queue[1..], s, axis);
    }
  }

  /** An accepted segment moves every axis's goal by the signed steps that it names for it. */
  lemma EnqueueMoves(e: Executor, request: Segment, now: u64, j: nat)
    requires Inv(e) && DriveInv(e) && Enqueue(e, request, now).Accepted? && j < |request.axes|
    ensures var i := IndexOf(e.axes, request.axes[j].resourceId); var after := Enqueue(e, request, now).executor;
            i < |e.axes| == |after.axes| && DriveInv(after) &&
            Goal(after, i) == Goal(e, i) + request.axes[j].steps
  {
    EnqueueKeepsDrive(e, request, now);
    var r := Enqueue(e, request, now);
    CheckMovesFine(e.axes, r.segment.duration, r.segment.axes, 0);
    assert CheckMove(e.axes, r.segment.duration, r.segment.axes, j).Fine?;
    var added := SegmentState(r.segment, FreshMoves(r.segment.axes));
    LeftAppended(e.queue, added, request.axes[j].resourceId);
    AppendedSegmentOk(e.axes, r.segment);
    LeftOfMove(added.moves, j);
  }

  lemma EnqueueKeepsDrive(e: Executor, request: Segment, now: u64)
    requires Inv(e) && DriveInv(e)
    ensures DriveInv(Enqueue(e, request, now).executor)
  {
    var r := Enqueue(e, request, now);
    if r.Accepted? {
      var added := SegmentState(r.segment, FreshMoves(r.segment.axes));
      AppendedSegmentOk(e.axes, r.segment);
      assert r.executor.queue == e.queue + [added];
      assert AllFresh(added.moves);
      MovesKnown(e.axes, r.segment, added.moves);
    }
  }

  lemma EmptyKeepsDrive(e: Executor)
    requires OffWhenEmpty(e) && e.queue == []
    ensures DriveInv(e)
  {
  }

  lemma SameKeepsDrive(e: Executor, after: Executor)
    requires DriveInv(e) && after.axes == e.axes && after.queue == e.queue
    ensures DriveInv(after)
  {
  }

  /** The same queue and outputs, or nothing queued. */
  ghost predicate StopsOrStays(e: Executor, after: Executor) {
    |after.axes| == |e.axes| && (after.queue == [] || (after.queue == e.queue && after.axes == e.axes))
  }

  lemma AbortStopsOrStays(e: Executor, now: u64, fault: Fault)
    requires Inv(e) && Ready(e) && OffWhenEmpty(e)
    ensures var r := Abort(e, now, fault); StopsOrStays(e, if r.Thrown? then r.executor else r.output.executor)
  {
    AbortStops(e, now, fault);
  }

  lemma LimitStopsOrStays(e: Executor, resourceId: u32, now: u64)
    requires Inv(e) && Ready(e) && OffWhenEmpty(e)
    ensures var r := TriggerLimit(e, resourceId, now); StopsOrStays(e, if r.Thrown? then r.executor else r.output.executor)
  {
    MetricsKeep(e, LimitCounted(e));
    LimitExactly(e, resourceId, now);
    if exists i :: 0 <= i < |e.axes| && e.axes[i].config.resourceId == resourceId {
      AbortStopsOrStays(LimitCounted(e), now, LimitTriggered);
    }
  }

  lemma OtherStopsOrStays(e: Executor, op: Operation)
    requires Inv(e) && Ready(e) && OffWhenEmpty(e) && (op.Stop? || op.Limit? || op.Clear?)
    ensures StopsOrStays(e, Apply(e, op))
  {
    if op.Stop? {
      AbortStopsOrStays(e, op.now, op.fault);
    } else if op.Limit? {
      LimitStopsOrStays(e, op.resourceId, op.now);
    }
  }

  lemma ApplyKeepsDrive(e: Executor, op: Operation)
    requires Inv(e) && Ready(e) && OffWhenEmpty(e) && DriveInv(e) && |e.axes| > 0
    ensures DriveInv(Apply(e, op)) && |Apply(e, op).axes| == |e.axes|
  {
    if op.EnqueueSegment? {
      EnqueueKeepsDrive(e, op.request, op.now);
    } else if op.Advance? {
      if e.now <= op.now {
        AdvanceMoves(e, op.now, 0);
      }
      AdvanceKeepsInv(e, op.now);
    } else {
      OtherStopsOrStays(e, op);
      ApplyKeeps(e, op);
      var after := Apply(e, op);
      if after.queue == [] {
        EmptyKeepsDrive(after);
      } else {
        SameKeepsDrive(e, after);
      }
    }
  }

  lemma {:induction false} RunKeepsDrive(e: Executor, ops: seq<Operation>)
    requires Inv(e) && Ready(e) && OffWhenEmpty(e) && DriveInv(e) && |e.axes| > 0
    ensures DriveInv(Run(e, ops))
    decreases |ops|
  {
    if ops != [] {
      ApplyKeeps(e, ops[0]);
      ApplyKeepsDrive(e, ops[0]);
      RunKeepsDrive(Apply(e, ops[0]), ops[1..]);
    }
  }
}
