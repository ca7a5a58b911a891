/** A completed segment of the mock executor moves each of its axes by exactly its signed steps
    (mock_mcu/src/motion_executor.cpp:361-453). */
module MockMotionDisplacement {
  import opened FixedWidth
  import opened MockMotion
  import opened MockMotionTiming
  import opened MockMotionSorting
  import opened MockMotionEdges
  import opened MockMotionAdvance

  // ---------------------------------------------------------------- rises of one axis

  predicate IsRise(x: Edge, axis: u32) {
    x.signal == StepLine && x.level && x.axis == axis
  }

  function RisesOf(edges: seq<Edge>, axis: u32): nat {
    if edges == [] then 0 else (if IsRise(edges[0], axis) then 1 else 0) + RisesOf(edges[1..], axis)
  }

  lemma {:induction false} RisesOfAppend(a: seq<Edge>, b: seq<Edge>, axis: u32)
    ensures RisesOf(a + b, axis) == RisesOf(a, axis) + RisesOf(b, axis)
  {
    if a == [] {
      assert a + b == b;
    } else {
      assert (a + b)[1..] == a[1..] + b;
      RisesOfAppend(a[1..], b, axis);
    }
  }

  lemma {:induction false} RisesOfInsert(x: Edge, sorted: seq<Edge>, axis: u32)
    ensures RisesOf(Insert(x, sorted), axis) == RisesOf([x] + sorted, axis)
  {
    assert ([x] + sorted)[1..] == sorted;
    if sorted != [] && EdgeLess(sorted[0], x) {
      RisesOfInsert(x, sorted[1..], axis);
      assert ([x] + sorted[1..])[1..] == sorted[1..];
      assert Insert(x, sorted)[1..] == Insert(x, sorted[1..]);
    }
  }

  lemma {:induction false} RisesOfSort(edges: seq<Edge>, axis: u32)
    ensures RisesOf(SortEdges(edges), axis) == RisesOf(edges, axis)
  {
    if edges != [] {
      RisesOfSort(edges[1..], axis);
      RisesOfInsert(edges[0], SortEdges(edges[1..]), axis);
      assert ([edges[0]] + SortEdges(edges[1..]))[1..] == SortEdges(edges[1..]);
    }
  }

  lemma {:induction false} NoRises(edges: seq<Edge>, axis: u32)
    requires forall x | x in edges :: !IsRise(x, axis)
    ensures RisesOf(edges, axis) == 0
  {
    if edges != [] {
      assert edges[0] in edges;
      NoRises(edges[1..], axis);
    }
  }

  lemma {:induction false} RisesCounted(config: AxisConfig, segment: Segment, m: MoveState, k: u64, until: u64, axis: u32)
    ensures RisesOf(Rises(config, segment, m, k, until), axis) ==
            if axis == m.move.resourceId then |Rises(config, segment, m, k, until)| else 0
    decreases m.count - k
  {
    if k < m.count && RiseTime(config, segment, m.count, k) <= until {
      RisesCounted(config, segment, m, k + 1, until, axis);
      var rest := Rises(config, segment, m, k + 1, until);
      assert Rises(config, segment, m, k, until)[1..] == rest;
    }
  }

  lemma MoveRises(axes: seq<Axis>, segment: Segment, m: MoveState, until: u64, axis: u32)
    requires MoveOk(axes, segment, m) && segment.End() <= U64_MAX
    ensures RisesOf(MoveEdges(AxisOf(axes, m), segment, m, until), axis) ==
            if axis == m.move.resourceId then Served(AxisOf(axes, m), segment, m, until).rises - m.rises else 0
  {
    if m.count > 0 {
      var config := AxisOf(axes, m).config;
      var c := Controls(AxisOf(axes, m), segment, m, until);
      var r := Rises(config, segment, m, m.rises, until);
      var f := Falls(config, segment, m, m.falls, until);
      RisesOfAppend(c + r, f, axis);
      RisesOfAppend(c, r, axis);
      RisesCounted(config, segment, m, m.rises, until, axis);
      NoRises(c, axis);
      FallsWithin(config, segment, m, m.falls, until, 0);
      NoRises(f, axis);
    }
  }

  /** Among all the edges of a segment, axis moves[i] rises as often as its own move says. */
  lemma {:induction false} RawRises(axes: seq<Axis>, segment: Segment, moves: seq<MoveState>, until: u64, i: nat)
    requires MovesOk(axes, segment, moves) && DistinctAxes(moves) && segment.End() <= U64_MAX && Known(axes, moves)
    requires i < |moves|
    ensures RisesOf(RawEdges(axes, segment, moves, until), moves[i].move.resourceId) ==
            Served(AxisOf(axes, moves[i]), segment, moves[i], until).rises - moves[i].rises
  {
    var axis := moves[i].move.resourceId;
    RisesOfAppend(MoveEdges(AxisOf(axes, moves[0]), segment, moves[0], until),
                  RawEdges(axes, segment, moves[1..], until), axis);
    MoveRises(axes, segment, moves[0], until, axis);
    if i == 0 {
      OtherRises(axes, segment, moves[1..], until, axis);
    } else {
      assert moves[1..][i - 1] == moves[i];
      RawRises(axes, segment, moves[1..], until, i - 1);
    }
  }

  lemma {:induction false} OtherRises(axes: seq<Axis>, segment: Segment, moves: seq<MoveState>, until: u64, axis: u32)
    requires MovesOk(axes, segment, moves) && segment.End() <= U64_MAX && Known(axes, moves)
    requires forall k | 0 <= k < |moves| :: moves[k].move.resourceId != axis
    ensures RisesOf(RawEdges(axes, segment, moves, until), axis) == 0
  {
    if moves != [] {
      RisesOfAppend(MoveEdges(AxisOf(axes, moves[0]), segment, moves[0], until),
                    RawEdges(axes, segment, moves[1..], until), axis);
      MoveRises(axes, segment, moves[0], until, axis);
      OtherRises(axes, segment, moves[1..], until, axis);
    }
  }

  lemma AllRisen(axes: seq<Axis>, segment: Segment, m: MoveState)
    requires MoveOk(axes, segment, m) && segment.End() <= U64_MAX && m.count > 0
    ensures Served(AxisOf(axes, m), segment, m, segment.End()).rises == m.count
  {
    var config := AxisOf(axes, m).config;
    RisesStop(config, segment, m, m.rises, segment.End());
    var served := Served(AxisOf(axes, m), segment, m, segment.End());
    if served.rises < m.count {
      EdgeTimesExact(config, segment, m.count, served.rises);
    }
  }

  /** Past the end of the segment every step has risen and fallen. */
  lemma AllServed(axes: seq<Axis>, segment: Segment, m: MoveState)
    requires MoveOk(axes, segment, m) && segment.End() <= U64_MAX
    ensures var served := Served(AxisOf(axes, m), segment, m, segment.End());
            served.rises == m.count && (m.count > 0 ==> served.falls == m.count)
  {
    if m.count > 0 {
      var config := AxisOf(axes, m).config;
      AllRisen(axes, segment, m);
      FallsStop(config, segment, m, m.falls, segment.End());
      var served := Served(AxisOf(axes, m), segment, m, segment.End());
      if served.falls < m.count {
        EdgeTimesExact(config, segment, m.count, served.falls);
      }
    }
  }

  // ---------------------------------------------------------------- applying edges to one axis

  lemma ApplyEdgeAt(axes: seq<Axis>, edge: Edge, i: nat)
    requires i < |axes| && IndexOf(axes, axes[i].config.resourceId) == i
    ensures var after := ApplyEdge(axes, edge);
            && |after| == |axes|
            && after[i] == (if edge.axis == axes[i].config.resourceId then ApplyToAxis(axes[i], edge) else axes[i])
            && IndexOf(after, after[i].config.resourceId) == i
  {
    var after := ApplyEdge(axes, edge);
    IndexOfConfigs(axes, after, axes[i].config.resourceId);
  }

  /** STEP edges leave the direction alone and move the axis one step for each of its rises. */
  lemma {:induction false} ApplySteps(axes: seq<Axis>, edges: seq<Edge>, i: nat)
    requires i < |axes| && IndexOf(axes, axes[i].config.resourceId) == i
    requires forall x | x in edges :: x.signal == StepLine
    ensures var after := ApplyEdges(axes, edges); var n := RisesOf(edges, axes[i].config.resourceId);
            && |after| == |axes|
            && after[i].positive == axes[i].positive && after[i].enabled == axes[i].enabled
            && after[i].position == axes[i].position + (if axes[i].positive then n else 0 - n)
            && after[i].emittedSteps == axes[i].emittedSteps + n
    decreases |edges|
  {
    if edges != [] {
      assert edges[0] in edges;
      ApplyEdgeAt(axes, edges[0], i);
      ApplySteps(ApplyEdge(axes, edges[0]), edges[1..], i);
    }
  }

  /** Edges without a rise of the axis keep its position; its direction follows its direction edges. */
  lemma {:induction false} ApplyControls(axes: seq<Axis>, edges: seq<Edge>, i: nat, positive: bool)
    requires i < |axes| && IndexOf(axes, axes[i].config.resourceId) == i
    requires forall x | x in edges && x.axis == axes[i].config.resourceId ::
               x.signal != StepLine && (x.signal == Direction ==> x.level == positive)
    ensures var after := ApplyEdges(axes, edges);
            && |after| == |axes|
            && after[i].position == axes[i].position && after[i].emittedSteps == axes[i].emittedSteps
            && (axes[i].positive == positive ||
                (exists x | x in edges :: x.axis == axes[i].config.resourceId && x.signal == Direction) ==>
                  after[i].positive == positive)
    decreases |edges|
  {
    if edges != [] {
      assert edges[0] in edges;
      ApplyEdgeAt(axes, edges[0], i);
      var next := ApplyEdge(axes, edges[0]);
      ApplyControls(next, edges[1..], i, positive);
      if exists x | x in edges :: x.axis == axes[i].config.resourceId && x.signal == Direction {
        var x :| x in edges && x.axis == axes[i].config.resourceId && x.signal == Direction;
        assert x == edges[0] || x in edges[1..];
      }
    }
  }

  // ---------------------------------------------------------------- a whole segment

  predicate Fresh(m: MoveState) {
    m.rises == 0 && m.falls == 0 && !m.controls
  }

  ghost predicate AllFresh(moves: seq<MoveState>) {
    forall i | 0 <= i < |moves| :: Fresh(moves[i])
  }

  /** At the start of its segment a fresh move emits its controls and nothing else. */
  lemma StartEdges(axes: seq<Axis>, segment: Segment, m: MoveState)
    requires Configured(axes) && MoveOk(axes, segment, m) && Fresh(m) && segment.End() <= U64_MAX
    ensures m.count > 0 ==> MoveEdges(AxisOf(axes, m), segment, m, segment.start) == Controls(AxisOf(axes, m), segment, m, segment.start)
    ensures Served(AxisOf(axes, m), segment, m, segment.start).rises == 0
    ensures forall x | x in MoveEdges(AxisOf(axes, m), segment, m, segment.start) :: x.signal != StepLine
  {
    if m.count > 0 {
      EdgeTimesExact(AxisOf(axes, m).config, segment, m.count, 0);
      assert ConfigOk(AxisOf(axes, m).config);
    }
  }

  lemma {:induction false} StartRaw(axes: seq<Axis>, segment: Segment, moves: seq<MoveState>)
    requires Configured(axes) && MovesOk(axes, segment, moves) && AllFresh(moves) && segment.End() <= U64_MAX
    requires Known(axes, moves)
    ensures forall x | x in RawEdges(axes, segment, moves, segment.start) :: x.signal != StepLine
    ensures forall i, x | 0 <= i < |moves| && x in MoveEdges(AxisOf(axes, moves[i]), segment, moves[i], segment.start) ::
              x in RawEdges(axes, segment, moves, segment.start)
  {
    if moves != [] {
      StartEdges(axes, segment, moves[0]);
      StartRaw(axes, segment, moves[1..]);
      forall i, x | 0 <= i < |moves| && x in MoveEdges(AxisOf(axes, moves[i]), segment, moves[i], segment.start)
        ensures x in RawEdges(axes, segment, moves, segment.start)
      {
        if i > 0 {
          assert moves[1..][i - 1] == moves[i];
        }
      }
    }
  }

  /** After the start of the segment the direction of every moving axis is that of its steps, and no axis
      has moved. */
  lemma StartPhase(e: Executor, i: nat)
    requires QueueInv(e) && |e.queue| > 0 && Known(e.axes, e.queue[0].moves)
    requires AllFresh(e.queue[0].moves) && i < |e.queue[0].moves|
    ensures IndexOf(e.axes, e.queue[0].moves[i].move.resourceId) < |e.axes|
    ensures var m := e.queue[0].moves[i]; var k := IndexOf(e.axes, m.move.resourceId);
            var first := Collect(e, e.queue[0].segment.start).executor;
            && |first.axes| == |e.axes|
            && first.axes[k].position == e.axes[k].position && first.axes[k].emittedSteps == e.axes[k].emittedSteps
            && (m.count > 0 ==> first.axes[k].positive == (m.move.steps >= 0))
  {
    var s := e.queue[0];
    var m := s.moves[i];
    var axis := m.move.resourceId;
    SegmentKnown(e);
    assert MoveOk(e.axes, s.segment, m);
    var k := IndexOf(e.axes, axis);
    var raw := RawEdges(e.axes, s.segment, s.moves, s.segment.start);
    var sorted := SortEdges(raw);
    SortMultiset(raw);
    SameMembers(sorted, raw);
    StartRaw(e.axes, s.segment, s.moves);
    RawEdgesWithin(e.axes, s.segment, s.moves, s.segment.start);
    forall x | x in sorted && x.axis == axis
      ensures x.signal != StepLine && (x.signal == Direction ==> x.level == (m.move.steps >= 0))
    {
      var j :| 0 <= j < |s.moves| && Ours(x, s.moves[j]);
      assert j == i;
    }
    ApplyControls(e.axes, sorted, k, m.move.steps >= 0);
    if m.count > 0 && e.axes[k].positive != (m.move.steps >= 0) {
      StartEdges(e.axes, s.segment, m);
      var turn := Edge(s.segment.start, axis, Direction, m.move.steps >= 0);
      assert turn in Controls(AxisOf(e.axes, m), s.segment, m, s.segment.start);
      assert turn in sorted;
    }
    assert Min(s.segment.start, s.segment.End()) == s.segment.start;
  }

  /** The rest of a segment that has begun: STEP edges only, one rise for each step not yet risen. */
  lemma StepPhase(e: Executor, i: nat)
    requires QueueInv(e) && |e.queue| > 0 && Known(e.axes, e.queue[0].moves) && i < |e.queue[0].moves|
    requires CaughtUp(e, e.queue[0].segment.start)
    requires e.queue[0].moves[i].rises == 0
    ensures IndexOf(e.axes, e.queue[0].moves[i].move.resourceId) < |e.axes|
    ensures var m := e.queue[0].moves[i]; var k := IndexOf(e.axes, m.move.resourceId);
            var after := Collect(e, e.queue[0].segment.End()).executor;
            && |after.axes| == |e.axes|
            && after.axes[k].position ==
               e.axes[k].position + (if e.axes[k].positive then m.count else 0 - m.count)
            && after.axes[k].emittedSteps == e.axes[k].emittedSteps + m.count
  {
    var s := e.queue[0];
    var m := s.moves[i];
    SegmentKnown(e);
    assert MoveOk(e.axes, s.segment, m);
    var raw := RawEdges(e.axes, s.segment, s.moves, s.segment.End());
    var sorted := SortEdges(raw);
    RawEdgesLater(e.axes, s.segment, s.moves, s.segment.start, s.segment.End());
    SortMultiset(raw);
    SameMembers(sorted, raw);
    RisesOfSort(raw, m.move.resourceId);
    RawRises(e.axes, s.segment, s.moves, s.segment.End(), i);
    AllServed(e.axes, s.segment, m);
    ApplySteps(e.axes, sorted, IndexOf(e.axes, m.move.resourceId));
  }

  /** A segment served from its start to any time past its end moves the axis of each of its moves by
      exactly the signed steps of that move. */
  lemma CompletedSegmentMoves(e: Executor, t: u64, i: nat)
    requires QueueInv(e) && |e.queue| > 0 && Known(e.axes, e.queue[0].moves)
    requires AllFresh(e.queue[0].moves) && i < |e.queue[0].moves| && e.queue[0].segment.End() <= t
    ensures IndexOf(e.axes, e.queue[0].moves[i].move.resourceId) < |e.axes|
    ensures var m := e.queue[0].moves[i]; var k := IndexOf(e.axes, m.move.resourceId);
            var after := Collect(e, t).executor;
            && |after.axes| == |e.axes|
            && after.axes[k].position == e.axes[k].position + m.move.steps
            && after.axes[k].emittedSteps == e.axes[k].emittedSteps + m.count
  {
    var s := e.queue[0];
    var m := s.moves[i];
    SegmentKnown(e);
    assert MoveOk(e.axes, s.segment, m);
    CollectPastEnd(e, s.segment.End(), t);
    CollectAdds(e, s.segment.start, s.segment.End());
    StartPhase(e, i);
    CollectKeeps(e, s.segment.start);
    CollectCatchesUp(e, s.segment.start);
    var first := Collect(e, s.segment.start).executor;
    ServedMovesPointwise(e.axes, s.segment, s.moves, s.segment.start);
    StartEdges(e.axes, s.segment, m);
    var began := first.queue[0].moves[i];
    assert began.move == m.move && began.count == m.count && began.rises == 0;
    IndexOfConfigs(e.axes, first.axes, m.move.resourceId);
    StepPhase(first, i);
  }
}
