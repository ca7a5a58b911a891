/** The edges that the mock executor returns are a log of what it did: in order, and applied to the outputs
    as they were they give the outputs as they are (mock_mcu/src/motion_executor.cpp:214-288, 361-481). */
module MockMotionReplay {
  import opened FixedWidth
  import opened MockMotion
  import opened MockMotionTiming
  import opened MockMotionSorting
  import opened MockMotionEdges
  import opened MockMotionAdvance
  import opened MockMotionDisplacement
  import opened MockMotionSafety

  // ---------------------------------------------------------------- one STEP line

  predicate OnLine(x: Edge, axis: u32) {
    x.signal == StepLine && x.axis == axis
  }

  /** The level that edges leave on the STEP line of an axis. */
  function LevelAfter(edges: seq<Edge>, axis: u32, level: bool): bool {
    if edges == [] then level
    else LevelAfter(edges[1..], axis, if OnLine(edges[0], axis) then edges[0].level else level)
  }

  lemma AppliedOne(axes: seq<Axis>, x: Edge, i: nat)
    requires DistinctIds(axes) && i < |axes|
    ensures SameConfigs(axes, ApplyEdge(axes, x)) && DistinctIds(ApplyEdge(axes, x))
    ensures ApplyEdge(axes, x)[i] == if x.axis == axes[i].config.resourceId then ApplyToAxis(axes[i], x) else axes[i]
  {
    var k := IndexOf(axes, x.axis);
    if x.axis == axes[i].config.resourceId {
      assert k == i;
    }
  }

  lemma {:induction false} AppliedLevel(axes: seq<Axis>, edges: seq<Edge>, i: nat)
    requires DistinctIds(axes) && i < |axes|
    ensures |ApplyEdges(axes, edges)| == |axes|
    ensures ApplyEdges(axes, edges)[i].level == LevelAfter(edges, axes[i].config.resourceId, axes[i].level)
    decreases |edges|
  {
    if edges != [] {
      AppliedOne(axes, edges[0], i);
      AppliedLevel(ApplyEdge(axes, edges[0]), edges[1..], i);
    }
  }

  lemma {:induction false} LineUntouched(edges: seq<Edge>, axis: u32, level: bool)
    requires forall x | x in edges :: !OnLine(x, axis)
    ensures LevelAfter(edges, axis, level) == level
  {
    if edges != [] {
      assert edges[0] in edges;
      LineUntouched(edges[1..], axis, level);
    }
  }

  lemma {:induction false} LineStays(edges: seq<Edge>, axis: u32, level: bool)
    requires forall x | x in edges && OnLine(x, axis) :: x.level == level
    ensures LevelAfter(edges, axis, level) == level
  {
    if edges != [] {
      assert edges[0] in edges;
      LineStays(edges[1..], axis, level);
    }
  }

  /** After sorted edges a line has the level of an edge that comes after all edges of the other level. */
  lemma {:induction false} LastOnLine(edges: seq<Edge>, axis: u32, level: bool, y: Edge)
    requires Sorted(edges) && y in edges && OnLine(y, axis)
    requires forall x | x in edges && OnLine(x, axis) && x.level != y.level :: EdgeLess(x, y)
    ensures LevelAfter(edges, axis, level) == y.level
  {
    var rest := edges[1..];
    assert Sorted(rest) by {
      forall i, j | 0 <= i < j < |rest|
        ensures !EdgeLess(rest[j], rest[i])
      {
        assert !EdgeLess(edges[j + 1], edges[i + 1]);
      }
    }
    assert forall x | x in rest :: x in edges;
    if edges[0] == y {
      forall x | x in rest && OnLine(x, axis)
        ensures x.level == y.level
      {
        var j :| 0 <= j < |rest| && rest[j] == x;
        assert !EdgeLess(edges[j + 1], edges[0]);
      }
      LineStays(rest, axis, y.level);
    } else {
      assert edges == [edges[0]] + rest;
      LastOnLine(rest, axis, if OnLine(edges[0], axis) then edges[0].level else level, y);
    }
  }

  // ---------------------------------------------------------------- lines and moves

  /** Move m, and no other, still has to lower the line of the axis. */
  predicate Owes(m: MoveState, axis: u32) {
    m.move.resourceId == axis && m.falls < m.count
  }

  ghost predicate LineOwed(e: Executor, axis: u32) {
    |e.queue| > 0 && exists j :: 0 <= j < |e.queue[0].moves| && Owes(e.queue[0].moves[j], axis)
  }

  /** Falls never lead rises, and a line is high only while the front segment has yet to lower it. */
  ghost predicate LinesInv(e: Executor) {
    && DistinctIds(e.axes)
    && (forall k, j | 0 <= k < |e.queue| && 0 <= j < |e.queue[k].moves| ::
          e.queue[k].moves[j].falls <= e.queue[k].moves[j].rises)
    && (forall i | 0 <= i < |e.axes| && e.axes[i].level :: LineOwed(e, e.axes[i].config.resourceId))
  }

  lemma {:induction false} FallsDue(config: AxisConfig, segment: Segment, m: MoveState, k: u64, until: u64, n: u64)
    requires k <= n < k + |Falls(config, segment, m, k, until)|
    ensures n < m.count && FallTime(config, segment, m.count, n) <= until
    ensures Edge(FallTime(config, segment, m.count, n), m.move.resourceId, StepLine, false)
              in Falls(config, segment, m, k, until)
    decreases m.count - k
  {
    if k < n {
      FallsDue(config, segment, m, k + 1, until, n);
    }
  }

  lemma {:induction false} RisesAreRises(config: AxisConfig, segment: Segment, m: MoveState, k: u64, until: u64)
    requires m.count > 0 ==> Admitted(config, m.count, segment.duration)
    requires segment.End() <= U64_MAX
    ensures forall x | x in Rises(config, segment, m, k, until) ::
              m.count > 0 && x.level && x.time <= RiseTime(config, segment, m.count, m.count - 1)
    decreases m.count - k
  {
    if k < m.count && RiseTime(config, segment, m.count, k) <= until {
      RisesAscend(config, segment, m.count, k, m.count - 1);
      RisesAreRises(config, segment, m, k + 1, until);
    }
  }

  lemma ServedInOrder(axes: seq<Axis>, segment: Segment, m: MoveState, t: u64)
    requires MoveOk(axes, segment, m) && segment.End() <= U64_MAX && m.falls <= m.rises
    ensures var served := Served(AxisOf(axes, m), segment, m, t); served.falls <= served.rises
  {
    if m.count > 0 {
      var config := AxisOf(axes, m).config;
      var served := Served(AxisOf(axes, m), segment, m, t);
      RisesStop(config, segment, m, m.rises, t);
      if served.falls > served.rises {
        FallsDue(config, segment, m, m.falls, t, served.rises);
        EdgeTimesExact(config, segment, m.count, served.rises);
      }
    }
  }

  lemma {:induction false} EdgeOfMove(axes: seq<Axis>, segment: Segment, moves: seq<MoveState>, until: u64, x: Edge)
      returns (j: nat)
    requires Known(axes, moves) && x in RawEdges(axes, segment, moves, until)
    ensures j < |moves| && IndexOf(axes, moves[j].move.resourceId) < |axes|
    ensures x in MoveEdges(AxisOf(axes, moves[j]), segment, moves[j], until)
  {
    if x in MoveEdges(AxisOf(axes, moves[0]), segment, moves[0], until) {
      j := 0;
    } else {
      var k := EdgeOfMove(axes, segment, moves[1..], until, x);
      j := k + 1;
      assert moves[j] == moves[1..][k];
    }
  }

  lemma {:induction false} MoveEdgesAmong(axes: seq<Axis>, segment: Segment, moves: seq<MoveState>, until: u64, j: nat)
    requires Known(axes, moves) && j < |moves|
    ensures forall x | x in MoveEdges(AxisOf(axes, moves[j]), segment, moves[j], until) ::
              x in RawEdges(axes, segment, moves, until)
  {
    if j > 0 {
      assert moves[1..][j - 1] == moves[j];
      MoveEdgesAmong(axes, segment, moves[1..], until, j - 1);
    }
  }

  /** The line edges of a move that has made all its falls end with a fall. */
  lemma LastEdgeFalls(axes: seq<Axis>, segment: Segment, m: MoveState, until: u64, x: Edge) returns (y: Edge)
    requires MoveOk(axes, segment, m) && segment.End() <= U64_MAX && Configured(axes) && m.falls <= m.rises
    requires x in MoveEdges(AxisOf(axes, m), segment, m, until) && x.signal == StepLine
    requires Served(AxisOf(axes, m), segment, m, until).falls == m.count
    ensures y in MoveEdges(AxisOf(axes, m), segment, m, until) && OnLine(y, m.move.resourceId) && !y.level
    ensures forall z | z in MoveEdges(AxisOf(axes, m), segment, m, until) && z.signal == StepLine && z.level ::
              EdgeLess(z, y)
  {
    var config := AxisOf(axes, m).config;
    assert m.falls < m.count;
    y := Edge(FallTime(config, segment, m.count, m.count - 1), m.move.resourceId, StepLine, false);
    FallsDue(config, segment, m, m.falls, until, m.count - 1);
    EdgeTimesExact(config, segment, m.count, m.count - 1);
    RisesAreRises(config, segment, m, m.rises, until);
    FallsWithin(config, segment, m, m.falls, until, 0);
    assert ConfigOk(config);
  }

  // ---------------------------------------------------------------- one segment

  /** The moves of a front segment that has begun, and the edges it emits until t. */
  ghost predicate Serving(e: Executor, t: u64) {
    && QueueInv(e) && LinesInv(e) && |e.queue| > 0 && Known(e.axes, e.queue[0].moves)
    && e.queue[0].segment.start <= t <= e.queue[0].segment.End()
  }

  function ServingEdges(e: Executor, t: u64): seq<Edge>
    requires |e.queue| > 0 && Known(e.axes, e.queue[0].moves)
  {
    SortEdges(RawEdges(e.axes, e.queue[0].segment, e.queue[0].moves, t))
  }

  lemma ServingMembers(e: Executor, t: u64)
    requires Serving(e, t)
    ensures Sorted(ServingEdges(e, t))
    ensures forall x :: x in ServingEdges(e, t) <==> x in RawEdges(e.axes, e.queue[0].segment, e.queue[0].moves, t)
  {
    var raw := RawEdges(e.axes, e.queue[0].segment, e.queue[0].moves, t);
    SortSorted(raw);
    SortMultiset(raw);
    SameMembers(SortEdges(raw), raw);
  }

  /** An edge on a line belongs to the move of that axis. */
  lemma MoveOnLine(e: Executor, t: u64, x: Edge, axis: u32) returns (j: nat)
    requires Serving(e, t) && x in ServingEdges(e, t) && OnLine(x, axis)
    ensures j < |e.queue[0].moves| && e.queue[0].moves[j].move.resourceId == axis
    ensures MoveOk(e.axes, e.queue[0].segment, e.queue[0].moves[j])
    ensures x in MoveEdges(AxisOf(e.axes, e.queue[0].moves[j]), e.queue[0].segment, e.queue[0].moves[j], t)
  {
    ServingMembers(e, t);
    SegmentKnown(e);
    j := EdgeOfMove(e.axes, e.queue[0].segment, e.queue[0].moves, t, x);
    MoveEdgesWithin(e.axes, e.queue[0].segment, e.queue[0].moves[j], t);
  }

  /** A move that has made all its falls leaves its line low. */
  lemma SpentMoveIsLow(e: Executor, t: u64, j: nat, x: Edge, level: bool)
    requires Serving(e, t) && j < |e.queue[0].moves| && MoveOk(e.axes, e.queue[0].segment, e.queue[0].moves[j])
    requires var m := e.queue[0].moves[j];
             && x in MoveEdges(AxisOf(e.axes, m), e.queue[0].segment, m, t) && x.signal == StepLine
             && Served(AxisOf(e.axes, m), e.queue[0].segment, m, t).falls == m.count
    ensures !LevelAfter(ServingEdges(e, t), e.queue[0].moves[j].move.resourceId, level)
  {
    var front := e.queue[0];
    var m := front.moves[j];
    SegmentKnown(e);
    ServingMembers(e, t);
    var y := LastEdgeFalls(e.axes, front.segment, m, t, x);
    MoveEdgesAmong(e.axes, front.segment, front.moves, t, j);
    var edges := ServingEdges(e, t);
    forall z | z in edges && OnLine(z, m.move.resourceId) && z.level
      ensures EdgeLess(z, y)
    {
      var k := MoveOnLine(e, t, z, m.move.resourceId);
      assert k == j;
    }
    LastOnLine(edges, m.move.resourceId, level, y);
  }

  lemma UnfallenStays(e: Executor, t: u64, j: nat)
    requires Serving(e, t) && j < |e.queue[0].moves|
    requires var axis := e.queue[0].moves[j].move.resourceId; forall x | x in ServingEdges(e, t) :: !OnLine(x, axis)
    ensures var m := e.queue[0].moves[j]; Served(AxisOf(e.axes, m), e.queue[0].segment, m, t).falls == m.falls
  {
    var front := e.queue[0];
    var m := front.moves[j];
    SegmentKnown(e);
    ServingMembers(e, t);
    MoveEdgesAmong(e.axes, front.segment, front.moves, t, j);
    var falls := Falls(AxisOf(e.axes, m).config, front.segment, m, m.falls, t);
    if m.count > 0 && |falls| > 0 {
      FallsDue(AxisOf(e.axes, m).config, front.segment, m, m.falls, t, m.falls);
      var y := Edge(FallTime(AxisOf(e.axes, m).config, front.segment, m.count, m.falls), m.move.resourceId, StepLine, false);
      assert y in MoveEdges(AxisOf(e.axes, m), front.segment, m, t);
      assert OnLine(y, m.move.resourceId);
    }
  }

  /** A line that is high after serving until t is owed a fall. */
  lemma ServedLineOwed(e: Executor, t: u64, i: nat) returns (j: nat)
    requires Serving(e, t) && i < |e.axes|
    requires LevelAfter(ServingEdges(e, t), e.axes[i].config.resourceId, e.axes[i].level)
    ensures j < |e.queue[0].moves|
    ensures var m := e.queue[0].moves[j];
            Owes(Served(AxisOf(e.axes, m), e.queue[0].segment, m, t), e.axes[i].config.resourceId)
  {
    var axis := e.axes[i].config.resourceId;
    var front, edges := e.queue[0], ServingEdges(e, t);
    if x :| x in edges && OnLine(x, axis) {
      j := MoveOnLine(e, t, x, axis);
      var m := front.moves[j];
      if Served(AxisOf(e.axes, m), front.segment, m, t).falls == m.count {
        SpentMoveIsLow(e, t, j, x, e.axes[i].level);
      }
      FallsStop(AxisOf(e.axes, m).config, front.segment, m, m.falls, t);
    } else {
      LineUntouched(edges, axis, e.axes[i].level);
      assert LineOwed(e, axis);
      j :| 0 <= j < |front.moves| && Owes(front.moves[j], axis);
      UnfallenStays(e, t, j);
    }
  }

  lemma CollectIsServing(e: Executor, t: u64)
    requires Serving(e, t)
    ensures var r := Collect(e, t);
            && r.edges == ServingEdges(e, t)
            && r.executor.axes == ApplyEdges(e.axes, r.edges)
            && r.executor.metrics.edges == e.metrics.edges + |r.edges|
            && |r.executor.queue| == |e.queue|
            && r.executor.queue[0].moves == ServedMoves(e.axes, e.queue[0].segment, e.queue[0].moves, t)
            && forall k | 0 < k < |e.queue| :: r.executor.queue[k] == e.queue[k]
  {
  }

  lemma CollectKeepsLines(e: Executor, t: u64)
    requires Serving(e, t)
    ensures LinesInv(Collect(e, t).executor)
  {
    var c := Collect(e, t).executor;
    var front := e.queue[0];
    SegmentKnown(e);
    CollectIsServing(e, t);
    CollectKeeps(e, t);
    DistinctSame(e.axes, c.axes);
    ServedMovesPointwise(e.axes, front.segment, front.moves, t);
    forall k, j | 0 <= k < |c.queue| && 0 <= j < |c.queue[k].moves|
      ensures c.queue[k].moves[j].falls <= c.queue[k].moves[j].rises
    {
      if k == 0 {
        ServedInOrder(e.axes, front.segment, front.moves[j], t);
      } else {
        assert c.queue[k] == e.queue[k];
      }
    }
    forall i | 0 <= i < |c.axes| && c.axes[i].level
      ensures LineOwed(c, c.axes[i].config.resourceId)
    {
      AppliedLevel(e.axes, ServingEdges(e, t), i);
      var j := ServedLineOwed(e, t, i);
      assert Owes(c.queue[0].moves[j], c.axes[i].config.resourceId);
    }
  }

  /** At the end of its segment every line is low. */
  lemma EndIsLow(e: Executor, end: u64)
    requires |e.queue| > 0 && end == e.queue[0].segment.End() && Serving(e, end)
    ensures forall i | 0 <= i < |Collect(e, end).executor.axes| :: !Collect(e, end).executor.axes[i].level
  {
    SegmentKnown(e);
    CollectIsServing(e, end);
    CollectKeeps(e, end);
    forall i | 0 <= i < |e.axes|
      ensures !Collect(e, end).executor.axes[i].level
    {
      AppliedLevel(e.axes, ServingEdges(e, end), i);
      if LevelAfter(ServingEdges(e, end), e.axes[i].config.resourceId, e.axes[i].level) {
        var j := ServedLineOwed(e, end, i);
        AllServed(e.axes, e.queue[0].segment, e.queue[0].moves[j]);
      }
    }
  }

  // ---------------------------------------------------------------- seams

  /** Nothing before a time, and no line lowered at it. */
  ghost predicate Opens(edges: seq<Edge>, start: int) {
    forall x | x in edges :: start <= x.time && (x.time == start ==> EdgeOrder(x) > 0)
  }

  /** Nothing after a time, and only lines lowered at it. */
  ghost predicate Closes(edges: seq<Edge>, end: int) {
    forall x | x in edges :: x.time <= end && (x.time == end ==> EdgeOrder(x) == 0)
  }

  lemma JoinSorted(a: seq<Edge>, b: seq<Edge>, seam: int)
    requires Sorted(a) && Sorted(b) && Closes(a, seam) && Opens(b, seam)
    ensures Sorted(a + b)
  {
    var both := a + b;
    forall i, j | 0 <= i < j < |both|
      ensures !EdgeLess(both[j], both[i])
    {
      if j < |a| {
        assert both[i] == a[i] && both[j] == a[j];
      } else if i >= |a| {
        assert both[i] == b[i - |a|] && both[j] == b[j - |a|];
      } else {
        assert both[i] in a && both[j] in b;
      }
    }
  }

  lemma MoveEdgesSeams(axes: seq<Axis>, segment: Segment, m: MoveState, until: u64)
    requires MoveOk(axes, segment, m) && segment.End() <= U64_MAX && segment.duration > 0 && Configured(axes)
    requires until <= segment.End()
    ensures Opens(MoveEdges(AxisOf(axes, m), segment, m, until), segment.start)
    ensures Closes(MoveEdges(AxisOf(axes, m), segment, m, until), segment.End())
  {
    if m.count > 0 {
      var config := AxisOf(axes, m).config;
      assert ConfigOk(config);
      EdgeTimesExact(config, segment, m.count, m.count - 1);
      if m.falls < m.count {
        EdgeTimesExact(config, segment, m.count, m.falls);
      }
      RisesAreRises(config, segment, m, m.rises, until);
      FallsWithin(config, segment, m, m.falls, until, segment.start + 1);
      MoveEdgesWithin(axes, segment, m, until);
    }
  }

  lemma ServingSeams(e: Executor, t: u64)
    requires Serving(e, t)
    ensures Opens(ServingEdges(e, t), e.queue[0].segment.start)
    ensures Closes(ServingEdges(e, t), e.queue[0].segment.End())
  {
    var front := e.queue[0];
    SegmentKnown(e);
    ServingMembers(e, t);
    forall x | x in ServingEdges(e, t)
      ensures front.segment.start <= x.time <= front.segment.End()
      ensures x.time == front.segment.start ==> EdgeOrder(x) > 0
      ensures x.time == front.segment.End() ==> EdgeOrder(x) == 0
    {
      var j := EdgeOfMove(e.axes, front.segment, front.moves, t, x);
      MoveEdgesSeams(e.axes, front.segment, front.moves[j], t);
    }
  }

  lemma {:induction false} SafeEdgesOfLow(axes: seq<Axis>, at: u64)
    requires forall i | 0 <= i < |axes| :: !axes[i].level
    ensures Opens(SafeEdges(axes, at), at)
  {
    if axes != [] {
      SafeEdgesOfLow(axes[1..], at);
    }
  }

  // ---------------------------------------------------------------- the log

  /** The edges are in order, and what they say is what happened to the outputs. */
  ghost predicate Logs(e: Executor, r: Output) {
    && Sorted(r.edges)
    && r.executor.axes == ApplyEdges(e.axes, r.edges)
    && r.executor.metrics.edges == e.metrics.edges + |r.edges|
    && LinesInv(r.executor)
  }

  lemma WithinLogs(e: Executor, t: u64)
    requires Serving(e, t)
    ensures Logs(e, Collect(e, t)) && Opens(Collect(e, t).edges, e.queue[0].segment.start)
  {
    CollectIsServing(e, t);
    ServingMembers(e, t);
    ServingSeams(e, t);
    CollectKeepsLines(e, t);
  }

  lemma PopLogs(e: Executor, end: u64)
    requires |e.queue| > 0 && end == e.queue[0].segment.End() && Serving(e, end)
    ensures var popped := Popped(e, end);
            && popped.axes == ApplyEdges(e.axes, ServingEdges(e, end))
            && popped.metrics.edges == e.metrics.edges + |ServingEdges(e, end)|
            && LinesInv(popped)
            && forall i | 0 <= i < |popped.axes| :: !popped.axes[i].level
  {
    var c := Collect(e, end).executor;
    CollectIsServing(e, end);
    CollectKeepsLines(e, end);
    EndIsLow(e, end);
    var popped := Popped(e, end);
    forall k, j | 0 <= k < |popped.queue| && 0 <= j < |popped.queue[k].moves|
      ensures popped.queue[k].moves[j].falls <= popped.queue[k].moves[j].rises
    {
      assert popped.queue[k] == c.queue[k + 1];
    }
  }

  lemma JoinLogs(e: Executor, middle: Executor, a: seq<Edge>, r: Output, seam: int)
    requires Sorted(a) && Closes(a, seam) && middle.axes == ApplyEdges(e.axes, a)
    requires middle.metrics.edges == e.metrics.edges + |a|
    requires Logs(middle, r) && Opens(r.edges, seam)
    ensures Logs(e, Output(r.executor, a + r.edges))
  {
    JoinSorted(a, r.edges, seam);
    ApplyAppend(e.axes, a, r.edges);
  }

  lemma SafeLogs(e: Executor, at: u64, fault: Fault)
    requires DistinctIds(e.axes) && forall i | 0 <= i < |e.axes| :: !e.axes[i].level
    ensures Logs(e, EnterSafe(e, at, fault)) && Opens(EnterSafe(e, at, fault).edges, at)
  {
    var raw := SafeEdges(e.axes, at);
    SafeEdgesOfLow(e.axes, at);
    SortSorted(raw);
    SortMultiset(raw);
    SameMembers(SortEdges(raw), raw);
    EnterSafeIsOff(e, at, fault);
  }

  lemma ConcludeLogs(e: Executor, end: u64)
    requires |e.queue| > 0 && end == e.queue[0].segment.End() && Serving(e, end)
    ensures Logs(e, Conclude(Popped(e, end), e.queue[0].segment.final, end, ServingEdges(e, end)))
    ensures Opens(Conclude(Popped(e, end), e.queue[0].segment.final, end, ServingEdges(e, end)).edges,
                  e.queue[0].segment.start)
  {
    var popped, final := Popped(e, end), e.queue[0].segment.final;
    var edges := ServingEdges(e, end);
    SegmentKnown(e);
    PopLogs(e, end);
    ServingMembers(e, end);
    ServingSeams(e, end);
    var counted :=
      if final then popped
      else popped.(metrics := popped.metrics.(underruns := popped.metrics.underruns + 1));
    var fault := if final then NoFault else QueueUnderrun;
    SafeLogs(counted, end, fault);
    JoinLogs(e, counted, edges, EnterSafe(counted, end, fault), end);
  }

  lemma {:induction false} LoopLogs(e: Executor, t: u64)
    requires QueueInv(e) && Ready(e) && LinesInv(e)
    ensures Logs(e, AdvanceLoop(e, t))
    ensures |e.queue| > 0 ==> Opens(AdvanceLoop(e, t).edges, e.queue[0].segment.start)
    decreases |e.queue|
  {
    if |e.queue| == 0 || t < e.queue[0].segment.start {
      LoopWaits(e, t);
    } else {
      SegmentKnown(e);
      var end: u64 := e.queue[0].segment.End();
      if t < end {
        LoopWithin(e, t);
        WithinLogs(e, t);
      } else {
        LoopLogsPast(e, t, end);
      }
    }
  }

  lemma LoopLogsPast(e: Executor, t: u64, end: u64)
    requires QueueInv(e) && Ready(e) && LinesInv(e) && |e.queue| > 0
    requires Known(e.axes, e.queue[0].moves) && end == e.queue[0].segment.End() <= t
    ensures Logs(e, AdvanceLoop(e, t)) && Opens(AdvanceLoop(e, t).edges, e.queue[0].segment.start)
    decreases |e.queue|, 0
  {
    CollectPastEnd(e, end, t);
    CollectIsServing(e, end);
    if Last(e) {
      LoopConcludes(e, t);
      ConcludeLogs(e, end);
    } else {
      LoopContinues(e, t);
      PopKeeps(e, t);
      PopLogs(e, end);
      ServingMembers(e, end);
      ServingSeams(e, end);
      var popped := Popped(e, t);
      LoopLogs(popped, t);
      JoinLogs(e, popped, ServingEdges(e, end), AdvanceLoop(popped, t), end);
    }
  }

  lemma {:induction false} SortedStays(edges: seq<Edge>)
    requires Sorted(edges)
    ensures SortEdges(edges) == edges
  {
    if edges != [] {
      var rest := edges[1..];
      forall i, j | 0 <= i < j < |rest|
        ensures !EdgeLess(rest[j], rest[i])
      {
        assert !EdgeLess(edges[j + 1], edges[i + 1]);
      }
      SortedStays(rest);
      assert rest != [] ==> rest[0] == edges[1];
    }
  }

  /** Advancing, across any number of segments, a final stop or an underrun: the edges that are returned are in
      order, the edge counter grows by their number, and replayed on the outputs as they were they give the
      outputs as they are. */
  lemma AdvanceReplays(e: Executor, t: u64)
    requires Inv(e) && Ready(e) && LinesInv(e) && e.now <= t
    ensures AdvanceTo(e, t).Advanced? && Logs(e, AdvanceTo(e, t).output)
  {
    LoopLogs(e, t);
    SortedStays(AdvanceLoop(e, t).edges);
  }

  // ---------------------------------------------------------------- aborting

  predicate Names(axes: seq<Axis>, x: Edge) {
    IndexOf(axes, x.axis) < |axes|
  }

  lemma {:induction false} SafeEdgesNamed(axes: seq<Axis>, at: u64, x: Edge)
    requires x in SafeEdges(axes, at)
    ensures Names(axes, x)
  {
    if axes[0].config.resourceId != x.axis {
      SafeEdgesNamed(axes[1..], at, x);
    }
  }

  lemma NamesSame(a: seq<Axis>, b: seq<Axis>, x: Edge)
    requires SameConfigs(a, b) && Names(a, x)
    ensures Names(b, x)
  {
    IndexOfConfigs(a, b, x.axis);
  }

  lemma ServingNamed(e: Executor, t: u64, x: Edge)
    requires Serving(e, t) && x in ServingEdges(e, t)
    ensures Names(e.axes, x)
  {
    var front := e.queue[0];
    SegmentKnown(e);
    ServingMembers(e, t);
    var j := EdgeOfMove(e.axes, front.segment, front.moves, t, x);
    MoveEdgesWithin(e.axes, front.segment, front.moves[j], t);
  }

  lemma PoppedIsFine(e: Executor, t: u64, end: u64)
    requires |e.queue| > 0 && end == e.queue[0].segment.End() && Serving(e, end) && end <= t
    ensures Collect(e, t).edges == ServingEdges(e, end)
    ensures var popped := Popped(e, t);
            QueueInv(popped) && Ready(popped) && LinesInv(popped) && SameConfigs(popped.axes, e.axes) &&
            |popped.queue| < |e.queue|
  {
    CollectPastEnd(e, end, t);
    CollectIsServing(e, end);
    SegmentKnown(e);
    PopKeeps(e, t);
    PopLogs(e, end);
  }

  lemma ConcludeNamed(popped: Executor, final: bool, end: u64, edges: seq<Edge>, x: Edge)
    requires x in Conclude(popped, final, end, edges).edges && x !in edges
    ensures Names(popped.axes, x)
  {
    var safe := SafeEdges(popped.axes, end);
    SortMultiset(safe);
    SameMembers(SortEdges(safe), safe);
    SafeEdgesNamed(popped.axes, end, x);
  }

  /** Every edge of an advance names an axis of the executor. */
  lemma {:induction false} LoopNamed(e: Executor, t: u64, x: Edge)
    requires QueueInv(e) && Ready(e) && LinesInv(e) && x in AdvanceLoop(e, t).edges
    ensures Names(e.axes, x)
    decreases |e.queue|
  {
    if |e.queue| > 0 && e.queue[0].segment.start <= t {
      SegmentKnown(e);
      var end: u64 := e.queue[0].segment.End();
      if t < end {
        LoopWithin(e, t);
        CollectIsServing(e, t);
        ServingNamed(e, t, x);
      } else {
        PoppedIsFine(e, t, end);
        if x in ServingEdges(e, end) {
          ServingNamed(e, end, x);
        } else if Last(e) {
          LoopConcludes(e, t);
          ConcludeNamed(Popped(e, t), e.queue[0].segment.final, end, ServingEdges(e, end), x);
          NamesSame(Popped(e, t).axes, e.axes, x);
        } else {
          LoopContinues(e, t);
          LoopNamed(Popped(e, t), t, x);
          NamesSame(Popped(e, t).axes, e.axes, x);
        }
      }
    }
  }

  /** Stopping one output and changing another come to the same in either order. */
  lemma StopCommutes(axes: seq<Axis>, x: Edge, stop: Edge)
    requires DistinctIds(axes) && IsStop(stop) && !(x.axis == stop.axis && x.signal == stop.signal)
    ensures ApplyEdge(ApplyEdge(axes, x), stop) == ApplyEdge(ApplyEdge(axes, stop), x)
  {
    var a, b := ApplyEdge(ApplyEdge(axes, x), stop), ApplyEdge(ApplyEdge(axes, stop), x);
    assert |a| == |axes| == |b|;
    forall i | 0 <= i < |axes|
      ensures a[i] == b[i]
    {
      AppliedOne(axes, x, i);
      AppliedOne(ApplyEdge(axes, x), stop, i);
      AppliedOne(axes, stop, i);
      AppliedOne(ApplyEdge(axes, stop), x, i);
    }
  }

  /** An edge may be sorted in behind stopping edges of other outputs. */
  lemma {:induction false} InsertReplays(axes: seq<Axis>, x: Edge, sorted: seq<Edge>)
    requires DistinctIds(axes)
    requires forall s | s in sorted && EdgeLess(s, x) :: IsStop(s) && !(x.axis == s.axis && x.signal == s.signal)
    ensures ApplyEdges(axes, Insert(x, sorted)) == ApplyEdges(ApplyEdge(axes, x), sorted)
    decreases |sorted|
  {
    if sorted != [] && EdgeLess(sorted[0], x) {
      assert sorted[0] in sorted;
      if |axes| > 0 {
        AppliedOne(axes, sorted[0], 0);
      }
      assert Insert(x, sorted)[1..] == Insert(x, sorted[1..]);
      InsertReplays(ApplyEdge(axes, sorted[0]), x, sorted[1..]);
      StopCommutes(axes, x, sorted[0]);
    } else {
      assert ([x] + sorted)[1..] == sorted;
    }
  }

  predicate RisesAt(x: Edge, t: int) {
    x.time == t && x.signal == StepLine && x.level
  }

  /** A log without a rise at its last moment can be sorted together with stopping edges of that moment. */
  lemma {:induction false} MergeReplays(axes: seq<Axis>, log: seq<Edge>, stops: seq<Edge>, t: u64)
    requires DistinctIds(axes) && Sorted(log) && Until(log, t)
    requires forall x | x in log :: !RisesAt(x, t)
    requires forall s | s in stops :: IsStop(s) && s.time == t
    ensures ApplyEdges(axes, SortEdges(log + stops)) == ApplyEdges(axes, log + SortEdges(stops))
    decreases |log|
  {
    if log == [] {
      assert log + stops == stops && log + SortEdges(stops) == SortEdges(stops);
    } else {
      var x, rest := log[0], log[1..];
      assert (log + stops)[1..] == rest + stops;
      assert (log + SortEdges(stops))[1..] == rest + SortEdges(stops);
      var merged := SortEdges(rest + stops);
      SortMultiset(rest + stops);
      SameMembers(merged, rest + stops);
      SortedTail(log);
      forall s | s in merged && EdgeLess(s, x)
        ensures IsStop(s) && !(x.axis == s.axis && x.signal == s.signal)
      {
        assert s in rest || s in stops;
        assert x in log;
      }
      InsertReplays(axes, x, merged);
      if |axes| > 0 {
        AppliedOne(axes, x, 0);
      }
      MergeReplays(ApplyEdge(axes, x), rest, stops, t);
    }
  }

  lemma SortedTail(edges: seq<Edge>)
    requires Sorted(edges) && edges != []
    ensures Sorted(edges[1..])
    ensures forall x | x in edges[1..] :: !EdgeLess(x, edges[0]) && x in edges
  {
    var rest := edges[1..];
    forall i, j | 0 <= i < j < |rest|
      ensures !EdgeLess(rest[j], rest[i])
    {
      assert !EdgeLess(edges[j + 1], edges[i + 1]);
    }
    forall x | x in rest
      ensures !EdgeLess(x, edges[0]) && x in edges
    {
      var j :| 0 <= j < |rest| && rest[j] == x;
      assert !EdgeLess(edges[j + 1], edges[0]);
    }
  }

  lemma AbortShape(e: Executor, t: u64, fault: Fault)
    requires Ready(e) && Abort(e, t, fault).Advanced?
    ensures AdvanceTo(e, t).Advanced?
    ensures var log := AdvanceTo(e, t).output; var r := Abort(e, t, fault).output;
            var stops := SortEdges(SafeEdges(log.executor.axes, t));
            && r.edges == SortEdges(log.edges + stops)
            && r.executor.axes == ApplyEdges(log.executor.axes, stops)
  {
  }

  lemma AdvanceUntil(e: Executor, t: u64)
    requires Inv(e) && Ready(e) && AdvanceTo(e, t).Advanced?
    ensures Until(AdvanceTo(e, t).output.edges, t)
  {
    LoopKeeps(e, t);
    SortMultiset(AdvanceLoop(e, t).edges);
    SameMembers(AdvanceTo(e, t).output.edges, AdvanceLoop(e, t).edges);
  }

  /** What an abort that is not refused returns, and what the advance before it logged. */
  lemma AbortParts(e: Executor, t: u64, fault: Fault)
    requires Inv(e) && Ready(e) && LinesInv(e) && OffWhenEmpty(e) && Abort(e, t, fault).Advanced?
    ensures AdvanceTo(e, t).Advanced? && Logs(e, AdvanceTo(e, t).output) && Until(AdvanceTo(e, t).output.edges, t)
    ensures var log := AdvanceTo(e, t).output; var r := Abort(e, t, fault).output;
            var stops := SafeEdges(log.executor.axes, t);
            && r.edges == SortEdges(log.edges + SortEdges(stops))
            && r.executor.axes == ApplyEdges(e.axes, log.edges + SortEdges(stops))
            && (forall s | s in stops :: IsStop(s) && s.time == t)
            && |r.executor.axes| == |e.axes|
            && forall i | 0 <= i < |e.axes| :: !r.executor.axes[i].level
  {
    AbortShape(e, t, fault);
    AdvanceReplays(e, t);
    AdvanceUntil(e, t);
    AbortStops(e, t, fault);
    var log := AdvanceTo(e, t).output;
    SafeEdgesAt(log.executor.axes, t);
    ApplyAppend(e.axes, log.edges, SortEdges(SafeEdges(log.executor.axes, t)));
  }

  lemma AbortReplaysWithoutRise(e: Executor, t: u64, fault: Fault)
    requires Inv(e) && Ready(e) && LinesInv(e) && OffWhenEmpty(e) && Abort(e, t, fault).Advanced?
    ensures AdvanceTo(e, t).Advanced?
    ensures ApplyEdges(e.axes, Abort(e, t, fault).output.edges) == Abort(e, t, fault).output.executor.axes <==>
              forall x | x in AdvanceTo(e, t).output.edges :: !RisesAt(x, t)
  {
    AbortParts(e, t, fault);
    var log := AdvanceTo(e, t).output;
    var raw := SafeEdges(log.executor.axes, t);
    var stops := SortEdges(raw);
    SortMultiset(raw);
    SameMembers(stops, raw);
    if forall x | x in log.edges :: !RisesAt(x, t) {
      MergeReplays(e.axes, log.edges, stops, t);
      SortSorted(raw);
      SortedStays(stops);
    } else {
      var x :| x in log.edges && RisesAt(x, t);
      RiseStaysHigh(e, t, fault, x);
    }
  }

  // ---------------------------------------------------------------- rises that are due

  /** Rise n of a move is still to come, and comes at t. */
  predicate RiseOfMove(axes: seq<Axis>, segment: Segment, m: MoveState, n: u64, t: u64) {
    && IndexOf(axes, m.move.resourceId) < |axes|
    && m.rises <= n < m.count
    && RiseTime(AxisOf(axes, m).config, segment, m.count, n) == t
  }

  predicate RiseOfSegment(axes: seq<Axis>, s: SegmentState, t: u64) {
    exists j, n: u64 | 0 <= j < |s.moves| && s.moves[j].rises <= n < s.moves[j].count ::
      RiseOfMove(axes, s.segment, s.moves[j], n, t)
  }

  /** Some queued move has a rise yet to come at t. */
  predicate RiseDue(e: Executor, t: u64) {
    exists k | 0 <= k < |e.queue| :: RiseOfSegment(e.axes, e.queue[k], t)
  }

  lemma {:induction false} RiseIndex(config: AxisConfig, segment: Segment, m: MoveState, k: u64, until: u64, x: Edge)
      returns (n: u64)
    requires x in Rises(config, segment, m, k, until)
    ensures k <= n < m.count && x.time == RiseTime(config, segment, m.count, n)
    decreases m.count - k
  {
    if x == Rises(config, segment, m, k, until)[0] {
      n := k;
    } else {
      n := RiseIndex(config, segment, m, k + 1, until, x);
    }
  }

  lemma {:induction false} RiseAmong(config: AxisConfig, segment: Segment, m: MoveState, k: u64, until: u64, n: u64)
    requires Admitted(config, m.count, segment.duration) && segment.End() <= U64_MAX
    requires k <= n < m.count && RiseTime(config, segment, m.count, n) <= until
    ensures Edge(RiseTime(config, segment, m.count, n), m.move.resourceId, StepLine, true)
              in Rises(config, segment, m, k, until)
    decreases m.count - k
  {
    RisesAscend(config, segment, m.count, k, n);
    if k < n {
      RiseAmong(config, segment, m, k + 1, until, n);
    }
  }

  /** What a served segment emits at t includes a rise exactly when one of its moves has one then. */
  lemma ServingRise(e: Executor, t: u64)
    requires Serving(e, t)
    ensures (exists x :: x in ServingEdges(e, t) && RisesAt(x, t)) <==> RiseOfSegment(e.axes, e.queue[0], t)
  {
    var front := e.queue[0];
    SegmentKnown(e);
    ServingMembers(e, t);
    if x :| x in ServingEdges(e, t) && RisesAt(x, t) {
      var j := MoveOnLine(e, t, x, x.axis);
      var m := front.moves[j];
      var config := AxisOf(e.axes, m).config;
      FallsWithin(config, front.segment, m, m.falls, t, 0);
      var n := RiseIndex(config, front.segment, m, m.rises, t, x);
      assert RiseOfMove(e.axes, front.segment, m, n, t);
    }
    if RiseOfSegment(e.axes, front, t) {
      var j, n := RisingMove(e.axes, front, t);
      RiseIsServed(e, t, j, n);
    }
  }

  lemma RiseIsServed(e: Executor, t: u64, j: nat, n: u64)
    requires Serving(e, t) && j < |e.queue[0].moves| && RiseOfMove(e.axes, e.queue[0].segment, e.queue[0].moves[j], n, t)
    ensures exists x :: x in ServingEdges(e, t) && RisesAt(x, t)
  {
    var front := e.queue[0];
    var m := front.moves[j];
    SegmentKnown(e);
    ServingMembers(e, t);
    RiseAmong(AxisOf(e.axes, m).config, front.segment, m, m.rises, t, n);
    MoveEdgesAmong(e.axes, front.segment, front.moves, t, j);
    var x := Edge(t, m.move.resourceId, StepLine, true);
    assert x in MoveEdges(AxisOf(e.axes, m), front.segment, m, t);
    assert RisesAt(x, t);
  }

  /** Rises come after the start of their segment and before its end. */
  lemma RiseInside(e: Executor, k: nat, t: u64)
    requires QueueInv(e) && k < |e.queue| && RiseOfSegment(e.axes, e.queue[k], t)
    ensures e.queue[k].segment.start < t < e.queue[k].segment.End()
  {
    var s := e.queue[k];
    assert SegmentOk(e.axes, s);
    var j, n := RisingMove(e.axes, s, t);
    MoveRiseInside(e.axes, s.segment, s.moves[j], n, t);
  }

  lemma RisingMove(axes: seq<Axis>, s: SegmentState, t: u64) returns (j: nat, n: u64)
    requires RiseOfSegment(axes, s, t)
    ensures j < |s.moves| && RiseOfMove(axes, s.segment, s.moves[j], n, t)
  {
    j, n :| 0 <= j < |s.moves| && s.moves[j].rises <= n < s.moves[j].count && RiseOfMove(axes, s.segment, s.moves[j], n, t);
  }

  lemma MoveRiseInside(axes: seq<Axis>, segment: Segment, m: MoveState, n: u64, t: u64)
    requires Configured(axes) && MoveOk(axes, segment, m) && segment.End() <= U64_MAX && RiseOfMove(axes, segment, m, n, t)
    ensures segment.start < t < segment.End()
  {
    var config := AxisOf(axes, m).config;
    assert ConfigOk(config);
    EdgeTimesExact(config, segment, m.count, n);
  }

  lemma MoveRiseSame(a: seq<Axis>, b: seq<Axis>, segment: Segment, m: MoveState, n: u64, t: u64)
    requires SameConfigs(a, b) && RiseOfMove(a, segment, m, n, t)
    ensures RiseOfMove(b, segment, m, n, t)
  {
    IndexOfConfigs(a, b, m.move.resourceId);
  }

  lemma {:induction false} LaterStarts(e: Executor, k: nat)
    requires QueueInv(e) && 0 < k < |e.queue|
    ensures e.queue[0].segment.End() <= e.queue[k].segment.start
  {
    assert Follows(e.queue[k - 1], e.queue[k]);
    if k > 1 {
      LaterStarts(e, k - 1);
      assert SegmentOk(e.axes, e.queue[k - 1]);
    }
  }

  /** Before the end of the front segment a rise that is due is one of its own, and after its start. */
  lemma DueInFront(e: Executor, t: u64)
    requires QueueInv(e) && |e.queue| > 0 && t < e.queue[0].segment.End()
    ensures RiseDue(e, t) <==> RiseOfSegment(e.axes, e.queue[0], t)
    ensures RiseDue(e, t) ==> e.queue[0].segment.start < t
  {
    if RiseDue(e, t) {
      var k :| 0 <= k < |e.queue| && RiseOfSegment(e.axes, e.queue[k], t);
      RiseInside(e, k, t);
      if k > 0 {
        LaterStarts(e, k);
      }
    }
  }

  lemma SameRise(a: seq<Axis>, b: seq<Axis>, s: SegmentState, t: u64)
    requires SameConfigs(a, b) && RiseOfSegment(a, s, t)
    ensures RiseOfSegment(b, s, t)
  {
    var j, n := RisingMove(a, s, t);
    MoveRiseSame(a, b, s.segment, s.moves[j], n, t);
  }

  /** From the end of the front segment on, a rise that is due is one of the segments behind it. */
  lemma DueBehind(e: Executor, popped: Executor, t: u64)
    requires QueueInv(e) && |e.queue| > 0 && e.queue[0].segment.End() <= t
    requires popped.queue == e.queue[1..] && SameConfigs(popped.axes, e.axes)
    ensures RiseDue(e, t) <==> RiseDue(popped, t)
  {
    if RiseDue(e, t) {
      var k :| 0 <= k < |e.queue| && RiseOfSegment(e.axes, e.queue[k], t);
      RiseInside(e, k, t);
      assert k > 0 && popped.queue[k - 1] == e.queue[k];
      SameRise(e.axes, popped.axes, e.queue[k], t);
    }
    if RiseDue(popped, t) {
      var k :| 0 <= k < |popped.queue| && RiseOfSegment(popped.axes, popped.queue[k], t);
      assert popped.queue[k] == e.queue[k + 1];
      SameRise(popped.axes, e.axes, popped.queue[k], t);
    }
  }

  ghost predicate LogsRise(edges: seq<Edge>, t: int) {
    exists x :: x in edges && RisesAt(x, t)
  }

  lemma LogsRiseEither(a: seq<Edge>, b: seq<Edge>, t: int)
    ensures LogsRise(a + b, t) <==> LogsRise(a, t) || LogsRise(b, t)
  {
    if LogsRise(a, t) {
      var x :| x in a && RisesAt(x, t);
      assert x in a + b;
    }
    if LogsRise(b, t) {
      var x :| x in b && RisesAt(x, t);
      assert x in a + b;
    }
  }

  /** The loop logs a rise at the time it advances to exactly when one is due then. */
  lemma {:induction false} LoopRises(e: Executor, t: u64)
    requires QueueInv(e) && Ready(e) && LinesInv(e)
    ensures LogsRise(AdvanceLoop(e, t).edges, t) <==> RiseDue(e, t)
    decreases |e.queue|
  {
    if |e.queue| == 0 {
      LoopWaits(e, t);
    } else {
      SegmentKnown(e);
      var end: u64 := e.queue[0].segment.End();
      if t < end {
        LoopRisesWithin(e, t);
      } else {
        PoppedIsFine(e, t, end);
        PopKeeps(e, t);
        DueBehind(e, Popped(e, t), t);
        ServingSeams(e, end);
        if Last(e) {
          LoopConcludes(e, t);
          LastRises(e, t, end);
        } else {
          LoopContinues(e, t);
          LoopRises(Popped(e, t), t);
          LogsRiseEither(ServingEdges(e, end), AdvanceLoop(Popped(e, t), t).edges, t);
        }
      }
    }
  }

  lemma LoopRisesWithin(e: Executor, t: u64)
    requires QueueInv(e) && Ready(e) && LinesInv(e) && |e.queue| > 0 && Known(e.axes, e.queue[0].moves)
    requires t < e.queue[0].segment.End()
    ensures LogsRise(AdvanceLoop(e, t).edges, t) <==> RiseDue(e, t)
  {
    DueInFront(e, t);
    if t < e.queue[0].segment.start {
      LoopWaits(e, t);
    } else {
      LoopWithin(e, t);
      CollectIsServing(e, t);
      ServingRise(e, t);
    }
  }

  /** The last segment's end brings no rise. */
  lemma LastRises(e: Executor, t: u64, end: u64)
    requires |e.queue| > 0 && end == e.queue[0].segment.End() && Serving(e, end) && end <= t && Last(e)
    ensures var popped := Popped(e, t);
            !LogsRise(Conclude(popped, e.queue[0].segment.final, end, ServingEdges(e, end)).edges, t)
    ensures !RiseDue(e, t)
  {
    var popped := Popped(e, t);
    SegmentKnown(e);
    PoppedIsFine(e, t, end);
    PopKeeps(e, t);
    ServingSeams(e, end);
    var safe := SafeEdges(popped.axes, end);
    SafeEdgesAt(popped.axes, end);
    SortMultiset(safe);
    SameMembers(SortEdges(safe), safe);
    LogsRiseEither(ServingEdges(e, end), SortEdges(safe), t);
    DueBehind(e, popped, t);
  }

  lemma AdvanceRises(e: Executor, t: u64)
    requires Inv(e) && Ready(e) && LinesInv(e) && AdvanceTo(e, t).Advanced?
    ensures LogsRise(AdvanceTo(e, t).output.edges, t) <==> RiseDue(e, t)
  {
    LoopRises(e, t);
    SortMultiset(AdvanceLoop(e, t).edges);
    SameMembers(AdvanceTo(e, t).output.edges, AdvanceLoop(e, t).edges);
  }

  /** The edges that an abort returns replay to the outputs as they are if and only if none of the queued moves has a
      rise yet to come at the very moment of the abort: the fall that stops it is sorted before it. */
  lemma AbortReplaysExactly(e: Executor, t: u64, fault: Fault)
    requires Inv(e) && Ready(e) && LinesInv(e) && OffWhenEmpty(e) && Abort(e, t, fault).Advanced?
    ensures ApplyEdges(e.axes, Abort(e, t, fault).output.edges) == Abort(e, t, fault).output.executor.axes <==>
              !RiseDue(e, t)
  {
    AbortReplaysWithoutRise(e, t, fault);
    AdvanceRises(e, t);
  }

  lemma AbortMembers(e: Executor, t: u64, fault: Fault)
    requires Inv(e) && Ready(e) && LinesInv(e) && OffWhenEmpty(e) && Abort(e, t, fault).Advanced?
    ensures AdvanceTo(e, t).Advanced? && Sorted(Abort(e, t, fault).output.edges)
    ensures forall z | z in AdvanceTo(e, t).output.edges :: z in Abort(e, t, fault).output.edges
    ensures forall z | z in Abort(e, t, fault).output.edges ::
              z.time <= t && (z in AdvanceTo(e, t).output.edges || IsStop(z))
  {
    AbortParts(e, t, fault);
    var log := AdvanceTo(e, t).output;
    var raw := SafeEdges(log.executor.axes, t);
    var all := log.edges + SortEdges(raw);
    SortSorted(all);
    SortMultiset(all);
    SameMembers(SortEdges(all), all);
    SortMultiset(raw);
    SameMembers(SortEdges(raw), raw);
  }

  lemma AdvanceNamed(e: Executor, t: u64, x: Edge)
    requires Inv(e) && Ready(e) && LinesInv(e) && AdvanceTo(e, t).Advanced? && x in AdvanceTo(e, t).output.edges
    ensures Names(e.axes, x)
  {
    SortMultiset(AdvanceLoop(e, t).edges);
    SameMembers(AdvanceTo(e, t).output.edges, AdvanceLoop(e, t).edges);
    LoopNamed(e, t, x);
  }

  lemma RiseStaysHigh(e: Executor, t: u64, fault: Fault, x: Edge)
    requires Inv(e) && Ready(e) && LinesInv(e) && OffWhenEmpty(e) && Abort(e, t, fault).Advanced?
    requires AdvanceTo(e, t).Advanced? && x in AdvanceTo(e, t).output.edges && RisesAt(x, t)
    ensures ApplyEdges(e.axes, Abort(e, t, fault).output.edges) != Abort(e, t, fault).output.executor.axes
  {
    var r := Abort(e, t, fault).output;
    AbortMembers(e, t, fault);
    AdvanceNamed(e, t, x);
    var i := IndexOf(e.axes, x.axis);
    assert |r.executor.axes| == |e.axes| && !r.executor.axes[i].level by {
      AbortParts(e, t, fault);
    }
    LastOnLine(r.edges, x.axis, e.axes[i].level, x);
    AppliedLevel(e.axes, r.edges, i);
  }

  const QUICK_AXIS := AxisConfig(1, 500000000, 1, 1, 1)
  const ONE_RISE := Segment(1, 10, 10, true, [Move(1, 1)])
  const AT_REST := Initial([QUICK_AXIS], 1, 1)
  const ARMED := Append(AT_REST, ONE_RISE)

  lemma OneRiseAccepted()
    ensures ConfigsOk([QUICK_AXIS], 1, 1) && Configured(AT_REST.axes)
    ensures Enqueue(AT_REST, ONE_RISE, 0) == Accepted(ARMED, ONE_RISE)
    ensures Inv(ARMED) && Ready(ARMED) && LinesInv(ARMED) && OffWhenEmpty(ARMED)
  {
    InitialInv([QUICK_AXIS], 1, 1);
    InitialIsOff([QUICK_AXIS], 1, 1);
    assert CheckMove(AT_REST.axes, 10, ONE_RISE.axes, 0) == Fine;
    assert CheckMoves(AT_REST.axes, 10, ONE_RISE.axes, 1) == Fine;
    assert Enqueue(AT_REST, ONE_RISE, 0) == Accepted(ARMED, ONE_RISE);
    EnqueueKeepsInv(AT_REST, ONE_RISE, 0);
    InvReady(ARMED);
  }

  /** A run in which it does: a segment from 10 on whose only rise is at 11, aborted at 11. */
  lemma AbortAtARiseReplaysWrongly()
    ensures Enqueue(AT_REST, ONE_RISE, 0) == Accepted(ARMED, ONE_RISE)
    ensures Ready(ARMED) && Abort(ARMED, 11, Aborted).Advanced?
    ensures ApplyEdges(ARMED.axes, Abort(ARMED, 11, Aborted).output.edges) !=
              Abort(ARMED, 11, Aborted).output.executor.axes
  {
    OneRiseAccepted();
    AbortStops(ARMED, 11, Aborted);
    var front := ARMED.queue[0];
    var m := MoveState(Move(1, 1), 1, 0, 0, false);
    assert front.moves == [m];
    assert IndexOf(ARMED.axes, 1) == 0;
    assert RiseOfMove(ARMED.axes, ONE_RISE, m, 0, 11);
    assert RiseOfSegment(ARMED.axes, front, 11);
    AbortReplaysExactly(ARMED, 11, Aborted);
  }

  // ---------------------------------------------------------------- whole runs

  lemma EnqueueKeepsLines(e: Executor, request: Segment, now: u64)
    requires Inv(e) && LinesInv(e)
    ensures LinesInv(Enqueue(e, request, now).executor)
  {
    var after := Enqueue(e, request, now).executor;
    forall i | 0 <= i < |after.axes| && after.axes[i].level
      ensures LineOwed(after, after.axes[i].config.resourceId)
    {
      assert LineOwed(e, e.axes[i].config.resourceId);
      assert after.queue[0] == e.queue[0];
    }
  }

  lemma OffKeepsLines(e: Executor)
    requires Inv(e) && OffWhenEmpty(e) && e.mode == Faulted
    ensures LinesInv(e)
  {
  }

  lemma SameLines(e: Executor, after: Executor)
    requires LinesInv(e) && after.axes == e.axes && after.queue == e.queue
    ensures LinesInv(after)
  {
    forall i | 0 <= i < |after.axes| && after.axes[i].level
      ensures LineOwed(after, after.axes[i].config.resourceId)
    {
      assert LineOwed(e, e.axes[i].config.resourceId);
    }
  }

  lemma AdvanceKeepsLines(e: Executor, now: u64)
    requires Inv(e) && Ready(e) && LinesInv(e)
    ensures LinesInv(Apply(e, Advance(now)))
  {
    if e.now <= now {
      AdvanceReplays(e, now);
    }
  }

  lemma StopKeepsLines(e: Executor, now: u64, fault: Fault)
    requires Inv(e) && Ready(e) && OffWhenEmpty(e) && LinesInv(e)
    ensures LinesInv(Apply(e, Stop(now, fault)))
  {
    AbortStops(e, now, fault);
    if Abort(e, now, fault).Advanced? {
      OffKeepsLines(Apply(e, Stop(now, fault)));
    }
  }

  lemma LimitShape(e: Executor, resourceId: u32, now: u64)
    requires Inv(e) && Ready(e) && OffWhenEmpty(e) && TriggerLimit(e, resourceId, now).Thrown?
    ensures var after := TriggerLimit(e, resourceId, now).executor; after.axes == e.axes && after.queue == e.queue
  {
    var counted := e.(metrics := e.metrics.(limitStops := e.metrics.limitStops + 1));
    MetricsKeep(e, counted);
    AbortStops(counted, now, LimitTriggered);
  }

  lemma LimitKeepsLines(e: Executor, resourceId: u32, now: u64)
    requires Inv(e) && Ready(e) && OffWhenEmpty(e) && LinesInv(e)
    ensures LinesInv(Apply(e, Limit(resourceId, now)))
  {
    var r := TriggerLimit(e, resourceId, now);
    if r.Thrown? {
      LimitShape(e, resourceId, now);
      SameLines(e, r.executor);
    } else {
      LimitStops(e, resourceId, now);
      OffKeepsLines(r.output.executor);
    }
  }

  lemma ClearKeepsLines(e: Executor)
    requires Inv(e) && Ready(e) && LinesInv(e)
    ensures LinesInv(Apply(e, Clear))
  {
    SameLines(e, Apply(e, Clear));
  }

  lemma ApplyKeepsLines(e: Executor, op: Operation)
    requires Inv(e) && Ready(e) && OffWhenEmpty(e) && LinesInv(e)
    ensures LinesInv(Apply(e, op))
  {
    match op
    case EnqueueSegment(request, now) => EnqueueKeepsLines(e, request, now);
    case Advance(now) => AdvanceKeepsLines(e, now);
    case Stop(now, fault) => StopKeepsLines(e, now, fault);
    case Limit(resourceId, now) => LimitKeepsLines(e, resourceId, now);
    case Clear => ClearKeepsLines(e);
  }

  lemma {:induction false} RunKeepsLines(e: Executor, ops: seq<Operation>)
    requires Inv(e) && Ready(e) && OffWhenEmpty(e) && LinesInv(e)
    ensures LinesInv(Run(e, ops))
    decreases |ops|
  {
    if ops != [] {
      ApplyKeeps(e, ops[0]);
      ApplyKeepsLines(e, ops[0]);
      RunKeepsLines(Apply(e, ops[0]), ops[1..]);
    }
  }

  /** After any operations, successful or refused, what the next advance returns is a log of what it does. */
  lemma RunReplays(configs: seq<AxisConfig>, capacity: nat, lead: u64, ops: seq<Operation>, t: u64)
    requires ConfigsOk(configs, capacity, lead)
    ensures var e := Initial(configs, capacity, lead); Inv(e) && Ready(e) && OffWhenEmpty(e)
    ensures var e := Run(Initial(configs, capacity, lead), ops);
            Ready(e) && (e.now <= t ==> AdvanceTo(e, t).Advanced? && Logs(e, AdvanceTo(e, t).output))
  {
    RunIsSafe(configs, capacity, lead, ops);
    RunKeepsLines(Initial(configs, capacity, lead), ops);
    var e := Run(Initial(configs, capacity, lead), ops);
    InvReady(e);
    if e.now <= t {
      AdvanceReplays(e, t);
    }
  }
}
