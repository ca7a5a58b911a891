/** The edges of one segment, served in one piece or in two
    (mock_mcu/src/motion_executor.cpp:361-453). */
module MockMotionEdges {
  import opened FixedWidth
  import opened MockMotion
  import opened MockMotionTiming
  import opened MockMotionSorting

  // ---------------------------------------------------------------- well-formed moves

  predicate MoveOk(axes: seq<Axis>, segment: Segment, m: MoveState) {
    && IndexOf(axes, m.move.resourceId) < |axes|
    && m.count == AbsoluteSteps(m.move.steps)
    && m.rises <= m.count && m.falls <= m.count
    && (m.count > 0 ==> Admitted(AxisOf(axes, m).config, m.count, segment.duration))
  }

  ghost predicate SegmentOk(axes: seq<Axis>, s: SegmentState) {
    && s.segment.duration > 0 && s.segment.End() <= U64_MAX
    && (forall i | 0 <= i < |s.moves| :: MoveOk(axes, s.segment, s.moves[i]))
    && DistinctAxes(s.moves)
  }

  ghost predicate DistinctAxes(moves: seq<MoveState>) {
    forall i, j | 0 <= i < j < |moves| :: moves[i].move.resourceId != moves[j].move.resourceId
  }

  /** Tables with the same configurations. */
  ghost predicate SameConfigs(a: seq<Axis>, b: seq<Axis>) {
    |a| == |b| && forall i | 0 <= i < |a| :: a[i].config == b[i].config
  }

  lemma SameAxis(a: seq<Axis>, b: seq<Axis>, segment: Segment, m: MoveState)
    requires SameConfigs(a, b) && MoveOk(a, segment, m)
    ensures MoveOk(b, segment, m) && AxisOf(a, m).config == AxisOf(b, m).config
  {
    IndexOfConfigs(a, b, m.move.resourceId);
  }

  // ---------------------------------------------------------------- rises and falls

  lemma {:induction false} RisesSplit(config: AxisConfig, segment: Segment, m: MoveState, k: u64, t1: u64, t2: u64)
    requires t1 <= t2 && k + |Rises(config, segment, m, k, t1)| <= U64_MAX
    ensures Rises(config, segment, m, k, t2) ==
            Rises(config, segment, m, k, t1)
            + Rises(config, segment, m, k + |Rises(config, segment, m, k, t1)|, t2)
    decreases m.count - k
  {
    var time := if k < m.count then RiseTime(config, segment, m.count, k) else 0;
    if k < m.count && time <= t1 {
      RisesSplit(config, segment, m, k + 1, t1, t2);
      var first, later := Rises(config, segment, m, k, t1), Rises(config, segment, m, k + 1, t1);
      assert first[1..] == later && k + |first| == k + 1 + |later|;
    }
  }

  lemma {:induction false} FallsSplit(config: AxisConfig, segment: Segment, m: MoveState, k: u64, t1: u64, t2: u64)
    requires t1 <= t2 && k + |Falls(config, segment, m, k, t1)| <= U64_MAX
    ensures Falls(config, segment, m, k, t2) ==
            Falls(config, segment, m, k, t1)
            + Falls(config, segment, m, k + |Falls(config, segment, m, k, t1)|, t2)
    decreases m.count - k
  {
    var time := if k < m.count then FallTime(config, segment, m.count, k) else 0;
    if k < m.count && time <= t1 {
      FallsSplit(config, segment, m, k + 1, t1, t2);
      var first, later := Falls(config, segment, m, k, t1), Falls(config, segment, m, k + 1, t1);
      assert first[1..] == later && k + |first| == k + 1 + |later|;
    }
  }

  /** An edge of move m that falls in a window of time. */
  predicate Ours(x: Edge, m: MoveState) {
    && x.axis == m.move.resourceId
    && (x.signal == Enable ==> x.level)
    && (x.signal == Direction ==> x.level == (m.move.steps >= 0))
  }

  predicate Within(x: Edge, from: int, to: int) {
    from <= x.time <= to
  }

  lemma {:induction false} RisesWithin(config: AxisConfig, segment: Segment, m: MoveState, k: u64, until: u64, from: nat)
    requires m.count > 0 ==> Admitted(config, m.count, segment.duration)
    requires segment.End() <= U64_MAX
    requires k < m.count ==> from <= RiseTime(config, segment, m.count, k)
    ensures forall x | x in Rises(config, segment, m, k, until) ::
              Within(x, from, until) && Ours(x, m) && x.signal == StepLine && x.level
    decreases m.count - k
  {
    if k < m.count && RiseTime(config, segment, m.count, k) <= until {
      if k + 1 < m.count {
        RisesAscend(config, segment, m.count, k, k + 1);
      }
      RisesWithin(config, segment, m, k + 1, until, from);
    }
  }

  lemma {:induction false} FallsWithin(config: AxisConfig, segment: Segment, m: MoveState, k: u64, until: u64, from: nat)
    requires m.count > 0 ==> Admitted(config, m.count, segment.duration)
    requires segment.End() <= U64_MAX
    requires k < m.count ==> from <= FallTime(config, segment, m.count, k)
    ensures forall x | x in Falls(config, segment, m, k, until) ::
              Within(x, from, until) && Ours(x, m) && x.signal == StepLine && !x.level
    decreases m.count - k
  {
    if k < m.count && FallTime(config, segment, m.count, k) <= until {
      if k + 1 < m.count {
        RisesAscend(config, segment, m.count, k, k + 1);
      }
      FallsWithin(config, segment, m, k + 1, until, from);
    }
  }

  lemma {:induction false} RisesStop(config: AxisConfig, segment: Segment, m: MoveState, k: u64, until: u64)
    requires k <= m.count
    ensures var next := k + |Rises(config, segment, m, k, until)|;
            next <= m.count && (next < m.count ==> RiseTime(config, segment, m.count, next) > until)
    decreases m.count - k
  {
    if k < m.count && RiseTime(config, segment, m.count, k) <= until {
      RisesStop(config, segment, m, k + 1, until);
    }
  }

  lemma {:induction false} FallsStop(config: AxisConfig, segment: Segment, m: MoveState, k: u64, until: u64)
    requires k <= m.count
    ensures var next := k + |Falls(config, segment, m, k, until)|;
            next <= m.count && (next < m.count ==> FallTime(config, segment, m.count, next) > until)
    decreases m.count - k
  {
    if k < m.count && FallTime(config, segment, m.count, k) <= until {
      FallsStop(config, segment, m, k + 1, until);
    }
  }

  // ---------------------------------------------------------------- one move

  /** The move has emitted everything due by time t, which lies in its segment. */
  predicate CaughtUpMove(config: AxisConfig, segment: Segment, m: MoveState, t: u64) {
    m.count > 0 ==>
      && m.controls
      && (m.rises < m.count ==> RiseTime(config, segment, m.count, m.rises) > t)
      && (m.falls < m.count ==> FallTime(config, segment, m.count, m.falls) > t)
  }

  lemma ServedCatchesUp(axes: seq<Axis>, segment: Segment, m: MoveState, t: u64)
    requires MoveOk(axes, segment, m) && segment.start <= t
    ensures var served := Served(AxisOf(axes, m), segment, m, t);
            MoveOk(axes, segment, served) && served.move == m.move &&
            CaughtUpMove(AxisOf(axes, m).config, segment, served, t)
  {
    if m.count > 0 {
      RisesStop(AxisOf(axes, m).config, segment, m, m.rises, t);
      FallsStop(AxisOf(axes, m).config, segment, m, m.falls, t);
    }
  }

  /** The edges of a move until a time lie between the start of its segment and that time. */
  lemma MoveEdgesWithin(axes: seq<Axis>, segment: Segment, m: MoveState, until: u64)
    requires MoveOk(axes, segment, m) && segment.End() <= U64_MAX
    ensures forall x | x in MoveEdges(AxisOf(axes, m), segment, m, until) ::
              Within(x, segment.start, until) && Ours(x, m)
  {
    if m.count > 0 {
      var config := AxisOf(axes, m).config;
      if m.rises < m.count {
        EdgeTimesExact(config, segment, m.count, m.rises);
      }
      if m.falls < m.count {
        EdgeTimesExact(config, segment, m.count, m.falls);
      }
      RisesWithin(config, segment, m, m.rises, until, segment.start);
      FallsWithin(config, segment, m, m.falls, until, segment.start);
    }
  }

  lemma CaughtUpEdgesLater(axes: seq<Axis>, segment: Segment, m: MoveState, t: u64, until: u64)
    requires MoveOk(axes, segment, m) && segment.End() <= U64_MAX
    requires CaughtUpMove(AxisOf(axes, m).config, segment, m, t)
    ensures forall x | x in MoveEdges(AxisOf(axes, m), segment, m, until) ::
              Within(x, t + 1, until) && Ours(x, m) && x.signal == StepLine
  {
    if m.count > 0 {
      var config := AxisOf(axes, m).config;
      RisesWithin(config, segment, m, m.rises, until, t + 1);
      FallsWithin(config, segment, m, m.falls, until, t + 1);
    }
  }

  lemma Regroup(c: seq<Edge>, r1: seq<Edge>, r2: seq<Edge>, f1: seq<Edge>, f2: seq<Edge>)
    ensures multiset(c + (r1 + r2) + (f1 + f2)) == multiset(c + r1 + f1) + multiset(r2 + f2)
  {
  }

  lemma ServedRises(axis: Axis, segment: Segment, m: MoveState, t1: u64, t2: u64)
    requires 0 < m.count && m.rises <= m.count && segment.start <= t1 <= t2
    ensures var served := Served(axis, segment, m, t1);
            Rises(axis.config, segment, m, m.rises, t2) ==
              Rises(axis.config, segment, m, m.rises, t1) + Rises(axis.config, segment, served, served.rises, t2)
  {
    var served := Served(axis, segment, m, t1);
    RisesBound(axis.config, segment, m, m.rises, t1);
    RisesSplit(axis.config, segment, m, m.rises, t1, t2);
    RisesIgnoreProgress(axis.config, segment, m, served, served.rises, t2);
  }

  lemma ServedFalls(axis: Axis, segment: Segment, m: MoveState, t1: u64, t2: u64)
    requires 0 < m.count && m.falls <= m.count && segment.start <= t1 <= t2
    ensures var served := Served(axis, segment, m, t1);
            Falls(axis.config, segment, m, m.falls, t2) ==
              Falls(axis.config, segment, m, m.falls, t1) + Falls(axis.config, segment, served, served.falls, t2)
  {
    var served := Served(axis, segment, m, t1);
    FallsBound(axis.config, segment, m, m.falls, t1);
    FallsSplit(axis.config, segment, m, m.falls, t1, t2);
    FallsIgnoreProgress(axis.config, segment, m, served, served.falls, t2);
  }

  lemma ServedSplit(axis: Axis, after: Axis, segment: Segment, m: MoveState, t1: u64, t2: u64)
    requires 0 < m.count && m.rises <= m.count && m.falls <= m.count
    requires after.config == axis.config && segment.start <= t1 <= t2
    ensures var served := Served(axis, segment, m, t1);
            && Rises(axis.config, segment, m, m.rises, t2) ==
               Rises(axis.config, segment, m, m.rises, t1) + Rises(axis.config, segment, served, served.rises, t2)
            && Falls(axis.config, segment, m, m.falls, t2) ==
               Falls(axis.config, segment, m, m.falls, t1) + Falls(axis.config, segment, served, served.falls, t2)
            && Served(after, segment, served, t2) == Served(axis, segment, m, t2)
  {
    ServedRises(axis, segment, m, t1, t2);
    ServedFalls(axis, segment, m, t1, t2);
  }

  lemma MoveEdgesParts(axis: Axis, after: Axis, segment: Segment, m: MoveState, t1: u64, t2: u64,
                       c: seq<Edge>, r1: seq<Edge>, r2: seq<Edge>, f1: seq<Edge>, f2: seq<Edge>)
    requires 0 < m.count && m.rises <= m.count && m.falls <= m.count
    requires after.config == axis.config && segment.start <= t1 <= t2
    requires var served := Served(axis, segment, m, t1);
             && c == Controls(axis, segment, m, t1)
             && r1 == Rises(axis.config, segment, m, m.rises, t1)
             && f1 == Falls(axis.config, segment, m, m.falls, t1)
             && r2 == Rises(axis.config, segment, served, served.rises, t2)
             && f2 == Falls(axis.config, segment, served, served.falls, t2)
    ensures MoveEdges(axis, segment, m, t2) == c + (r1 + r2) + (f1 + f2)
    ensures MoveEdges(axis, segment, m, t1) == c + r1 + f1
    ensures MoveEdges(after, segment, Served(axis, segment, m, t1), t2) == r2 + f2
  {
    ServedRises(axis, segment, m, t1, t2);
    ServedFalls(axis, segment, m, t1, t2);
    var served := Served(axis, segment, m, t1);
    assert Controls(axis, segment, m, t2) == c;
    assert Controls(after, segment, served, t2) == [];
    assert [] + r2 + f2 == r2 + f2;
  }

  /** Serving a move until t1 and then until t2 gives the edges of serving it until t2 at once.  The
      second service may see the axis after the first edges were applied. */
  lemma MoveEdgesSplit(axis: Axis, after: Axis, segment: Segment, m: MoveState, t1: u64, t2: u64)
    requires m.rises <= m.count && m.falls <= m.count
    requires after.config == axis.config && segment.start <= t1 <= t2
    ensures multiset(MoveEdges(axis, segment, m, t2)) ==
            multiset(MoveEdges(axis, segment, m, t1))
            + multiset(MoveEdges(after, segment, Served(axis, segment, m, t1), t2))
    ensures Served(after, segment, Served(axis, segment, m, t1), t2) == Served(axis, segment, m, t2)
  {
    if m.count > 0 {
      ServedSplit(axis, after, segment, m, t1, t2);
      var served := Served(axis, segment, m, t1);
      var c := Controls(axis, segment, m, t1);
      var r1, f1 := Rises(axis.config, segment, m, m.rises, t1), Falls(axis.config, segment, m, m.falls, t1);
      var r2 := Rises(axis.config, segment, served, served.rises, t2);
      var f2 := Falls(axis.config, segment, served, served.falls, t2);
      MoveEdgesParts(axis, after, segment, m, t1, t2, c, r1, r2, f1, f2);
      Regroup(c, r1, r2, f1, f2);
    }
  }

  lemma CombineParts(a: seq<Edge>, a1: seq<Edge>, a2: seq<Edge>, b: seq<Edge>, b1: seq<Edge>, b2: seq<Edge>)
    requires multiset(a) == multiset(a1) + multiset(a2) && multiset(b) == multiset(b1) + multiset(b2)
    ensures multiset(a + b) == multiset(a1 + b1) + multiset(a2 + b2)
  {
  }

  lemma {:induction false} RisesIgnoreProgress(config: AxisConfig, segment: Segment, a: MoveState, b: MoveState, k: u64, until: u64)
    requires a.move == b.move && a.count == b.count
    ensures Rises(config, segment, a, k, until) == Rises(config, segment, b, k, until)
    decreases a.count - k
  {
    if k < a.count && RiseTime(config, segment, a.count, k) <= until {
      RisesIgnoreProgress(config, segment, a, b, k + 1, until);
    }
  }

  lemma {:induction false} FallsIgnoreProgress(config: AxisConfig, segment: Segment, a: MoveState, b: MoveState, k: u64, until: u64)
    requires a.move == b.move && a.count == b.count
    ensures Falls(config, segment, a, k, until) == Falls(config, segment, b, k, until)
    decreases a.count - k
  {
    if k < a.count && FallTime(config, segment, a.count, k) <= until {
      FallsIgnoreProgress(config, segment, a, b, k + 1, until);
    }
  }

  // ---------------------------------------------------------------- all moves of a segment

  ghost predicate MovesOk(axes: seq<Axis>, segment: Segment, moves: seq<MoveState>) {
    forall i | 0 <= i < |moves| :: MoveOk(axes, segment, moves[i])
  }

  lemma MovesKnown(axes: seq<Axis>, segment: Segment, moves: seq<MoveState>)
    requires MovesOk(axes, segment, moves)
    ensures Known(axes, moves)
  {
  }

  lemma {:induction false} ServedMovesPointwise(axes: seq<Axis>, segment: Segment, moves: seq<MoveState>, t: u64)
    requires Known(axes, moves)
    ensures |ServedMoves(axes, segment, moves, t)| == |moves|
    ensures forall i | 0 <= i < |moves| ::
              IndexOf(axes, moves[i].move.resourceId) < |axes| &&
              ServedMoves(axes, segment, moves, t)[i] == Served(AxisOf(axes, moves[i]), segment, moves[i], t)
  {
    if moves != [] {
      ServedMovesPointwise(axes, segment, moves[1..], t);
      forall i | 0 <= i < |moves|
        ensures IndexOf(axes, moves[i].move.resourceId) < |axes|
        ensures ServedMoves(axes, segment, moves, t)[i] == Served(AxisOf(axes, moves[i]), segment, moves[i], t)
      {
        if i > 0 {
          assert moves[1..][i - 1] == moves[i];
        }
      }
    }
  }

  lemma ServedMovesOk(axes: seq<Axis>, segment: Segment, moves: seq<MoveState>, t: u64)
    requires MovesOk(axes, segment, moves) && segment.start <= t && Known(axes, moves)
    ensures var served := ServedMoves(axes, segment, moves, t);
            && |served| == |moves|
            && MovesOk(axes, segment, served)
            && (forall i | 0 <= i < |moves| ::
                  served[i].move == moves[i].move && CaughtUpMove(AxisOf(axes, moves[i]).config, segment, served[i], t))
  {
    ServedMovesPointwise(axes, segment, moves, t);
    forall i | 0 <= i < |moves|
      ensures var served := ServedMoves(axes, segment, moves, t)[i];
              && MoveOk(axes, segment, served) && served.move == moves[i].move
              && CaughtUpMove(AxisOf(axes, moves[i]).config, segment, served, t)
    {
      ServedCatchesUp(axes, segment, moves[i], t);
    }
  }

  /** Where an edge of a segment comes from. */
  ghost predicate FromMoves(x: Edge, moves: seq<MoveState>) {
    exists i :: 0 <= i < |moves| && Ours(x, moves[i])
  }

  lemma {:induction false} RawEdgesWithin(axes: seq<Axis>, segment: Segment, moves: seq<MoveState>, until: u64)
    requires MovesOk(axes, segment, moves) && segment.End() <= U64_MAX && Known(axes, moves)
    ensures forall x | x in RawEdges(axes, segment, moves, until) ::
              Within(x, segment.start, until) && FromMoves(x, moves)
  {
    if moves != [] {
      MoveEdgesWithin(axes, segment, moves[0], until);
      RawEdgesWithin(axes, segment, moves[1..], until);
      forall x | x in RawEdges(axes, segment, moves, until)
        ensures Within(x, segment.start, until) && FromMoves(x, moves)
      {
        if x in RawEdges(axes, segment, moves[1..], until) {
          var i :| 0 <= i < |moves[1..]| && Ours(x, moves[1..][i]);
          assert Ours(x, moves[i + 1]);
        } else {
          assert Ours(x, moves[0]);
        }
      }
    }
  }

  ghost predicate CaughtUpMoves(axes: seq<Axis>, segment: Segment, moves: seq<MoveState>, t: u64)
    requires Known(axes, moves)
  {
    forall i | 0 <= i < |moves| ::
      IndexOf(axes, moves[i].move.resourceId) < |axes| &&
      CaughtUpMove(AxisOf(axes, moves[i]).config, segment, moves[i], t)
  }

  lemma {:induction false} RawEdgesLater(axes: seq<Axis>, segment: Segment, moves: seq<MoveState>, t: u64, until: u64)
    requires MovesOk(axes, segment, moves) && segment.End() <= U64_MAX && Known(axes, moves)
    requires CaughtUpMoves(axes, segment, moves, t)
    ensures forall x | x in RawEdges(axes, segment, moves, until) :: Within(x, t + 1, until) && x.signal == StepLine
  {
    if moves != [] {
      CaughtUpEdgesLater(axes, segment, moves[0], t, until);
      forall i | 0 <= i < |moves[1..]|
        ensures CaughtUpMove(AxisOf(axes, moves[1..][i]).config, segment, moves[1..][i], t)
      {
        assert moves[1..][i] == moves[i + 1];
      }
      RawEdgesLater(axes, segment, moves[1..], t, until);
    }
  }

  lemma {:induction false} RawEdgesSplit(axes: seq<Axis>, after: seq<Axis>, segment: Segment, moves: seq<MoveState>, t1: u64, t2: u64)
    requires MovesOk(axes, segment, moves) && SameConfigs(axes, after) && segment.start <= t1 <= t2
    requires Known(axes, moves)
    ensures Known(after, ServedMoves(axes, segment, moves, t1))
    ensures multiset(RawEdges(axes, segment, moves, t2)) ==
            multiset(RawEdges(axes, segment, moves, t1))
            + multiset(RawEdges(after, segment, ServedMoves(axes, segment, moves, t1), t2))
    ensures ServedMoves(after, segment, ServedMoves(axes, segment, moves, t1), t2) == ServedMoves(axes, segment, moves, t2)
  {
    if moves != [] {
      var m, rest := moves[0], moves[1..];
      SameAxis(axes, after, segment, m);
      MoveEdgesSplit(AxisOf(axes, m), AxisOf(after, m), segment, m, t1, t2);
      RawEdgesSplit(axes, after, segment, rest, t1, t2);
      var served := Served(AxisOf(axes, m), segment, m, t1);
      var servedRest := ServedMoves(axes, segment, rest, t1);
      assert ServedMoves(axes, segment, moves, t1)[0] == served;
      assert ServedMoves(axes, segment, moves, t1)[1..] == servedRest;
      CombineParts(
        MoveEdges(AxisOf(axes, m), segment, m, t2), MoveEdges(AxisOf(axes, m), segment, m, t1),
        MoveEdges(AxisOf(after, m), segment, served, t2),
        RawEdges(axes, segment, rest, t2), RawEdges(axes, segment, rest, t1), RawEdges(after, segment, servedRest, t2));
    }
  }

  /** No two different edges of a segment tie. */
  lemma RawEdgesTieFree(axes: seq<Axis>, segment: Segment, moves: seq<MoveState>, until: u64)
    requires MovesOk(axes, segment, moves) && DistinctAxes(moves) && segment.End() <= U64_MAX && Known(axes, moves)
    ensures TieFree(RawEdges(axes, segment, moves, until))
  {
    var edges := RawEdges(axes, segment, moves, until);
    RawEdgesWithin(axes, segment, moves, until);
    forall x, y | x in edges && y in edges && !EdgeLess(x, y) && !EdgeLess(y, x)
      ensures x == y
    {
      var i :| 0 <= i < |moves| && Ours(x, moves[i]);
      var j :| 0 <= j < |moves| && Ours(y, moves[j]);
      assert x.axis == y.axis && x.time == y.time && EdgeOrder(x) == EdgeOrder(y);
      assert i == j;
    }
  }
}
