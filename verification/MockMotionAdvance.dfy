/** Advancing the mock executor in pieces is advancing it once
    (mock_mcu/src/motion_executor.cpp:214-267, 361-481). */
module MockMotionAdvance {
  import opened FixedWidth
  import opened MockMotion
  import opened MockMotionTiming
  import opened MockMotionSorting
  import opened MockMotionEdges

  // ---------------------------------------------------------------- the invariant

  ghost predicate QueueInv(e: Executor) {
    && Configured(e.axes)
    && (forall k | 0 <= k < |e.queue| :: SegmentOk(e.axes, e.queue[k]))
    && Chained(e.queue)
    && (|e.queue| > 0 ==>
          e.queue[|e.queue| - 1].segment.sequence == e.lastAccepted &&
          e.queue[|e.queue| - 1].segment.End() == e.nextAvailable)
    && |e.queue| <= e.capacity
  }

  predicate Follows(older: SegmentState, newer: SegmentState) {
    newer.segment.start == older.segment.End() && newer.segment.sequence == older.segment.sequence + 1 &&
    !older.segment.final
  }

  ghost predicate Chained(queue: seq<SegmentState>) {
    forall k, n | 0 <= k && n == k + 1 && n < |queue| :: Follows(queue[k], queue[n])
  }

  ghost predicate ModeInv(e: Executor) {
    && (e.queue != [] <==> e.mode == Armed || e.mode == Running)
    && (e.mode == Faulted <==> e.fault != NoFault)
  }

  ghost predicate Inv(e: Executor) {
    QueueInv(e) && ModeInv(e)
  }

  lemma InvReady(e: Executor)
    requires QueueInv(e)
    ensures Ready(e)
  {
    forall s | s in e.queue
      ensures Known(e.axes, s.moves) && s.segment.End() <= U64_MAX
    {
      var k :| 0 <= k < |e.queue| && e.queue[k] == s;
      assert SegmentOk(e.axes, e.queue[k]);
    }
  }

  lemma InitialInv(configs: seq<AxisConfig>, capacity: nat, lead: u64)
    requires ConfigsOk(configs, capacity, lead)
    ensures Inv(Initial(configs, capacity, lead))
  {
    forall i | 0 <= i < |configs|
      ensures ConfigOk(Initial(configs, capacity, lead).axes[i].config)
    {
      assert configs[i] in configs;
    }
  }

  // ---------------------------------------------------------------- sequences of edges

  lemma {:induction false} ApplyAppend(axes: seq<Axis>, a: seq<Edge>, b: seq<Edge>)
    ensures ApplyEdges(axes, a + b) == ApplyEdges(ApplyEdges(axes, a), b)
    decreases |a|
  {
    if a == [] {
      assert a + b == b;
    } else {
      assert (a + b)[1..] == a[1..] + b;
      ApplyAppend(ApplyEdge(axes, a[0]), a[1..], b);
    }
  }

  lemma {:induction false} CountAppend(a: seq<Edge>, b: seq<Edge>)
    ensures CountRises(a + b) == CountRises(a) + CountRises(b)
  {
    if a == [] {
      assert a + b == b;
    } else {
      assert (a + b)[1..] == a[1..] + b;
      CountAppend(a[1..], b);
    }
  }

  lemma EmitAppend(e: Executor, a: seq<Edge>, b: seq<Edge>)
    ensures Emit(Emit(e, a), b) == Emit(e, a + b)
  {
    ApplyAppend(e.axes, a, b);
    CountAppend(a, b);
  }

  lemma EmitKeepsConfigs(e: Executor, edges: seq<Edge>)
    ensures SameConfigs(e.axes, Emit(e, edges).axes)
  {
    ApplyKeepsConfigs(e.axes, edges);
  }

  /** Edges no later than a time, and edges after it. */
  ghost predicate Until(edges: seq<Edge>, t: int) {
    forall x | x in edges :: x.time <= t
  }

  ghost predicate After(edges: seq<Edge>, t: int) {
    forall x | x in edges :: t < x.time
  }

  lemma SortedInTime(a: seq<Edge>, b: seq<Edge>, t: int)
    requires Until(a, t) && After(b, t)
    ensures AllLess(a, b)
  {
  }

  // ---------------------------------------------------------------- one segment

  /** The front segment, if it has begun, has emitted all that is due by t, and t is before its end. */
  ghost predicate CaughtUp(e: Executor, t: u64) {
    QueueInv(e) && (|e.queue| > 0 ==>
      var s := e.queue[0];
      && t < s.segment.End()
      && Known(e.axes, s.moves)
      && (s.segment.start <= t ==> CaughtUpMoves(e.axes, s.segment, s.moves, t)))
  }

  lemma SegmentKnown(e: Executor)
    requires QueueInv(e) && |e.queue| > 0
    ensures SegmentOk(e.axes, e.queue[0]) && Known(e.axes, e.queue[0].moves)
    ensures MovesOk(e.axes, e.queue[0].segment, e.queue[0].moves)
  {
  }

  lemma SegmentOkSame(a: seq<Axis>, b: seq<Axis>, s: SegmentState)
    requires SameConfigs(a, b) && SegmentOk(a, s)
    ensures SegmentOk(b, s)
  {
    forall i | 0 <= i < |s.moves|
      ensures MoveOk(b, s.segment, s.moves[i])
    {
      SameAxis(a, b, s.segment, s.moves[i]);
    }
  }

  lemma CollectKeeps(e: Executor, t: u64)
    requires QueueInv(e) && |e.queue| > 0 && e.queue[0].segment.start <= t
    requires Known(e.axes, e.queue[0].moves)
    ensures QueueInv(Collect(e, t).executor)
    ensures |Collect(e, t).executor.queue| == |e.queue|
    ensures Collect(e, t).executor.queue[0].segment == e.queue[0].segment
    ensures forall k | 0 < k < |e.queue| :: Collect(e, t).executor.queue[k] == e.queue[k]
    ensures SameConfigs(e.axes, Collect(e, t).executor.axes)
  {
    var front := e.queue[0];
    var effective := Min(t, front.segment.End());
    var c := Collect(e, t).executor;
    SegmentKnown(e);
    ServedMovesOk(e.axes, front.segment, front.moves, effective);
    var served := front.(moves := ServedMoves(e.axes, front.segment, front.moves, effective));
    assert SegmentOk(e.axes, served);
    EmitKeepsConfigs(e.(mode := Running, queue := e.queue[0 := served]), Collect(e, t).edges);
    forall k | 0 <= k < |c.queue|
      ensures SegmentOk(c.axes, c.queue[k])
    {
      if k == 0 {
        SegmentOkSame(e.axes, c.axes, served);
      } else {
        SegmentOkSame(e.axes, c.axes, e.queue[k]);
      }
    }
  }

  lemma CollectCatchesUp(e: Executor, t: u64)
    requires QueueInv(e) && |e.queue| > 0 && e.queue[0].segment.start <= t < e.queue[0].segment.End()
    requires Known(e.axes, e.queue[0].moves)
    ensures CaughtUp(Collect(e, t).executor, t)
  {
    var front := e.queue[0];
    var c := Collect(e, t).executor;
    CollectKeeps(e, t);
    SegmentKnown(e);
    SegmentKnown(c);
    ServedMovesOk(e.axes, front.segment, front.moves, t);
    forall i | 0 <= i < |c.queue[0].moves|
      ensures CaughtUpMove(AxisOf(c.axes, c.queue[0].moves[i]).config, front.segment, c.queue[0].moves[i], t)
    {
      SameAxis(e.axes, c.axes, front.segment, front.moves[i]);
    }
  }

  lemma CollectUntil(e: Executor, t: u64)
    requires QueueInv(e) && |e.queue| > 0 && Known(e.axes, e.queue[0].moves)
    ensures Until(Collect(e, t).edges, Min(t, e.queue[0].segment.End()))
    ensures forall x | x in Collect(e, t).edges :: e.queue[0].segment.start <= x.time
  {
    var front := e.queue[0];
    SegmentKnown(e);
    var effective := Min(t, front.segment.End());
    RawEdgesWithin(e.axes, front.segment, front.moves, effective);
    var raw := RawEdges(e.axes, front.segment, front.moves, effective);
    SortMultiset(raw);
    SameMembers(SortEdges(raw), raw);
  }

  lemma CollectAfter(e: Executor, t1: u64, t2: u64)
    requires CaughtUp(e, t1) && |e.queue| > 0 && e.queue[0].segment.start <= t2
    requires Known(e.axes, e.queue[0].moves)
    ensures After(Collect(e, t2).edges, t1)
  {
    var front := e.queue[0];
    SegmentKnown(e);
    var effective := Min(t2, front.segment.End());
    if front.segment.start <= t1 {
      RawEdgesLater(e.axes, front.segment, front.moves, t1, effective);
    } else {
      RawEdgesWithin(e.axes, front.segment, front.moves, effective);
    }
    var raw := RawEdges(e.axes, front.segment, front.moves, effective);
    SortMultiset(raw);
    SameMembers(SortEdges(raw), raw);
  }

  /** Collecting the edges of a segment until t1 and then until t2 is collecting them until t2. */
  lemma CollectAdds(e: Executor, t1: u64, t2: u64)
    requires QueueInv(e) && |e.queue| > 0 && Known(e.axes, e.queue[0].moves)
    requires e.queue[0].segment.start <= t1 < e.queue[0].segment.End() && t1 <= t2
    ensures var first := Collect(e, t1);
            && |first.executor.queue| > 0
            && Known(first.executor.axes, first.executor.queue[0].moves)
            && first.executor.queue[0].segment == e.queue[0].segment
            && Collect(e, t2).executor == Collect(first.executor, t2).executor
            && Collect(e, t2).edges == first.edges + Collect(first.executor, t2).edges
  {
    var front := e.queue[0];
    var first := Collect(e, t1);
    var c := first.executor;
    CollectKeeps(e, t1);
    CollectCatchesUp(e, t1);
    SegmentKnown(e);
    SegmentKnown(c);
    var u2 := Min(t2, front.segment.End());
    RawEdgesSplit(e.axes, c.axes, front.segment, front.moves, t1, u2);
    var a := RawEdges(e.axes, front.segment, front.moves, t1);
    var b := RawEdges(c.axes, front.segment, c.queue[0].moves, u2);
    var whole := RawEdges(e.axes, front.segment, front.moves, u2);
    assert multiset(whole) == multiset(a + b);
    RawEdgesTieFree(e.axes, front.segment, front.moves, u2);
    SortCanonical(whole, a + b);
    RawEdgesWithin(e.axes, front.segment, front.moves, t1);
    RawEdgesLater(c.axes, front.segment, c.queue[0].moves, t1, u2);
    SortedInTime(a, b, t1);
    SortSplit(a, b);
    CollectExecutors(e, first, t1, t2);
  }

  lemma CollectExecutors(e: Executor, first: Output, t1: u64, t2: u64)
    requires QueueInv(e) && |e.queue| > 0 && Known(e.axes, e.queue[0].moves)
    requires e.queue[0].segment.start <= t1 < e.queue[0].segment.End() && t1 <= t2
    requires first == Collect(e, t1)
    requires |first.executor.queue| > 0 && Known(first.executor.axes, first.executor.queue[0].moves)
    requires first.executor.queue[0].segment == e.queue[0].segment
    requires Collect(e, t2).edges == first.edges + Collect(first.executor, t2).edges
    ensures Collect(e, t2).executor == Collect(first.executor, t2).executor
  {
    var front := e.queue[0];
    var c := first.executor;
    var u2 := Min(t2, front.segment.End());
    var served1 := ServedMoves(e.axes, front.segment, front.moves, t1);
    var served2 := ServedMoves(e.axes, front.segment, front.moves, u2);
    var queue2 := e.queue[0 := front.(moves := served2)];
    var base := e.(mode := Running, queue := queue2);
    assert ServedMoves(c.axes, front.segment, c.queue[0].moves, u2) == served2 && c.queue[0].moves == served1 by {
      SegmentKnown(e);
      EmitKeepsConfigs(e.(mode := Running, queue := c.queue), first.edges);
      RawEdgesSplit(e.axes, c.axes, front.segment, front.moves, t1, u2);
    }
    var second := Collect(c, t2);
    assert c.(queue := queue2) == Emit(base, first.edges);
    assert second.executor == Emit(c.(queue := queue2), second.edges) by {
      assert c.queue[0 := c.queue[0].(moves := served2)] == queue2;
    }
    assert Collect(e, t2).executor == Emit(base, first.edges + second.edges);
    EmitAppend(base, first.edges, second.edges);
  }

  // ---------------------------------------------------------------- the safe state

  lemma {:induction false} SafeEdgesAt(axes: seq<Axis>, at: u64)
    ensures forall x | x in SafeEdges(axes, at) :: x.time == at && !x.level && x.signal != Direction
  {
    if axes != [] {
      SafeEdgesAt(axes[1..], at);
    }
  }

  lemma EnterSafeKeeps(e: Executor, at: u64, fault: Fault)
    requires Configured(e.axes)
    ensures var r := EnterSafe(e, at, fault);
            && Inv(r.executor) && r.executor.queue == []
            && SameConfigs(e.axes, r.executor.axes)
            && forall x | x in r.edges :: x.time == at
  {
    SafeEdgesAt(e.axes, at);
    SortMultiset(SafeEdges(e.axes, at));
    SameMembers(SortEdges(SafeEdges(e.axes, at)), SafeEdges(e.axes, at));
    ApplyKeepsConfigs(e.axes, EnterSafe(e, at, fault).edges);
  }

  lemma ConcludeKeeps(popped: Executor, final: bool, end: u64, edges: seq<Edge>)
    requires Configured(popped.axes)
    ensures var r := Conclude(popped, final, end, edges);
            && Inv(r.executor) && r.executor.queue == []
            && SameConfigs(popped.axes, r.executor.axes)
            && forall x | x in r.edges :: x in edges || x.time == end
  {
    EnterSafeKeeps(popped, end, NoFault);
    EnterSafeKeeps(popped.(metrics := popped.metrics.(underruns := popped.metrics.underruns + 1)), end, QueueUnderrun);
  }

  lemma ConcludeAppends(popped: Executor, final: bool, end: u64, a: seq<Edge>, b: seq<Edge>)
    ensures Conclude(popped, final, end, a + b) ==
            Output(Conclude(popped, final, end, b).executor, a + Conclude(popped, final, end, b).edges)
  {
    var counted :=
      if final then popped
      else popped.(metrics := popped.metrics.(underruns := popped.metrics.underruns + 1));
    var safe := EnterSafe(counted, end, if final then NoFault else QueueUnderrun);
    assert (a + b) + safe.edges == a + (b + safe.edges);
  }

  // ---------------------------------------------------------------- the loop

  lemma TailChained(queue: seq<SegmentState>)
    requires Chained(queue) && |queue| > 0
    ensures Chained(queue[1..])
    ensures |queue| > 1 ==> Follows(queue[0], queue[1])
  {
    forall k, n | 0 <= k && n == k + 1 && n < |queue[1..]|
      ensures Follows(queue[1..][k], queue[1..][n])
    {
      assert Follows(queue[k + 1], queue[n + 1]);
    }
  }

  /** What is left when the front segment has completed. */
  function Popped(e: Executor, t: u64): Executor
    requires |e.queue| > 0 && Known(e.axes, e.queue[0].moves) && e.queue[0].segment.End() <= U64_MAX
  {
    PopFront(Collect(e, t).executor)
  }

  lemma PopKeeps(e: Executor, t: u64)
    requires QueueInv(e) && |e.queue| > 0 && e.queue[0].segment.End() <= t
    requires Known(e.axes, e.queue[0].moves)
    ensures SegmentOk(e.axes, e.queue[0])
    ensures var popped := Popped(e, t);
            && QueueInv(popped) && Ready(popped)
            && popped.queue == e.queue[1..]
            && (|popped.queue| > 0 ==> Follows(e.queue[0], popped.queue[0]))
            && SameConfigs(e.axes, popped.axes)
            && popped.mode == Running && popped.fault == e.fault
  {
    CollectKeeps(e, t);
    var c := Collect(e, t).executor;
    var popped := PopFront(c);
    assert popped.queue == e.queue[1..];
    TailChained(e.queue);
    forall k | 0 <= k < |popped.queue|
      ensures SegmentOk(popped.axes, popped.queue[k])
    {
      assert SegmentOk(c.axes, c.queue[k + 1]);
    }
    InvReady(popped);
  }

  lemma LoopWaits(e: Executor, t: u64)
    requires Ready(e) && (|e.queue| == 0 || t < e.queue[0].segment.start)
    ensures AdvanceLoop(e, t) == Output(e, [])
  {
  }

  lemma LoopWithin(e: Executor, t: u64)
    requires Ready(e) && |e.queue| > 0 && e.queue[0].segment.start <= t < e.queue[0].segment.End()
    ensures Known(e.axes, e.queue[0].moves)
    ensures AdvanceLoop(e, t) == Collect(e, t)
  {
  }

  /** The loop stops after the front segment. */
  predicate Last(e: Executor) {
    |e.queue| > 0 && (e.queue[0].segment.final || |e.queue| == 1)
  }

  lemma LoopConcludes(e: Executor, t: u64)
    requires Ready(e) && Last(e) && e.queue[0].segment.End() <= t
    ensures Known(e.axes, e.queue[0].moves)
    ensures AdvanceLoop(e, t) ==
            Conclude(Popped(e, t), e.queue[0].segment.final, e.queue[0].segment.End(), Collect(e, t).edges)
  {
  }

  lemma LoopContinues(e: Executor, t: u64)
    requires QueueInv(e) && Ready(e) && |e.queue| > 0 && !Last(e) && e.queue[0].segment.End() <= t
    ensures Known(e.axes, e.queue[0].moves) && Ready(Popped(e, t)) && |Popped(e, t).queue| < |e.queue|
    ensures AdvanceLoop(e, t) ==
            Output(AdvanceLoop(Popped(e, t), t).executor, Collect(e, t).edges + AdvanceLoop(Popped(e, t), t).edges)
  {
    SegmentKnown(e);
    PopKeeps(e, t);
  }

  lemma {:induction false} LoopKeeps(e: Executor, t: u64)
    requires QueueInv(e) && Ready(e)
    ensures var r := AdvanceLoop(e, t);
            && CaughtUp(r.executor, t)
            && SameConfigs(e.axes, r.executor.axes)
            && Until(r.edges, t)
            && (ModeInv(e) ==> ModeInv(r.executor))
    decreases |e.queue|
  {
    if |e.queue| == 0 || t < e.queue[0].segment.start {
      LoopWaits(e, t);
    } else {
      SegmentKnown(e);
      CollectUntil(e, t);
      if t < e.queue[0].segment.End() {
        LoopWithin(e, t);
        CollectKeeps(e, t);
        CollectCatchesUp(e, t);
      } else {
        PopKeeps(e, t);
        if Last(e) {
          LoopConcludes(e, t);
          ConcludeKeeps(Popped(e, t), e.queue[0].segment.final, e.queue[0].segment.End(), Collect(e, t).edges);
        } else {
          LoopContinues(e, t);
          LoopKeeps(Popped(e, t), t);
        }
      }
    }
  }

  lemma {:induction false} LoopAfter(e: Executor, t1: u64, t2: u64)
    requires CaughtUp(e, t1) && Ready(e)
    ensures After(AdvanceLoop(e, t2).edges, t1)
    decreases |e.queue|
  {
    if |e.queue| == 0 || t2 < e.queue[0].segment.start {
      LoopWaits(e, t2);
    } else {
      SegmentKnown(e);
      CollectAfter(e, t1, t2);
      if t2 < e.queue[0].segment.End() {
        LoopWithin(e, t2);
      } else {
        PopKeeps(e, t2);
        if Last(e) {
          LoopConcludes(e, t2);
          ConcludeKeeps(Popped(e, t2), e.queue[0].segment.final, e.queue[0].segment.End(), Collect(e, t2).edges);
        } else {
          LoopContinues(e, t2);
          var popped := Popped(e, t2);
          SegmentKnown(popped);
          LoopAfter(popped, t1, t2);
        }
      }
    }
  }

  /** Once a time past the end of the segment has been given, a later one collects the same. */
  lemma CollectPastEnd(e: Executor, t1: u64, t2: u64)
    requires |e.queue| > 0 && Known(e.axes, e.queue[0].moves) && e.queue[0].segment.End() <= U64_MAX
    requires e.queue[0].segment.End() <= t1 <= t2
    ensures Collect(e, t1) == Collect(e, t2)
  {
  }

  /** `whole` is what `first` did, followed by what the loop does from there until t. */
  predicate Continued(first: Output, whole: Output, t: u64)
    requires Ready(first.executor)
  {
    whole == Output(AdvanceLoop(first.executor, t).executor, first.edges + AdvanceLoop(first.executor, t).edges)
  }

  /** The loop run until t1 and then until t2 is the loop run until t2. */
  lemma {:induction false} LoopAdds(e: Executor, t1: u64, t2: u64)
    requires QueueInv(e) && Ready(e) && t1 <= t2
    ensures Ready(AdvanceLoop(e, t1).executor)
    ensures Continued(AdvanceLoop(e, t1), AdvanceLoop(e, t2), t2)
    decreases |e.queue|
  {
    LoopKeeps(e, t1);
    InvReady(AdvanceLoop(e, t1).executor);
    if |e.queue| == 0 || t1 < e.queue[0].segment.start {
      LoopWaits(e, t1);
      assert [] + AdvanceLoop(e, t2).edges == AdvanceLoop(e, t2).edges;
    } else if t1 < e.queue[0].segment.End() {
      LoopResumes(e, t1, t2);
    } else if Last(e) {
      LoopAddsLast(e, t1, t2);
    } else {
      SegmentKnown(e);
      PopKeeps(e, t1);
      LoopAdds(Popped(e, t1), t1, t2);
      LoopAddsMore(e, t1, t2);
    }
  }

  lemma LoopAddsLast(e: Executor, t1: u64, t2: u64)
    requires QueueInv(e) && Ready(e) && Last(e) && e.queue[0].segment.End() <= t1 <= t2
    requires Ready(AdvanceLoop(e, t1).executor)
    ensures Continued(AdvanceLoop(e, t1), AdvanceLoop(e, t2), t2)
  {
    SegmentKnown(e);
    CollectPastEnd(e, t1, t2);
    LoopConcludes(e, t1);
    LoopConcludes(e, t2);
    PopKeeps(e, t1);
    var first := AdvanceLoop(e, t1);
    ConcludeKeeps(Popped(e, t1), e.queue[0].segment.final, e.queue[0].segment.End(), Collect(e, t1).edges);
    LoopWaits(first.executor, t2);
    assert first.edges + [] == first.edges;
  }

  lemma LoopAddsMore(e: Executor, t1: u64, t2: u64)
    requires QueueInv(e) && Ready(e) && |e.queue| > 0 && !Last(e) && e.queue[0].segment.End() <= t1 <= t2
    requires Known(e.axes, e.queue[0].moves) && Ready(Popped(e, t1)) && Ready(AdvanceLoop(e, t1).executor)
    requires Ready(AdvanceLoop(Popped(e, t1), t1).executor)
    requires Continued(AdvanceLoop(Popped(e, t1), t1), AdvanceLoop(Popped(e, t1), t2), t2)
    ensures Continued(AdvanceLoop(e, t1), AdvanceLoop(e, t2), t2)
  {
    CollectPastEnd(e, t1, t2);
    var popped := Popped(e, t1);
    var c := Collect(e, t1).edges;
    assert AdvanceLoop(e, t1) == Output(AdvanceLoop(popped, t1).executor, c + AdvanceLoop(popped, t1).edges) by {
      LoopContinues(e, t1);
    }
    assert AdvanceLoop(e, t2) == Output(AdvanceLoop(popped, t2).executor, c + AdvanceLoop(popped, t2).edges) by {
      LoopContinues(e, t2);
    }
    PrependContinued(c, AdvanceLoop(popped, t1), AdvanceLoop(popped, t2), t2);
  }

  lemma PrependContinued(c: seq<Edge>, first: Output, whole: Output, t: u64)
    requires Ready(first.executor) && Continued(first, whole, t)
    ensures Continued(Output(first.executor, c + first.edges), Output(whole.executor, c + whole.edges), t)
  {
    var rest := AdvanceLoop(first.executor, t).edges;
    assert c + (first.edges + rest) == (c + first.edges) + rest;
  }

  /** The loop resumed inside the front segment. */
  lemma LoopResumes(e: Executor, t1: u64, t2: u64)
    requires QueueInv(e) && Ready(e) && |e.queue| > 0
    requires e.queue[0].segment.start <= t1 < e.queue[0].segment.End() && t1 <= t2
    requires Ready(AdvanceLoop(e, t1).executor)
    ensures Continued(AdvanceLoop(e, t1), AdvanceLoop(e, t2), t2)
  {
    SegmentKnown(e);
    LoopWithin(e, t1);
    CollectKeeps(e, t1);
    CollectAdds(e, t1, t2);
    var first := Collect(e, t1);
    var c := first.executor;
    if t2 < e.queue[0].segment.End() {
      LoopWithin(e, t2);
      LoopWithin(c, t2);
    } else {
      assert Rejoin(e, c, first.edges, t2);
      if Last(e) {
        ResumesLast(e, c, first.edges, t2);
      } else {
        ResumesMore(e, c, first.edges, t2);
      }
    }
  }

  /** Two executors whose front segment ends up the same, after one of them had emitted some edges. */
  ghost predicate Rejoin(e: Executor, c: Executor, emitted: seq<Edge>, t: u64) {
    && QueueInv(e) && Ready(e) && QueueInv(c) && Ready(c) && |e.queue| == |c.queue| > 0
    && c.queue[0].segment == e.queue[0].segment && e.queue[0].segment.End() <= t
    && Known(e.axes, e.queue[0].moves) && Known(c.axes, c.queue[0].moves)
    && e.queue[0].segment.End() <= U64_MAX
    && Popped(e, t) == Popped(c, t)
    && Collect(e, t).edges == emitted + Collect(c, t).edges
  }

  lemma ResumesLast(e: Executor, c: Executor, emitted: seq<Edge>, t: u64)
    requires Rejoin(e, c, emitted, t) && Last(e)
    ensures Continued(Output(c, emitted), AdvanceLoop(e, t), t)
  {
    LoopConcludes(e, t);
    LoopConcludes(c, t);
    ConcludeAppends(Popped(e, t), e.queue[0].segment.final, e.queue[0].segment.End(), emitted, Collect(c, t).edges);
  }

  lemma ResumesMore(e: Executor, c: Executor, emitted: seq<Edge>, t: u64)
    requires Rejoin(e, c, emitted, t) && !Last(e)
    ensures Continued(Output(c, emitted), AdvanceLoop(e, t), t)
  {
    PopKeeps(c, t);
    var own, rest := Collect(c, t).edges, AdvanceLoop(Popped(c, t), t);
    assert AdvanceLoop(e, t) == Output(rest.executor, (emitted + own) + rest.edges) by {
      LoopContinues(e, t);
    }
    assert AdvanceLoop(c, t) == Output(rest.executor, own + rest.edges) by {
      LoopContinues(c, t);
    }
    Reassociate(emitted, own, rest.edges);
  }

  lemma Reassociate(a: seq<Edge>, b: seq<Edge>, c: seq<Edge>)
    ensures (a + b) + c == a + (b + c)
  {
  }

  lemma CollectIgnoresNow(e: Executor, now: u64, t: u64)
    requires |e.queue| > 0 && Known(e.axes, e.queue[0].moves) && e.queue[0].segment.End() <= U64_MAX
    ensures Collect(e.(now := now), t) == Output(Collect(e, t).executor.(now := now), Collect(e, t).edges)
  {
  }

  lemma ConcludeIgnoresNow(popped: Executor, now: u64, final: bool, end: u64, edges: seq<Edge>)
    ensures Conclude(popped.(now := now), final, end, edges) ==
            Output(Conclude(popped, final, end, edges).executor.(now := now), Conclude(popped, final, end, edges).edges)
  {
  }

  // ---------------------------------------------------------------- the theorem

  lemma {:induction false} LoopIgnoresNow(e: Executor, now: u64, t: u64)
    requires QueueInv(e) && Ready(e)
    ensures var moved := e.(now := now);
            && Ready(moved)
            && AdvanceLoop(moved, t) == Output(AdvanceLoop(e, t).executor.(now := now), AdvanceLoop(e, t).edges)
    decreases |e.queue|
  {
    var moved := e.(now := now);
    if |e.queue| == 0 || t < e.queue[0].segment.start {
      LoopWaits(e, t);
      LoopWaits(moved, t);
    } else if t < e.queue[0].segment.End() {
      LoopWithin(e, t);
      LoopWithin(moved, t);
      CollectIgnoresNow(e, now, t);
    } else {
      SegmentKnown(e);
      CollectIgnoresNow(e, now, t);
      PopKeeps(e, t);
      assert Popped(moved, t) == Popped(e, t).(now := now);
      if Last(e) {
        LoopConcludes(e, t);
        LoopConcludes(moved, t);
        ConcludeIgnoresNow(Popped(e, t), now, e.queue[0].segment.final, e.queue[0].segment.End(), Collect(e, t).edges);
      } else {
        LoopContinues(e, t);
        LoopContinues(moved, t);
        LoopIgnoresNow(Popped(e, t), now, t);
      }
    }
  }

  /** Settling at t1 on the way to t2 makes no difference. */
  lemma SettleAdds(e: Executor, t1: u64, t2: u64)
    requires QueueInv(e) && Ready(e)
    ensures var settled := Settle(e, t1);
            && QueueInv(settled) && Ready(settled)
            && AdvanceLoop(settled, t2).edges == AdvanceLoop(e, t2).edges
            && Settle(AdvanceLoop(settled, t2).executor, t2) == Settle(AdvanceLoop(e, t2).executor, t2)
  {
    var settled := Settle(e, t1);
    InvReady(settled);
    if e.queue == [] {
      LoopWaits(e, t2);
      LoopWaits(settled, t2);
    } else {
      assert settled == e.(now := t1);
      LoopIgnoresNow(e, t1, t2);
    }
  }

  /** Advancing to t1 and then to t2 yields the state of advancing to t2, and the same edges in the same
      order: across any number of queued segments, a final stop, or an underrun. */
  lemma AdvanceAdds(e: Executor, t1: u64, t2: u64)
    requires Inv(e) && Ready(e) && e.now <= t1 <= t2
    ensures AdvanceTo(e, t1).Advanced? && AdvanceTo(e, t2).Advanced?
    ensures var first := AdvanceTo(e, t1).output; var whole := AdvanceTo(e, t2).output;
            && Ready(first.executor)
            && AdvanceTo(first.executor, t2).Advanced?
            && whole == Output(AdvanceTo(first.executor, t2).output.executor,
                               first.edges + AdvanceTo(first.executor, t2).output.edges)
  {
    var a := AdvanceLoop(e, t1);
    LoopKeeps(e, t1);
    LoopAdds(e, t1, t2);
    LoopAfter(a.executor, t1, t2);
    var b := AdvanceLoop(a.executor, t2);
    SortedInTime(a.edges, b.edges, t1);
    SortSplit(a.edges, b.edges);
    SettleAdds(a.executor, t1, t2);
  }

  // ---------------------------------------------------------------- the invariant, operation by operation

  lemma AdvanceKeepsInv(e: Executor, t: u64)
    requires Inv(e) && Ready(e)
    ensures var r := AdvanceTo(e, t);
            if r.Thrown? then r.executor == e else Inv(r.output.executor) && SameConfigs(e.axes, r.output.executor.axes)
  {
    LoopKeeps(e, t);
  }

  lemma AbortKeepsInv(e: Executor, t: u64, fault: Fault)
    requires Inv(e) && Ready(e)
    ensures var r := Abort(e, t, fault);
            if r.Thrown? then r.executor == e
            else Inv(r.output.executor) && SameConfigs(e.axes, r.output.executor.axes) &&
                 r.output.executor.mode == Faulted && r.output.executor.queue == []
  {
    AdvanceKeepsInv(e, t);
    if AdvanceTo(e, t).Advanced? {
      EnterSafeKeeps(AdvanceTo(e, t).output.executor, t, fault);
    }
  }

  lemma {:induction false} CheckMovesFine(axes: seq<Axis>, duration: u64, moves: seq<Move>, i: nat)
    requires i <= |moves| && Configured(axes) && CheckMoves(axes, duration, moves, i).Fine?
    ensures forall k | i <= k < |moves| :: CheckMove(axes, duration, moves, k).Fine?
    decreases |moves| - i
  {
    if i < |moves| {
      CheckMovesFine(axes, duration, moves, i + 1);
    }
  }

  lemma AppendedSegmentOk(axes: seq<Axis>, segment: Segment)
    requires Configured(axes) && segment.duration > 0 && segment.End() <= U64_MAX
    requires CheckMoves(axes, segment.duration, segment.axes, 0).Fine?
    ensures SegmentOk(axes, SegmentState(segment, FreshMoves(segment.axes)))
  {
    CheckMovesFine(axes, segment.duration, segment.axes, 0);
    var s := SegmentState(segment, FreshMoves(segment.axes));
    forall i | 0 <= i < |s.moves|
      ensures MoveOk(axes, segment, s.moves[i])
    {
      assert CheckMove(axes, segment.duration, segment.axes, i).Fine?;
      var m := s.moves[i];
      if m.count > 0 {
        AllowedIsAdmitted(AxisOf(axes, m).config, m.count, segment.duration);
      }
    }
    forall i, j | 0 <= i < j < |s.moves|
      ensures s.moves[i].move.resourceId != s.moves[j].move.resourceId
    {
      assert CheckMove(axes, segment.duration, segment.axes, j).Fine?;
    }
  }

  lemma EnqueueKeepsInv(e: Executor, request: Segment, now: u64)
    requires Inv(e)
    ensures Inv(Enqueue(e, request, now).executor)
  {
    var r := Enqueue(e, request, now);
    if r.Accepted? {
      AppendedSegmentOk(e.axes, r.segment);
      assert r.executor.queue == e.queue + [SegmentState(r.segment, FreshMoves(r.segment.axes))];
    }
  }
}
