/** How an advance of the mock executor ends: on the way, after a final segment, or starved
    (mock_mcu/src/motion_executor.cpp:214-267, 455-481). */
module MockMotionEndings {
  import opened FixedWidth
  import opened MockMotion
  import opened MockMotionSorting
  import opened MockMotionEdges
  import opened MockMotionAdvance

  function Newest(e: Executor): Segment
    requires e.queue != []
  {
    e.queue[|e.queue| - 1].segment
  }

  /** How many of the queued segments have ended by t. */
  function EndedBy(queue: seq<SegmentState>, t: u64): (n: nat)
    ensures n <= |queue|
    ensures queue != [] && t < queue[0].segment.End() ==> n == 0
  {
    if queue == [] || t < queue[0].segment.End() then 0 else 1 + EndedBy(queue[1..], t)
  }

  /** Counters that an advance does not touch. */
  predicate SameAdmissions(e: Executor, after: Executor) {
    && after.metrics.accepted == e.metrics.accepted && after.metrics.rejected == e.metrics.rejected
    && after.metrics.limitStops == e.metrics.limitStops && after.metrics.maximumDepth == e.metrics.maximumDepth
    && after.lastAccepted == e.lastAccepted && after.capacity == e.capacity && after.lead == e.lead
  }

  /** All that was queued has ended: a final segment leaves the executor idle, any other one starves it. */
  predicate Finished(e: Executor, after: Executor, last: Segment) {
    && after.queue == [] && after.lastCompleted == last.sequence && after.nextAvailable == last.End()
    && after.metrics.completed == e.metrics.completed + |e.queue|
    && if last.final then
         after.mode == Idle && after.fault == NoFault &&
         after.metrics.underruns == e.metrics.underruns && after.metrics.safetyStops == e.metrics.safetyStops
       else
         after.mode == Faulted && after.fault == QueueUnderrun &&
         after.metrics.underruns == e.metrics.underruns + 1 && after.metrics.safetyStops == e.metrics.safetyStops + 1
  }

  /** The segments that have not ended are still queued, the first one running if it has begun. */
  predicate Underway(e: Executor, after: Executor, t: u64) {
    var n := EndedBy(e.queue, t);
    && n < |e.queue| == n + |after.queue|
    && (forall k | 0 <= k < |after.queue| :: after.queue[k].segment == e.queue[n + k].segment)
    && after.nextAvailable == e.nextAvailable && after.fault == e.fault
    && after.mode == (if n > 0 || e.queue[0].segment.start <= t then Running else e.mode)
    && after.lastCompleted == (if n == 0 then e.lastCompleted else e.queue[n - 1].segment.sequence)
    && after.metrics.completed == e.metrics.completed + n
    && after.metrics.underruns == e.metrics.underruns && after.metrics.safetyStops == e.metrics.safetyStops
  }

  predicate Ends(e: Executor, after: Executor, t: u64)
    requires e.queue != []
  {
    SameAdmissions(e, after) &&
    if Newest(e).End() <= t then Finished(e, after, Newest(e)) else Underway(e, after, t)
  }

  lemma {:induction false} NewestIsLast(e: Executor, k: nat)
    requires QueueInv(e) && k < |e.queue|
    ensures e.queue[k].segment.End() <= Newest(e).End()
    ensures e.queue[k].segment.final ==> k == |e.queue| - 1
    decreases |e.queue| - k
  {
    if k + 1 < |e.queue| {
      assert Follows(e.queue[k], e.queue[k + 1]);
      assert SegmentOk(e.axes, e.queue[k + 1]);
      NewestIsLast(e, k + 1);
    }
  }

  lemma CollectKeepsCounts(e: Executor, t: u64)
    requires |e.queue| > 0 && Known(e.axes, e.queue[0].moves) && e.queue[0].segment.End() <= U64_MAX
    ensures var c := Collect(e, t).executor;
            && SameAdmissions(e, c) && c.mode == Running && c.fault == e.fault
            && c.lastCompleted == e.lastCompleted && c.nextAvailable == e.nextAvailable
            && c.metrics.completed == e.metrics.completed
            && c.metrics.underruns == e.metrics.underruns && c.metrics.safetyStops == e.metrics.safetyStops
            && |c.queue| == |e.queue|
            && forall k | 0 <= k < |e.queue| :: c.queue[k].segment == e.queue[k].segment
  {
  }

  lemma ConcludeEnds(popped: Executor, final: bool, end: u64, edges: seq<Edge>)
    ensures var after := Conclude(popped, final, end, edges).executor;
            && SameAdmissions(popped, after) && after.queue == []
            && after.lastCompleted == popped.lastCompleted && after.nextAvailable == end
            && after.metrics.completed == popped.metrics.completed
            && if final then
                 after.mode == Idle && after.fault == NoFault &&
                 after.metrics.underruns == popped.metrics.underruns &&
                 after.metrics.safetyStops == popped.metrics.safetyStops
               else
                 after.mode == Faulted && after.fault == QueueUnderrun &&
                 after.metrics.underruns == popped.metrics.underruns + 1 &&
                 after.metrics.safetyStops == popped.metrics.safetyStops + 1
  {
  }

  lemma {:induction false} LoopEnds(e: Executor, t: u64)
    requires QueueInv(e) && Ready(e) && e.queue != []
    ensures Ends(e, AdvanceLoop(e, t).executor, t)
    decreases |e.queue|
  {
    NewestIsLast(e, 0);
    if t < e.queue[0].segment.start {
      assert SegmentOk(e.axes, e.queue[0]);
      LoopWaits(e, t);
    } else {
      SegmentKnown(e);
      CollectKeepsCounts(e, t);
      if t < e.queue[0].segment.End() {
        LoopWithin(e, t);
      } else if Last(e) {
        LastEnds(e, t);
      } else {
        PopKeeps(e, t);
        LoopContinues(e, t);
        LoopEnds(Popped(e, t), t);
        PopCounts(e, t);
        EndsBehind(e, Popped(e, t), AdvanceLoop(e, t).executor, t);
      }
    }
  }

  lemma PopCounts(e: Executor, t: u64)
    requires |e.queue| > 0 && Known(e.axes, e.queue[0].moves) && e.queue[0].segment.End() <= U64_MAX
    ensures var popped := Popped(e, t);
            && SameAdmissions(e, popped) && popped.mode == Running && popped.fault == e.fault
            && popped.nextAvailable == e.nextAvailable && popped.lastCompleted == e.queue[0].segment.sequence
            && popped.metrics.completed == e.metrics.completed + 1
            && popped.metrics.underruns == e.metrics.underruns && popped.metrics.safetyStops == e.metrics.safetyStops
  {
    CollectKeepsCounts(e, t);
  }

  lemma LastEnds(e: Executor, t: u64)
    requires QueueInv(e) && Ready(e) && Last(e) && Known(e.axes, e.queue[0].moves) && e.queue[0].segment.End() <= t
    ensures Ends(e, AdvanceLoop(e, t).executor, t)
  {
    NewestIsLast(e, 0);
    PopCounts(e, t);
    LoopConcludes(e, t);
    ConcludeEnds(Popped(e, t), e.queue[0].segment.final, e.queue[0].segment.End(), Collect(e, t).edges);
  }

  /** An ending of what is behind the front is an ending of the whole. */
  lemma EndsBehind(e: Executor, popped: Executor, after: Executor, t: u64)
    requires |e.queue| > 1 && popped.queue == e.queue[1..] && e.queue[0].segment.End() <= t
    requires Follows(e.queue[0], e.queue[1]) && popped.mode == Running && popped.fault == e.fault
    requires SameAdmissions(e, popped) && popped.nextAvailable == e.nextAvailable
    requires popped.lastCompleted == e.queue[0].segment.sequence
    requires popped.metrics.completed == e.metrics.completed + 1
    requires popped.metrics.underruns == e.metrics.underruns && popped.metrics.safetyStops == e.metrics.safetyStops
    requires Ends(popped, after, t)
    ensures Ends(e, after, t)
  {
    assert Newest(popped) == Newest(e);
  }

  lemma SettleEnds(e: Executor, looped: Executor, t: u64)
    requires e.queue != [] && Ends(e, looped, t)
    ensures Ends(e, Settle(looped, t), t)
  {
  }

  /** What an advance leaves, for every queue and every later time: once its newest segment has ended, everything is
      completed, and the executor is idle after a final segment and faulted by an underrun after any other; before
      that, nothing is faulted and exactly the segments that have ended are completed. */
  lemma AdvanceEnds(e: Executor, t: u64)
    requires Inv(e) && Ready(e) && e.now <= t
    ensures AdvanceTo(e, t).Advanced? && AdvanceTo(e, t).output.executor.now == t
    ensures e.queue != [] ==> Ends(e, AdvanceTo(e, t).output.executor, t)
    ensures e.queue == [] ==> AdvanceTo(e, t).output == Output(e.(now := t), [])
  {
    if e.queue == [] {
      LoopWaits(e, t);
    } else {
      LoopEnds(e, t);
      SettleEnds(e, AdvanceLoop(e, t).executor, t);
    }
  }
}
