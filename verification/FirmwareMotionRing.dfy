/** The queue invariant of firmware/src/motion.c, kept by every operation in every run. */
module FirmwareMotionRing {
  import opened FixedWidth
  import opened FirmwareMotion
  import opened FirmwareMotionPasses

  /** Neighbouring segments have consecutive sequence numbers, meet without a gap, and only the
      newest may be final. */
  ghost predicate Chained(segments: seq<Segment>) {
    forall i, j | 0 <= i && j == i + 1 && j < |segments| :: Follows(segments[i], segments[j])
  }

  predicate Follows(older: Segment, newer: Segment) {
    newer.sequence == older.sequence + 1 && newer.start == older.End() && !older.final
  }

  ghost predicate NewestAgrees(q: Queue) {
    |q.segments| > 0 ==>
      var newest := q.segments[|q.segments| - 1];
      newest.sequence == q.lastAccepted && newest.End() == q.nextAvailable
  }

  ghost predicate Admitted(c: Config, s: Segment) {
    && s.sequence != 0
    && forall i | 0 <= i < |s.steps| :: AxisFits(c, s.steps[i], s.duration)
  }

  predicate ModeAgrees(q: Queue) {
    && (|q.segments| > 0 <==> q.mode == Armed || q.mode == Running)
    && (q.mode == Faulted <==> q.fault != NoFault)
  }

  predicate CountsAgree(q: Queue) {
    q.accepted == Wrap64(q.completed + q.discarded + |q.segments|)
  }

  ghost predicate RingInv(c: Config, q: Queue) {
    && Shaped(q)
    && |q.segments| <= c.depth
    && Chained(q.segments)
    && NewestAgrees(q)
    && (forall s <- q.segments :: Admitted(c, s))
    && ModeAgrees(q)
    && CountsAgree(q)
  }

  lemma InitialRing(c: Config, axisCount: u8)
    ensures RingInv(c, Initial(axisCount))
  {
  }

  lemma EnqueueKeepsRing(c: Config, q: Queue, request: Segment, now: u64)
    requires RingInv(c, q)
    ensures RingInv(c, Enqueue(c, q, request, now).queue)
  {
    var r := Enqueue(c, q, request, now);
    if r.code == Accepted {
      var value := request.(start := ScheduledStart(c, q, request, now));
      assert r.queue.segments == q.segments + [value];
      assert Wrap64(q.accepted + 1) == Wrap64(q.completed + q.discarded + |q.segments| + 1) by {
        WrapAbsorbs(q.completed + q.discarded + |q.segments|, 1);
      }
    }
  }

  lemma CompleteKeepsRing(c: Config, q: Queue)
    requires RingInv(c, q)
    ensures RingInv(c, CompleteFront(q))
    ensures CompleteFront(q).discarded == q.discarded
  {
    if |q.segments| > 0 {
      assert |q.segments| > 1 ==> Follows(q.segments[0], q.segments[1]);
      WrapAbsorbs(q.completed + 1, q.discarded + |q.segments| - 1);
    }
  }

  lemma AbortKeepsRing(c: Config, q: Queue, fault: Fault)
    requires RingInv(c, q)
    ensures RingInv(c, Abort(q, fault))
  {
  }

  /** A change confined to the axes, counters of edges, and the last tick time. */
  ghost predicate SameRing(before: Queue, after: Queue) {
    && |after.axes| == |before.axes|
    && after == before.(axes := after.axes, edges := after.edges, lastTick := after.lastTick,
                        underruns := after.underruns)
  }

  lemma SameRingKeeps(c: Config, before: Queue, after: Queue)
    requires RingInv(c, before) && SameRing(before, after)
    ensures RingInv(c, after)
  {
  }

  lemma FinishKeepsRing(c: Config, q: Queue, segment: Segment, now: u64)
    requires RingInv(c, q) && |q.axes| == |segment.steps|
    ensures RingInv(c, Finish(c, q, segment, now))
  {
    CompleteKeepsRing(c, q);
    var done := CompleteFront(q);
    SameRingKeeps(c, done, StopOutputs(done, 0));
    AbortKeepsRing(c, q, Underrun);
    var stopped := Abort(q, Underrun);
    SameRingKeeps(c, stopped, StopOutputs(stopped.(underruns := Wrap64(stopped.underruns + 1)), 0));
  }

  lemma SafeStopKeepsRing(c: Config, q: Queue, fault: Fault)
    requires RingInv(c, q)
    ensures RingInv(c, SafeStop(q, fault))
  {
    AbortKeepsRing(c, q, fault);
    SameRingKeeps(c, Abort(q, fault), SafeStop(q, fault));
  }

  lemma PassSameRing(q: Queue, io: Io, segment: Segment, tickTime: u64, delta: u64)
    requires Shaped(q) && |segment.steps| == |q.axes|
    ensures SameRing(q, RunAxes(q.(lastTick := tickTime), io, segment, delta, 0).queue)
  {
  }

  lemma RunTickKeepsRing(c: Config, q: Queue, io: Io, now: u64)
    requires RingInv(c, q) && |q.segments| > 0
    ensures RingInv(c, RunTick(c, q, io, q.segments[0], now).queue)
  {
    var segment := q.segments[0];
    var tickTime := TickTime(segment, now);
    var delta := if tickTime > q.lastTick then tickTime - q.lastTick else 0;
    var pass := RunAxes(q.(lastTick := tickTime), io, segment, delta, 0);
    PassSameRing(q, io, segment, tickTime, delta);
    SameRingKeeps(c, q, pass.queue);
    if pass.fault != NoFault {
      SafeStopKeepsRing(c, pass.queue, pass.fault);
    } else {
      FinishKeepsRing(c, pass.queue, segment, now);
    }
  }

  lemma TickKeepsRing(c: Config, q: Queue, io: Io, now: u64)
    requires RingInv(c, q)
    ensures RingInv(c, Tick(c, q, io, now).queue)
  {
    SameRingKeeps(c, q, StopOutputs(q, 0));
    var limits := if io.hasLimits then CheckLimits(q.mode, io, |q.axes|, 0) else Clear;
    if q.fault == NoFault && limits.Trip? {
      SafeStopKeepsRing(c, q, limits.fault);
    } else if q.fault == NoFault && |q.segments| > 0 {
      var segment := q.segments[0];
      if q.mode == Armed && now >= segment.start {
        BeginSegmentPointwise(q, io, segment);
        var begun := BeginSegment(q, io, segment);
        SafeStopKeepsRing(c, begun.queue, begun.fault);
        RunTickKeepsRing(c, begun.queue, io, now);
      } else if q.mode != Armed {
        RunTickKeepsRing(c, q, io, now);
      }
    }
  }

  /** Every operation, in any order and with any clock and any output failures, keeps the queue
      invariant. */
  lemma StepKeepsRing(c: Config, q: Queue, e: Event)
    requires RingInv(c, q)
    ensures RingInv(c, Step(c, q, e))
  {
    match e
    case EnqueueEvent(request, now) => EnqueueKeepsRing(c, q, request, now);
    case TickEvent(io, now) => TickKeepsRing(c, q, io, now);
    case AbortEvent(fault) => AbortKeepsRing(c, q, fault);
    case ClearFaultEvent(now) =>
    case CompleteEvent => CompleteKeepsRing(c, q);
  }

  /** The states that a sequence of operations reaches from power-up, one after each operation. */
  ghost predicate IsRun(c: Config, axisCount: u8, states: seq<Queue>, events: seq<Event>) {
    && |states| == |events| + 1
    && states[0] == Initial(axisCount)
    && forall k {:trigger events[k]} | 0 <= k < |events| ::
         Shaped(states[k]) && states[k + 1] == Step(c, states[k], events[k])
  }

  lemma {:induction false} RunKeepsRing(c: Config, axisCount: u8, states: seq<Queue>, events: seq<Event>, k: nat)
    requires IsRun(c, axisCount, states, events) && k <= |events|
    ensures RingInv(c, states[k])
  {
    if k == 0 {
      InitialRing(c, axisCount);
    } else {
      RunKeepsRing(c, axisCount, states, events, k - 1);
      StepKeepsRing(c, states[k - 1], events[k - 1]);
    }
  }

  lemma TickKeepsAxes(c: Config, q: Queue, io: Io, now: u64)
    requires RingInv(c, q)
    ensures |Tick(c, q, io, now).queue.axes| == |q.axes|
  {
  }

  lemma StepKeepsAxes(c: Config, q: Queue, e: Event)
    requires RingInv(c, q)
    ensures |Step(c, q, e).axes| == |q.axes|
  {
    match e
    case TickEvent(io, now) => TickKeepsAxes(c, q, io, now);
    case EnqueueEvent(request, now) =>
    case AbortEvent(fault) =>
    case ClearFaultEvent(now) =>
    case CompleteEvent =>
  }

  lemma {:induction false} RunKeepsAxes(c: Config, axisCount: u8, states: seq<Queue>, events: seq<Event>, k: nat)
    requires IsRun(c, axisCount, states, events) && k <= |events|
    ensures |states[k].axes| == axisCount
  {
    if k > 0 {
      RunKeepsAxes(c, axisCount, states, events, k - 1);
      RunKeepsRing(c, axisCount, states, events, k - 1);
      StepKeepsAxes(c, states[k - 1], events[k - 1]);
    }
  }
}
