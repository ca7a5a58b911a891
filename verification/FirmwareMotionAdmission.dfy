/** Which segments firmware/src/motion.c takes, and with which answer it refuses the others
    (firmware/src/motion.c:11-140, 187-196). */
module FirmwareMotionAdmission {
  import opened FixedWidth
  import opened NonlinearFacts
  import opened FirmwareMotion
  import opened FirmwareMotionRing
  import opened FirmwareMotionTimer

  // ---------------------------------------------------------------- the rate

  /** For an even timer rate the split computation of the limit is exact: two periods a step, and a product of steps and
      duration that fits. */
  lemma EvenRateExactly(c: Config, steps: i32, duration: u64)
    requires c.timerHz % 2 == 0
    ensures AxisFits(c, steps, duration) <==>
              var n := AbsoluteSteps(steps); 2000000000 * n <= duration * c.timerHz && n * duration <= U64_MAX
  {
    var n := AbsoluteSteps(steps);
    ProductFits(n, duration);
    if n <= MaximumSteps(c, duration) {
      MaximumStepsBound(c, duration, n);
    }
    if 2000000000 * n <= duration * c.timerHz {
      assert duration * c.timerHz == 2 * (duration * (c.timerHz / 2));
      HalfRateReaches(c, duration, n);
    }
  }

  lemma ProductFits(n: nat, duration: u64)
    ensures n == 0 || duration <= U64_MAX / n <==> n * duration <= U64_MAX
  {
    if n != 0 {
      AtMostQuotient(duration, U64_MAX, n);
    }
  }

  /** For an odd rate the limit lies between the rate below it and the rate itself. */
  lemma AnyRateBetween(c: Config, steps: i32, duration: u64)
    ensures var n := AbsoluteSteps(steps);
            && (AxisFits(c, steps, duration) ==> 2000000000 * n <= duration * c.timerHz && n * duration <= U64_MAX)
            && (2000000000 * n <= duration * (c.timerHz - 1) && n * duration <= U64_MAX ==> AxisFits(c, steps, duration))
  {
    var n := AbsoluteSteps(steps);
    ProductFits(n, duration);
    if n <= MaximumSteps(c, duration) {
      MaximumStepsBound(c, duration, n);
    }
    if 2000000000 * n <= duration * (c.timerHz - 1) {
      HalfIsClose(duration, c.timerHz, n);
      HalfRateReaches(c, duration, n);
    }
  }

  lemma HalfIsClose(duration: nat, hz: nat, n: nat)
    requires hz > 0 && 2000000000 * n <= duration * (hz - 1)
    ensures 1000000000 * n <= duration * (hz / 2)
  {
    MulMonotone(duration, hz - 1, 2 * (hz / 2));
    assert duration * (2 * (hz / 2)) == 2 * (duration * (hz / 2));
  }

  lemma HalfRateReaches(c: Config, duration: u64, n: nat)
    requires 1000000000 * n <= duration * (c.timerHz / 2) && n <= 0x8000_0000
    ensures n <= MaximumSteps(c, duration)
  {
    var half := c.timerHz / 2;
    var whole, rest := duration / 1000000000, duration % 1000000000;
    assert duration * half == 1000000000 * (whole * half) + rest * half;
    if whole <= U64_MAX / half {
      WholeSecondsFit(whole, half);
      var partial := (rest * c.timerHz) / 2000000000;
      MulMonotone(rest, 2 * half, c.timerHz);
      assert rest * (2 * half) == 2 * (rest * half);
      if n > whole * half {
        AtMostQuotient(n - whole * half, rest * c.timerHz, 2000000000);
      }
    }
  }

  // ---------------------------------------------------------------- enqueue

  /** The first moment at which a segment may start. */
  function Lead(c: Config, now: u64): u64 {
    Min(now + 1000 * c.leadUs, U64_MAX)
  }

  /** When the segment would start: at the time it asks for, or as soon as the queue and the lead time allow. */
  function StartOf(c: Config, q: Queue, request: Segment, now: u64): u64 {
    if request.start != 0 then request.start else Max(q.nextAvailable, Lead(c, now))
  }

  predicate WellFormed(q: Queue, request: Segment) {
    request.sequence != 0 && request.duration != 0 && |request.steps| == |q.axes| && request.End() <= U64_MAX
  }

  predicate StepsFit(c: Config, request: Segment) {
    forall i | 0 <= i < |request.steps| :: AxisFits(c, request.steps[i], request.duration)
  }

  predicate MayFollow(q: Queue) {
    q.segments == [] || !q.segments[|q.segments| - 1].final
  }

  /** The queue behind its new last segment. */
  ghost predicate Grown(q: Queue, next: Queue, segment: Segment) {
    && next.segments == q.segments + [segment]
    && next.lastAccepted == segment.sequence && next.nextAvailable == segment.End()
    && next.mode == Armed && next.axes == q.axes && next.fault == q.fault
    && next.accepted == Wrap64(q.accepted + 1) && next.rejected == q.rejected
  }

  /** Every answer of enqueue, by the first requirement that is not met; refusals change nothing but, for three of
      them, the count of rejected segments. */
  lemma EnqueueExactly(c: Config, q: Queue, request: Segment, now: u64)
    requires RingInv(c, q)
    ensures var r := Enqueue(c, q, request, now); var start := StartOf(c, q, request, now);
            if !WellFormed(q, request) then r == EnqueueOutcome(Invalid, q)
            else if !StepsFit(c, request) then r == EnqueueOutcome(Invalid, q.(rejected := Wrap64(q.rejected + 1)))
            else if q.fault != NoFault then r == EnqueueOutcome(FaultLatched, q.(rejected := Wrap64(q.rejected + 1)))
            else if |q.segments| == c.depth then r == EnqueueOutcome(Full, q.(rejected := Wrap64(q.rejected + 1)))
            else if request.sequence != (q.lastAccepted + 1) % 0x1_0000_0000 then r == EnqueueOutcome(SequenceMismatch, q)
            else if !MayFollow(q) then r == EnqueueOutcome(Invalid, q)
            else if start < Lead(c, now) then r == EnqueueOutcome(Late, q)
            else if q.segments != [] && start != q.nextAvailable then r == EnqueueOutcome(Discontinuous, q)
            else if start + request.duration > U64_MAX then r == EnqueueOutcome(Invalid, q)
            else r.code == Accepted && Grown(q, r.queue, request.(start := start))
  {
    if |q.segments| > 0 {
      assert q.segments[|q.segments| - 1] in q.segments;
    }
  }

  /** An accepted segment starts no sooner than the lead time after it came, and where the one before it ends. */
  lemma AcceptedIsTimely(c: Config, q: Queue, request: Segment, now: u64)
    requires RingInv(c, q) && Enqueue(c, q, request, now).code == Accepted
    ensures var next := Enqueue(c, q, request, now).queue; var added := next.segments[|q.segments|];
            && next.segments == q.segments + [added]
            && added.start >= Lead(c, now)
            && (request.start != 0 ==> added.start == request.start)
            && (q.segments != [] ==> added.start == q.segments[|q.segments| - 1].End())
            && added.(start := request.start) == request
            && next.mode == Armed
  {
    EnqueueExactly(c, q, request, now);
  }

  /** A fault can be cleared exactly when nothing is queued, and then the queue is idle and free from now on. */
  lemma ClearFaultExactly(q: Queue, now: u64)
    ensures var after := ClearFault(q, now);
            if q.segments == [] then
              after.fault == NoFault && after.mode == Idle && after.nextAvailable == now && after.segments == [] &&
              after.axes == q.axes && after.lastAccepted == q.lastAccepted
            else after == q
  {
  }
}
