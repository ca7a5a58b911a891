/** The other half of the timer-rate guarantee: a program that does not keep up, or whose lateness limit
    wraps, is stopped by some timer that keeps its rate (firmware/src/motion.c:292-371). */
module FirmwareMotionPunctual {
  import opened FixedWidth
  import opened NonlinearFacts
  import opened FirmwareMotion
  import opened FirmwareMotionPasses
  import opened FirmwareMotionRing
  import opened FirmwareMotionDda
  import opened FirmwareMotionDisplacement
  import opened FirmwareMotionTimer
  import Limits = FirmwareMotionLimits

  // ---------------------------------------------------------------- runs that fail

  /** Some timer that keeps its rate and meets no failing output ends in a fault. */
  ghost predicate CanFail(c: Config, q: Queue, last: u64)
    requires RingInv(c, q)
  {
    exists calls :: TimerRuns(c, last, calls) && RunTimer(c, q, calls).fault != NoFault
  }

  lemma FailsAlready(c: Config, q: Queue, last: u64)
    requires RingInv(c, q) && q.fault != NoFault
    ensures CanFail(c, q, last)
  {
    assert TimerRuns(c, last, []) && RunTimer(c, q, []).fault != NoFault;
  }

  lemma FailsLater(c: Config, q: Queue, last: u64, now: u64)
    requires RingInv(c, q) && OnTime(c, last, now)
    ensures RingInv(c, Tick(c, q, GOOD_IO, now).queue)
    ensures CanFail(c, Tick(c, q, GOOD_IO, now).queue, now) ==> CanFail(c, q, last)
  {
    TickKeepsRing(c, q, GOOD_IO, now);
    var after := Tick(c, q, GOOD_IO, now).queue;
    if CanFail(c, after, now) {
      var calls :| TimerRuns(c, now, calls) && RunTimer(c, after, calls).fault != NoFault;
      var all := [TimerCall(GOOD_IO, now)] + calls;
      assert all[1..] == calls;
      assert Works(GOOD_IO);
      assert TimerRuns(c, last, all);
      assert RunTimer(c, q, all) == RunTimer(c, after, calls);
    }
  }

  lemma FailsNow(c: Config, q: Queue, last: u64, now: u64)
    requires RingInv(c, q) && OnTime(c, last, now) && Tick(c, q, GOOD_IO, now).queue.fault != NoFault
    ensures CanFail(c, q, last)
  {
    TickKeepsRing(c, q, GOOD_IO, now);
    FailsAlready(c, Tick(c, q, GOOD_IO, now).queue, now);
    FailsLater(c, q, last, now);
  }

  // ---------------------------------------------------------------- the lateness limit

  lemma ServedVerdict(c: Config, q: Queue, io: Io, now: u64)
    requires RingInv(c, q) && Serves(q, io, now) && PassAt(q, io, now).fault == NoFault
    requires !Completes(c, q, io, now)
    ensures Tick(c, q, io, now).queue.fault == Underrun <==>
              Elapsed(q.segments[0], now) > Wrap64(q.segments[0].duration + Period(c))
  {
    ServingTick(c, q, io, now);
    AtDdaKeepsQueue(q, io, now);
  }

  /** What the lateness test of a served tick does, for every segment: before the end it stops the
      segment exactly when the sum behind the limit has wrapped and what is left of it has passed. */
  lemma EarlyStopIsWrap(c: Config, q: Queue, io: Io, now: u64)
    requires RingInv(c, q) && Serves(q, io, now) && PassAt(q, io, now).fault == NoFault
    requires Elapsed(q.segments[0], now) < q.segments[0].duration
    ensures var limit := q.segments[0].duration + Period(c);
            Tick(c, q, io, now).queue.fault == Underrun <==>
              limit > U64_MAX && Elapsed(q.segments[0], now) > limit - 0x1_0000_0000_0000_0000
  {
    ServedVerdict(c, q, io, now);
    LimitWraps(c, q.segments[0].duration);
  }

  lemma LimitWraps(c: Config, duration: u64)
    ensures var limit := duration + Period(c);
            Wrap64(limit) == if limit > U64_MAX then limit - 0x1_0000_0000_0000_0000 else limit
    ensures Period(c) <= 500000000
  {
    PeriodIsShort(c);
  }

  /** From the end on, a served segment that is not complete is stopped exactly when it is more than one
      period late, if its limit fits. */
  lemma LateStopIsLate(c: Config, q: Queue, io: Io, now: u64)
    requires RingInv(c, q) && Serves(q, io, now) && PassAt(q, io, now).fault == NoFault
    requires !Completes(c, q, io, now) && q.segments[0].duration + Period(c) <= U64_MAX
    ensures Tick(c, q, io, now).queue.fault == Underrun <==> now > q.segments[0].End() + Period(c)
  {
    ServedVerdict(c, q, io, now);
    LimitWraps(c, q.segments[0].duration);
  }

  lemma PeriodIsShort(c: Config)
    ensures Period(c) <= 500000000
  {
    DivMod(1000000000, c.timerHz);
    if Period(c) > 500000000 {
      MulMonotone(Period(c), 2, c.timerHz);
    }
  }

  // ---------------------------------------------------------------- steps of the slowest timer

  /** A tick at which the front segment only goes on. */
  lemma GoesOnFront(c: Config, q: Queue, last: u64, bound: int, now: u64) returns (r: Queue)
    requires FrontInv(c, q, last, bound) && OnTime(c, last, now) && |q.segments| > 0
    requires !Completes(c, q, GOOD_IO, now)
    ensures r == Tick(c, q, GOOD_IO, now).queue
    ensures FrontInv(c, r, now, bound) && r.segments == q.segments && r.nextAvailable == q.nextAvailable
    ensures Serves(q, GOOD_IO, now) ==> r == PassAt(q, GOOD_IO, now).queue && r.mode == Running
    ensures !Serves(q, GOOD_IO, now) ==> r == q && now < q.segments[0].start
    ensures CanFail(c, r, now) ==> CanFail(c, q, last)
  {
    r := Tick(c, q, GOOD_IO, now).queue;
    FailsLater(c, q, last, now);
    if Serves(q, GOOD_IO, now) {
      TimerContinues(c, q, GOOD_IO, last, bound, now);
      AtDdaKeepsQueue(q, GOOD_IO, now);
    } else {
      SteadyWaits(c, q, GOOD_IO, last, now);
      TimerWaits(c, q, GOOD_IO, last, bound, now);
    }
  }

  /** A tick that completes a segment which is not the last. */
  lemma HandsOver(c: Config, q: Queue, last: u64, now: u64) returns (r: Queue)
    requires Steady(c, q, last) && OnTime(c, last, now) && |q.segments| > 1
    requires Completes(c, q, GOOD_IO, now)
    ensures Steady(c, r, now) && r.mode == Armed
    ensures r.segments == q.segments[1..] && r.nextAvailable == q.nextAvailable
    ensures Lag(r.segments[0], now) == now - q.segments[0].End()
    ensures CanFail(c, r, now) ==> CanFail(c, q, last)
  {
    r := Tick(c, q, GOOD_IO, now).queue;
    FailsLater(c, q, last, now);
    CompletionShape(c, q, GOOD_IO, now);
    TickKeepsDda(c, q, GOOD_IO, now, last);
    assert Follows(q.segments[0], q.segments[1]);
  }

  /** Ticks that lead up to a time before the end. */
  lemma Approach(c: Config, q: Queue, last: u64, bound: int, target: u64) returns (r: Queue)
    requires FrontInv(c, q, last, bound) && |q.segments| > 0
    requires last <= target < q.segments[0].End() && Period(c) > 0
    ensures FrontInv(c, r, target, bound) && r.segments == q.segments && r.nextAvailable == q.nextAvailable
    ensures CanFail(c, r, target) ==> CanFail(c, q, last)
    decreases target - last
  {
    if last == target {
      r := q;
    } else {
      var now: u64 := if last + Period(c) < target then last + Period(c) else target;
      var next := GoesOnFront(c, q, last, bound, now);
      r := Approach(c, next, now, bound, target);
    }
  }

  /** A stepless segment completes at the first tick from its end on. */
  lemma SteplessCompletes(c: Config, q: Queue, last: u64, now: u64)
    requires Steady(c, q, last) && OnTime(c, last, now) && |q.segments| > 0
    requires MostSteps(q.segments[0].steps) == 0 && now >= q.segments[0].End()
    ensures Completes(c, q, GOOD_IO, now)
  {
    TimerServes(c, q, GOOD_IO, last, now);
    TimerPass(c, q, GOOD_IO, last, now);
    var pass := PassAt(q, GOOD_IO, now).queue;
    forall i | 0 <= i < |pass.axes|
      ensures AxisDone(pass.axes[i], q.segments[0].steps[i])
    {
      assert Paced(c, q, now, i, pass.axes[i]);
    }
  }

  /** A tick after which no other can come within the bound completes the segment. */
  lemma MustComplete(c: Config, q: Queue, last: u64, bound: int, now: u64)
    requires FrontInv(c, q, last, bound) && OnTime(c, last, now) && |q.segments| > 0
    requires now + Period(c) > q.segments[0].End() + bound
    ensures Completes(c, q, GOOD_IO, now)
  {
    if !Completes(c, q, GOOD_IO, now) {
      var r := GoesOnFront(c, q, last, bound, now);
      FrontEndsInTime(c, r, now, bound);
      assert false;
    }
  }

  /** A tick cannot complete a segment that owes a step before it. */
  lemma OwingGoesOn(c: Config, q: Queue, last: u64, now: u64, i: nat)
    requires Steady(c, q, last) && OnTime(c, last, now) && |q.segments| > 0
    requires i < |q.axes| && EmittedBefore(q, i) < AbsoluteSteps(q.segments[0].steps[i])
    ensures !Completes(c, q, GOOD_IO, now)
  {
    if Serves(q, GOOD_IO, now) {
      TimerPass(c, q, GOOD_IO, last, now);
      assert Paced(c, q, now, i, PassAt(q, GOOD_IO, now).queue.axes[i]);
    }
  }

  /** Before its end a segment owes its last step. */
  lemma OwesBeforeEnd(c: Config, q: Queue, last: u64, i: nat)
    requires Steady(c, q, last) && |q.segments| > 0 && last < q.segments[0].End()
    requires i < |q.axes| && q.segments[0].steps[i] != 0
    ensures EmittedBefore(q, i) < AbsoluteSteps(q.segments[0].steps[i])
  {
    if q.mode == Running {
      var s := q.segments[0];
      var n := AbsoluteSteps(s.steps[i]);
      assert OnTrack(q.axes[i], n, s.duration, q.lastTick - s.start);
      if q.axes[i].emitted == n {
        LastStepAtEnd(n, s.duration, q.axes[i].phase, q.lastTick - s.start);
      }
    }
  }

  /** Axis i of the front segment owes steps that, one a period, take it with the tick after them
      `margin` past two periods after the end. */
  predicate Chased(c: Config, q: Queue, last: u64, i: nat, margin: int)
    requires |q.segments| > 0 && i < |q.axes| == |q.segments[0].steps|
  {
    var n := AbsoluteSteps(q.segments[0].steps[i]);
    EmittedBefore(q, i) < n &&
    last + Owed(c, n, EmittedBefore(q, i)) == q.segments[0].End() + 2 * Period(c) + margin
  }

  /** Such an axis makes a step in every tick, one period after the other. */
  lemma ChaseGoesOn(c: Config, q: Queue, last: u64, now: u64, i: nat, after: Axis, margin: nat)
    requires |q.segments| > 0 && i < |q.axes| == |q.segments[0].steps|
    requires now == last + Period(c) && Chased(c, q, last, i, margin) && Paced(c, q, now, i, after)
    ensures var n := AbsoluteSteps(q.segments[0].steps[i]); var e := EmittedBefore(q, i) + 1;
            && after.emitted == e <= n
            && now + Owed(c, n, e) == q.segments[0].End() + 2 * Period(c) + margin
            && (e == n ==> now == q.segments[0].End() + Period(c) + margin)
  {
    OwedCounts(c, AbsoluteSteps(q.segments[0].steps[i]), EmittedBefore(q, i));
    OwedCounts(c, AbsoluteSteps(q.segments[0].steps[i]), EmittedBefore(q, i) + 1);
  }

  /** A segment that can still bear its lag is not past its end while it owes a step. */
  lemma ChaseBeforeEnd(c: Config, q: Queue, last: u64, bound: int, i: nat)
    requires FrontInv(c, q, last, bound) && |q.segments| > 0 && i < |q.axes|
    requires EmittedBefore(q, i) < AbsoluteSteps(q.segments[0].steps[i])
    ensures last <= q.segments[0].End()
  {
    var s := q.segments[0];
    var n := AbsoluteSteps(s.steps[i]);
    var e := EmittedBefore(q, i);
    OwedCounts(c, n, e);
    OwedCounts(c, n, e + 1);
    if q.mode == Armed {
      ArmedInTime(c, s, last, bound, i);
    } else {
      assert InTime(c, s, q.axes[i], i, last, bound);
    }
  }

  lemma ChaseTick(c: Config, q: Queue, last: u64, bound: int, now: u64, i: nat) returns (r: Queue)
    requires FrontInv(c, q, last, bound) && |q.segments| > 0 && i < |q.axes|
    requires q.mode == Armed ==> last >= q.segments[0].start
    requires Chased(c, q, last, i, 0) && now == last + Period(c)
    ensures FrontInv(c, r, now, bound) && r.segments == q.segments && r.nextAvailable == q.nextAvailable
    ensures r.mode == Running && |r.axes| == |q.axes|
    ensures now == r.segments[0].End() + Period(c) || Chased(c, r, now, i, 0)
    ensures CanFail(c, r, now) ==> CanFail(c, q, last)
  {
    OwingGoesOn(c, q, last, now, i);
    TimerServes(c, q, GOOD_IO, last, now);
    r := GoesOnFront(c, q, last, bound, now);
    assert |r.axes| == |q.axes| && Paced(c, q, now, i, r.axes[i]) by {
      TimerPass(c, q, GOOD_IO, last, now);
    }
    ChasedAfter(c, q, r, last, now, i);
  }

  lemma ChasedAfter(c: Config, q: Queue, r: Queue, last: u64, now: u64, i: nat)
    requires |q.segments| > 0 && i < |q.axes| == |q.segments[0].steps|
    requires r.segments == q.segments && |r.axes| == |q.axes| && r.mode == Running
    requires now == last + Period(c) && Chased(c, q, last, i, 0) && Paced(c, q, now, i, r.axes[i])
    ensures now == r.segments[0].End() + Period(c) || Chased(c, r, now, i, 0)
  {
    ChaseGoesOn(c, q, last, now, i, r.axes[i], 0);
  }

  lemma ChasesUntil(c: Config, q: Queue, last: u64, bound: int, i: nat, period: nat, end: u64) returns (r: Queue)
    requires FrontInv(c, q, last, bound) && |q.segments| > 0 && i < |q.axes|
    requires q.mode == Armed ==> last >= q.segments[0].start
    requires Chased(c, q, last, i, 0)
    requires period == Period(c) > 0 && end == q.segments[0].End() + period
    ensures FrontInv(c, r, end, bound) && r.segments == q.segments && r.nextAvailable == q.nextAvailable
    ensures CanFail(c, r, end) ==> CanFail(c, q, last)
    decreases end - last
  {
    ChaseBeforeEnd(c, q, last, bound, i);
    var now: u64 := last + period;
    r := ChaseTick(c, q, last, bound, now, i);
    if now < end {
      r := ChasesUntil(c, r, now, bound, i, period, end);
    }
  }

  /** A segment that just bears its lag makes one step each period until one period past its end. */
  lemma ChasesToTheEnd(c: Config, q: Queue, last: u64, bound: int, i: nat) returns (r: Queue)
    requires FrontInv(c, q, last, bound) && |q.segments| > 0 && i < |q.axes| && Period(c) > 0
    requires q.mode == Armed ==> last >= q.segments[0].start
    requires Chased(c, q, last, i, 0) && q.segments[0].End() + Period(c) <= U64_MAX
    ensures var end := q.segments[0].End() + Period(c);
            && FrontInv(c, r, end, bound) && r.segments == q.segments && r.nextAvailable == q.nextAvailable
            && (CanFail(c, r, end) ==> CanFail(c, q, last))
  {
    r := ChasesUntil(c, q, last, bound, i, Period(c), q.segments[0].End() + Period(c));
  }

  /** A segment that cannot bear its lag makes one step each period and is late before the last one. */
  lemma ChasesTooLate(c: Config, q: Queue, last: u64, i: nat, margin: nat)
    requires Steady(c, q, last) && |q.segments| > 0 && i < |q.axes| && margin > 0
    requires q.mode == Armed ==> last >= q.segments[0].start
    requires Chased(c, q, last, i, margin) && q.segments[0].duration + Period(c) <= U64_MAX
    requires last + Period(c) <= U64_MAX && q.segments[0].End() + 2 * Period(c) <= U64_MAX
    ensures CanFail(c, q, last)
    decreases q.segments[0].End() + Period(c) - last
  {
    var s := q.segments[0];
    var now: u64 := last + Period(c);
    OwingGoesOn(c, q, last, now, i);
    TimerServes(c, q, GOOD_IO, last, now);
    TimerPass(c, q, GOOD_IO, last, now);
    if now > s.End() + Period(c) {
      LateStopIsLate(c, q, GOOD_IO, now);
      FailsNow(c, q, last, now);
    } else {
      var n := AbsoluteSteps(s.steps[i]);
      LimitWraps(c, s.duration);
      SteadyContinues(c, q, GOOD_IO, last, now);
      var next := PassAt(q, GOOD_IO, now).queue;
      ChaseGoesOn(c, q, last, now, i, next.axes[i], margin);
      ChaseNeedsTime(c, q, last, i, margin);
      ChasesTooLate(c, next, now, i, margin);
      FailsLater(c, q, last, now);
    }
  }

  lemma ChaseNeedsTime(c: Config, q: Queue, last: u64, i: nat, margin: nat)
    requires |q.segments| > 0 && i < |q.axes| == |q.segments[0].steps|
    requires Chased(c, q, last, i, margin) && margin > 0 && last + Period(c) <= q.segments[0].End() + Period(c)
    ensures Period(c) > 0
  {
  }

  // ---------------------------------------------------------------- programs

  /** The clock has room for the program's latest end. */
  predicate HasRoom(c: Config, q: Queue, last: u64) {
    |q.segments| > 0 ==>
      q.nextAvailable + FinalLag(c, q.segments, Lag(q.segments[0], last)) < U64_MAX
  }

  lemma RoomForFront(c: Config, q: Queue, last: u64)
    requires RingInv(c, q) && |q.segments| > 0 && HasRoom(c, q, last)
    ensures var s := q.segments[0]; var after := LagAfter(c, s, Lag(s, last));
            && s.End() + after < U64_MAX
            && s.End() + Period(c) <= U64_MAX
            && (MostSteps(s.steps) > 0 ==> s.End() + 2 * Period(c) <= U64_MAX)
            && last + Period(c) <= Max(s.End() + after, U64_MAX)
  {
    var s := q.segments[0];
    var lag := Lag(s, last);
    var after := LagAfter(c, s, lag);
    LagAfterAtLeast(c, s, lag);
    assert s.End() + after < U64_MAX by {
      EndsWithLag(c, q.segments, after);
      assert FinalLag(c, q.segments, lag) == FinalLag(c, q.segments[1..], after);
    }
  }

  /** From a segment that bears its lag, the slowest timer leaves all the lag it can to the next one. */
  lemma SteplessHandsOn(c: Config, q: Queue, last: u64) returns (r: Queue, now: u64)
    requires Steady(c, q, last) && q.mode == Armed && |q.segments| > 1
    requires q.segments[0].duration + Period(c) <= U64_MAX
    requires MostSteps(q.segments[0].steps) == 0
    requires var s := q.segments[0]; s.End() + LagAfter(c, s, Lag(s, last)) <= U64_MAX
    requires Period(c) > 0 || LagAfter(c, q.segments[0], Lag(q.segments[0], last)) > 0
    ensures Steady(c, r, now) && r.mode == Armed
    ensures r.segments == q.segments[1..] && r.nextAvailable == q.nextAvailable
    ensures Lag(r.segments[0], now) == LagAfter(c, q.segments[0], Lag(q.segments[0], last))
    ensures CanFail(c, r, now) ==> CanFail(c, q, last)
  {
    var s := q.segments[0];
    var bound := LagAfter(c, s, Lag(s, last));
    if Lag(s, last) >= s.duration - 1 {
      now := last + Period(c);
      SteplessCompletes(c, q, last, now);
      r := HandsOver(c, q, last, now);
    } else {
      var near := Approach(c, q, last, bound, s.End() - 1);
      now := s.End() - 1 + Period(c);
      SteplessCompletes(c, near, s.End() - 1, now);
      r := HandsOver(c, near, s.End() - 1, now);
    }
  }

  lemma ChaseHandsOn(c: Config, q: Queue, last: u64, i: nat) returns (r: Queue, now: u64)
    requires Steady(c, q, last) && q.mode == Armed && |q.segments| > 1 && i < |q.axes|
    requires AbsoluteSteps(q.segments[0].steps[i]) == MostSteps(q.segments[0].steps) > 0
    requires var s := q.segments[0]; Lag(s, last) + Chase(c, s) == s.duration
    requires q.segments[0].duration + Period(c) <= U64_MAX
    requires q.segments[0].End() + 2 * Period(c) <= U64_MAX && Period(c) > 0
    ensures Steady(c, r, now) && r.mode == Armed
    ensures r.segments == q.segments[1..] && r.nextAvailable == q.nextAvailable
    ensures Lag(r.segments[0], now) == 2 * Period(c)
    ensures CanFail(c, r, now) ==> CanFail(c, q, last)
  {
    var s := q.segments[0];
    var bound := LagAfter(c, s, Lag(s, last));
    BusiestIsChased(c, q, last, i);
    var near := ChasesToTheEnd(c, q, last, bound, i);
    now := s.End() + 2 * Period(c);
    MustComplete(c, near, s.End() + Period(c), bound, now);
    r := HandsOver(c, near, s.End() + Period(c), now);
  }

  lemma SteppingHandsOn(c: Config, q: Queue, last: u64, i: nat) returns (r: Queue, now: u64)
    requires Steady(c, q, last) && q.mode == Armed && |q.segments| > 1 && i < |q.axes|
    requires AbsoluteSteps(q.segments[0].steps[i]) == MostSteps(q.segments[0].steps) > 0
    requires var s := q.segments[0]; Lag(s, last) + Chase(c, s) < s.duration
    requires q.segments[0].duration + Period(c) <= U64_MAX
    requires q.segments[0].End() + 2 * Period(c) <= U64_MAX && Period(c) > 0
    ensures Steady(c, r, now) && r.mode == Armed
    ensures r.segments == q.segments[1..] && r.nextAvailable == q.nextAvailable
    ensures Lag(r.segments[0], now) == 2 * Period(c) - 1
    ensures CanFail(c, r, now) ==> CanFail(c, q, last)
  {
    var s := q.segments[0];
    var before: u64, past: u64 := s.End() - 1, s.End() - 1 + Period(c);
    var bound := LagAfter(c, s, Lag(s, last));
    ChaseCounts(c, s);
    var near := Approach(c, q, last, bound, before);
    OwesBeforeEnd(c, near, before, i);
    OwingGoesOn(c, near, before, past, i);
    var far := GoesOnFront(c, near, before, bound, past);
    now := past + Period(c);
    MustComplete(c, far, past, bound, now);
    r := HandsOver(c, far, past, now);
  }

  lemma HandsOn(c: Config, q: Queue, last: u64) returns (r: Queue, now: u64)
    requires Steady(c, q, last) && q.mode == Armed && |q.segments| > 1
    requires Bears(c, q.segments[0], Lag(q.segments[0], last)) && HasRoom(c, q, last)
    requires Period(c) > 0 || LagAfter(c, q.segments[0], Lag(q.segments[0], last)) > 0
    ensures Steady(c, r, now) && r.mode == Armed
    ensures r.segments == q.segments[1..] && r.nextAvailable == q.nextAvailable
    ensures Lag(r.segments[0], now) == LagAfter(c, q.segments[0], Lag(q.segments[0], last))
    ensures CanFail(c, r, now) ==> CanFail(c, q, last)
  {
    var s := q.segments[0];
    var lag := Lag(s, last);
    RoomForFront(c, q, last);
    if MostSteps(s.steps) == 0 {
      r, now := SteplessHandsOn(c, q, last);
    } else {
      var i :| 0 <= i < |s.steps| && AbsoluteSteps(s.steps[i]) == MostSteps(s.steps);
      if lag + Chase(c, s) == s.duration {
        r, now := ChaseHandsOn(c, q, last, i);
      } else {
        r, now := SteppingHandsOn(c, q, last, i);
      }
    }
  }

  /** A program that does not keep up is stopped by some timer that keeps its rate. */
  lemma {:induction false} LagFails(c: Config, q: Queue, last: u64)
    requires Steady(c, q, last) && q.mode == Armed && HasRoom(c, q, last)
    requires !KeepsUp(c, q.segments, Lag(q.segments[0], last))
    ensures CanFail(c, q, last)
    decreases |q.segments|
  {
    var s := q.segments[0];
    var after := LagAfter(c, s, Lag(s, last));
    if Bears(c, s, Lag(s, last)) {
      if Period(c) == 0 && after <= 0 {
        NoPeriodKeepsUp(c, q.segments[1..], after);
        assert false;
      }
      var r, now := HandsOn(c, q, last);
      LagFails(c, r, now);
    } else {
      UnbearableFails(c, q, last);
    }
  }

  lemma UnbearableFails(c: Config, q: Queue, last: u64)
    requires Steady(c, q, last) && q.mode == Armed && HasRoom(c, q, last)
    requires !Bears(c, q.segments[0], Lag(q.segments[0], last))
    ensures CanFail(c, q, last)
  {
    var s := q.segments[0];
    var i :| 0 <= i < |s.steps| && AbsoluteSteps(s.steps[i]) == MostSteps(s.steps);
    RoomForFront(c, q, last);
    BusiestIsChased(c, q, last, i);
    ChaseCounts(c, s);
    ChasesTooLate(c, q, last, i, Lag(s, last) + Chase(c, s) - s.duration);
  }

  /** The busiest axis of a segment with steps is as late as the segment's lag makes it. */
  lemma BusiestIsChased(c: Config, q: Queue, last: u64, i: nat)
    requires RingInv(c, q) && |q.segments| > 0 && q.mode == Armed && i < |q.axes|
    requires AbsoluteSteps(q.segments[0].steps[i]) == MostSteps(q.segments[0].steps) > 0
    requires var s := q.segments[0]; Lag(s, last) + Chase(c, s) >= s.duration
    ensures last >= q.segments[0].start
    ensures var s := q.segments[0]; Chased(c, q, last, i, Lag(s, last) + Chase(c, s) - s.duration)
  {
    var s := q.segments[0];
    var n := MostSteps(s.steps);
    AdmittedRate(c, s, i);
    TwoPeriodsSpare(n, Period(c), s.duration);
    OwedFromTheStart(n, Period(c));
  }

  lemma OwedFromTheStart(n: nat, p: nat)
    ensures (n + 1) * p == (n - 1) * p + 2 * p
  {
  }

  /** A timer that never moves leaves no lag behind. */
  lemma {:induction false} NoPeriodKeepsUp(c: Config, segments: seq<Segment>, lag: int)
    requires Period(c) == 0 && lag <= 0
    requires forall k | 0 <= k < |segments| :: segments[k].duration > 0
    ensures KeepsUp(c, segments, lag)
  {
    if segments != [] {
      NoPeriodKeepsUp(c, segments[1..], LagAfter(c, segments[0], lag));
    }
  }

  lemma {:induction false} RoomFitsLimits(c: Config, segments: seq<Segment>, lag: int)
    requires Chained(segments) && |segments| > 0
    requires forall k | 0 <= k < |segments| :: segments[k].start + segments[k].duration <= U64_MAX
    requires segments[|segments| - 1].End() + FinalLag(c, segments, lag) < U64_MAX
    ensures LimitsFit(c, segments)
  {
    var s, rest := segments[0], segments[1..];
    var after := LagAfter(c, s, lag);
    EndsWithLag(c, segments, after);
    if rest != [] {
      forall i, j | 0 <= i && j == i + 1 && j < |rest|
        ensures Follows(rest[i], rest[j])
      {
        assert Follows(segments[i + 1], segments[j + 1]);
      }
      RoomFitsLimits(c, rest, after);
    }
    assert segments == [s] + rest;
  }

  lemma KeepingUpIsSafe(c: Config, q: Queue, last: u64)
    requires RingInv(c, q) && q.mode == Armed && EndsFinal(q) && LimitsFit(c, q.segments)
    requires KeepsUp(c, q.segments, Lag(q.segments[0], last))
    ensures !CanFail(c, q, last)
  {
    forall calls | TimerRuns(c, last, calls)
      ensures RunTimer(c, q, calls).fault == NoFault
    {
      TimerProgramKeeps(c, q, last, LagAfter(c, q.segments[0], Lag(q.segments[0], last)), calls);
    }
  }

  /** For every armed program that ends in a final segment, with a clock that has room for its latest
      end: it keeps up with its lag if and only if no timer that keeps its rate makes it fault. */
  lemma KeepsUpExactly(c: Config, q: Queue, last: u64)
    requires RingInv(c, q) && q.mode == Armed && EndsFinal(q) && HasRoom(c, q, last)
    ensures KeepsUp(c, q.segments, Lag(q.segments[0], last)) <==> !CanFail(c, q, last)
  {
    if KeepsUp(c, q.segments, Lag(q.segments[0], last)) {
      RoomFitsLimits(c, q.segments, Lag(q.segments[0], last));
      KeepingUpIsSafe(c, q, last);
    } else {
      LagFails(c, q, last);
    }
  }

  /** A program of one final segment, of any admitted length, with a last tick at most two periods into
      it: no timer that keeps its rate makes it fault if and only if its lateness limit does not wrap. */
  lemma OneSegmentExactly(c: Config, q: Queue, last: u64)
    requires RingInv(c, q) && q.mode == Armed && EndsFinal(q) && |q.segments| == 1
    requires last <= q.segments[0].start + 2 * Period(c)
    ensures q.segments[0].duration + Period(c) <= U64_MAX <==> !CanFail(c, q, last)
  {
    var s := q.segments[0];
    if s.duration + Period(c) <= U64_MAX {
      assert q.segments == [s];
      OneSegmentKeepsUp(c, s, Lag(s, last));
      KeepingUpIsSafe(c, q, last);
    } else {
      PeriodIsShort(c);
      WrapFails(c, q, last);
    }
  }

  /** A front segment whose limit wraps is stopped by some timer that keeps its rate. */
  lemma WrapFails(c: Config, q: Queue, last: u64)
    requires Steady(c, q, last) && |q.segments| > 0 && last < q.segments[0].End()
    requires q.segments[0].duration + Period(c) > U64_MAX
    ensures CanFail(c, q, last)
  {
    var s := q.segments[0];
    PeriodIsShort(c);
    if last < s.start && q.mode == Armed {
      var r := WrapApproach(c, q, last, s.start);
      WrapStops(c, r, s.start);
    } else {
      WrapStops(c, q, last);
    }
  }

  lemma WrapStops(c: Config, q: Queue, last: u64)
    requires Steady(c, q, last) && |q.segments| > 0 && q.segments[0].start <= last < q.segments[0].End()
    requires q.segments[0].duration + Period(c) > U64_MAX
    ensures CanFail(c, q, last)
  {
    var s := q.segments[0];
    LimitWraps(c, s.duration);
    var limit := Wrap64(s.duration + Period(c));
    var now: u64 := if last > s.start + limit then last else s.start + limit + 1;
    TimerServes(c, q, GOOD_IO, last, now);
    TimerPass(c, q, GOOD_IO, last, now);
    EarlyStopIsWrap(c, q, GOOD_IO, now);
    FailsNow(c, q, last, now);
  }

  lemma WrapApproach(c: Config, q: Queue, last: u64, now: u64) returns (r: Queue)
    requires Steady(c, q, last) && |q.segments| > 0 && q.mode == Armed && OnTime(c, last, now)
    requires now <= q.segments[0].start
    ensures Steady(c, r, now) && r.segments == q.segments
    ensures CanFail(c, r, now) ==> CanFail(c, q, last)
  {
    r := Tick(c, q, GOOD_IO, now).queue;
    FailsLater(c, q, last, now);
    if Serves(q, GOOD_IO, now) {
      SteadyContinues(c, q, GOOD_IO, last, now);
    } else {
      SteadyWaits(c, q, GOOD_IO, last, now);
    }
  }

  // ---------------------------------------------------------------- an example

  lemma CrowdedQueue()
    ensures var q := Limits.Loaded(4);
            RingInv(Limits.SLOW_BOARD, q) && q.mode == Armed && EndsFinal(q) && q.segments == Limits.CROWDED
  {
    var c := Limits.SLOW_BOARD;
    var q := Limits.Loaded(4);
    assert q.segments == Limits.CROWDED;
    assert AxisFits(c, 0, 1) && AxisFits(c, 1, 2000000);
    forall s | s in q.segments
      ensures |s.steps| == 1 && s.duration > 0 && s.End() <= U64_MAX && Admitted(c, s)
    {
    }
  }

  lemma CrowdedLag(lag: int, after: int)
    requires after == if lag > 0 then 999999 + lag else 999999
    ensures forall k | 0 <= k < 3 ::
              Bears(Limits.SLOW_BOARD, Limits.CROWDED[k], lag) && LagAfter(Limits.SLOW_BOARD, Limits.CROWDED[k], lag) == after
  {
    forall k | 0 <= k < 3
      ensures MostSteps(Limits.CROWDED[k].steps) == 0
    {
      assert Limits.CROWDED[k].steps == [0];
      assert Limits.CROWDED[k].steps[..0] == [];
    }
  }

  /** Three still segments of a nanosecond leave almost three periods of lag to a segment of two periods, so the
      program of FirmwareMotionLimits does not keep up, and some punctual timer makes it fault. */
  lemma CrowdedDoesNotKeepUp()
    ensures RingInv(Limits.SLOW_BOARD, Limits.Loaded(4))
    ensures !KeepsUp(Limits.SLOW_BOARD, Limits.CROWDED, -1)
    ensures CanFail(Limits.SLOW_BOARD, Limits.Loaded(4), 0)
  {
    var c, all := Limits.SLOW_BOARD, Limits.CROWDED;
    CrowdedQueue();
    CrowdedLag(-1, 999999);
    CrowdedLag(999999, 1999998);
    CrowdedLag(1999998, 2999997);
    assert all[3].steps == [1] && all[3].steps[..0] == [];
    assert MostSteps(all[3].steps) == 1;
    assert all[1..][1..] == all[2..] && all[2..][1..] == all[3..];
    assert !KeepsUp(c, all[3..], 2999997);
    assert !KeepsUp(c, all[2..], 1999998);
    assert !KeepsUp(c, all[1..], 999999);
    CrowdedEnd();
    LagFails(c, Limits.Loaded(4), 0);
  }

  lemma CrowdedEnd()
    ensures HasRoom(Limits.SLOW_BOARD, Limits.Loaded(4), 0)
    ensures Limits.Loaded(4).segments == Limits.CROWDED && Lag(Limits.CROWDED[0], 0) == -1
  {
    var c, all := Limits.SLOW_BOARD, Limits.CROWDED;
    CrowdedLag(-1, 999999);
    CrowdedLag(999999, 1999998);
    CrowdedLag(1999998, 2999997);
    assert all[3].steps == [1] && all[3].steps[..0] == [];
    assert MostSteps(all[3].steps) == 1;
    assert all[1..][1..] == all[2..] && all[2..][1..] == all[3..] && all[3..][1..] == [];
    assert LagAfter(c, all[3], 2999997) == 2999997;
    assert FinalLag(c, all[3..], 2999997) == 2999997;
    assert FinalLag(c, all[2..], 1999998) == 2999997;
    assert FinalLag(c, all[1..], 999999) == 2999997;
  }
}
