/** Which segments the mock executor takes, and with which error it refuses the others
    (mock_mcu/src/motion_executor.cpp:48-65, 115-212, 297-305). */
module MockMotionAdmission {
  import opened FixedWidth
  import opened NonlinearFacts
  import opened MockMotion
  import opened MockMotionTiming
  import opened MockMotionAdvance
  import opened MockMotionSafety

  /** The steps of a move fit: between setup and the last pulse, at the minimum period, and at the maximum rate. */
  predicate StepsFit(config: AxisConfig, count: nat, duration: nat) {
    count > 0 ==>
      && config.setup + config.pulseWidth <= duration
      && (count - 1) * (config.pulseWidth + config.minimumLow) <= duration - config.setup
      && count * NANOSECONDS_PER_SECOND <= config.maximumRate * duration
  }

  lemma MoveAllowedExactly(config: AxisConfig, count: u64, duration: u64)
    requires ConfigOk(config) && count <= 0x8000_0000
    ensures MoveAllowed(config, count, duration) <==> StepsFit(config, count, duration)
  {
    RateExact(count, duration, config.maximumRate);
    if count > 0 {
      var period := config.pulseWidth + config.minimumLow;
      var available := if duration > config.setup then duration - config.setup else 0;
      AtMostQuotient(count - 1, available, period);
    }
  }

  /** What is wrong with move j, if anything. */
  function MoveError(e: Executor, duration: nat, moves: seq<Move>, j: nat): Verdict
    requires j < |moves|
  {
    if exists k | 0 <= k < j :: moves[k].resourceId == moves[j].resourceId then Bad(DuplicateAxis)
    else if forall i | 0 <= i < |e.axes| :: e.axes[i].config.resourceId != moves[j].resourceId then Bad(InvalidAxis)
    else if exists i | 0 <= i < |e.axes| :: e.axes[i].config.resourceId == moves[j].resourceId &&
              !StepsFit(e.axes[i].config, AbsoluteSteps(moves[j].steps), duration) then Bad(RateExceeded)
    else Fine
  }

  lemma CheckMoveExactly(e: Executor, duration: u64, moves: seq<Move>, j: nat)
    requires Configured(e.axes) && DistinctIds(e.axes) && j < |moves|
    ensures CheckMove(e.axes, duration, moves, j) == MoveError(e, duration, moves, j)
  {
    var i := IndexOf(e.axes, moves[j].resourceId);
    if i < |e.axes| {
      MoveAllowedExactly(e.axes[i].config, AbsoluteSteps(moves[j].steps), duration);
      assert forall k | 0 <= k < |e.axes| && k != i :: e.axes[k].config.resourceId != moves[j].resourceId;
    }
  }

  /** The error of the first bad move. */
  lemma {:induction false} CheckMovesExactly(e: Executor, duration: u64, moves: seq<Move>, from: nat)
    requires Configured(e.axes) && DistinctIds(e.axes) && from <= |moves|
    ensures CheckMoves(e.axes, duration, moves, from).Fine? <==>
              forall j | from <= j < |moves| :: MoveError(e, duration, moves, j).Fine?
    ensures forall j | from <= j < |moves| && MoveError(e, duration, moves, j).Bad? &&
                       (forall k | from <= k < j :: MoveError(e, duration, moves, k).Fine?) ::
              CheckMoves(e.axes, duration, moves, from) == MoveError(e, duration, moves, j)
    decreases |moves| - from
  {
    if from < |moves| {
      CheckMoveExactly(e, duration, moves, from);
      CheckMovesExactly(e, duration, moves, from + 1);
    }
  }

  /** When the segment would start. */
  function StartOf(e: Executor, request: Segment, now: u64): u64 {
    if request.start != 0 then request.start else Max(Min(now + e.lead, U64_MAX), e.nextAvailable)
  }

  /** The error that comes before a look at the moves, by the first requirement that is not met. */
  function ScheduleError(e: Executor, request: Segment, now: u64): Verdict {
    if e.fault != NoFault then Bad(FaultLatched)
    else if now < e.now then Bad(TimeWentBackwards)
    else if |e.queue| >= e.capacity then Bad(QueueFull)
    else if e.queue != [] && e.queue[|e.queue| - 1].segment.final then Bad(InvalidSegment)
    else if request.sequence == 0 || request.sequence != (e.lastAccepted + 1) % 0x1_0000_0000 then Bad(SequenceMismatch)
    else if request.duration == 0 || |request.axes| != |e.axes| then Bad(InvalidSegment)
    else if request.start != 0 && request.start < now + e.lead then Bad(SegmentLate)
    else if e.queue != [] && StartOf(e, request, now) != e.nextAvailable then Bad(SegmentOverlap)
    else if StartOf(e, request, now) + request.duration > U64_MAX then Bad(InvalidSegment)
    else Fine
  }

  /** The executor behind its new last segment, of which nothing has been emitted. */
  ghost predicate Grown(e: Executor, after: Executor, segment: Segment) {
    && |after.queue| == |e.queue| + 1 && after.queue[..|e.queue|] == e.queue
    && after.queue[|e.queue|].segment == segment && |after.queue[|e.queue|].moves| == |segment.axes|
    && (forall j | 0 <= j < |segment.axes| ::
          after.queue[|e.queue|].moves[j] ==
          MoveState(segment.axes[j], AbsoluteSteps(segment.axes[j].steps), 0, 0, false))
    && after.lastAccepted == segment.sequence && after.nextAvailable == segment.End() && after.mode == Armed
    && after.axes == e.axes && after.now == e.now && after.fault == e.fault && after.lastCompleted == e.lastCompleted
    && after.metrics == e.metrics.(accepted := e.metrics.accepted + 1,
                                   maximumDepth := Max(e.metrics.maximumDepth, |e.queue| + 1))
  }

  /** The executor but for one more rejection. */
  predicate Refused(e: Executor, r: EnqueueOutcome) {
    r.Rejected? && r.executor == e.(metrics := e.metrics.(rejected := e.metrics.rejected + 1))
  }

  /** Every answer of enqueue: the schedule's error, else that of the first bad move, else the segment is taken, at the
      start it asks for or as soon as the lead time and the queue allow. */
  lemma EnqueueExactly(e: Executor, request: Segment, now: u64)
    requires Inv(e) && DistinctIds(e.axes)
    ensures var r := Enqueue(e, request, now);
            if ScheduleError(e, request, now).Bad? then
              Refused(e, r) && r.error == ScheduleError(e, request, now).error
            else if exists j :: 0 <= j < |request.axes| && MoveError(e, request.duration, request.axes, j).Bad? then
              Refused(e, r) &&
              forall j | 0 <= j < |request.axes| && MoveError(e, request.duration, request.axes, j).Bad? &&
                         (forall k | 0 <= k < j :: MoveError(e, request.duration, request.axes, k).Fine?) ::
                r.error == MoveError(e, request.duration, request.axes, j).error
            else
              var segment := request.(start := StartOf(e, request, now));
              r.Accepted? && r.segment == segment && Grown(e, r.executor, segment)
  {
    ScheduleExactly(e, request, now);
    CheckMovesExactly(e, request.duration, request.axes, 0);
  }

  lemma ScheduleExactly(e: Executor, request: Segment, now: u64)
    requires Inv(e)
    ensures Schedule(e, request, now) ==
              if ScheduleError(e, request, now).Bad? then ScheduleError(e, request, now)
              else CheckMoves(e.axes, request.duration, request.axes, 0)
    ensures ScheduleError(e, request, now).Fine? ==> Scheduled(e, request, now) == request.(start := StartOf(e, request, now))
  {
  }

  /** A fault can be cleared exactly when nothing is queued, and then the executor is idle and free from its own time on. */
  lemma ClearFaultExactly(e: Executor)
    ensures var r := ClearFault(e);
            if e.queue == [] then
              r == Advanced(Output(e.(fault := NoFault, mode := Idle, nextAvailable := e.now), []))
            else r == Thrown(e, FaultLatched)
  {
  }
}
