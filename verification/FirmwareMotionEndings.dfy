/** How a tick of firmware/src/motion.c leaves the segment that it serves: completed, given up as late, or running on
    (firmware/src/motion.c:142-169, 355-372). */
module FirmwareMotionEndings {
  import opened FixedWidth
  import opened FirmwareMotion
  import opened FirmwareMotionPasses
  import opened FirmwareMotionRing
  import opened FirmwareMotionDda
  import opened FirmwareMotionEdges
  import opened FirmwareMotionStops

  /** Every axis has made all its steps before the tick. */
  ghost predicate AllMade(q: Queue)
    requires Shaped(q) && |q.segments| > 0
  {
    forall i | 0 <= i < |q.axes| ::
      AbsoluteSteps(q.segments[0].steps[i]) == if q.mode == Armed then 0 else q.axes[i].emitted
  }

  /** An axis is done after a tick exactly if it had nothing to do in it: a step leaves the line high. */
  lemma StepDone(a: Axis, target: u64, duration: u64, delta: u64, lowWorks: bool, highWorks: bool)
    requires StepAxis(a, target, duration, delta, lowWorks, highWorks).fault == NoFault
    ensures var after := StepAxis(a, target, duration, delta, lowWorks, highWorks).axis;
            after.emitted == target && !after.stepHigh <==> a.emitted == target
  {
  }

  lemma ServedDone(c: Config, q: Queue, io: Io, now: u64)
    requires RingInv(c, q) && Serves(q, io, now) && PassAt(q, io, now).fault == NoFault
    ensures AllEmitted(PassAt(q, io, now).queue.axes, q.segments[0]) <==> AllMade(q)
  {
    var s := q.segments[0];
    var r, delta := AtDda(q, io, now), DeltaAt(q, io, now);
    var served := r.(lastTick := TickTime(s, now));
    var after := PassAt(q, io, now).queue;
    BeginSegmentPointwise(q, io, s);
    RunAxesPointwise(served, io, s, delta, 0);
    forall i | 0 <= i < |q.axes|
      ensures AxisDone(after.axes[i], s.steps[i]) <==>
                AbsoluteSteps(s.steps[i]) == if q.mode == Armed then 0 else q.axes[i].emitted
    {
      assert Stepped(served, io, s, delta, i, after.axes[i]);
      StepDone(r.axes[i], AbsoluteSteps(s.steps[i]), s.duration, delta, io.stepWorks(i, false), io.stepWorks(i, true));
    }
  }

  /** The front segment is complete: the queue is idle after a final one, starved after any other that is alone, and armed
      for the next one else. */
  ghost predicate Completed(q: Queue, after: Queue)
    requires |q.segments| > 0
  {
    var s := q.segments[0];
    && after.lastCompleted == s.sequence && after.completed == Wrap64(q.completed + 1)
    && if s.final then
         after.segments == [] && after.mode == Idle && after.fault == NoFault && OutputsOff(after.axes) &&
         after.underruns == q.underruns && after.safetyStops == q.safetyStops
       else if |q.segments| == 1 then
         after.segments == [] && after.mode == Faulted && after.fault == Underrun && OutputsOff(after.axes) &&
         after.underruns == Wrap64(q.underruns + 1) && after.safetyStops == Wrap64(q.safetyStops + 1)
       else
         after.segments == q.segments[1..] && after.mode == Armed && after.fault == NoFault &&
         after.underruns == q.underruns && after.safetyStops == q.safetyStops
  }

  ghost predicate GivenUp(q: Queue, after: Queue) {
    && after.segments == [] && after.mode == Faulted && after.fault == Underrun && OutputsOff(after.axes)
    && after.underruns == Wrap64(q.underruns + 1) && after.safetyStops == Wrap64(q.safetyStops + 1)
    && after.lastCompleted == q.lastCompleted && after.completed == q.completed
  }

  ghost predicate RunsOn(q: Queue, after: Queue) {
    && after.segments == q.segments && after.mode == Running && after.fault == NoFault
    && after.underruns == q.underruns && after.safetyStops == q.safetyStops
    && after.lastCompleted == q.lastCompleted && after.completed == q.completed
  }

  /** What the loops over the axes do not touch. */
  lemma PassKeeps(c: Config, q: Queue, io: Io, now: u64)
    requires RingInv(c, q) && Serves(q, io, now)
    ensures var p := PassAt(q, io, now).queue;
            p == q.(axes := p.axes, edges := p.edges, mode := Running, lastTick := p.lastTick) && |p.axes| == |q.axes|
  {
    BeginSegmentPointwise(q, io, q.segments[0]);
  }

  lemma FinishExactly(c: Config, q: Queue, segment: Segment, now: u64)
    requires |q.segments| > 0 && segment == q.segments[0] && |q.axes| == |segment.steps| && q.fault == NoFault
    requires q.mode == Running && (segment.final ==> |q.segments| == 1)
    ensures var after := Finish(c, q, segment, now);
            var elapsed := if now <= segment.start then 0 else now - segment.start;
            if segment.duration <= elapsed && AllEmitted(q.axes, segment) then Completed(q, after)
            else if elapsed > (segment.duration + 1000000000 / c.timerHz) % 0x1_0000_0000_0000_0000 then GivenUp(q, after)
            else RunsOn(q, after)
  {
    StopOutputsPointwise(CompleteFront(q), 0);
    var stopped := Abort(q, Underrun);
    StopOutputsPointwise(stopped.(underruns := Wrap64(stopped.underruns + 1)), 0);
  }

  lemma NotFinal(c: Config, q: Queue)
    requires RingInv(c, q) && |q.segments| > 1
    ensures !q.segments[0].final
  {
    assert Follows(q.segments[0], q.segments[1]);
  }

  /** Completed if the segment's time is over and every axis had made its steps before, else given up if the lateness limit,
      which can wrap, is past. */
  ghost predicate Ends(c: Config, q: Queue, after: Queue, now: u64)
    requires Shaped(q) && |q.segments| > 0
  {
    var s := q.segments[0];
    var elapsed := if now <= s.start then 0 else now - s.start;
    if s.duration <= elapsed && AllMade(q) then Completed(q, after)
    else if elapsed > (s.duration + 1000000000 / c.timerHz) % 0x1_0000_0000_0000_0000 then GivenUp(q, after)
    else RunsOn(q, after)
  }

  lemma ServingEnds(c: Config, q: Queue, io: Io, now: u64)
    requires RingInv(c, q) && Serves(q, io, now) && PassAt(q, io, now).fault == NoFault
    ensures Ends(c, q, Finish(c, PassAt(q, io, now).queue, q.segments[0], now), now)
  {
    PassKeeps(c, q, io, now);
    ServedDone(c, q, io, now);
    if |q.segments| > 1 {
      NotFinal(c, q);
    }
    FinishExactly(c, PassAt(q, io, now).queue, q.segments[0], now);
  }

  /** How every tick that serves a segment and whose outputs work leaves it. */
  lemma TickEnds(c: Config, q: Queue, io: Io, now: u64, clock: u64)
    requires RingInv(c, q) && DdaInv(q, clock) && clock <= now && q.fault == NoFault && !io.hasLimits
    requires |q.segments| > 0 && (q.mode == Armed ==> now >= q.segments[0].start) && !OutputFails(q, io, now)
    ensures Ends(c, q, Tick(c, q, io, now).queue, now)
  {
    WorkingServes(c, q, io, now, clock);
    ServingEnds(c, q, io, now);
    ServingTick(c, q, io, now);
  }

  lemma WorkingServes(c: Config, q: Queue, io: Io, now: u64, clock: u64)
    requires RingInv(c, q) && DdaInv(q, clock) && clock <= now && q.fault == NoFault && !io.hasLimits
    requires |q.segments| > 0 && (q.mode == Armed ==> now >= q.segments[0].start) && !OutputFails(q, io, now)
    ensures Serves(q, io, now) && PassAt(q, io, now).fault == NoFault
  {
    OutputFailureStops(c, q, io, now, clock);
    if Serves(q, io, now) {
      ServedOutputFails(c, q, io, now, clock);
    } else {
      UnstartedFails(c, q, io, now);
    }
  }
}
