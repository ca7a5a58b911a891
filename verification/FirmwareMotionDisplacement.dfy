/** How far a completed segment moves each axis (firmware/src/motion.c:118-132, 265-363). */
module FirmwareMotionDisplacement {
  import opened FixedWidth
  import opened FirmwareMotion
  import opened FirmwareMotionPasses
  import opened FirmwareMotionRing
  import opened FirmwareMotionDda

  function Signed(positive: bool, n: nat): int {
    if positive then n else 0 - n
  }

  /** A queue with two history values for its front segment: the positions at which the segment became
      the front, and the steps it had emitted before an accepted enqueue armed it again. */
  datatype Track = Track(queue: Queue, origin: seq<int>, lost: seq<nat>)

  function Positions(axes: seq<Axis>): (r: seq<int>)
    ensures |r| == |axes|
  {
    seq(|axes|, i requires 0 <= i < |axes| => axes[i].position)
  }

  function Zeros(n: nat): (r: seq<nat>)
    ensures |r| == n
  {
    seq(n, _ => 0)
  }

  predicate SameFront(before: Queue, after: Queue) {
    |before.segments| > 0 && |after.segments| > 0 &&
    before.segments[0].sequence == after.segments[0].sequence
  }

  function TrackStep(c: Config, t: Track, e: Event): Track
    requires Shaped(t.queue)
  {
    var after := Step(c, t.queue, e);
    if !SameFront(t.queue, after) then
      Track(after, Positions(after.axes), Zeros(|after.axes|))
    else if t.queue.mode == Running && after.mode == Armed && |t.lost| == |t.queue.axes| then
      Track(after, t.origin,
            seq(|t.lost|, i requires 0 <= i < |t.lost| => t.lost[i] + t.queue.axes[i].emitted))
    else
      Track(after, t.origin, t.lost)
  }

  /** Axis a stands at its origin plus the steps lost to earlier passes plus those of this pass. */
  predicate Placed(a: Axis, steps: i32, origin: int, lost: nat) {
    a.positive == (steps >= 0) && a.position == origin + Signed(steps >= 0, lost + a.emitted)
  }

  ghost predicate TrackInv(t: Track) {
    |t.queue.segments| > 0 ==>
      var q := t.queue; var s := q.segments[0];
      && |t.origin| == |t.lost| == |q.axes| == |s.steps|
      && forall i | 0 <= i < |q.axes| ::
           if q.mode == Running then Placed(q.axes[i], s.steps[i], t.origin[i], t.lost[i])
           else q.axes[i].position == t.origin[i] + Signed(s.steps[i] >= 0, t.lost[i])
  }

  lemma StepAxisPlaced(a: Axis, steps: i32, duration: u64, delta: u64, lowWorks: bool, highWorks: bool,
                       origin: int, lost: nat)
    requires Placed(a, steps, origin, lost)
    ensures var s := StepAxis(a, AbsoluteSteps(steps), duration, delta, lowWorks, highWorks);
            s.fault == NoFault ==> Placed(s.axis, steps, origin, lost)
  {
  }

  /** Every axis after the DDA loop of a tick that did not fail. */
  lemma PassPlaces(c: Config, t: Track, io: Io, now: u64)
    requires RingInv(c, t.queue) && TrackInv(t) && Serves(t.queue, io, now)
    requires PassAt(t.queue, io, now).fault == NoFault
    ensures var after := PassAt(t.queue, io, now).queue; var s := t.queue.segments[0];
            && |after.axes| == |t.queue.axes| == |t.origin| == |t.lost| == |s.steps|
            && forall i | 0 <= i < |after.axes| :: Placed(after.axes[i], s.steps[i], t.origin[i], t.lost[i])
  {
    var q := t.queue;
    var s := q.segments[0];
    var r := AtDda(q, io, now);
    BeginSegmentPointwise(q, io, s);
    var served := r.(lastTick := TickTime(s, now));
    var delta := DeltaAt(q, io, now);
    RunAxesPointwise(served, io, s, delta, 0);
    var after := PassAt(q, io, now).queue;
    forall i | 0 <= i < |after.axes|
      ensures Placed(after.axes[i], s.steps[i], t.origin[i], t.lost[i])
    {
      assert Placed(r.axes[i], s.steps[i], t.origin[i], t.lost[i]);
      assert Stepped(served, io, s, delta, i, after.axes[i]);
      StepAxisPlaced(r.axes[i], s.steps[i], s.duration, delta, io.stepWorks(i, false),
                     io.stepWorks(i, true), t.origin[i], t.lost[i]);
    }
  }

  /** A tick that completes its front segment. */
  predicate Completes(c: Config, q: Queue, io: Io, now: u64)
    requires Shaped(q)
  {
    && Serves(q, io, now)
    && PassAt(q, io, now).fault == NoFault
    && Elapsed(q.segments[0], now) >= q.segments[0].duration
    && AllEmitted(PassAt(q, io, now).queue.axes, q.segments[0])
  }

  /** Outside a completing tick, a front segment that stays in the queue is the same segment, and its
      axes moved only if the tick served it. */
  lemma TickFront(c: Config, q: Queue, io: Io, now: u64)
    requires RingInv(c, q)
    ensures var after := Tick(c, q, io, now).queue;
            && |after.axes| == |q.axes|
            && (after.mode == Armed && SameFront(q, after) ==> after == q)
            && (SameFront(q, after) ==> after.segments[0] == q.segments[0])
            && (SameFront(q, after) ==> after.mode == Armed || after.mode == Running)
  {
    ServingTick(c, q, io, now);
    if Serves(q, io, now) {
      ServedFront(c, q, io, now);
    } else if |q.segments| > 0 {
      BeginSegmentPointwise(q, io, q.segments[0]);
    }
  }

  lemma ServedFront(c: Config, q: Queue, io: Io, now: u64)
    requires RingInv(c, q) && Serves(q, io, now)
    ensures var after := Tick(c, q, io, now).queue;
            && |after.axes| == |q.axes|
            && (SameFront(q, after) ==> after.mode == Running && after.segments == q.segments)
  {
    ServingTick(c, q, io, now);
    BeginSegmentPointwise(q, io, q.segments[0]);
    var pass := PassAt(q, io, now);
    assert pass.queue.segments == q.segments;
    assert |q.segments| > 1 ==> Follows(q.segments[0], q.segments[1]);
  }

  lemma TickKeepsTrack(c: Config, t: Track, io: Io, now: u64)
    requires RingInv(c, t.queue) && TrackInv(t)
    ensures TrackInv(TrackStep(c, t, TickEvent(io, now)))
  {
    var q := t.queue;
    var after := Tick(c, q, io, now).queue;
    TickFront(c, q, io, now);
    TickKeepsRing(c, q, io, now);
    if SameFront(q, after) && after.mode == Running {
      ServingTick(c, q, io, now);
      ServedRunning(c, q, io, now);
      PassPlaces(c, t, io, now);
    }
  }

  lemma EnqueueKeepsTrack(c: Config, t: Track, request: Segment, now: u64)
    requires RingInv(c, t.queue) && TrackInv(t)
    ensures TrackInv(TrackStep(c, t, EnqueueEvent(request, now)))
  {
    var after := Enqueue(c, t.queue, request, now).queue;
    EnqueueKeepsRing(c, t.queue, request, now);
    assert after.axes == t.queue.axes;
    if |t.queue.segments| > 0 {
      assert after.segments[0] == t.queue.segments[0];
      assert after.mode == Armed || after == t.queue || after == t.queue.(rejected := after.rejected);
    }
  }

  lemma StepKeepsTrack(c: Config, t: Track, e: Event)
    requires RingInv(c, t.queue) && TrackInv(t)
    ensures TrackInv(TrackStep(c, t, e))
  {
    match e
    case TickEvent(io, now) => TickKeepsTrack(c, t, io, now);
    case EnqueueEvent(request, now) => EnqueueKeepsTrack(c, t, request, now);
    case AbortEvent(fault) =>
    case ClearFaultEvent(now) =>
    case CompleteEvent =>
      CompleteKeepsRing(c, t.queue);
      assert |t.queue.segments| > 1 ==> Follows(t.queue.segments[0], t.queue.segments[1]);
  }

  /** A completed segment moves axis i by its signed steps plus, in the same direction, whatever it had
      emitted before it was armed again. */
  lemma CompletedDisplacement(c: Config, t: Track, io: Io, now: u64, i: nat)
    requires RingInv(c, t.queue) && TrackInv(t) && Completes(c, t.queue, io, now)
    requires i < |t.queue.axes|
    ensures |t.origin| == |t.lost| == |t.queue.axes| == |t.queue.segments[0].steps|
    ensures var after := Tick(c, t.queue, io, now).queue; var steps := t.queue.segments[0].steps[i];
            && |after.axes| == |t.queue.axes|
            && after.completed == Wrap64(t.queue.completed + 1)
            && after.axes[i].position == t.origin[i] + steps + Signed(steps >= 0, t.lost[i])
            && (after.axes[i].position == t.origin[i] + steps <==> t.lost[i] == 0)
  {
    PassPlaces(c, t, io, now);
    CompletingTick(c, t.queue, io, now);
    var pass := PassAt(t.queue, io, now);
    assert AxisDone(pass.queue.axes[i], t.queue.segments[0].steps[i]);
  }

  /** A completing tick keeps the positions that its DDA loop reached. */
  lemma CompletingTick(c: Config, q: Queue, io: Io, now: u64)
    requires RingInv(c, q) && Completes(c, q, io, now)
    ensures var after := Tick(c, q, io, now).queue; var pass := PassAt(q, io, now).queue;
            && after.completed == Wrap64(q.completed + 1)
            && |after.axes| == |pass.axes| == |q.axes|
            && forall i | 0 <= i < |after.axes| :: after.axes[i].position == pass.axes[i].position
  {
    ServingTick(c, q, io, now);
    AtDdaKeepsQueue(q, io, now);
    FinishCompletes(c, PassAt(q, io, now).queue, q.segments[0], now);
  }

  lemma AtDdaKeepsQueue(q: Queue, io: Io, now: u64)
    requires Shaped(q) && Serves(q, io, now)
    ensures var pass := PassAt(q, io, now).queue;
            && |pass.axes| == |q.axes| && pass.fault == NoFault
            && pass == q.(axes := pass.axes, edges := pass.edges, lastTick := pass.lastTick, mode := pass.mode)
  {
    BeginSegmentPointwise(q, io, q.segments[0]);
  }

  lemma FinishCompletes(c: Config, q: Queue, segment: Segment, now: u64)
    requires |q.axes| == |segment.steps| && |q.segments| > 0 && q.fault == NoFault
    requires Elapsed(segment, now) >= segment.duration && AllEmitted(q.axes, segment)
    ensures var after := Finish(c, q, segment, now);
            && after.completed == Wrap64(q.completed + 1)
            && |after.axes| == |q.axes|
            && forall i | 0 <= i < |after.axes| :: after.axes[i].position == q.axes[i].position
  {
    StopOutputsPointwise(CompleteFront(q), 0);
  }

  /** An enqueue accepted while the front segment runs, after axis i has made steps of it. */
  predicate Rearms(c: Config, q: Queue, e: Event, i: nat)
    requires i < |q.axes|
  {
    && e.EnqueueEvent? && Enqueue(c, q, e.request, e.now).code == Accepted
    && q.mode == Running && q.axes[i].emitted > 0
  }

  /** One step loses steps of the front segment exactly when it arms it again. */
  lemma LossIsRearming(c: Config, t: Track, e: Event, i: nat)
    requires RingInv(c, t.queue) && TrackInv(t) && SameFront(t.queue, Step(c, t.queue, e))
    requires i < |t.queue.axes|
    ensures |t.lost| == |TrackStep(c, t, e).lost| == |t.queue.axes| == |Step(c, t.queue, e).axes|
    ensures TrackStep(c, t, e).origin == t.origin
    ensures TrackStep(c, t, e).lost[i] ==
            t.lost[i] + (if Rearms(c, t.queue, e, i) then t.queue.axes[i].emitted else 0)
  {
    match e
    case TickEvent(io, now) => TickFront(c, t.queue, io, now);
    case EnqueueEvent(request, now) =>
    case AbortEvent(fault) =>
    case ClearFaultEvent(now) =>
    case CompleteEvent => CompleteDropsFront(c, t.queue);
  }

  lemma CompleteDropsFront(c: Config, q: Queue)
    requires RingInv(c, q)
    ensures !SameFront(q, CompleteFront(q))
  {
    assert |q.segments| > 1 ==> Follows(q.segments[0], q.segments[1]);
  }

  /** The front segment of state k came to the front in state `from` and has been there since. */
  ghost predicate FrontSince(states: seq<Queue>, from: nat, k: nat) {
    && 0 < from <= k < |states|
    && !SameFront(states[from - 1], states[from])
    && forall m, n | from <= m < k && n == m + 1 :: SameFront(states[m], states[n])
  }

  lemma {:induction false} FrontCameOnce(states: seq<Queue>, k: nat) returns (from: nat)
    requires k < |states| && states[0].segments == [] && |states[k].segments| > 0
    ensures FrontSince(states, from, k)
  {
    if SameFront(states[k - 1], states[k]) {
      from := FrontCameOnce(states, k - 1);
    } else {
      from := k;
    }
  }

  /** No event from the segment's coming to the front up to state k armed it again after a step of axis i. */
  ghost predicate NeverRearmed(c: Config, states: seq<Queue>, events: seq<Event>, from: nat, k: nat, i: nat)
    requires k <= |events| <= |states|
  {
    forall m | from <= m < k && i < |states[m].axes| :: !Rearms(c, states[m], events[m], i)
  }

  lemma OneMoreEvent(c: Config, states: seq<Queue>, events: seq<Event>, from: nat, k: nat, i: nat)
    requires from < k <= |events| <= |states| && i < |states[k - 1].axes|
    ensures NeverRearmed(c, states, events, from, k, i) <==>
              NeverRearmed(c, states, events, from, k - 1, i) && !Rearms(c, states[k - 1], events[k - 1], i)
  {
    if NeverRearmed(c, states, events, from, k - 1, i) && !Rearms(c, states[k - 1], events[k - 1], i) {
      forall m | from <= m < k && i < |states[m].axes|
        ensures !Rearms(c, states[m], events[m], i)
      {
        assert m == k - 1 || m < k - 1;
      }
    }
  }

  /** The history values fit the run: the origin is where the segment came to the front, and nothing is
      lost exactly when nothing was armed again. */
  ghost predicate Recalls(c: Config, states: seq<Queue>, events: seq<Event>, from: nat, k: nat, i: nat, t: Track)
    requires k <= |events| <= |states| && from < |states|
  {
    && i < |t.lost| && i < |t.origin| && i < |states[from].axes|
    && t.origin[i] == states[from].axes[i].position
    && (t.lost[i] == 0 <==> NeverRearmed(c, states, events, from, k, i))
  }

  lemma RecallsFirst(c: Config, states: seq<Queue>, events: seq<Event>, k: nat, i: nat, last: Track)
    requires 0 < k <= |events| && |states| == |events| + 1 && Shaped(states[k - 1])
    requires states[k] == Step(c, states[k - 1], events[k - 1]) && last.queue == states[k - 1]
    requires !SameFront(states[k - 1], states[k]) && i < |states[k].axes|
    ensures Recalls(c, states, events, k, k, i, TrackStep(c, last, events[k - 1]))
  {
  }

  lemma RecallsNext(c: Config, states: seq<Queue>, events: seq<Event>, from: nat, k: nat, i: nat, last: Track)
    requires from < k <= |events| && |states| == |events| + 1
    requires last.queue == states[k - 1] && RingInv(c, last.queue) && TrackInv(last)
    requires states[k] == Step(c, states[k - 1], events[k - 1]) && SameFront(states[k - 1], states[k])
    requires i < |states[k - 1].axes| && Recalls(c, states, events, from, k - 1, i, last)
    ensures Recalls(c, states, events, from, k, i, TrackStep(c, last, events[k - 1]))
  {
    LossIsRearming(c, last, events[k - 1], i);
    OneMoreEvent(c, states, events, from, k, i);
  }

  lemma FrontSinceBefore(states: seq<Queue>, from: nat, k: nat)
    requires FrontSince(states, from, k)
    ensures k == from ==> !SameFront(states[k - 1], states[k])
    ensures k > from ==> FrontSince(states, from, k - 1) && SameFront(states[k - 1], states[k])
  {
  }

  lemma NextTrack(c: Config, t: Track, e: Event, after: Queue) returns (next: Track)
    requires RingInv(c, t.queue) && TrackInv(t) && after == Step(c, t.queue, e)
    ensures next == TrackStep(c, t, e) && next.queue == after
    ensures RingInv(c, next.queue) && TrackInv(next) && |next.queue.axes| == |t.queue.axes|
  {
    next := TrackStep(c, t, e);
    StepKeepsRing(c, t.queue, e);
    StepKeepsTrack(c, t, e);
    StepKeepsAxes(c, t.queue, e);
  }

  /** A track of the state k of a run that recalls the stretch since `from`, if k is in it. */
  ghost predicate TrackAt(c: Config, states: seq<Queue>, events: seq<Event>, from: nat, k: nat, i: nat, t: Track)
    requires k <= |events| && |states| == |events| + 1
  {
    && RingInv(c, t.queue) && TrackInv(t) && t.queue == states[k] && i < |t.queue.axes|
    && (from <= k ==> Recalls(c, states, events, from, k, i, t))
  }

  lemma TrackOn(c: Config, states: seq<Queue>, events: seq<Event>, from: nat, k: nat, i: nat, last: Track)
    returns (t: Track)
    requires 0 < k <= |events| && |states| == |events| + 1 && Shaped(states[k - 1])
    requires states[k] == Step(c, states[k - 1], events[k - 1])
    requires k >= from ==> FrontSince(states, from, k)
    requires TrackAt(c, states, events, from, k - 1, i, last)
    ensures TrackAt(c, states, events, from, k, i, t)
  {
    t := NextTrack(c, last, events[k - 1], states[k]);
    if k >= from {
      FrontSinceBefore(states, from, k);
    }
    if k == from {
      RecallsFirst(c, states, events, k, i, last);
    } else if k > from {
      RecallsNext(c, states, events, from, k, i, last);
    }
  }

  lemma InitialTrack(c: Config, axisCount: u8) returns (t: Track)
    ensures RingInv(c, t.queue) && TrackInv(t) && t.queue == Initial(axisCount) && |t.queue.axes| == axisCount
  {
    InitialRing(c, axisCount);
    t := Track(Initial(axisCount), [], []);
  }

  lemma {:induction false} RunTrack(c: Config, axisCount: u8, states: seq<Queue>, events: seq<Event>,
                                    from: nat, k: nat, i: nat)
    returns (t: Track)
    requires IsRun(c, axisCount, states, events) && k <= |events| && i < axisCount
    requires k >= from ==> FrontSince(states, from, k)
    ensures TrackAt(c, states, events, from, k, i, t)
    decreases k
  {
    if k == 0 {
      t := InitialTrack(c, axisCount);
    } else {
      if k > from {
        FrontSinceBefore(states, from, k);
      }
      var last := RunTrack(c, axisCount, states, events, from, k - 1, i);
      assert Shaped(states[k - 1]) && states[k] == Step(c, states[k - 1], events[k - 1]);
      t := TrackOn(c, states, events, from, k, i, last);
    }
  }

  /** A step that completes the front segment. */
  predicate CompletesFront(c: Config, q: Queue, e: Event)
    requires Shaped(q)
  {
    e.TickEvent? && Completes(c, q, e.io, e.now)
  }

  lemma CompletingStep(c: Config, t: Track, e: Event, i: nat)
    requires RingInv(c, t.queue) && TrackInv(t) && CompletesFront(c, t.queue, e) && i < |t.queue.axes|
    ensures |t.origin| == |t.lost| == |t.queue.axes| == |t.queue.segments[0].steps| == |Step(c, t.queue, e).axes|
    ensures Step(c, t.queue, e).axes[i].position == t.origin[i] + t.queue.segments[0].steps[i] <==> t.lost[i] == 0
  {
    CompletedDisplacement(c, t, e.io, e.now, i);
  }

  /** In every run, a segment that a tick completes has moved axis i, since it came to the front, by
      exactly its signed steps if and only if no enqueue was accepted while it ran and had made steps of
      that axis. */
  lemma RunDisplacement(c: Config, axisCount: u8, states: seq<Queue>, events: seq<Event>, from: nat, k: nat, i: nat)
    requires IsRun(c, axisCount, states, events) && k < |events| && i < axisCount
    requires FrontSince(states, from, k) && CompletesFront(c, states[k], events[k])
    ensures |states[from].axes| == |states[k + 1].axes| == |states[k].segments[0].steps| == axisCount
    ensures states[k + 1].axes[i].position == states[from].axes[i].position + states[k].segments[0].steps[i]
            <==> NeverRearmed(c, states, events, from, k, i)
  {
    RunKeepsAxes(c, axisCount, states, events, from);
    RunKeepsAxes(c, axisCount, states, events, k + 1);
    var t := RunTrack(c, axisCount, states, events, from, k, i);
    CompletingStep(c, t, events[k], i);
  }
}
