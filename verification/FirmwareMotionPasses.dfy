/** What the per-axis loops of the tick do, axis by axis. */
module FirmwareMotionPasses {
  import opened FixedWidth
  import opened FirmwareMotion

  lemma {:induction false} StopOutputsPointwise(q: Queue, i: nat)
    requires i <= |q.axes|
    ensures forall j | 0 <= j < i :: StopOutputs(q, i).axes[j] == q.axes[j]
    ensures forall j | i <= j < |q.axes| ::
              StopOutputs(q, i).axes[j] == q.axes[j].(stepHigh := false, enabled := false)
    decreases |q.axes| - i
  {
    if i < |q.axes| {
      var a := q.axes[i];
      StopOutputsPointwise(
        q.(axes := q.axes[i := a.(stepHigh := false, enabled := false)],
           edges := if a.stepHigh then Wrap64(q.edges + 1) else q.edges), i + 1);
    }
  }

  lemma {:induction false} SetDirectionsPointwise(q: Queue, io: Io, segment: Segment, i: nat)
    requires i <= |q.axes| == |segment.steps|
    ensures var r := SetDirections(q, io, segment, i);
            && r.queue.edges == q.edges
            && forall j | 0 <= j < |q.axes| ::
                 || r.queue.axes[j] == q.axes[j]
                 || r.queue.axes[j] == q.axes[j].(positive := segment.steps[j] >= 0)
    ensures var r := SetDirections(q, io, segment, i);
            r.fault == NoFault ==>
              && (forall j | 0 <= j < i :: r.queue.axes[j] == q.axes[j])
              && forall j | i <= j < |q.axes| ::
                   r.queue.axes[j] == q.axes[j].(positive := segment.steps[j] >= 0)
    decreases |q.axes| - i
  {
    if i < |q.axes| {
      var positive := segment.steps[i] >= 0;
      if io.directionWorks(i, positive) {
        SetDirectionsPointwise(
          q.(axes := q.axes[i := q.axes[i].(positive := positive)]), io, segment, i + 1);
      }
    }
  }

  lemma {:induction false} SetEnablesPointwise(q: Queue, io: Io, segment: Segment, i: nat)
    requires i <= |q.axes| == |segment.steps|
    ensures var r := SetEnables(q, io, segment, i);
            && r.queue.edges == q.edges
            && forall j | 0 <= j < |q.axes| ::
                 || r.queue.axes[j] == q.axes[j]
                 || r.queue.axes[j] == q.axes[j].(enabled := segment.steps[j] != 0)
    ensures var r := SetEnables(q, io, segment, i);
            r.fault == NoFault ==>
              && (forall j | 0 <= j < i :: r.queue.axes[j] == q.axes[j])
              && forall j | i <= j < |q.axes| ::
                   r.queue.axes[j] == q.axes[j].(enabled := segment.steps[j] != 0)
    decreases |q.axes| - i
  {
    if i < |q.axes| {
      var enabled := segment.steps[i] != 0;
      if q.axes[i].enabled == enabled {
        SetEnablesPointwise(q, io, segment, i + 1);
      } else if io.enableWorks(i, enabled) {
        SetEnablesPointwise(
          q.(axes := q.axes[i := q.axes[i].(enabled := enabled)]), io, segment, i + 1);
      }
    }
  }

  /** A started axis: progress cleared, direction and enable taken from the segment. */
  function StartedAxis(a: Axis, steps: i32): Axis {
    a.(emitted := 0, phase := 0, positive := steps >= 0, enabled := steps != 0)
  }

  /** Starting a segment keeps the STEP lines, the step counts and the edge count. */
  predicate SameLine(before: Axis, after: Axis) {
    after.stepHigh == before.stepHigh && after.emittedSteps == before.emittedSteps &&
    after.position == before.position
  }

  lemma BeginSegmentPointwise(q: Queue, io: Io, segment: Segment)
    requires |q.axes| == |segment.steps|
    ensures var r := BeginSegment(q, io, segment);
            && r.queue == q.(axes := r.queue.axes, lastTick := segment.start, mode := r.queue.mode)
            && r.queue.mode == (if r.fault == NoFault then Running else q.mode)
            && forall j | 0 <= j < |q.axes| :: SameLine(q.axes[j], r.queue.axes[j])
    ensures var r := BeginSegment(q, io, segment);
            r.fault == NoFault ==>
              forall j | 0 <= j < |q.axes| ::
                r.queue.axes[j] == StartedAxis(q.axes[j], segment.steps[j])
    ensures BeginSegment(q, io, segment).fault in {NoFault, Aborted}
  {
    var cleared := q.(axes := ClearProgress(q.axes), lastTick := segment.start);
    SetDirectionsPointwise(cleared, io, segment, 0);
    var directed := SetDirections(cleared, io, segment, 0);
    PassFault(cleared, io, segment, 0);
    if directed.fault == NoFault {
      SetEnablesPointwise(directed.queue, io, segment, 0);
      PassFault(directed.queue, io, segment, 0);
    }
  }

  lemma {:induction false} PassFault(q: Queue, io: Io, segment: Segment, i: nat)
    requires i <= |q.axes| == |segment.steps|
    ensures SetDirections(q, io, segment, i).fault in {NoFault, Aborted}
    ensures SetEnables(q, io, segment, i).fault in {NoFault, Aborted}
    decreases |q.axes| - i
  {
    if i < |q.axes| {
      PassFault(q, io, segment, i + 1);
      PassFault(q.(axes := q.axes[i := q.axes[i].(positive := segment.steps[i] >= 0)]), io, segment, i + 1);
      PassFault(q.(axes := q.axes[i := q.axes[i].(enabled := segment.steps[i] != 0)]), io, segment, i + 1);
    }
  }

  lemma {:induction false} RunAxesPointwise(q: Queue, io: Io, segment: Segment, delta: u64, i: nat)
    requires i <= |q.axes| == |segment.steps|
    ensures var r := RunAxes(q, io, segment, delta, i);
            && (forall j | 0 <= j < i :: r.queue.axes[j] == q.axes[j])
            && (r.fault == NoFault ==>
                  forall j | i <= j < |q.axes| :: Stepped(q, io, segment, delta, j, r.queue.axes[j]))
            && (r.fault != NoFault ==>
                  exists j :: i <= j < |q.axes| && StepAxisAt(q, io, segment, delta, j).fault == r.fault)
    decreases |q.axes| - i
  {
    if i < |q.axes| {
      var s := StepAxisAt(q, io, segment, delta, i);
      if s.fault == NoFault {
        var next := q.(axes := q.axes[i := s.axis], edges := Wrap64(q.edges + s.edges));
        RunAxesPointwise(next, io, segment, delta, i + 1);
        forall j | i < j < |q.axes|
          ensures StepAxisAt(next, io, segment, delta, j) == StepAxisAt(q, io, segment, delta, j)
        {
          assert next.axes[j] == q.axes[j];
        }
        var r := RunAxes(next, io, segment, delta, i + 1);
        assert r.queue.axes[i] == s.axis;
        assert Stepped(q, io, segment, delta, i, r.queue.axes[i]);
        if r.fault == NoFault {
          forall j | i < j < |q.axes|
            ensures Stepped(q, io, segment, delta, j, r.queue.axes[j])
          {
            assert Stepped(next, io, segment, delta, j, r.queue.axes[j]);
          }
        }
      }
    }
  }

  /** Axis j came through the pass as `after`. */
  predicate Stepped(q: Queue, io: Io, segment: Segment, delta: u64, j: nat, after: Axis)
    requires j < |q.axes| == |segment.steps|
  {
    StepAxisAt(q, io, segment, delta, j) == AxisStep(after, StepAxisAt(q, io, segment, delta, j).edges, NoFault)
  }
}
