/** What holds of the remote core in every reachable state. */
module LeaseInvariants {
  import opened FixedWidth
  import opened Results
  import opened Leases
  import Motion = MockMotion
  import MotionAdvance = MockMotionAdvance
  import MotionEdges = MockMotionEdges

  // ---------------------------------------------------------------- the invariant

  /** A resource has one exclusive lease or only shared ones, at most one per session. */
  ghost predicate EntriesOk(entries: seq<Lease>) {
    && entries != []
    && (forall i | 0 <= i < |entries| ::
         entries[i].owner != 0 && entries[i].id != 0 && DurationOk(entries[i].duration))
    && (forall i, j | 0 <= i < j < |entries| :: entries[i].owner != entries[j].owner)
    && (forall i | 0 <= i < |entries| && entries[i].mode.Exclusive? :: |entries| == 1)
  }

  ghost predicate TableOk(c: Config, leases: map<u32, seq<Lease>>) {
    forall id | id in leases :: EntriesOk(leases[id]) && FindResource(c.resources, id).Some?
  }

  /** An object with an owner, or on a leased resource, belongs to the holder of the exclusive lease. */
  ghost predicate Belongs(s: State, resourceId: u32, owner: u32) {
    (owner != 0 ==> HoldsExclusive(s, resourceId, owner)) &&
    (resourceId in s.leases ==> HoldsExclusive(s, resourceId, owner))
  }

  ghost predicate GpioOk(s: State) {
    forall id | id in s.gpio :: Belongs(s, s.gpio[id].resourceId, s.gpio[id].owner)
  }

  ghost predicate UartOk(s: State) {
    forall id | id in s.uart :: Belongs(s, s.uart[id].resourceId, s.uart[id].owner)
  }

  /** Object ids are given out once; no two objects share a pin or a port. */
  ghost predicate IdsOk(s: State) {
    && (forall id | id in s.gpio :: id != 0 && (s.nextObjectId != 0 ==> id < s.nextObjectId))
    && (forall id | id in s.uart :: id != 0 && (s.nextObjectId != 0 ==> id < s.nextObjectId))
    && (forall a, b | a in s.gpio && b in s.gpio && a != b :: s.gpio[a].pin != s.gpio[b].pin)
    && (forall a, b | a in s.uart && b in s.uart && a != b :: s.uart[a].port != s.uart[b].port)
  }

  /** Output objects drive output pins. */
  ghost predicate PinsOk(s: State) {
    forall id | id in s.gpio && s.gpio[id].output :: s.gpio[id].pin in s.pins && s.pins[s.gpio[id].pin].output
  }

  ghost predicate HoldsAllAxes(s: State, session: u32) {
    forall i | 0 <= i < |s.motion.axes| :: HoldsExclusive(s, s.motion.axes[i].config.resourceId, session)
  }

  /** Motion is under way only while one session holds every axis. */
  ghost predicate MotionGuarded(s: State) {
    Moving(s.motion) ==> exists session: u32 :: HoldsAllAxes(s, session)
  }

  ghost predicate MotionOk(c: Config, s: State) {
    c.motionBackend ==> MotionAdvance.Inv(s.motion) && MotionGuarded(s)
  }

  /** Every axis of the executor is a stepper resource whose contract demands a lease, and no two share one. */
  ghost predicate AxesLeased(c: Config, axes: seq<Motion.Axis>) {
    && (forall i | 0 <= i < |axes| ::
         IsAxis(c, axes[i].config.resourceId) && LeaseRequired(c, axes[i].config.resourceId))
    && (forall i, j | 0 <= i < j < |axes| :: axes[i].config.resourceId != axes[j].config.resourceId)
  }

  ghost predicate Inv(c: Config, s: State) {
    TableOk(c, s.leases) && GpioOk(s) && UartOk(s) && IdsOk(s) && PinsOk(s) && MotionOk(c, s) &&
    (c.motionBackend ==> AxesLeased(c, s.motion.axes)) && s.nextLeaseId != 0
  }

  lemma InvMotionReady(c: Config, s: State)
    requires MotionOk(c, s)
    ensures MotionReady(c, s)
  {
    if c.motionBackend {
      MotionAdvance.InvReady(s.motion);
    }
  }

  // ---------------------------------------------------------------- holders

  lemma ExclusiveIsAlone(c: Config, s: State, resourceId: u32, a: u32, b: u32)
    requires TableOk(c, s.leases) && HoldsExclusive(s, resourceId, a) && HoldsExclusive(s, resourceId, b)
    ensures a == b && |s.leases[resourceId]| == 1 && s.leases[resourceId][0].owner == a
  {
  }

  /** Changing the leases of other resources does not touch a holding. */
  lemma HoldingStays(s: State, t: State, resourceId: u32, session: u32)
    requires HoldsExclusive(s, resourceId, session)
    requires resourceId in t.leases && t.leases[resourceId] == s.leases[resourceId]
    ensures HoldsExclusive(t, resourceId, session)
  {
  }

  // ---------------------------------------------------------------- motion stops

  lemma StopMotionStops(e: Motion.Executor)
    requires MotionAdvance.Inv(e) && Motion.Ready(e)
    ensures MotionAdvance.Inv(StopMotion(e)) && !Moving(StopMotion(e))
    ensures MotionEdges.SameConfigs(e.axes, StopMotion(e).axes)
    ensures Moving(e) ==> StopMotion(e).queue == [] && StopMotion(e).mode.Faulted?
  {
    if Moving(e) {
      MotionAdvance.AbortKeepsInv(e, e.now, Motion.Aborted);
    }
  }

  lemma SameConfigsLeased(c: Config, a: seq<Motion.Axis>, b: seq<Motion.Axis>)
    requires AxesLeased(c, a) && MotionEdges.SameConfigs(a, b)
    ensures AxesLeased(c, b)
  {
    forall i | 0 <= i < |b|
      ensures IsAxis(c, b[i].config.resourceId) && LeaseRequired(c, b[i].config.resourceId)
    {
      assert a[i].config == b[i].config;
    }
    forall i, j | 0 <= i < j < |b|
      ensures b[i].config.resourceId != b[j].config.resourceId
    {
      assert a[i].config == b[i].config && a[j].config == b[j].config;
    }
  }

  // ---------------------------------------------------------------- ending a lease

  ghost predicate Ending(c: Config, s: State, resourceId: u32, i: nat) {
    Inv(c, s) && resourceId in s.leases && i < |s.leases[resourceId]|
  }

  lemma ErasedOk(entries: seq<Lease>, i: nat)
    requires EntriesOk(entries) && i < |entries|
    ensures Erased(entries, i) != [] ==> EntriesOk(Erased(entries, i))
    ensures forall j | 0 <= j < |Erased(entries, i)| :: Erased(entries, i)[j].owner != entries[i].owner
    ensures forall j | 0 <= j < |Erased(entries, i)| :: Erased(entries, i)[j].mode.SharedRead?
  {
  }

  lemma EndKeepsTable(c: Config, leases: map<u32, seq<Lease>>, resourceId: u32, i: nat)
    requires TableOk(c, leases) && resourceId in leases && i < |leases[resourceId]|
    ensures TableOk(c, EraseLease(leases, resourceId, i))
  {
    ErasedOk(leases[resourceId], i);
  }

  /** Once a lease has ended the resource has no objects: the holder's are gone, and there were no others. */
  lemma EndLeavesNoObjects(c: Config, s: State, resourceId: u32, i: nat)
    requires Ending(c, s, resourceId, i) && MotionReady(c, s)
    ensures !HasObjects(EndLease(c, s, resourceId, i), resourceId)
  {
    var owner := s.leases[resourceId][i].owner;
    var next := EndLease(c, s, resourceId, i);
    forall id | id in next.gpio
      ensures next.gpio[id].resourceId != resourceId
    {
      assert Belongs(s, s.gpio[id].resourceId, s.gpio[id].owner);
    }
    forall id | id in next.uart
      ensures next.uart[id].resourceId != resourceId
    {
      assert Belongs(s, s.uart[id].resourceId, s.uart[id].owner);
    }
  }

  lemma EndKeepsBelonging(c: Config, s: State, resourceId: u32, i: nat, other: u32, owner: u32)
    requires MotionReady(c, s) && resourceId in s.leases && i < |s.leases[resourceId]|
    requires Belongs(s, other, owner) && other != resourceId
    ensures Belongs(EndLease(c, s, resourceId, i), other, owner)
  {
    var next := EndLease(c, s, resourceId, i);
    if HoldsExclusive(s, other, owner) {
      HoldingStays(s, next, other, owner);
    }
  }

  lemma EndKeepsObjects(c: Config, s: State, resourceId: u32, i: nat)
    requires Ending(c, s, resourceId, i) && MotionReady(c, s)
    ensures GpioOk(EndLease(c, s, resourceId, i)) && UartOk(EndLease(c, s, resourceId, i))
  {
    var next := EndLease(c, s, resourceId, i);
    EndLeavesNoObjects(c, s, resourceId, i);
    forall id | id in next.gpio
      ensures Belongs(next, next.gpio[id].resourceId, next.gpio[id].owner)
    {
      EndKeepsBelonging(c, s, resourceId, i, s.gpio[id].resourceId, s.gpio[id].owner);
    }
    forall id | id in next.uart
      ensures Belongs(next, next.uart[id].resourceId, next.uart[id].owner)
    {
      EndKeepsBelonging(c, s, resourceId, i, s.uart[id].resourceId, s.uart[id].owner);
    }
  }

  lemma EndKeepsPins(c: Config, s: State, resourceId: u32, i: nat)
    requires IdsOk(s) && PinsOk(s) && MotionReady(c, s) && resourceId in s.leases && i < |s.leases[resourceId]|
    ensures IdsOk(EndLease(c, s, resourceId, i)) && PinsOk(EndLease(c, s, resourceId, i))
  {
  }

  /** The output pins of the ended lease's objects are low, and no other pin changes. */
  lemma EndLowersPins(c: Config, s: State, resourceId: u32, i: nat)
    requires Ending(c, s, resourceId, i) && MotionReady(c, s) && c.gpioBackend
    ensures var owner := s.leases[resourceId][i].owner;
            var next := EndLease(c, s, resourceId, i);
            next.pins.Keys == s.pins.Keys &&
            (forall id | id in s.gpio && GpioOf(s.gpio[id], resourceId, owner) && s.gpio[id].output ::
              s.gpio[id].pin in next.pins && next.pins[s.gpio[id].pin] == Pin(true, false)) &&
            (forall p | p in s.pins && !DrivenBy(s, p, resourceId, owner) :: next.pins[p] == s.pins[p])
  {
  }

  /** Ending a lease on an axis stops motion before the lease is gone. */
  lemma EndStopsMotion(c: Config, s: State, resourceId: u32, i: nat)
    requires Ending(c, s, resourceId, i) && MotionReady(c, s) && c.motionBackend && IsAxis(c, resourceId)
    ensures !Moving(EndLease(c, s, resourceId, i).motion)
    ensures Moving(s.motion) ==> EndLease(c, s, resourceId, i).motion.mode.Faulted?
  {
    StopMotionStops(s.motion);
  }

  lemma EndKeepsMotion(c: Config, s: State, resourceId: u32, i: nat)
    requires Ending(c, s, resourceId, i) && MotionReady(c, s)
    ensures var next := EndLease(c, s, resourceId, i);
            MotionOk(c, next) && (c.motionBackend ==> AxesLeased(c, next.motion.axes))
  {
    var next := EndLease(c, s, resourceId, i);
    if c.motionBackend {
      if IsAxis(c, resourceId) {
        StopMotionStops(s.motion);
        SameConfigsLeased(c, s.motion.axes, next.motion.axes);
      } else if Moving(s.motion) {
        var session: u32 :| HoldsAllAxes(s, session);
        forall k | 0 <= k < |next.motion.axes|
          ensures HoldsExclusive(next, next.motion.axes[k].config.resourceId, session)
        {
          var axis := s.motion.axes[k].config.resourceId;
          assert IsAxis(c, axis);
          HoldingStays(s, next, axis, session);
        }
        assert HoldsAllAxes(next, session);
      }
    }
  }

  lemma EndKeepsInv(c: Config, s: State, resourceId: u32, i: nat)
    requires Ending(c, s, resourceId, i) && MotionReady(c, s)
    ensures Inv(c, EndLease(c, s, resourceId, i))
  {
    EndKeepsTable(c, s.leases, resourceId, i);
    EndKeepsObjects(c, s, resourceId, i);
    EndKeepsPins(c, s, resourceId, i);
    EndKeepsMotion(c, s, resourceId, i);
  }

  // ---------------------------------------------------------------- expiry and session release

  lemma {:induction false} EndSelectedKeepsInv(c: Config, s: State, resourceId: u32, sel: Selector, i: nat)
    requires Inv(c, s) && MotionReady(c, s)
    ensures Inv(c, EndSelected(c, s, resourceId, sel, i))
    decreases |Entries(s, resourceId)| - i
  {
    if i < |Entries(s, resourceId)| {
      if Selected(sel, s.leases[resourceId][i]) {
        EndLeaseReady(c, s, resourceId, i);
        EndKeepsInv(c, s, resourceId, i);
        EndSelectedKeepsInv(c, EndLease(c, s, resourceId, i), resourceId, sel, i);
      } else {
        EndSelectedKeepsInv(c, s, resourceId, sel, i + 1);
      }
    }
  }

  lemma {:induction false} EndAllKeepsInv(c: Config, s: State, keys: seq<u32>, sel: Selector)
    requires Inv(c, s) && MotionReady(c, s)
    ensures Inv(c, EndAll(c, s, keys, sel))
    decreases keys
  {
    if keys != [] {
      EndSelectedKeepsInv(c, s, keys[0], sel, 0);
      EndAllKeepsInv(c, EndSelected(c, s, keys[0], sel, 0), keys[1..], sel);
    }
  }
}
