/** Every command keeps the remote core's invariant, so it holds in every reachable state. */
module LeaseRuns {
  import opened FixedWidth
  import opened Results
  import opened Leases
  import opened LeaseInvariants
  import opened LeasePasses
  import Motion = MockMotion
  import MotionAdvance = MockMotionAdvance
  import MotionEdges = MockMotionEdges

  // ---------------------------------------------------------------- leases

  lemma GrantOk(s: State, session: u32, args: AcquireArgs, now: int)
    requires session != 0 && DurationOk(args.duration) && s.nextLeaseId != 0 && !Blocked(s, session, args)
    requires args.resourceId in s.leases ==> EntriesOk(s.leases[args.resourceId])
    ensures EntriesOk(Granted(s, session, args, now).leases[args.resourceId])
  {
    var entries := Entries(s, args.resourceId);
    var after := Granted(s, session, args, now).leases[args.resourceId];
    assert forall i | 0 <= i < |entries| :: after[i] == entries[i] && entries[i].owner != session;
    if entries != [] {
      assert args.mode.SharedRead? && !HasExclusive(entries);
    }
  }

  /** A grant leaves every holding and every object where it was. */
  lemma GrantKeepsBelonging(s: State, session: u32, args: AcquireArgs, now: int, resourceId: u32, owner: u32)
    requires !Blocked(s, session, args) && Belongs(s, resourceId, owner) && HasObjects(s, resourceId)
    ensures Belongs(Granted(s, session, args, now), resourceId, owner)
  {
    assert resourceId != args.resourceId;
    if HoldsExclusive(s, resourceId, owner) {
      HoldingStays(s, Granted(s, session, args, now), resourceId, owner);
    }
  }

  lemma GrantKeepsMotion(c: Config, s: State, session: u32, args: AcquireArgs, now: int)
    requires MotionOk(c, s) && !Blocked(s, session, args)
    ensures MotionOk(c, Granted(s, session, args, now))
  {
    var next := Granted(s, session, args, now);
    if c.motionBackend && Moving(s.motion) {
      var holder: u32 :| HoldsAllAxes(s, holder);
      forall i | 0 <= i < |next.motion.axes|
        ensures HoldsExclusive(next, next.motion.axes[i].config.resourceId, holder)
      {
        var axis := s.motion.axes[i].config.resourceId;
        assert HoldsExclusive(s, axis, holder);
        assert axis == args.resourceId ==> HasExclusive(Entries(s, axis));
        HoldingStays(s, next, axis, holder);
      }
      assert HoldsAllAxes(next, holder);
    }
  }

  /** A granted lease is added to those there are: the resource's only one if it is exclusive, beside shared ones
      of other sessions if it is shared.  No other resource, object or pin is touched, and no object is on the
      resource. */
  lemma GrantAdds(c: Config, s: State, objectId: u32, session: u32, args: Option<AcquireArgs>, now: int)
    requires Inv(c, s) && Acquire(c, s, objectId, session, args, now).1.Done?
    ensures var next := Acquire(c, s, objectId, session, args, now).0; var id := args.value.resourceId;
            && next == s.(leases := next.leases, nextLeaseId := next.nextLeaseId)
            && next.nextLeaseId == s.nextLeaseId % U64_MAX + 1
            && (forall other | other != id :: Entries(next, other) == Entries(s, other))
            && (exists lease: Lease ::
                  && Entries(next, id) == Entries(s, id) + [lease]
                  && lease.owner == session && lease.id == s.nextLeaseId && lease.mode == args.value.mode
                  && lease.duration == args.value.duration
                  && lease.expiresAt == now + args.value.duration * NANOSECONDS_PER_MILLISECOND)
            && (args.value.mode.Exclusive? ==> Entries(s, id) == [])
            && (forall lease | lease in Entries(s, id) :: lease.mode.SharedRead? && lease.owner != session)
            && !HasObjects(next, id)
  {
    var next := Acquire(c, s, objectId, session, args, now).0;
    var a := args.value;
    var lease := Lease(s.nextLeaseId, session, a.duration, a.mode, now + a.duration * NANOSECONDS_PER_MILLISECOND);
    var entries := Entries(s, a.resourceId);
    assert Entries(next, a.resourceId) == entries + [lease];
    forall l | l in entries
      ensures l.mode.SharedRead? && l.owner != session
    {
      var i :| 0 <= i < |entries| && entries[i] == l;
      assert !HasOwner(entries, session) && !HasExclusive(entries);
    }
  }

  lemma AcquireKeepsInv(c: Config, s: State, objectId: u32, session: u32, args: Option<AcquireArgs>, now: int)
    requires Inv(c, s)
    ensures Inv(c, Acquire(c, s, objectId, session, args, now).0)
  {
    var (next, status) := Acquire(c, s, objectId, session, args, now);
    if status.Done? {
      GrantOk(s, session, args.value, now);
      GrantKeepsMotion(c, s, session, args.value, now);
      forall id | id in next.gpio
        ensures Belongs(next, next.gpio[id].resourceId, next.gpio[id].owner)
      {
        GrantKeepsBelonging(s, session, args.value, now, s.gpio[id].resourceId, s.gpio[id].owner);
      }
      forall id | id in next.uart
        ensures Belongs(next, next.uart[id].resourceId, next.uart[id].owner)
      {
        GrantKeepsBelonging(s, session, args.value, now, s.uart[id].resourceId, s.uart[id].owner);
      }
    }
  }

  /** Renewing changes neither owner nor mode of any lease. */
  ghost predicate SameHolders(s: State, t: State) {
    && t.leases.Keys == s.leases.Keys
    && forall id | id in s.leases ::
         |t.leases[id]| == |s.leases[id]| &&
         forall i | 0 <= i < |s.leases[id]| ::
           t.leases[id][i].owner == s.leases[id][i].owner && t.leases[id][i].mode == s.leases[id][i].mode
  }

  lemma SameHoldersHold(s: State, t: State, resourceId: u32, session: u32)
    requires SameHolders(s, t)
    ensures HoldsExclusive(s, resourceId, session) <==> HoldsExclusive(t, resourceId, session)
  {
  }

  /** What depends on the holders only stays. */
  lemma SameHoldersKeepInv(c: Config, s: State, t: State)
    requires Inv(c, s) && SameHolders(s, t) && TableOk(c, t.leases) && t == s.(leases := t.leases)
    ensures Inv(c, t)
  {
    forall id | id in t.gpio
      ensures Belongs(t, t.gpio[id].resourceId, t.gpio[id].owner)
    {
      assert Belongs(s, s.gpio[id].resourceId, s.gpio[id].owner);
      SameHoldersHold(s, t, s.gpio[id].resourceId, s.gpio[id].owner);
    }
    forall id | id in t.uart
      ensures Belongs(t, t.uart[id].resourceId, t.uart[id].owner)
    {
      assert Belongs(s, s.uart[id].resourceId, s.uart[id].owner);
      SameHoldersHold(s, t, s.uart[id].resourceId, s.uart[id].owner);
    }
    if c.motionBackend && Moving(s.motion) {
      var holder: u32 :| HoldsAllAxes(s, holder);
      forall i | 0 <= i < |t.motion.axes|
        ensures HoldsExclusive(t, t.motion.axes[i].config.resourceId, holder)
      {
        SameHoldersHold(s, t, s.motion.axes[i].config.resourceId, holder);
      }
      assert HoldsAllAxes(t, holder);
    }
  }

  lemma RenewedTable(c: Config, leases: map<u32, seq<Lease>>, resourceId: u32, i: nat, lease: Lease)
    requires TableOk(c, leases) && resourceId in leases && i < |leases[resourceId]| && DurationOk(lease.duration)
    requires lease.owner == leases[resourceId][i].owner && lease.mode == leases[resourceId][i].mode
    requires lease.id == leases[resourceId][i].id
    ensures TableOk(c, leases[resourceId := leases[resourceId][i := lease]])
  {
  }

  lemma RenewedHolders(s: State, t: State, resourceId: u32, i: nat)
    requires resourceId in s.leases && i < |s.leases[resourceId]|
    requires resourceId in t.leases && i < |t.leases[resourceId]|
    requires t.leases == s.leases[resourceId := s.leases[resourceId][i := t.leases[resourceId][i]]]
    requires t.leases[resourceId][i].owner == s.leases[resourceId][i].owner
    requires t.leases[resourceId][i].mode == s.leases[resourceId][i].mode
    ensures SameHolders(s, t)
  {
  }

  lemma RenewKeepsInv(c: Config, s: State, objectId: u32, session: u32, args: Option<TokenArgs>, now: int)
    requires Inv(c, s)
    ensures Inv(c, Renew(c, s, objectId, session, args, now).0)
  {
    var (next, status) := Renew(c, s, objectId, session, args, now);
    if status.Done? {
      var id := args.value.resourceId;
      var entries := s.leases[id];
      var i := FindLease(entries, args.value.leaseId, session);
      RenewedTable(c, s.leases, id, i, next.leases[id][i]);
      RenewedHolders(s, next, id, i);
      SameHoldersKeepInv(c, s, next);
    }
  }

  lemma ReleaseKeepsInv(c: Config, s: State, objectId: u32, session: u32, args: Option<TokenArgs>)
    requires Inv(c, s) && MotionReady(c, s)
    ensures Inv(c, Release(c, s, objectId, session, args).0)
  {
    if Release(c, s, objectId, session, args).1.Done? {
      var id := args.value.resourceId;
      EndKeepsInv(c, s, id, FindLease(Entries(s, id), args.value.leaseId, session));
    }
  }

  // ---------------------------------------------------------------- objects

  lemma OwnerBelongs(c: Config, s: State, resource: Option<Resource>, session: u32)
    requires TableOk(c, s.leases) && 0 !in s.leases
    requires OwnerFor(c, s, resource, session).Some?
    ensures Belongs(s, ResourceIdOf(resource), OwnerFor(c, s, resource, session).value)
  {
  }

  lemma ZeroIsNoResource(c: Config, s: State)
    requires ValidCatalog(c) && TableOk(c, s.leases)
    ensures 0 !in s.leases
  {
    assert forall r | r in c.resources :: r.id != 0;
  }

  /** Objects and pins aside, nothing changed. */
  ghost predicate SameLeases(s: State, t: State) {
    t.leases == s.leases && t.motion == s.motion && t.nextLeaseId == s.nextLeaseId
  }

  lemma SameLeasesKeepInv(c: Config, s: State, t: State)
    requires Inv(c, s) && SameLeases(s, t) && GpioOk(t) && UartOk(t) && IdsOk(t) && PinsOk(t)
    ensures Inv(c, t)
  {
    if c.motionBackend && Moving(s.motion) {
      var holder: u32 :| HoldsAllAxes(s, holder);
      assert HoldsAllAxes(t, holder);
    }
  }

  lemma SameBelongs(s: State, t: State, resourceId: u32, owner: u32)
    requires SameLeases(s, t) && Belongs(s, resourceId, owner)
    ensures Belongs(t, resourceId, owner)
  {
  }

  lemma ObjectsBelong(s: State, t: State)
    requires SameLeases(s, t) && GpioOk(s) && UartOk(s)
    requires forall id | id in t.gpio ::
               (id in s.gpio && s.gpio[id] == t.gpio[id]) || Belongs(t, t.gpio[id].resourceId, t.gpio[id].owner)
    requires forall id | id in t.uart ::
               (id in s.uart && s.uart[id] == t.uart[id]) || Belongs(t, t.uart[id].resourceId, t.uart[id].owner)
    ensures GpioOk(t) && UartOk(t)
  {
    forall id | id in t.gpio
      ensures Belongs(t, t.gpio[id].resourceId, t.gpio[id].owner)
    {
      if id in s.gpio && s.gpio[id] == t.gpio[id] {
        SameBelongs(s, t, s.gpio[id].resourceId, s.gpio[id].owner);
      }
    }
    forall id | id in t.uart
      ensures Belongs(t, t.uart[id].resourceId, t.uart[id].owner)
    {
      if id in s.uart && s.uart[id] == t.uart[id] {
        SameBelongs(s, t, s.uart[id].resourceId, s.uart[id].owner);
      }
    }
  }

  lemma AddGpioKeepsInv(c: Config, s: State, a: GpioArgs, resourceId: u32, owner: u32)
    requires Inv(c, s) && s.nextObjectId != 0 && Belongs(s, resourceId, owner)
    requires forall id | id in s.gpio :: s.gpio[id].pin != a.pin
    ensures Inv(c, AddGpio(s, a, resourceId, owner))
  {
    var next := AddGpio(s, a, resourceId, owner);
    SameBelongs(s, next, resourceId, owner);
    ObjectsBelong(s, next);
    GpioAdded(s, next, a);
    SameLeasesKeepInv(c, s, next);
  }

  lemma CreateGpioKeepsInv(c: Config, s: State, objectId: u32, session: u32, args: Option<GpioArgs>)
    requires ValidCatalog(c) && Inv(c, s)
    ensures Inv(c, CreateGpio(c, s, objectId, session, args).0)
  {
    if CreateGpio(c, s, objectId, session, args).1.Done? {
      var resource := FindInstance(c.resources, Gpio, args.value.pin);
      ZeroIsNoResource(c, s);
      OwnerBelongs(c, s, resource, session);
      AddGpioKeepsInv(c, s, args.value, ResourceIdOf(resource), OwnerFor(c, s, resource, session).value);
    }
  }

  lemma GpioAdded(s: State, t: State, args: GpioArgs)
    requires IdsOk(s) && PinsOk(s) && s.nextObjectId != 0
    requires forall id | id in s.gpio :: s.gpio[id].pin != args.pin
    requires s.nextObjectId in t.gpio && t.gpio == s.gpio[s.nextObjectId := t.gpio[s.nextObjectId]]
    requires t.gpio[s.nextObjectId].pin == args.pin && t.gpio[s.nextObjectId].output == args.output
    requires t.pins == s.pins[args.pin := Pin(args.output, args.initial)] && t.uart == s.uart
    requires t.nextObjectId == Wrap32(s.nextObjectId + 1)
    ensures IdsOk(t) && PinsOk(t)
  {
  }

  lemma WriteGpioKeepsInv(c: Config, s: State, objectId: u32, session: u32, level: Option<bool>)
    requires Inv(c, s)
    ensures Inv(c, WriteGpio(c, s, objectId, session, level).0)
  {
    var (next, status) := WriteGpio(c, s, objectId, session, level);
    if status.Done? {
      ObjectsBelong(s, next);
      SameLeasesKeepInv(c, s, next);
    }
  }

  lemma UartAdded(s: State, t: State, port: u8)
    requires IdsOk(s) && PinsOk(s) && s.nextObjectId != 0
    requires forall id | id in s.uart :: s.uart[id].port != port
    requires s.nextObjectId in t.uart && t.uart == s.uart[s.nextObjectId := t.uart[s.nextObjectId]]
    requires t.uart[s.nextObjectId].port == port && t.gpio == s.gpio && t.pins == s.pins
    requires t.nextObjectId == Wrap32(s.nextObjectId + 1)
    ensures IdsOk(t) && PinsOk(t)
  {
  }

  lemma AddUartKeepsInv(c: Config, s: State, a: UartArgs, resourceId: u32, owner: u32)
    requires Inv(c, s) && s.nextObjectId != 0 && Belongs(s, resourceId, owner)
    requires forall id | id in s.uart :: s.uart[id].port != a.port
    ensures Inv(c, AddUart(s, a, resourceId, owner))
  {
    var next := AddUart(s, a, resourceId, owner);
    SameBelongs(s, next, resourceId, owner);
    ObjectsBelong(s, next);
    UartAdded(s, next, a.port);
    SameLeasesKeepInv(c, s, next);
  }

  lemma CreateUartKeepsInv(c: Config, s: State, objectId: u32, session: u32, args: Option<UartArgs>, backend: Status)
    requires ValidCatalog(c) && Inv(c, s)
    ensures Inv(c, CreateUart(c, s, objectId, session, args, backend).0)
  {
    if CreateUart(c, s, objectId, session, args, backend).1.Done? {
      var resource := FindInstance(c.resources, Uart, args.value.port);
      ZeroIsNoResource(c, s);
      OwnerBelongs(c, s, resource, session);
      AddUartKeepsInv(c, s, args.value, ResourceIdOf(resource), OwnerFor(c, s, resource, session).value);
    }
  }

  // ---------------------------------------------------------------- motion

  lemma {:induction false} AxesChecked(c: Config, s: State, session: u32, moves: seq<Motion.Move>)
    requires CheckAxes(c, s, session, moves).Done?
    ensures forall i | 0 <= i < |moves| :: CheckAxis(c, s, session, moves[i].resourceId).Done?
  {
    if moves != [] {
      AxesChecked(c, s, session, moves[1..]);
      forall i | 0 <= i < |moves|
        ensures CheckAxis(c, s, session, moves[i].resourceId).Done?
      {
        assert i > 0 ==> moves[i] == moves[1..][i - 1];
      }
    }
  }

  function MoveIds(moves: seq<Motion.Move>): set<u32> {
    set i | 0 <= i < |moves| :: moves[i].resourceId
  }

  function AxisIds(axes: seq<Motion.Axis>): set<u32> {
    set i | 0 <= i < |axes| :: axes[i].config.resourceId
  }

  lemma {:induction false} MoveIdsCount(moves: seq<Motion.Move>)
    requires forall i, j | 0 <= i < j < |moves| :: moves[i].resourceId != moves[j].resourceId
    ensures |MoveIds(moves)| == |moves|
  {
    if moves != [] {
      var n := |moves| - 1;
      var front := moves[..n];
      MoveIdsCount(front);
      assert moves[n].resourceId !in MoveIds(front);
      assert MoveIds(moves) == MoveIds(front) + {moves[n].resourceId} by {
        assert forall i | 0 <= i < n :: front[i] == moves[i];
      }
    }
  }

  lemma {:induction false} AxisIdsCount(axes: seq<Motion.Axis>)
    ensures |AxisIds(axes)| <= |axes|
  {
    if axes != [] {
      var n := |axes| - 1;
      var front := axes[..n];
      AxisIdsCount(front);
      assert AxisIds(axes) == AxisIds(front) + {axes[n].config.resourceId} by {
        assert forall i | 0 <= i < n :: front[i] == axes[i];
      }
    }
  }

  lemma SubsetOfSameSize(a: set<u32>, b: set<u32>)
    requires a <= b && |a| >= |b|
    ensures a == b
  {
    assert b == a + (b - a);
    assert |b| == |a| + |b - a|;
    forall x | x in b
      ensures x in a
    {
      assert x !in a ==> x in b - a;
    }
  }

  /** An accepted segment moves every axis of the executor: it has as many moves as there are axes, all different
      and all known. */
  lemma AcceptedCoversAxes(e: Motion.Executor, request: Motion.Segment, now: u64)
    requires Motion.Configured(e.axes) && Motion.Enqueue(e, request, now).Accepted?
    ensures AxisIds(e.axes) == MoveIds(request.axes)
  {
    var segment := Motion.Scheduled(e, request, now);
    assert segment.axes == request.axes;
    MotionAdvance.CheckMovesFine(e.axes, segment.duration, segment.axes, 0);
    forall i, j | 0 <= i < j < |request.axes|
      ensures request.axes[i].resourceId != request.axes[j].resourceId
    {
      assert Motion.CheckMove(e.axes, segment.duration, segment.axes, j).Fine?;
    }
    forall i | 0 <= i < |request.axes|
      ensures request.axes[i].resourceId in AxisIds(e.axes)
    {
      assert Motion.CheckMove(e.axes, segment.duration, segment.axes, i).Fine?;
      var k := Motion.IndexOf(e.axes, request.axes[i].resourceId);
      assert e.axes[k].config.resourceId == request.axes[i].resourceId;
    }
    MoveIdsCount(request.axes);
    AxisIdsCount(e.axes);
    SubsetOfSameSize(MoveIds(request.axes), AxisIds(e.axes));
  }

  lemma EnqueueKeepsAxes(e: Motion.Executor, request: Motion.Segment, now: u64)
    requires Motion.Configured(e.axes)
    ensures Motion.Enqueue(e, request, now).executor.axes == e.axes
    ensures Motion.Enqueue(e, request, now).Rejected? ==> Motion.Enqueue(e, request, now).executor.mode == e.mode
  {
  }

  /** Whoever gets motion accepted holds every axis. */
  lemma AcceptedHoldsAxes(c: Config, s: State, session: u32, segment: Motion.Segment)
    requires AxesLeased(c, s.motion.axes) && CheckAxes(c, s, session, segment.axes).Done?
    requires Motion.Configured(s.motion.axes) && Motion.Enqueue(s.motion, segment, s.motion.now).Accepted?
    ensures HoldsAllAxes(s, session)
  {
    AcceptedCoversAxes(s.motion, segment, s.motion.now);
    AxesChecked(c, s, session, segment.axes);
    forall i | 0 <= i < |s.motion.axes|
      ensures HoldsExclusive(s, s.motion.axes[i].config.resourceId, session)
    {
      var id := s.motion.axes[i].config.resourceId;
      assert id in AxisIds(s.motion.axes);
      var k :| 0 <= k < |segment.axes| && segment.axes[k].resourceId == id;
      assert CheckAxis(c, s, session, segment.axes[k].resourceId).Done?;
    }
  }

  /** Only motion changed, and it is fine. */
  lemma MotionChanged(c: Config, s: State, t: State)
    requires Inv(c, s) && t == s.(motion := t.motion)
    requires c.motionBackend ==>
               MotionAdvance.Inv(t.motion) && MotionEdges.SameConfigs(s.motion.axes, t.motion.axes) &&
               (Moving(t.motion) ==> exists session: u32 :: HoldsAllAxes(s, session))
    ensures Inv(c, t)
  {
    if c.motionBackend {
      SameConfigsLeased(c, s.motion.axes, t.motion.axes);
      if Moving(t.motion) {
        var session: u32 :| HoldsAllAxes(s, session);
        forall i | 0 <= i < |t.motion.axes|
          ensures HoldsExclusive(t, t.motion.axes[i].config.resourceId, session)
        {
          assert s.motion.axes[i].config == t.motion.axes[i].config;
        }
        assert HoldsAllAxes(t, session);
      }
    }
    forall id | id in t.gpio
      ensures Belongs(t, t.gpio[id].resourceId, t.gpio[id].owner)
    {
      assert Belongs(s, s.gpio[id].resourceId, s.gpio[id].owner);
    }
    forall id | id in t.uart
      ensures Belongs(t, t.uart[id].resourceId, t.uart[id].owner)
    {
      assert Belongs(s, s.uart[id].resourceId, s.uart[id].owner);
    }
  }

  lemma EnqueueKeepsInv(c: Config, s: State, objectId: u32, session: u32, segment: Option<Motion.Segment>)
    requires Inv(c, s)
    ensures c.motionBackend ==> Motion.Configured(s.motion.axes)
    ensures Inv(c, EnqueueMotion(c, s, objectId, session, segment).0)
  {
    if c.motionBackend && c.motionCapability && objectId == 0 && segment.Some? &&
       CheckAxes(c, s, session, segment.value.axes).Done? {
      var r := Motion.Enqueue(s.motion, segment.value, s.motion.now);
      MotionAdvance.EnqueueKeepsInv(s.motion, segment.value, s.motion.now);
      EnqueueKeepsAxes(s.motion, segment.value, s.motion.now);
      if r.Accepted? {
        AcceptedHoldsAxes(c, s, session, segment.value);
      }
      MotionChanged(c, s, s.(motion := r.executor));
    }
  }

  lemma AbortKeepsInv(c: Config, s: State, objectId: u32)
    requires Inv(c, s) && MotionReady(c, s)
    ensures Inv(c, AbortMotion(c, s, objectId).0)
  {
    if c.motionBackend && c.motionCapability && objectId == 0 {
      MotionAdvance.AbortKeepsInv(s.motion, s.motion.now, Motion.Aborted);
      MotionChanged(c, s, AbortMotion(c, s, objectId).0);
    }
  }

  lemma ClearKeeps(e: Motion.Executor)
    requires MotionAdvance.Inv(e) && Motion.ClearFault(e).Advanced?
    ensures MotionAdvance.Inv(Motion.ClearFault(e).output.executor) && !Moving(Motion.ClearFault(e).output.executor)
    ensures Motion.ClearFault(e).output.executor.axes == e.axes
  {
  }

  lemma ClearFaultKeepsInv(c: Config, s: State, objectId: u32)
    requires Inv(c, s)
    ensures Inv(c, ClearMotionFault(c, s, objectId).0)
  {
    var (next, status) := ClearMotionFault(c, s, objectId);
    if status.Done? {
      ClearKeeps(s.motion);
      MotionChanged(c, s, next);
    }
  }

  lemma ResetKeepsInv(c: Config, s: State, objectId: u32, session: u32, resourceId: Option<u32>, backend: Status)
    requires Inv(c, s) && MotionReady(c, s)
    ensures Inv(c, ResetResource(c, s, objectId, session, resourceId, backend).0)
  {
    var next := ResetResource(c, s, objectId, session, resourceId, backend).0;
    if next != s && c.motionBackend {
      var stopped := StopMotion(s.motion);
      StopMotionStops(s.motion);
      if Motion.ClearFault(stopped).Advanced? {
        ClearKeeps(stopped);
      }
      MotionChanged(c, s, next);
    }
  }

  /** The executor after an operation, whether it threw or not. */
  function Outcome(r: Motion.AdvanceOutcome): Motion.Executor {
    if r.Thrown? then r.executor else r.output.executor
  }

  /** Time passes at the executor. */
  function AdvanceMotion(c: Config, s: State, now: u64): State
    requires MotionReady(c, s)
  {
    if !c.motionBackend then s
    else
      s.(motion := Outcome(Motion.AdvanceTo(s.motion, now)))
  }

  /** Advancing never sets an idle executor moving. */
  lemma {:induction false} LoopStartsNothing(e: Motion.Executor, now: u64)
    requires Motion.Ready(e) && (e.queue == [] ==> !Moving(e))
    ensures e.queue == [] ==> !Moving(Motion.AdvanceLoop(e, now).executor)
  {
  }

  lemma AdvanceKeepsInv(c: Config, s: State, now: u64)
    requires Inv(c, s) && MotionReady(c, s)
    ensures Inv(c, AdvanceMotion(c, s, now))
  {
    if c.motionBackend {
      MotionAdvance.AdvanceKeepsInv(s.motion, now);
      LoopStartsNothing(s.motion, now);
      MotionChanged(c, s, AdvanceMotion(c, s, now));
    }
  }

  /** A limit switch fires. */
  function HitLimit(c: Config, s: State, resourceId: u32, now: u64): State
    requires MotionReady(c, s)
  {
    if !c.motionBackend then s
    else
      s.(motion := Outcome(Motion.TriggerLimit(s.motion, resourceId, now)))
  }

  lemma CountedInv(e: Motion.Executor, metrics: Motion.Metrics)
    requires MotionAdvance.Inv(e) && Motion.Ready(e)
    ensures MotionAdvance.Inv(e.(metrics := metrics)) && Motion.Ready(e.(metrics := metrics))
  {
  }

  lemma AbortKeeps(e: Motion.Executor, now: u64, fault: Motion.Fault)
    requires MotionAdvance.Inv(e) && Motion.Ready(e)
    ensures var after := Outcome(Motion.Abort(e, now, fault));
            MotionAdvance.Inv(after) && MotionEdges.SameConfigs(e.axes, after.axes) && (Moving(after) ==> Moving(e))
  {
    MotionAdvance.AbortKeepsInv(e, now, fault);
  }

  function Counted(e: Motion.Executor): Motion.Executor {
    e.(metrics := e.metrics.(limitStops := e.metrics.limitStops + 1))
  }

  lemma TriggerKnown(e: Motion.Executor, resourceId: u32, now: u64)
    requires Motion.Ready(e) && Motion.Ready(Counted(e)) && Motion.IndexOf(e.axes, resourceId) < |e.axes|
    ensures Motion.TriggerLimit(e, resourceId, now) == Motion.Abort(Counted(e), now, Motion.LimitTriggered)
  {
  }

  lemma TriggerUnknown(e: Motion.Executor, resourceId: u32, now: u64)
    requires Motion.Ready(e) && Motion.IndexOf(e.axes, resourceId) == |e.axes|
    ensures Outcome(Motion.TriggerLimit(e, resourceId, now)) ==
              e.(metrics := e.metrics.(rejected := e.metrics.rejected + 1))
  {
  }

  lemma TriggerKeeps(e: Motion.Executor, resourceId: u32, now: u64)
    requires MotionAdvance.Inv(e) && Motion.Ready(e)
    ensures var after := Outcome(Motion.TriggerLimit(e, resourceId, now));
            MotionAdvance.Inv(after) && MotionEdges.SameConfigs(e.axes, after.axes) && (Moving(after) ==> Moving(e))
  {
    if Motion.IndexOf(e.axes, resourceId) == |e.axes| {
      CountedInv(e, e.metrics.(rejected := e.metrics.rejected + 1));
      TriggerUnknown(e, resourceId, now);
    } else {
      CountedInv(e, Counted(e).metrics);
      AbortKeeps(Counted(e), now, Motion.LimitTriggered);
      TriggerKnown(e, resourceId, now);
    }
  }

  lemma LimitKeepsInv(c: Config, s: State, resourceId: u32, now: u64)
    requires Inv(c, s) && MotionReady(c, s)
    ensures Inv(c, HitLimit(c, s, resourceId, now))
  {
    if c.motionBackend {
      TriggerKeeps(s.motion, resourceId, now);
      MotionChanged(c, s, HitLimit(c, s, resourceId, now));
    }
  }

  // ---------------------------------------------------------------- whole runs

  datatype Event =
    | AcquireEvent(objectId: u32, session: u32, acquire: Option<AcquireArgs>, now: int)
    | RenewEvent(objectId: u32, session: u32, token: Option<TokenArgs>, now: int)
    | ReleaseEvent(objectId: u32, session: u32, token: Option<TokenArgs>)
    | ExpireEvent(now: int, keys: seq<u32>)
    | SessionEvent(session: u32, keys: seq<u32>)
    | GpioEvent(objectId: u32, session: u32, gpio: Option<GpioArgs>)
    | WriteEvent(objectId: u32, session: u32, level: Option<bool>)
    | UartEvent(objectId: u32, session: u32, uart: Option<UartArgs>, backend: Status)
    | EnqueueEvent(objectId: u32, session: u32, segment: Option<Motion.Segment>)
    | AbortEvent(objectId: u32)
    | ClearFaultEvent(objectId: u32)
    | ResetEvent(objectId: u32, session: u32, resource: Option<u32>, backend: Status)
    | TimeEvent(nodeTime: u64)
    | LimitEvent(axis: u32, nodeTime: u64)

  ghost predicate Possible(s: State, e: Event) {
    match e
    case ExpireEvent(_, keys) => Enumerates(keys, s.leases)
    case SessionEvent(_, keys) => Enumerates(keys, s.leases)
    case _ => true
  }

  ghost function Step(c: Config, s: State, e: Event): State
    requires MotionReady(c, s) && (c.motionBackend ==> Motion.Configured(s.motion.axes))
  {
    match e
    case AcquireEvent(objectId, session, args, now) => Acquire(c, s, objectId, session, args, now).0
    case RenewEvent(objectId, session, args, now) => Renew(c, s, objectId, session, args, now).0
    case ReleaseEvent(objectId, session, args) => Release(c, s, objectId, session, args).0
    case ExpireEvent(now, keys) => EndAll(c, s, keys, ExpiredAt(now))
    case SessionEvent(session, keys) => EndAll(c, s, keys, OfSession(session))
    case GpioEvent(objectId, session, args) => CreateGpio(c, s, objectId, session, args).0
    case WriteEvent(objectId, session, level) => WriteGpio(c, s, objectId, session, level).0
    case UartEvent(objectId, session, args, backend) => CreateUart(c, s, objectId, session, args, backend).0
    case EnqueueEvent(objectId, session, segment) => EnqueueMotion(c, s, objectId, session, segment).0
    case AbortEvent(objectId) => AbortMotion(c, s, objectId).0
    case ClearFaultEvent(objectId) => ClearMotionFault(c, s, objectId).0
    case ResetEvent(objectId, session, resource, backend) =>
      ResetResource(c, s, objectId, session, resource, backend).0
    case TimeEvent(now) => AdvanceMotion(c, s, now)
    case LimitEvent(axis, now) => HitLimit(c, s, axis, now)
  }

  predicate IsLeaseEvent(e: Event) {
    e.AcquireEvent? || e.RenewEvent? || e.ReleaseEvent? || e.ExpireEvent? || e.SessionEvent?
  }

  lemma LeaseEventKeepsInv(c: Config, s: State, e: Event)
    requires ValidCatalog(c) && Inv(c, s) && IsLeaseEvent(e)
    requires MotionReady(c, s) && (c.motionBackend ==> Motion.Configured(s.motion.axes))
    ensures Inv(c, Step(c, s, e))
  {
    match e
    case AcquireEvent(objectId, session, args, now) => AcquireKeepsInv(c, s, objectId, session, args, now);
    case RenewEvent(objectId, session, args, now) => RenewKeepsInv(c, s, objectId, session, args, now);
    case ReleaseEvent(objectId, session, args) => ReleaseKeepsInv(c, s, objectId, session, args);
    case ExpireEvent(now, keys) => EndAllKeepsInv(c, s, keys, ExpiredAt(now));
    case SessionEvent(session, keys) => EndAllKeepsInv(c, s, keys, OfSession(session));
  }

  lemma OtherEventKeepsInv(c: Config, s: State, e: Event)
    requires ValidCatalog(c) && Inv(c, s) && !IsLeaseEvent(e)
    requires MotionReady(c, s) && (c.motionBackend ==> Motion.Configured(s.motion.axes))
    ensures Inv(c, Step(c, s, e))
  {
    match e
    case GpioEvent(objectId, session, args) => CreateGpioKeepsInv(c, s, objectId, session, args);
    case WriteEvent(objectId, session, level) => WriteGpioKeepsInv(c, s, objectId, session, level);
    case UartEvent(objectId, session, args, backend) => CreateUartKeepsInv(c, s, objectId, session, args, backend);
    case EnqueueEvent(objectId, session, segment) => EnqueueKeepsInv(c, s, objectId, session, segment);
    case AbortEvent(objectId) => AbortKeepsInv(c, s, objectId);
    case ClearFaultEvent(objectId) => ClearFaultKeepsInv(c, s, objectId);
    case ResetEvent(objectId, session, resource, backend) =>
      ResetKeepsInv(c, s, objectId, session, resource, backend);
    case TimeEvent(now) => AdvanceKeepsInv(c, s, now);
    case LimitEvent(axis, now) => LimitKeepsInv(c, s, axis, now);
  }

  lemma StepKeepsInv(c: Config, s: State, e: Event)
    requires ValidCatalog(c) && Inv(c, s)
    ensures MotionReady(c, s) && (c.motionBackend ==> Motion.Configured(s.motion.axes))
    ensures Inv(c, Step(c, s, e))
  {
    InvMotionReady(c, s);
    if IsLeaseEvent(e) {
      LeaseEventKeepsInv(c, s, e);
    } else {
      OtherEventKeepsInv(c, s, e);
    }
  }

  ghost predicate IsRun(c: Config, motion: Motion.Executor, events: seq<Event>, states: seq<State>) {
    |states| == |events| + 1 && states[0] == Initial(motion) &&
    forall i | 0 <= i < |events| :: Possible(states[i], events[i]) && Steps(c, states[i], events[i], states[i + 1])
  }

  ghost predicate Steps(c: Config, s: State, e: Event, t: State) {
    MotionReady(c, s) && (c.motionBackend ==> Motion.Configured(s.motion.axes)) && t == Step(c, s, e)
  }

  /** The executor the core starts with: at rest, every axis under a contract that demands a lease. */
  ghost predicate GoodStart(c: Config, motion: Motion.Executor) {
    ValidCatalog(c) &&
    (c.motionBackend ==> MotionAdvance.Inv(motion) && !Moving(motion) && AxesLeased(c, motion.axes))
  }

  /** In every reachable state every lease, object and pin is in order, and while motion is under way one single
      session holds the exclusive lease of every axis. */
  lemma {:induction false} RunKeepsInv(c: Config, motion: Motion.Executor, events: seq<Event>, states: seq<State>, i: nat)
    requires GoodStart(c, motion) && IsRun(c, motion, events, states) && i <= |events|
    ensures Inv(c, states[i])
    ensures c.motionBackend && Moving(states[i].motion) ==>
              exists session: u32 :: HoldsAllAxes(states[i], session)
  {
    if i > 0 {
      RunKeepsInv(c, motion, events, states, i - 1);
      assert Steps(c, states[i - 1], events[i - 1], states[i]);
      StepKeepsInv(c, states[i - 1], events[i - 1]);
    }
  }
}
