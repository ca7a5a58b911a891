/** What a session can rely on: its lease lasts as long as granted, and nobody else touches its pins. */
module LeaseGuarantees {
  import opened FixedWidth
  import opened Results
  import opened Leases
  import opened LeaseInvariants
  import opened LeasePasses
  import opened LeaseRuns
  import Motion = MockMotion

  lemma OwnerAppended(entries: seq<Lease>, lease: Lease)
    requires !HasOwner(entries, lease.owner)
    ensures forall l | l in entries + [lease] && l.owner == lease.owner :: l == lease
  {
    assert forall i | 0 <= i < |entries| :: entries[i].owner != lease.owner;
  }

  /** Who holds a lease after a pass is who had one that the pass kept. */
  lemma HolderAfterPass(c: Config, s: State, keys: seq<u32>, sel: Selector, resourceId: u32, lease: Lease)
    requires Inv(c, s) && MotionReady(c, s) && Enumerates(keys, s.leases)
    requires lease in Entries(s, resourceId)
    requires forall l | l in Entries(s, resourceId) && l.owner == lease.owner :: l == lease
    ensures HasOwner(Entries(EndAll(c, s, keys, sel), resourceId), lease.owner) <==> !Selected(sel, lease)
  {
    PassIsExact(c, s, keys, sel, resourceId);
    var after := Entries(EndAll(c, s, keys, sel), resourceId);
    if HasOwner(after, lease.owner) {
      var i :| 0 <= i < |after| && after[i].owner == lease.owner;
      assert after[i] in after;
    }
    if !Selected(sel, lease) {
      assert lease in after;
    }
  }

  /** A lease acquired at `now` survives every expiry pass before its granted duration is over, and none from then
      on. */
  lemma GrantLastsItsDuration(c: Config, s: State, objectId: u32, session: u32, args: Option<AcquireArgs>, now: int,
      keys: seq<u32>, t: int)
    requires Inv(c, s) && Acquire(c, s, objectId, session, args, now).1.Done?
    requires Enumerates(keys, Acquire(c, s, objectId, session, args, now).0.leases)
    ensures MotionReady(c, Acquire(c, s, objectId, session, args, now).0)
    ensures var held := Acquire(c, s, objectId, session, args, now).0;
            HasOwner(Entries(EndAll(c, held, keys, ExpiredAt(t)), args.value.resourceId), session) <==>
              t < now + args.value.duration * NANOSECONDS_PER_MILLISECOND
  {
    var held := Acquire(c, s, objectId, session, args, now).0;
    AcquireKeepsInv(c, s, objectId, session, args, now);
    InvMotionReady(c, held);
    var a := args.value;
    var lease := Lease(s.nextLeaseId, session, a.duration, a.mode, now + a.duration * NANOSECONDS_PER_MILLISECOND);
    assert Entries(held, a.resourceId) == Entries(s, a.resourceId) + [lease];
    OwnerAppended(Entries(s, a.resourceId), lease);
    HolderAfterPass(c, held, keys, ExpiredAt(t), a.resourceId, lease);
  }

  /** A renewed lease lasts its new duration from the renewal. */
  lemma RenewalLastsItsDuration(c: Config, s: State, objectId: u32, session: u32, args: Option<TokenArgs>, now: int,
      keys: seq<u32>, t: int)
    requires Inv(c, s) && Renew(c, s, objectId, session, args, now).1.Done?
    requires Enumerates(keys, Renew(c, s, objectId, session, args, now).0.leases)
    ensures MotionReady(c, Renew(c, s, objectId, session, args, now).0)
    ensures var held := Renew(c, s, objectId, session, args, now).0;
            HasOwner(Entries(EndAll(c, held, keys, ExpiredAt(t)), args.value.resourceId), session) <==>
              t < now + args.value.duration * NANOSECONDS_PER_MILLISECOND
  {
    var held := Renew(c, s, objectId, session, args, now).0;
    RenewKeepsInv(c, s, objectId, session, args, now);
    InvMotionReady(c, held);
    var id := args.value.resourceId;
    var i := FindLease(s.leases[id], args.value.leaseId, session);
    var lease := Prolonged(s.leases[id][i], args.value.duration, now);
    OnlyOneOfOwner(held.leases[id], i);
    assert held.leases[id][i] == lease;
    HolderAfterPass(c, held, keys, ExpiredAt(t), id, lease);
  }

  lemma OnlyOneOfOwner(entries: seq<Lease>, i: nat)
    requires EntriesOk(entries) && i < |entries|
    ensures entries[i] in entries
    ensures forall l | l in entries && l.owner == entries[i].owner :: l == entries[i]
  {
    forall l | l in entries && l.owner == entries[i].owner
      ensures l == entries[i]
    {
      var j :| 0 <= j < |entries| && entries[j] == l;
    }
  }

  // ---------------------------------------------------------------- nobody else's pins

  /** The session that sends a command, if a command it is. */
  predicate SentBy(e: Event, session: u32) {
    match e
    case AcquireEvent(_, sender, _, _) => sender == session
    case RenewEvent(_, sender, _, _) => sender == session
    case ReleaseEvent(_, sender, _) => sender == session
    case GpioEvent(_, sender, _) => sender == session
    case WriteEvent(_, sender, _) => sender == session
    case UartEvent(_, sender, _, _) => sender == session
    case EnqueueEvent(_, sender, _) => sender == session
    case ResetEvent(_, sender, _, _) => sender == session
    case _ => false
  }

  lemma OthersPinsStay(c: Config, s: State, resourceId: u32, owner: u32, id: u32)
    requires IdsOk(s) && PinsOk(s) && id in s.gpio && s.gpio[id].output && s.gpio[id].owner != owner
    ensures var p := s.gpio[id].pin; p in s.pins && Lowered(c, s, resourceId, owner)[p] == s.pins[p]
  {
    assert !DrivenBy(s, s.gpio[id].pin, resourceId, owner);
  }

  /** The object and its pin are as they were. */
  ghost predicate Untouched(s: State, t: State, id: u32)
    requires id in s.gpio
  {
    var p := s.gpio[id].pin;
    id in t.gpio && t.gpio[id] == s.gpio[id] && p in t.pins && p in s.pins && t.pins[p] == s.pins[p]
  }

  ghost predicate OwnsOutput(s: State, id: u32) {
    id in s.gpio && s.gpio[id].output && s.gpio[id].owner != 0
  }

  lemma EndLeavesOthers(c: Config, s: State, resourceId: u32, i: nat, id: u32)
    requires Ending(c, s, resourceId, i) && MotionReady(c, s) && OwnsOutput(s, id)
    requires s.leases[resourceId][i].owner != s.gpio[id].owner
    ensures Untouched(s, EndLease(c, s, resourceId, i), id)
  {
    OthersPinsStay(c, s, resourceId, s.leases[resourceId][i].owner, id);
  }

  lemma ReleaseLeavesOthers(c: Config, s: State, objectId: u32, session: u32, args: Option<TokenArgs>, id: u32)
    requires Inv(c, s) && MotionReady(c, s) && OwnsOutput(s, id) && session != s.gpio[id].owner
    ensures Untouched(s, Release(c, s, objectId, session, args).0, id)
  {
    if Release(c, s, objectId, session, args).1.Done? {
      var r := args.value.resourceId;
      EndLeavesOthers(c, s, r, FindLease(Entries(s, r), args.value.leaseId, session), id);
    }
  }

  lemma CreateLeavesOthers(c: Config, s: State, objectId: u32, session: u32, args: Option<GpioArgs>, id: u32)
    requires IdsOk(s) && PinsOk(s) && OwnsOutput(s, id)
    ensures Untouched(s, CreateGpio(c, s, objectId, session, args).0, id)
  {
  }

  lemma WriteLeavesOthers(c: Config, s: State, objectId: u32, session: u32, level: Option<bool>, id: u32)
    requires IdsOk(s) && PinsOk(s) && OwnsOutput(s, id) && session != s.gpio[id].owner
    ensures Untouched(s, WriteGpio(c, s, objectId, session, level).0, id)
  {
  }

  /** Commands that deal in leases or serial ports do not reach pins. */
  lemma LeaseLeavesPins(c: Config, s: State, e: Event)
    requires MotionReady(c, s) && (c.motionBackend ==> Motion.Configured(s.motion.axes))
    requires e.AcquireEvent? || e.RenewEvent? || e.UartEvent?
    ensures Step(c, s, e).gpio == s.gpio && Step(c, s, e).pins == s.pins
  {
  }

  /** Nor does anything that deals in motion. */
  lemma MotionLeavesPins(c: Config, s: State, e: Event)
    requires MotionReady(c, s) && (c.motionBackend ==> Motion.Configured(s.motion.axes))
    requires e.EnqueueEvent? || e.AbortEvent? || e.ClearFaultEvent? || e.ResetEvent? || e.TimeEvent? || e.LimitEvent?
    ensures Step(c, s, e).gpio == s.gpio && Step(c, s, e).pins == s.pins
  {
  }

  lemma RestLeavesAll(c: Config, s: State, e: Event, id: u32)
    requires MotionReady(c, s) && (c.motionBackend ==> Motion.Configured(s.motion.axes))
    requires PinsOk(s) && OwnsOutput(s, id)
    requires !e.ReleaseEvent? && !e.GpioEvent? && !e.WriteEvent? && !e.ExpireEvent? && !e.SessionEvent?
    ensures Untouched(s, Step(c, s, e), id)
  {
    if e.AcquireEvent? || e.RenewEvent? || e.UartEvent? {
      LeaseLeavesPins(c, s, e);
    } else {
      MotionLeavesPins(c, s, e);
    }
  }

  lemma ObjectEventLeavesOthers(c: Config, s: State, e: Event, id: u32)
    requires Inv(c, s) && MotionReady(c, s) && (c.motionBackend ==> Motion.Configured(s.motion.axes))
    requires OwnsOutput(s, id) && !SentBy(e, s.gpio[id].owner)
    requires e.ReleaseEvent? || e.GpioEvent? || e.WriteEvent?
    ensures Untouched(s, Step(c, s, e), id)
  {
    match e
    case ReleaseEvent(objectId, session, args) => ReleaseLeavesOthers(c, s, objectId, session, args, id);
    case GpioEvent(objectId, session, args) => CreateLeavesOthers(c, s, objectId, session, args, id);
    case WriteEvent(objectId, session, level) => WriteLeavesOthers(c, s, objectId, session, level, id);
  }

  /** While a session owns an output object, no command of another session changes the object or its pin's level. */
  lemma OwnedPinIsProtected(c: Config, s: State, e: Event, id: u32)
    requires Inv(c, s) && OwnsOutput(s, id)
    requires !SentBy(e, s.gpio[id].owner) && !e.ExpireEvent? && !e.SessionEvent?
    ensures MotionReady(c, s) && (c.motionBackend ==> Motion.Configured(s.motion.axes))
    ensures Untouched(s, Step(c, s, e), id)
  {
    InvMotionReady(c, s);
    if e.ReleaseEvent? || e.GpioEvent? || e.WriteEvent? {
      ObjectEventLeavesOthers(c, s, e, id);
    } else {
      RestLeavesAll(c, s, e, id);
    }
  }

  // ---------------------------------------------------------------- no command on a lease that has run out

  /** RemoteCore::handle: a command is answered after the leases that have run out by then were ended. */
  function Current(c: Config, s: State, keys: seq<u32>, now: int): State
    requires MotionReady(c, s)
  {
    EndAll(c, s, keys, ExpiredAt(now))
  }

  /** The session's lease on the resource, still running at `now`. */
  ghost predicate HoldsRunning(s: State, resourceId: u32, session: u32, now: int, mode: LeaseMode) {
    exists lease :: lease in Entries(s, resourceId) && lease.owner == session && lease.mode == mode && now < lease.expiresAt
  }

  /** How a command is answered. */
  function Answer(c: Config, s: State, e: Event): Status
    requires MotionReady(c, s) && (c.motionBackend ==> Motion.Configured(s.motion.axes))
  {
    match e
    case AcquireEvent(objectId, session, args, now) => Acquire(c, s, objectId, session, args, now).1
    case RenewEvent(objectId, session, args, now) => Renew(c, s, objectId, session, args, now).1
    case ReleaseEvent(objectId, session, args) => Release(c, s, objectId, session, args).1
    case GpioEvent(objectId, session, args) => CreateGpio(c, s, objectId, session, args).1
    case WriteEvent(objectId, session, level) => WriteGpio(c, s, objectId, session, level).1
    case UartEvent(objectId, session, args, backend) => CreateUart(c, s, objectId, session, args, backend).1
    case EnqueueEvent(objectId, session, segment) => EnqueueMotion(c, s, objectId, session, segment).1
    case AbortEvent(objectId) => AbortMotion(c, s, objectId).1
    case ClearFaultEvent(objectId) => ClearMotionFault(c, s, objectId).1
    case ResetEvent(objectId, session, resource, backend) => ResetResource(c, s, objectId, session, resource, backend).1
    case _ => Done
  }

  /** The exclusive leases that a command stands on: of the pin, port or axes it names, if a contract demands
      them, of the resource of the owned object it writes to, and of the leased resource it resets. */
  predicate StandsOn(c: Config, s: State, e: Event, resourceId: u32) {
    match e
    case GpioEvent(_, _, args) =>
      args.Some? && LeaseRequired(c, resourceId) &&
      FindInstance(c.resources, Gpio, args.value.pin).Some? &&
      FindInstance(c.resources, Gpio, args.value.pin).value.id == resourceId
    case UartEvent(_, _, args, _) =>
      args.Some? && LeaseRequired(c, resourceId) &&
      FindInstance(c.resources, Uart, args.value.port).Some? &&
      FindInstance(c.resources, Uart, args.value.port).value.id == resourceId
    case WriteEvent(objectId, _, _) =>
      objectId in s.gpio && s.gpio[objectId].owner != 0 && s.gpio[objectId].resourceId == resourceId
    case EnqueueEvent(_, _, segment) =>
      segment.Some? && LeaseRequired(c, resourceId) &&
      exists i | 0 <= i < |segment.value.axes| :: segment.value.axes[i].resourceId == resourceId
    case ResetEvent(_, _, resource, _) => resource == Some(resourceId) && resourceId in s.leases
    case _ => false
  }

  lemma HoldsAfterExpiry(c: Config, s: State, keys: seq<u32>, now: int, resourceId: u32, session: u32)
    requires Inv(c, s) && MotionReady(c, s) && Enumerates(keys, s.leases)
    requires HoldsExclusive(Current(c, s, keys, now), resourceId, session)
    ensures HoldsRunning(s, resourceId, session, now, Exclusive)
  {
    PassIsExact(c, s, keys, ExpiredAt(now), resourceId);
    var entries := Entries(Current(c, s, keys, now), resourceId);
    var i :| 0 <= i < |entries| && entries[i].owner == session && entries[i].mode.Exclusive?;
    assert entries[i] in entries;
  }

  lemma SuccessNeedsHolding(c: Config, s: State, e: Event, session: u32, resourceId: u32)
    requires Inv(c, s) && MotionReady(c, s) && (c.motionBackend ==> Motion.Configured(s.motion.axes))
    requires SentBy(e, session) && Answer(c, s, e).Done? && StandsOn(c, s, e, resourceId)
    ensures HoldsExclusive(s, resourceId, session)
  {
    match e
    case EnqueueEvent(_, _, segment) =>
      AxesChecked(c, s, session, segment.value.axes);
      var i :| 0 <= i < |segment.value.axes| && segment.value.axes[i].resourceId == resourceId;
      assert CheckAxis(c, s, session, segment.value.axes[i].resourceId).Done?;
    case _ =>
  }

  /** A command that `handle` answers with success at `now` stands on leases that its sender held before it and
      that had not run out: whatever has run out is ended first. */
  lemma NoSuccessOnExpiredLease(c: Config, s: State, keys: seq<u32>, now: int, e: Event, session: u32, resourceId: u32)
    requires Inv(c, s) && MotionReady(c, s) && Enumerates(keys, s.leases)
    ensures var t := Current(c, s, keys, now);
            Inv(c, t) && MotionReady(c, t) && (c.motionBackend ==> Motion.Configured(t.motion.axes))
    ensures var t := Current(c, s, keys, now);
            SentBy(e, session) && Answer(c, t, e).Done? && StandsOn(c, t, e, resourceId) ==>
              HoldsRunning(s, resourceId, session, now, Exclusive)
  {
    var t := Current(c, s, keys, now);
    EndAllKeepsInv(c, s, keys, ExpiredAt(now));
    if SentBy(e, session) && Answer(c, t, e).Done? && StandsOn(c, t, e, resourceId) {
      SuccessNeedsHolding(c, t, e, session, resourceId);
      HoldsAfterExpiry(c, s, keys, now, resourceId, session);
    }
  }

  /** Renewing and releasing succeed if and only if the request is well formed and names a lease of the sender that
      has not run out: a lease that has cannot be brought back. */
  lemma TokenCommandsExactly(c: Config, s: State, keys: seq<u32>, now: int, session: u32, token: TokenArgs)
    requires Inv(c, s) && MotionReady(c, s) && Enumerates(keys, s.leases)
    requires session != 0 && token.leaseId != 0 && FindResource(c.resources, token.resourceId).Some?
    ensures var t := Current(c, s, keys, now);
            var running := exists lease :: lease in Entries(s, token.resourceId) && lease.id == token.leaseId &&
                                           lease.owner == session && now < lease.expiresAt;
            && (DurationOk(token.duration) ==> (Renew(c, t, 0, session, Some(token), now).1.Done? <==> running))
            && (token.duration == 0 ==> (Release(c, t, 0, session, Some(token)).1.Done? <==> running))
  {
    var t := Current(c, s, keys, now);
    PassIsExact(c, s, keys, ExpiredAt(now), token.resourceId);
    var entries := Entries(t, token.resourceId);
    var i := FindLease(entries, token.leaseId, session);
    if i < |entries| {
      assert entries[i] in entries;
    }
  }
}
