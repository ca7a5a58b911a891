/** What the remote core answers to each command, on the leases, objects and catalogue there are, and what a command that
    succeeds does (mock_mcu/src/remote_core.cpp:563-1278). */
module LeaseAnswers {
  import opened FixedWidth
  import opened Results
  import opened Leases
  import opened LeaseInvariants
  import Motion = MockMotion
  import MotionAdvance = MockMotionAdvance

  // ---------------------------------------------------------------- the catalogue, declared

  ghost predicate Exists(c: Config, resourceId: u32) {
    exists r :: r in c.resources && r.id == resourceId
  }

  /** A contract for the resource that supports leases, allows shared reading, demands a lease. */
  ghost predicate Leasable(c: Config, resourceId: u32) {
    exists k :: k in c.contracts && k.resourceId == resourceId && k.leaseSupported
  }

  ghost predicate Shareable(c: Config, resourceId: u32) {
    exists k :: k in c.contracts && k.resourceId == resourceId && k.sharedRead
  }

  ghost predicate Demanding(c: Config, resourceId: u32) {
    exists k :: k in c.contracts && k.resourceId == resourceId && k.leaseRequired
  }

  lemma OneContract(c: Config, resourceId: u32)
    requires ValidCatalog(c)
    ensures forall k, l | k in c.contracts && l in c.contracts && k.resourceId == resourceId == l.resourceId :: k == l
    ensures FindContract(c.contracts, resourceId).Some? <==> exists k :: k in c.contracts && k.resourceId == resourceId
    ensures forall k | k in c.contracts && k.resourceId == resourceId :: FindContract(c.contracts, resourceId) == Some(k)
  {
    forall k, l | k in c.contracts && l in c.contracts && k.resourceId == resourceId == l.resourceId
      ensures k == l
    {
      var i :| 0 <= i < |c.contracts| && c.contracts[i] == k;
      var j :| 0 <= j < |c.contracts| && c.contracts[j] == l;
      assert i == j;
    }
  }

  lemma ContractFacts(c: Config, resourceId: u32)
    requires ValidCatalog(c)
    ensures var k := FindContract(c.contracts, resourceId);
            && (k.Some? && k.value.leaseSupported <==> Leasable(c, resourceId))
            && (k.Some? && k.value.sharedRead <==> Shareable(c, resourceId))
            && (LeaseRequired(c, resourceId) <==> Demanding(c, resourceId))
    ensures FindResource(c.resources, resourceId).Some? <==> Exists(c, resourceId)
  {
    OneContract(c, resourceId);
  }

  // ---------------------------------------------------------------- acquiring

  ghost predicate HasObject(s: State, resourceId: u32) {
    (exists id :: id in s.gpio && s.gpio[id].resourceId == resourceId) ||
    (exists id :: id in s.uart && s.uart[id].resourceId == resourceId)
  }

  ghost predicate AcquireValid(objectId: u32, session: u32, args: Option<AcquireArgs>) {
    objectId == 0 && session != 0 && args.Some? && 100 <= args.value.duration <= 60000
  }

  /** The lease can stand beside those there are. */
  ghost predicate Compatible(s: State, session: u32, args: AcquireArgs) {
    var entries := Entries(s, args.resourceId);
    && (forall l | l in entries :: l.owner != session)
    && !HasObject(s, args.resourceId)
    && (if args.mode.Exclusive? then entries == [] else forall l | l in entries :: l.mode.SharedRead?)
  }

  /** Every answer to acquire: it is granted if and only if the request is well formed, the resource exists, its contract
      supports leases and allows the mode, and the lease can stand beside those there are; each refusal has its own status,
      by the first requirement that is not met, and changes nothing. */
  lemma AcquireExactly(c: Config, s: State, objectId: u32, session: u32, args: Option<AcquireArgs>, now: int)
    requires ValidCatalog(c)
    ensures var (next, status) := Acquire(c, s, objectId, session, args, now);
            && (status != Done ==> next == s)
            && if !AcquireValid(objectId, session, args) then status == InvalidPayload
               else
                 var id := args.value.resourceId;
                 if !Exists(c, id) then status == ObjectNotFound
                 else if !Leasable(c, id) then status == UnsupportedCapability
                 else if args.value.mode.SharedRead? && !Shareable(c, id) then status == AccessDenied
                 else if !Compatible(s, session, args.value) then status == ResourceBusy
                 else status == Done
  {
    if args.Some? {
      ContractFacts(c, args.value.resourceId);
      BlockedExactly(s, session, args.value);
    }
  }

  lemma BlockedExactly(s: State, session: u32, args: AcquireArgs)
    ensures Blocked(s, session, args) <==> !Compatible(s, session, args)
  {
    var entries := Entries(s, args.resourceId);
    assert HasOwner(entries, session) <==> exists l :: l in entries && l.owner == session by {
      if HasOwner(entries, session) {
        var i :| 0 <= i < |entries| && entries[i].owner == session;
        assert entries[i] in entries;
      }
      if l :| l in entries && l.owner == session {
        var i :| 0 <= i < |entries| && entries[i] == l;
      }
    }
    assert HasExclusive(entries) <==> exists l :: l in entries && l.mode.Exclusive? by {
      if HasExclusive(entries) {
        var i :| 0 <= i < |entries| && entries[i].mode.Exclusive?;
        assert entries[i] in entries;
      }
      if l :| l in entries && l.mode.Exclusive? {
        var i :| 0 <= i < |entries| && entries[i] == l;
      }
    }
  }

  // ---------------------------------------------------------------- renewing

  /** The session's own lease of that id. */
  ghost predicate Owns(s: State, token: TokenArgs, session: u32, i: nat) {
    var entries := Entries(s, token.resourceId);
    i < |entries| && entries[i].id == token.leaseId && entries[i].owner == session
  }

  /** The session's lease of that id has its new duration from now on; nothing else has changed. */
  ghost predicate Renewed(s: State, next: State, token: TokenArgs, session: u32, now: int) {
    var id := token.resourceId;
    && next == s.(leases := next.leases)
    && (forall other | other != id :: Entries(next, other) == Entries(s, other))
    && |Entries(next, id)| == |Entries(s, id)|
    && forall i | 0 <= i < |Entries(s, id)| ::
         Entries(next, id)[i] ==
         (if Owns(s, token, session, i)
          then Entries(s, id)[i].(duration := token.duration, expiresAt := now + 1000000 * token.duration)
          else Entries(s, id)[i])
  }

  lemma FindsOwned(s: State, token: TokenArgs, session: u32)
    ensures var entries := Entries(s, token.resourceId);
            var k := FindLease(entries, token.leaseId, session);
            && (k < |entries| <==> exists i :: Owns(s, token, session, i))
            && (k < |entries| ==> Owns(s, token, session, k))
  {
    var entries := Entries(s, token.resourceId);
    var k := FindLease(entries, token.leaseId, session);
    if k < |entries| {
      assert Owns(s, token, session, k);
    }
  }

  lemma UpdateRenews(s: State, token: TokenArgs, session: u32, k: nat, now: int)
    requires Owns(s, token, session, k) && EntriesOk(Entries(s, token.resourceId))
    ensures var entries := Entries(s, token.resourceId);
            var l := Prolonged(entries[k], token.duration, now);
            Renewed(s, s.(leases := s.leases[token.resourceId := entries[k := l]]), token, session, now)
  {
  }

  /** Every answer to renew; one that succeeds prolongs the session's own lease of that id. */
  lemma RenewExactly(c: Config, s: State, objectId: u32, session: u32, args: Option<TokenArgs>, now: int)
    requires ValidCatalog(c) && TableOk(c, s.leases)
    ensures var (next, status) := Renew(c, s, objectId, session, args, now);
            && (status != Done ==> next == s)
            && if objectId != 0 || session == 0 || args.None? || args.value.leaseId == 0 ||
                  !(100 <= args.value.duration <= 60000) then status == InvalidPayload
               else if !Exists(c, args.value.resourceId) then status == ObjectNotFound
               else if !exists i :: Owns(s, args.value, session, i) then status == AccessDenied
               else status == Done && Renewed(s, next, args.value, session, now)
  {
    if args.Some? {
      ContractFacts(c, args.value.resourceId);
      var entries := Entries(s, args.value.resourceId);
      var k := FindLease(entries, args.value.leaseId, session);
      FindsOwned(s, args.value, session);
      if k < |entries| {
        UpdateRenews(s, args.value, session, k, now);
      }
    }
  }

  // ---------------------------------------------------------------- objects

  /** Access to a resource is refused: it is leased, or must be, and the session has no exclusive lease. */
  ghost predicate Denied(c: Config, s: State, resourceId: u32, session: u32) {
    (Demanding(c, resourceId) || Entries(s, resourceId) != []) && !ExclusiveOf(s, resourceId, session)
  }

  ghost predicate ExclusiveOf(s: State, resourceId: u32, session: u32) {
    exists l :: l in Entries(s, resourceId) && l.owner == session && l.mode.Exclusive?
  }

  lemma ExclusiveFacts(c: Config, s: State, resourceId: u32, session: u32)
    requires TableOk(c, s.leases)
    ensures HoldsExclusive(s, resourceId, session) <==> ExclusiveOf(s, resourceId, session)
    ensures resourceId in s.leases <==> Entries(s, resourceId) != []
  {
    if HoldsExclusive(s, resourceId, session) {
      var i :| 0 <= i < |s.leases[resourceId]| &&
        s.leases[resourceId][i].owner == session && s.leases[resourceId][i].mode.Exclusive?;
      assert s.leases[resourceId][i] in Entries(s, resourceId);
    }
    if l :| l in Entries(s, resourceId) && l.owner == session && l.mode.Exclusive? {
      var i :| 0 <= i < |s.leases[resourceId]| && s.leases[resourceId][i] == l;
    }
  }

  /** The first resource of a kind with the given pin or port. */
  ghost predicate IsFirst(resources: seq<Resource>, kind: Kind, instance: u16, r: Resource) {
    exists i :: 0 <= i < |resources| && resources[i] == r && r.kind == kind && r.instance == instance &&
      forall j | 0 <= j < i :: !(resources[j].kind == kind && resources[j].instance == instance)
  }

  lemma {:induction false} FindsFirst(resources: seq<Resource>, kind: Kind, instance: u16)
    ensures var r := FindInstance(resources, kind, instance);
            && (r.Some? ==> IsFirst(resources, kind, instance, r.value))
            && (r.None? ==> forall i | 0 <= i < |resources| ::
                              !(resources[i].kind == kind && resources[i].instance == instance))
  {
    if resources != [] {
      FindsFirst(resources[1..], kind, instance);
      var r := FindInstance(resources, kind, instance);
      if resources[0].kind == kind && resources[0].instance == instance {
        assert resources[0] == r.value;
      } else if r.Some? {
        var i :| 0 <= i < |resources[1..]| && resources[1..][i] == r.value &&
          forall j | 0 <= j < i :: !(resources[1..][j].kind == kind && resources[1..][j].instance == instance);
        assert resources[i + 1] == r.value;
        forall j | 0 <= j < i + 1
          ensures !(resources[j].kind == kind && resources[j].instance == instance)
        {
          if j > 0 {
            assert resources[j] == resources[1..][j - 1];
          }
        }
      }
    }
  }

  /** The catalogue knows resources of the kind, but none for this pin or port. */
  ghost predicate NotListed(c: Config, kind: Kind, instance: u16) {
    (exists r :: r in c.resources && r.kind == kind) &&
    forall r | r in c.resources :: !(r.kind == kind && r.instance == instance)
  }

  /** A pin or port that the session may not have. */
  ghost predicate InstanceDenied(c: Config, s: State, kind: Kind, instance: u16, session: u32) {
    exists r :: IsFirst(c.resources, kind, instance, r) && Denied(c, s, r.id, session)
  }

  lemma FirstIsOne(resources: seq<Resource>, kind: Kind, instance: u16)
    ensures forall a, b | IsFirst(resources, kind, instance, a) && IsFirst(resources, kind, instance, b) :: a == b
  {
  }

  lemma OwnerExactly(c: Config, s: State, kind: Kind, instance: u16, session: u32)
    requires ValidCatalog(c) && TableOk(c, s.leases)
    ensures var r := FindInstance(c.resources, kind, instance); var owner := OwnerFor(c, s, r, session);
            && (owner.None? <==> InstanceDenied(c, s, kind, instance, session))
            && (HasKind(c.resources, kind) && r.None? <==> NotListed(c, kind, instance))
            && (owner.Some? ==>
                  owner.value == if r.Some? && ExclusiveOf(s, r.value.id, session) then session else 0)
  {
    FindsFirst(c.resources, kind, instance);
    FirstIsOne(c.resources, kind, instance);
    var r := FindInstance(c.resources, kind, instance);
    if r.Some? {
      ContractFacts(c, r.value.id);
      ExclusiveFacts(c, s, r.value.id, session);
    }
    if HasKind(c.resources, kind) {
      var i :| 0 <= i < |c.resources| && c.resources[i].kind == kind;
      assert c.resources[i] in c.resources;
    }
  }

  /** The object of a pin or port is on the resource the catalogue lists for it, and owned by the session if that holds the
      resource's exclusive lease. */
  ghost predicate Placed(c: Config, s: State, kind: Kind, instance: u16, resourceId: u32, owner: u32, session: u32) {
    && (forall r | IsFirst(c.resources, kind, instance, r) :: resourceId == r.id)
    && ((forall r | r in c.resources :: !(r.kind == kind && r.instance == instance)) ==> resourceId == 0)
    && owner == (if ExclusiveOf(s, resourceId, session) then session else 0)
  }

  /** The new object has the next id; its pin is configured. */
  ghost predicate GpioCreated(c: Config, s: State, next: State, a: GpioArgs, session: u32) {
    var id := s.nextObjectId;
    && id in next.gpio && next.gpio == s.gpio[id := next.gpio[id]]
    && next.gpio[id].pin == a.pin && next.gpio[id].output == a.output
    && Placed(c, s, Gpio, a.pin, next.gpio[id].resourceId, next.gpio[id].owner, session)
    && next.pins == s.pins[a.pin := Pin(a.output, a.initial)]
    && next == s.(gpio := next.gpio, pins := next.pins, nextObjectId := (id + 1) % 0x1_0000_0000)
  }

  ghost predicate UartCreated(c: Config, s: State, next: State, a: UartArgs, session: u32) {
    var id := s.nextObjectId;
    && id in next.uart && next.uart == s.uart[id := next.uart[id]]
    && next.uart[id].port == a.port && next.uart[id].streaming == a.streaming
    && Placed(c, s, Uart, a.port, next.uart[id].resourceId, next.uart[id].owner, session)
    && next == s.(uart := next.uart, nextObjectId := (id + 1) % 0x1_0000_0000)
  }

  lemma PlacedExactly(c: Config, s: State, kind: Kind, instance: u16, session: u32)
    requires ValidCatalog(c) && TableOk(c, s.leases)
    ensures var r := FindInstance(c.resources, kind, instance); var owner := OwnerFor(c, s, r, session);
            owner.Some? ==> Placed(c, s, kind, instance, ResourceIdOf(r), owner.value, session)
  {
    OwnerExactly(c, s, kind, instance, session);
    FindsFirst(c.resources, kind, instance);
    FirstIsOne(c.resources, kind, instance);
    NoResourceZero(c, s, session);
  }

  /** Every answer to a GPIO create; one that succeeds configures the pin as asked and gives out the next object id, owned by
      the session if it holds the pin's exclusive lease. */
  lemma CreateGpioExactly(c: Config, s: State, objectId: u32, session: u32, args: Option<GpioArgs>)
    requires ValidCatalog(c) && TableOk(c, s.leases)
    ensures var (next, status) := CreateGpio(c, s, objectId, session, args);
            && (status != Done ==> next == s)
            && if !c.gpioBackend || !c.gpioCapability then status == UnsupportedCapability
               else if objectId != 0 || args.None? then status == InvalidPayload
               else if s.nextObjectId == 0 || |s.gpio| >= U32_MAX - 1 then status == ResourceExhausted
               else if NotListed(c, Gpio, args.value.pin) then status == ObjectNotFound
               else if InstanceDenied(c, s, Gpio, args.value.pin, session) then status == AccessDenied
               else if exists id :: id in s.gpio && s.gpio[id].pin == args.value.pin then status == ResourceBusy
               else status == Done && GpioCreated(c, s, next, args.value, session)
  {
    if args.Some? {
      OwnerExactly(c, s, Gpio, args.value.pin, session);
      PlacedExactly(c, s, Gpio, args.value.pin, session);
    }
  }

  lemma NoResourceZero(c: Config, s: State, session: u32)
    requires ValidCatalog(c) && TableOk(c, s.leases)
    ensures Entries(s, 0) == [] && !ExclusiveOf(s, 0, session)
  {
  }

  /** Every answer to a GPIO write; one that succeeds sets the level of the object's pin and nothing else. */
  lemma WriteGpioExactly(c: Config, s: State, objectId: u32, session: u32, level: Option<bool>)
    requires Inv(c, s)
    ensures var (next, status) := WriteGpio(c, s, objectId, session, level);
            && (status != Done ==> next == s)
            && if !c.gpioBackend || !c.gpioCapability then status == UnsupportedCapability
               else if objectId == 0 || level.None? then status == InvalidPayload
               else if objectId !in s.gpio then status == ObjectNotFound
               else if (s.gpio[objectId].owner != 0 && s.gpio[objectId].owner != session) ||
                       !s.gpio[objectId].output then status == AccessDenied
               else
                 var pin := s.gpio[objectId].pin;
                 && status == Done && next == s.(pins := next.pins) && next.pins.Keys == s.pins.Keys
                 && pin in s.pins && s.pins[pin].output && next.pins[pin] == Pin(true, level.value)
                 && forall p | p in s.pins && p != pin :: next.pins[p] == s.pins[p]
  {
  }

  /** Every answer to a serial port create; one that succeeds gives out the next object id likewise. */
  lemma CreateUartExactly(c: Config, s: State, objectId: u32, session: u32, args: Option<UartArgs>, backend: Status)
    requires ValidCatalog(c) && TableOk(c, s.leases)
    ensures var (next, status) := CreateUart(c, s, objectId, session, args, backend);
            && (status != Done ==> next == s)
            && if !c.uartBackend || !c.uartCapability then status == UnsupportedCapability
               else if objectId != 0 || args.None? then status == InvalidPayload
               else if s.nextObjectId == 0 then status == ResourceExhausted
               else if NotListed(c, Uart, args.value.port) then status == ObjectNotFound
               else if InstanceDenied(c, s, Uart, args.value.port, session) then status == AccessDenied
               else if exists id :: id in s.uart && s.uart[id].port == args.value.port then status == ResourceBusy
               else if backend != Done then status == backend
               else status == Done && UartCreated(c, s, next, args.value, session)
  {
    if args.Some? {
      OwnerExactly(c, s, Uart, args.value.port, session);
      PlacedExactly(c, s, Uart, args.value.port, session);
    }
  }

  // ---------------------------------------------------------------- releasing

  ghost predicate AxisExists(c: Config, resourceId: u32) {
    exists r :: r in c.resources && r.id == resourceId && r.kind.StepgenAxis?
  }

  lemma AxisFacts(c: Config, resourceId: u32)
    requires ValidCatalog(c)
    ensures IsAxis(c, resourceId) <==> AxisExists(c, resourceId)
  {
    if r :| r in c.resources && r.id == resourceId && r.kind.StepgenAxis? {
      var i :| 0 <= i < |c.resources| && c.resources[i] == r;
      var found := FindResource(c.resources, resourceId);
      var j :| 0 <= j < |c.resources| && c.resources[j] == found.value;
      assert i == j;
    }
  }

  /** The session's lease of that id is gone, and what the session had on the resource; an axis has no motion left. */
  ghost predicate Released(c: Config, s: State, next: State, token: TokenArgs, session: u32) {
    var id := token.resourceId;
    && (forall other | other != id :: Entries(next, other) == Entries(s, other))
    && (forall l :: l in Entries(next, id) <==> l in Entries(s, id) && !(l.id == token.leaseId && l.owner == session))
    && (forall o :: o in next.gpio <==> o in s.gpio && !(s.gpio[o].resourceId == id && s.gpio[o].owner == session))
    && (forall o :: o in next.uart <==> o in s.uart && !(s.uart[o].resourceId == id && s.uart[o].owner == session))
    && (forall o | o in next.gpio :: next.gpio[o] == s.gpio[o])
    && (forall o | o in next.uart :: next.uart[o] == s.uart[o])
    && next.nextLeaseId == s.nextLeaseId && next.nextObjectId == s.nextObjectId
    && (if c.motionBackend && AxisExists(c, id) then !Moving(next.motion) else next.motion == s.motion)
  }

  lemma EndReleases(c: Config, s: State, token: TokenArgs, session: u32, k: nat)
    requires ValidCatalog(c) && TableOk(c, s.leases) && MotionReady(c, s) && Owns(s, token, session, k)
    requires c.motionBackend ==> MotionAdvance.Inv(s.motion)
    ensures Released(c, s, EndLease(c, s, token.resourceId, k), token, session)
  {
    ErasedMembers(Entries(s, token.resourceId), k);
    AxisFacts(c, token.resourceId);
    if c.motionBackend {
      StopMotionStops(s.motion);
    }
  }

  /** Every answer to release. */
  lemma ReleaseExactly(c: Config, s: State, objectId: u32, session: u32, args: Option<TokenArgs>)
    requires ValidCatalog(c) && MotionReady(c, s)
    ensures var (next, status) := Release(c, s, objectId, session, args);
            && (status != Done ==> next == s)
            && if objectId != 0 || session == 0 || args.None? || args.value.leaseId == 0 || args.value.duration != 0 then
                 status == InvalidPayload
               else if !Exists(c, args.value.resourceId) then status == ObjectNotFound
               else if !exists i :: Owns(s, args.value, session, i) then status == AccessDenied
               else status == Done
  {
    if args.Some? {
      ContractFacts(c, args.value.resourceId);
      FindsOwned(s, args.value, session);
    }
  }

  /** One that succeeds ends the session's own lease of that id and drops what the session has on the resource. */
  lemma ReleaseReleases(c: Config, s: State, objectId: u32, session: u32, args: Option<TokenArgs>)
    requires ValidCatalog(c) && TableOk(c, s.leases) && MotionReady(c, s)
    requires c.motionBackend ==> MotionAdvance.Inv(s.motion)
    requires Release(c, s, objectId, session, args).1 == Done
    ensures args.Some? && Released(c, s, Release(c, s, objectId, session, args).0, args.value, session)
  {
    var k := FindLease(Entries(s, args.value.resourceId), args.value.leaseId, session);
    FindsOwned(s, args.value, session);
    EndReleases(c, s, args.value, session, k);
  }

  /** In a table in order, erasing a lease erases all of its owner's. */
  lemma ErasedMembers(entries: seq<Lease>, k: nat)
    requires EntriesOk(entries) && k < |entries|
    ensures forall l :: l in Erased(entries, k) <==>
              l in entries && !(l.id == entries[k].id && l.owner == entries[k].owner)
  {
    var rest := Erased(entries, k);
    forall l | l in entries && !(l.id == entries[k].id && l.owner == entries[k].owner)
      ensures l in rest
    {
      var i :| 0 <= i < |entries| && entries[i] == l;
      assert rest[if i < k then i else i - 1] == l;
    }
    forall l | l in rest
      ensures l in entries && !(l.id == entries[k].id && l.owner == entries[k].owner)
    {
      var i :| 0 <= i < |rest| && rest[i] == l;
      assert entries[if i < k then i else i + 1] == l;
    }
  }

  // ---------------------------------------------------------------- motion

  /** A serial port with a number that fits its backend. */
  ghost predicate PortExists(c: Config, resourceId: u32) {
    exists r :: r in c.resources && r.id == resourceId && r.kind.Uart? && r.instance <= 255
  }

  lemma PortFacts(c: Config, resourceId: u32)
    requires ValidCatalog(c) && FindResource(c.resources, resourceId).Some?
    ensures var r := FindResource(c.resources, resourceId).value;
            r.kind.Uart? && r.instance <= 255 <==> PortExists(c, resourceId)
  {
    if r :| r in c.resources && r.id == resourceId && r.kind.Uart? && r.instance <= 255 {
      var i :| 0 <= i < |c.resources| && c.resources[i] == r;
      var found := FindResource(c.resources, resourceId);
      var j :| 0 <= j < |c.resources| && c.resources[j] == found.value;
      assert i == j;
    }
  }

  /** What is wrong with move j of a segment before the executor sees it. */
  ghost function AxisStatus(c: Config, s: State, session: u32, move: Motion.Move): Status {
    if !AxisExists(c, move.resourceId) then ObjectNotFound
    else if Denied(c, s, move.resourceId, session) then AccessDenied
    else Done
  }

  lemma CheckAxisExactly(c: Config, s: State, session: u32, move: Motion.Move)
    requires ValidCatalog(c) && TableOk(c, s.leases)
    ensures CheckAxis(c, s, session, move.resourceId) == AxisStatus(c, s, session, move)
  {
    AxisFacts(c, move.resourceId);
    ContractFacts(c, move.resourceId);
    ExclusiveFacts(c, s, move.resourceId, session);
  }

  lemma {:induction false} CheckAxesExactly(c: Config, s: State, session: u32, moves: seq<Motion.Move>)
    requires ValidCatalog(c) && TableOk(c, s.leases)
    ensures CheckAxes(c, s, session, moves) == Done <==>
              forall j | 0 <= j < |moves| :: AxisStatus(c, s, session, moves[j]) == Done
    ensures forall j | 0 <= j < |moves| && AxisStatus(c, s, session, moves[j]) != Done &&
                       (forall k | 0 <= k < j :: AxisStatus(c, s, session, moves[k]) == Done) ::
              CheckAxes(c, s, session, moves) == AxisStatus(c, s, session, moves[j])
  {
    if moves != [] {
      var rest := moves[1..];
      CheckAxisExactly(c, s, session, moves[0]);
      CheckAxesExactly(c, s, session, rest);
      assert forall j | 0 < j < |moves| :: moves[j] == rest[j - 1];
      forall j | 0 <= j < |moves| && AxisStatus(c, s, session, moves[j]) != Done &&
                 (forall k | 0 <= k < j :: AxisStatus(c, s, session, moves[k]) == Done)
        ensures CheckAxes(c, s, session, moves) == AxisStatus(c, s, session, moves[j])
      {
        if j > 0 {
          assert AxisStatus(c, s, session, moves[0]) == Done;
          assert forall k | 0 <= k < j - 1 :: rest[k] == moves[k + 1];
        }
      }
    }
  }

  /** How the executor's answer is passed on. */
  function ExecutorStatus(r: Motion.EnqueueOutcome): Status {
    match r
    case Accepted(_, _) => Done
    case Rejected(_, QueueFull) => ResourceExhausted
    case Rejected(_, FaultLatched) => ResourceFailed
    case Rejected(_, _) => InvalidPayload
  }

  /** Every answer to a motion enqueue: the first move that names no axis, or one that the session has no right to, decides;
      else the executor does, at its own time. */
  lemma EnqueueMotionExactly(c: Config, s: State, objectId: u32, session: u32, segment: Option<Motion.Segment>)
    requires ValidCatalog(c) && TableOk(c, s.leases) && (c.motionBackend ==> Motion.Configured(s.motion.axes))
    ensures var (next, status) := EnqueueMotion(c, s, objectId, session, segment);
            if !c.motionBackend || !c.motionCapability then status == UnsupportedCapability && next == s
            else if objectId != 0 || segment.None? then status == InvalidPayload && next == s
            else
              var moves := segment.value.axes;
              if exists j :: 0 <= j < |moves| && AxisStatus(c, s, session, moves[j]) != Done then
                next == s &&
                forall j | 0 <= j < |moves| && AxisStatus(c, s, session, moves[j]) != Done &&
                           (forall k | 0 <= k < j :: AxisStatus(c, s, session, moves[k]) == Done) ::
                  status == AxisStatus(c, s, session, moves[j])
              else
                var r := Motion.Enqueue(s.motion, segment.value, s.motion.now);
                status == ExecutorStatus(r) && next == s.(motion := r.executor)
  {
    if segment.Some? {
      CheckAxesExactly(c, s, session, segment.value.axes);
    }
  }

  /** Every answer to a motion abort and to clearing a motion fault. */
  lemma StopCommandsExactly(c: Config, s: State, objectId: u32)
    requires MotionReady(c, s)
    ensures var (next, status) := AbortMotion(c, s, objectId);
            if !c.motionBackend || !c.motionCapability then status == UnsupportedCapability && next == s
            else if objectId != 0 then status == InvalidPayload && next == s
            else
              next == s.(motion := next.motion) &&
              (status == Done <==> s.motion.fault == Motion.NoFault) &&
              (status != Done ==> status == ResourceFailed && next == s) &&
              (status == Done ==> next.motion.fault == Motion.Aborted && next.motion.queue == [])
    ensures var (next, status) := ClearMotionFault(c, s, objectId);
            if !c.motionBackend || !c.motionCapability then status == UnsupportedCapability && next == s
            else if objectId != 0 then status == InvalidPayload && next == s
            else if s.motion.queue != [] then status == ResourceBusy && next == s
            else
              status == Done && next == s.(motion := next.motion) &&
              next.motion.fault == Motion.NoFault && next.motion.mode == Motion.Idle
  {
  }

  /** Every answer to a reset: refused to anyone but the exclusive holder of a leased resource; it stops an axis's motion
      and clears its fault, or hands a serial port to its backend. */
  lemma ResetExactly(c: Config, s: State, objectId: u32, session: u32, resourceId: Option<u32>, backend: Status)
    requires ValidCatalog(c) && TableOk(c, s.leases) && MotionReady(c, s)
    requires c.motionBackend ==> MotionAdvance.Inv(s.motion)
    ensures var (next, status) := ResetResource(c, s, objectId, session, resourceId, backend);
            if objectId != 0 || resourceId.None? then status == InvalidPayload && next == s
            else if !Exists(c, resourceId.value) then status == ObjectNotFound && next == s
            else if Entries(s, resourceId.value) != [] && !ExclusiveOf(s, resourceId.value, session) then
              status == AccessDenied && next == s
            else if AxisExists(c, resourceId.value) && c.motionBackend then
              status == Done && next == s.(motion := next.motion) &&
              next.motion.queue == [] && next.motion.mode == Motion.Idle && next.motion.fault == Motion.NoFault
            else
              next == s && status == if c.uartBackend && PortExists(c, resourceId.value) then backend
                                     else UnsupportedCapability
  {
    if resourceId.Some? {
      ContractFacts(c, resourceId.value);
      AxisFacts(c, resourceId.value);
      ExclusiveFacts(c, s, resourceId.value, session);
      if FindResource(c.resources, resourceId.value).Some? {
        PortFacts(c, resourceId.value);
      }
      if c.motionBackend {
        StopsAndClears(s.motion);
      }
    }
  }

  lemma StopsAndClears(e: Motion.Executor)
    requires MotionAdvance.Inv(e) && Motion.Ready(e)
    ensures Moving(e) ==> Motion.Abort(e, e.now, Motion.Aborted).Advanced?
    ensures var r := Motion.ClearFault(StopMotion(e));
            r.Advanced? && r.output.executor.queue == [] && r.output.executor.mode == Motion.Idle &&
            r.output.executor.fault == Motion.NoFault
  {
    StopMotionStops(e);
    AbortAtOwnTime(e);
  }

  /** While it moves, an executor does not refuse an abort at its own time. */
  lemma AbortAtOwnTime(e: Motion.Executor)
    requires MotionAdvance.Inv(e) && Motion.Ready(e)
    ensures Moving(e) ==> Motion.Abort(e, e.now, Motion.Aborted).Advanced?
  {
  }
}
