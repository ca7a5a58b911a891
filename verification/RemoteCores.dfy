/** The remote core of mock_mcu/src/remote_core.cpp as the class it is, as far as leases, objects and the motion link
    go. */
module RemoteCores {
  import opened FixedWidth
  import opened Results
  import opened Sequences
  import opened Leases
  import opened LeaseInvariants
  import opened LeasePasses
  import opened LeaseRuns
  import Motion = MockMotion

  lemma {:induction false} EndAllAppend(c: Config, s: State, keys: seq<u32>, key: u32, sel: Selector)
    requires MotionReady(c, s)
    ensures EndAll(c, s, keys + [key], sel) == EndSelected(c, EndAll(c, s, keys, sel), key, sel, 0)
    decreases keys
  {
    if keys == [] {
      assert keys + [key] == [key] && [key][1..] == [];
    } else {
      assert (keys + [key])[0] == keys[0] && (keys + [key])[1..] == keys[1..] + [key];
      EndAllAppend(c, EndSelected(c, s, keys[0], sel, 0), keys[1..], key, sel);
    }
  }

  /** The pin levels after the output objects among `ids` were written low. */
  ghost predicate LoweredBy(c: Config, s: State, pins: map<u16, Pin>, ids: set<u32>, resourceId: u32, owner: u32) {
    pins.Keys == s.pins.Keys &&
    forall p | p in s.pins ::
      pins[p] == if c.gpioBackend && s.pins[p].output && DrivenAmong(s, ids, p, resourceId, owner)
                 then Pin(true, false) else s.pins[p]
  }

  ghost predicate DrivenAmong(s: State, ids: set<u32>, pin: u16, resourceId: u32, owner: u32) {
    exists id | id in s.gpio && id in ids ::
      GpioOf(s.gpio[id], resourceId, owner) && s.gpio[id].output && s.gpio[id].pin == pin
  }

  /** What the GPIO backend makes of a write: only an output pin takes a level. */
  function Written(pins: map<u16, Pin>, pin: u16, level: bool): map<u16, Pin> {
    if pin in pins && pins[pin].output then pins[pin := Pin(true, level)] else pins
  }

  lemma DrivenByOneMore(s: State, ids: set<u32>, id: u32, pin: u16, resourceId: u32, owner: u32)
    requires id in s.gpio
    ensures DrivenAmong(s, ids + {id}, pin, resourceId, owner) <==>
              DrivenAmong(s, ids, pin, resourceId, owner) ||
              (GpioOf(s.gpio[id], resourceId, owner) && s.gpio[id].output && s.gpio[id].pin == pin)
  {
  }

  lemma LowerOneMore(c: Config, s: State, pins: map<u16, Pin>, ids: set<u32>, id: u32, resourceId: u32, owner: u32)
    requires LoweredBy(c, s, pins, ids, resourceId, owner) && id in s.gpio
    ensures var o := s.gpio[id];
            LoweredBy(c, s,
              if GpioOf(o, resourceId, owner) && c.gpioBackend && o.output then Written(pins, o.pin, false) else pins,
              ids + {id}, resourceId, owner)
  {
    forall p | p in s.pins
      ensures DrivenAmong(s, ids + {id}, p, resourceId, owner) <==>
                DrivenAmong(s, ids, p, resourceId, owner) ||
                (GpioOf(s.gpio[id], resourceId, owner) && s.gpio[id].output && s.gpio[id].pin == p)
    {
      DrivenByOneMore(s, ids, id, p, resourceId, owner);
    }
  }

  lemma LoweredByAll(c: Config, s: State, pins: map<u16, Pin>, resourceId: u32, owner: u32)
    requires LoweredBy(c, s, pins, s.gpio.Keys, resourceId, owner)
    ensures pins == Lowered(c, s, resourceId, owner)
  {
    forall p | p in s.pins
      ensures DrivenAmong(s, s.gpio.Keys, p, resourceId, owner) <==> DrivenBy(s, p, resourceId, owner)
    {
    }
  }

  /** The checks of the C++ constructor. */
  method CatalogValid(c: Config) returns (ok: bool)
    ensures ok <==> ValidCatalog(c)
  {
    ok := CheckResources(c.resources);
    if ok {
      ok := CheckContracts(c);
    }
  }

  method CheckResources(resources: seq<Resource>) returns (ok: bool)
    ensures ok <==> ResourcesOk(resources)
  {
    var i := 0;
    while i < |resources|
      invariant 0 <= i <= |resources|
      invariant forall k | 0 <= k < i :: resources[k].id != 0
      invariant forall k, n | 0 <= k < n < i :: resources[k].id != resources[n].id
    {
      if resources[i].id == 0 || exists k | 0 <= k < i :: resources[k].id == resources[i].id {
        return false;
      }
      i := i + 1;
    }
    ok := true;
  }

  method CheckContracts(c: Config) returns (ok: bool)
    ensures ok <==> ContractsOk(c, c.contracts)
  {
    var i := 0;
    while i < |c.contracts|
      invariant 0 <= i <= |c.contracts|
      invariant forall k | 0 <= k < i :: ContractOk(c, c.contracts[k])
      invariant forall k, n | 0 <= k < n < i :: c.contracts[k].resourceId != c.contracts[n].resourceId
    {
      if !ContractOk(c, c.contracts[i]) ||
         exists k | 0 <= k < i :: c.contracts[k].resourceId == c.contracts[i].resourceId {
        return false;
      }
      i := i + 1;
    }
    ok := true;
  }

  class RemoteCore {
    const config: Config
    var leases: map<u32, seq<Lease>>
    var gpioObjects: map<u32, GpioObject>
    var uartObjects: map<u32, UartObject>
    var nextObjectId: u32
    var nextLeaseId: u64
    var pins: map<u16, Pin>
    var motion: Motion.Executor

    function View(): State
      reads this
    {
      State(leases, gpioObjects, uartObjects, nextObjectId, nextLeaseId, pins, motion)
    }

    ghost predicate Valid()
      reads this
    {
      ValidCatalog(config) && Inv(config, View())
    }

    constructor (config: Config, motion: Motion.Executor)
      requires GoodStart(config, motion)
      ensures Valid() && View() == Initial(motion) && this.config == config
    {
      this.config := config;
      this.motion := motion;
      leases, gpioObjects, uartObjects, pins := map[], map[], map[], map[];
      nextObjectId, nextLeaseId := 1, 1;
    }

    // -------------------------------------------------------------- releasing objects

    method WritePin(pin: u16, level: bool)
      modifies this`pins
      ensures pins == Written(old(pins), pin, level)
    {
      if pin in pins && pins[pin].output {
        pins := pins[pin := Pin(true, level)];
      }
    }

    method ReleaseGpio(resourceId: u32, owner: u32)
      modifies this`gpioObjects, this`pins
      ensures gpioObjects == WithoutGpio(old(gpioObjects), resourceId, owner)
      ensures pins == Lowered(config, old(View()), resourceId, owner)
    {
      ghost var before := View();
      ghost var done: set<u32> := {};
      var rest := gpioObjects.Keys;
      while rest != {}
        invariant done + rest == before.gpio.Keys
        invariant forall id | id in gpioObjects :: id in before.gpio && gpioObjects[id] == before.gpio[id]
        invariant forall id | id in before.gpio ::
          id in gpioObjects <==> id in rest || !GpioOf(before.gpio[id], resourceId, owner)
        invariant LoweredBy(config, before, pins, done, resourceId, owner)
        decreases |rest|
      {
        var id :| id in rest;
        var o := gpioObjects[id];
        LowerOneMore(config, before, pins, done, id, resourceId, owner);
        if GpioOf(o, resourceId, owner) {
          if config.gpioBackend && o.output {
            WritePin(o.pin, false);
          }
          gpioObjects := gpioObjects - {id};
        }
        rest := rest - {id};
        done := done + {id};
      }
      assert done == before.gpio.Keys;
      LoweredByAll(config, before, pins, resourceId, owner);
      assert gpioObjects == WithoutGpio(before.gpio, resourceId, owner);
    }

    method ReleaseUart(resourceId: u32, owner: u32)
      modifies this`uartObjects
      ensures uartObjects == WithoutUart(old(uartObjects), resourceId, owner)
    {
      var rest := uartObjects.Keys;
      ghost var before := uartObjects;
      while rest != {}
        invariant rest <= before.Keys
        invariant forall id | id in uartObjects :: id in before && uartObjects[id] == before[id]
        invariant forall id | id in before :: id in uartObjects <==> id in rest || !UartOf(before[id], resourceId, owner)
        decreases |rest|
      {
        var id :| id in rest;
        if UartOf(uartObjects[id], resourceId, owner) {
          uartObjects := uartObjects - {id};
        }
        rest := rest - {id};
      }
      assert uartObjects == WithoutUart(before, resourceId, owner);
    }

    /** release_resource_objects */
    method ReleaseResourceObjects(resourceId: u32, owner: u32)
      requires MotionReady(config, View())
      modifies this`motion, this`gpioObjects, this`uartObjects, this`pins
      ensures MotionReady(config, old(View()))
      ensures View() == ReleaseObjects(config, old(View()), resourceId, owner)
    {
      if IsAxis(config, resourceId) && config.motionBackend && Moving(motion) {
        var stopped := Motion.Abort(motion, motion.now, Motion.Aborted);
        motion := if stopped.Thrown? then stopped.executor else stopped.output.executor;
      }
      ReleaseGpio(resourceId, owner);
      ReleaseUart(resourceId, owner);
    }

    /** A lease with its objects. */
    method End(resourceId: u32, i: nat)
      requires MotionReady(config, View()) && resourceId in leases && i < |leases[resourceId]|
      modifies this
      ensures MotionReady(config, old(View())) && View() == EndLease(config, old(View()), resourceId, i)
      ensures MotionReady(config, View())
    {
      EndLeaseReady(config, View(), resourceId, i);
      var entries := leases[resourceId];
      ReleaseResourceObjects(resourceId, entries[i].owner);
      var rest := entries[..i] + entries[i + 1..];
      if rest == [] {
        leases := leases - {resourceId};
      } else {
        leases := leases[resourceId := rest];
      }
    }

    method EndOfResource(resourceId: u32, sel: Selector)
      requires MotionReady(config, View())
      modifies this
      ensures MotionReady(config, old(View())) && View() == EndSelected(config, old(View()), resourceId, sel, 0)
      ensures MotionReady(config, View())
    {
      var i := 0;
      ghost var whole := EndSelected(config, View(), resourceId, sel, 0);
      while resourceId in leases && i < |leases[resourceId]|
        invariant MotionReady(config, View())
        invariant EndSelected(config, View(), resourceId, sel, i) == whole
        decreases |Entries(View(), resourceId)| - i
      {
        if Selected(sel, leases[resourceId][i]) {
          EndEntries(config, View(), resourceId, i);
          End(resourceId, i);
        } else {
          i := i + 1;
        }
      }
    }

    /** expire_leases and release_session; `keys` is the order in which the table yielded its resources. */
    method EndLeases(sel: Selector) returns (ghost keys: seq<u32>)
      requires MotionReady(config, View())
      modifies this
      ensures MotionReady(config, old(View())) && Enumerates(keys, old(leases))
      ensures View() == EndAll(config, old(View()), keys, sel)
    {
      ghost var start := View();
      var rest := leases.Keys;
      keys := [];
      while rest != {}
        invariant MotionReady(config, View()) && Distinct(keys)
        invariant forall k :: k in keys <==> k in start.leases && k !in rest
        invariant rest <= start.leases.Keys
        invariant View() == EndAll(config, start, keys, sel)
        decreases |rest|
      {
        var key :| key in rest;
        EndAllAppend(config, start, keys, key, sel);
        EndOfResource(key, sel);
        keys := keys + [key];
        rest := rest - {key};
      }
    }

    method ExpireLeases(now: int) returns (ghost keys: seq<u32>)
      requires Valid()
      modifies this
      ensures MotionReady(config, old(View())) && Enumerates(keys, old(leases))
      ensures Valid() && View() == EndAll(config, old(View()), keys, ExpiredAt(now))
    {
      ghost var before := View();
      InvMotionReady(config, before);
      keys := EndLeases(ExpiredAt(now));
      EndAllKeepsInv(config, before, keys, ExpiredAt(now));
    }

    method ReleaseSession(session: u32) returns (ghost keys: seq<u32>)
      requires Valid()
      modifies this
      ensures MotionReady(config, old(View())) && Enumerates(keys, old(leases))
      ensures Valid() && View() == EndAll(config, old(View()), keys, OfSession(session))
    {
      ghost var before := View();
      InvMotionReady(config, before);
      keys := EndLeases(OfSession(session));
      EndAllKeepsInv(config, before, keys, OfSession(session));
    }

    // -------------------------------------------------------------- lease commands

    method Grant(session: u32, args: AcquireArgs, now: int)
      modifies this`leases, this`nextLeaseId
      ensures View() == Granted(old(View()), session, args, now)
    {
      var id := nextLeaseId;
      nextLeaseId := Wrap64(nextLeaseId + 1);
      if nextLeaseId == 0 {
        nextLeaseId := 1;
      }
      var entries := if args.resourceId in leases then leases[args.resourceId] else [];
      var lease := Lease(id, session, args.duration, args.mode, now + args.duration * NANOSECONDS_PER_MILLISECOND);
      leases := leases[args.resourceId := entries + [lease]];
    }

    method IsBlocked(session: u32, args: AcquireArgs) returns (blocked: bool)
      ensures blocked == Blocked(View(), session, args)
    {
      var entries := if args.resourceId in leases then leases[args.resourceId] else [];
      var objects := (exists id | id in gpioObjects :: gpioObjects[id].resourceId == args.resourceId) ||
                     (exists id | id in uartObjects :: uartObjects[id].resourceId == args.resourceId);
      blocked := HasOwner(entries, session) ||
                 (args.mode.Exclusive? && (entries != [] || objects)) ||
                 (args.mode.SharedRead? && (HasExclusive(entries) || objects));
    }

    method AcquireLease(objectId: u32, session: u32, args: Option<AcquireArgs>, now: int) returns (status: Status)
      requires Valid()
      modifies this
      ensures Valid() && (View(), status) == Acquire(config, old(View()), objectId, session, args, now)
    {
      AcquireKeepsInv(config, View(), objectId, session, args, now);
      if objectId != 0 || session == 0 || args.None? || !DurationOk(args.value.duration) {
        return InvalidPayload;
      }
      if FindResource(config.resources, args.value.resourceId).None? {
        return ObjectNotFound;
      }
      var contract := FindContract(config.contracts, args.value.resourceId);
      if contract.None? || !contract.value.leaseSupported {
        return UnsupportedCapability;
      }
      if args.value.mode.SharedRead? && !contract.value.sharedRead {
        return AccessDenied;
      }
      var blocked := IsBlocked(session, args.value);
      if blocked {
        return ResourceBusy;
      }
      Grant(session, args.value, now);
      status := Done;
    }

    /** The search both token commands start with; None if the command ends there. */
    method FindToken(session: u32, args: TokenArgs) returns (i: Option<nat>, status: Status)
      ensures var entries := Entries(View(), args.resourceId);
              if FindResource(config.resources, args.resourceId).None? then i.None? && status == ObjectNotFound
              else if FindLease(entries, args.leaseId, session) == |entries| then i.None? && status == AccessDenied
              else i == Some(FindLease(entries, args.leaseId, session)) && status == Done
    {
      if FindResource(config.resources, args.resourceId).None? {
        return None, ObjectNotFound;
      }
      if args.resourceId !in leases {
        return None, AccessDenied;
      }
      var entries := leases[args.resourceId];
      var k := FindLease(entries, args.leaseId, session);
      if k == |entries| {
        return None, AccessDenied;
      }
      return Some(k), Done;
    }

    method Prolong(objectId: u32, session: u32, args: Option<TokenArgs>, now: int) returns (status: Status)
      modifies this`leases
      ensures (View(), status) == Renew(config, old(View()), objectId, session, args, now)
    {
      if objectId != 0 || session == 0 || args.None? || args.value.leaseId == 0 || !DurationOk(args.value.duration) {
        return InvalidPayload;
      }
      var a := args.value;
      var i;
      i, status := FindToken(session, a);
      if i.Some? {
        var lease := leases[a.resourceId][i.value];
        lease := lease.(duration := a.duration);
        lease := lease.(expiresAt := now + a.duration * NANOSECONDS_PER_MILLISECOND);
        leases := leases[a.resourceId := leases[a.resourceId][i.value := lease]];
      }
    }

    method RenewLease(objectId: u32, session: u32, args: Option<TokenArgs>, now: int) returns (status: Status)
      requires Valid()
      modifies this
      ensures Valid() && (View(), status) == Renew(config, old(View()), objectId, session, args, now)
    {
      RenewKeepsInv(config, View(), objectId, session, args, now);
      status := Prolong(objectId, session, args, now);
    }

    method ReleaseLease(objectId: u32, session: u32, args: Option<TokenArgs>) returns (status: Status)
      requires Valid()
      modifies this
      ensures MotionReady(config, old(View()))
      ensures Valid() && (View(), status) == Release(config, old(View()), objectId, session, args)
    {
      InvMotionReady(config, View());
      ReleaseKeepsInv(config, View(), objectId, session, args);
      if objectId != 0 || session == 0 || args.None? || args.value.leaseId == 0 || args.value.duration != 0 {
        return InvalidPayload;
      }
      var i;
      i, status := FindToken(session, args.value);
      if i.Some? {
        End(args.value.resourceId, i.value);
      }
    }

    // -------------------------------------------------------------- objects

    method EnterGpio(a: GpioArgs, resourceId: u32, owner: u32)
      modifies this`pins, this`gpioObjects, this`nextObjectId
      ensures View() == AddGpio(old(View()), a, resourceId, owner)
    {
      pins := pins[a.pin := Pin(a.output, a.initial)];
      var id := nextObjectId;
      nextObjectId := Wrap32(nextObjectId + 1);
      gpioObjects := gpioObjects[id := GpioObject(a.pin, a.output, resourceId, owner)];
    }

    method CreateGpioObject(objectId: u32, session: u32, args: Option<GpioArgs>) returns (status: Status)
      requires Valid()
      modifies this
      ensures Valid() && (View(), status) == CreateGpio(config, old(View()), objectId, session, args)
    {
      CreateGpioKeepsInv(config, View(), objectId, session, args);
      status := CheckAndEnterGpio(objectId, session, args);
    }

    method CheckAndEnterGpio(objectId: u32, session: u32, args: Option<GpioArgs>) returns (status: Status)
      modifies this`pins, this`gpioObjects, this`nextObjectId
      ensures (View(), status) == CreateGpio(config, old(View()), objectId, session, args)
    {
      if !config.gpioBackend || !config.gpioCapability {
        return UnsupportedCapability;
      }
      if objectId != 0 || args.None? {
        return InvalidPayload;
      }
      if nextObjectId == 0 || |gpioObjects| >= U32_MAX - 1 {
        return ResourceExhausted;
      }
      var resource := FindInstance(config.resources, Gpio, args.value.pin);
      if HasKind(config.resources, Gpio) && resource.None? {
        return ObjectNotFound;
      }
      var owner := FindOwner(resource, session);
      if owner.None? {
        return AccessDenied;
      }
      if exists id | id in gpioObjects :: gpioObjects[id].pin == args.value.pin {
        return ResourceBusy;
      }
      EnterGpio(args.value, ResourceIdOf(resource), owner.value);
      status := Done;
    }

    method FindOwner(resource: Option<Resource>, session: u32) returns (owner: Option<u32>)
      ensures owner == OwnerFor(config, View(), resource, session)
    {
      if resource.None? {
        return Some(0);
      }
      var id := resource.value.id;
      var holds := id in leases &&
        exists i | 0 <= i < |leases[id]| :: leases[id][i].owner == session && leases[id][i].mode.Exclusive?;
      if (LeaseRequired(config, id) || id in leases) && !holds {
        return None;
      }
      owner := Some(if holds then session else 0);
    }

    method WriteGpioObject(objectId: u32, session: u32, level: Option<bool>) returns (status: Status)
      requires Valid()
      modifies this
      ensures Valid() && (View(), status) == WriteGpio(config, old(View()), objectId, session, level)
    {
      WriteGpioKeepsInv(config, View(), objectId, session, level);
      if !config.gpioBackend || !config.gpioCapability {
        return UnsupportedCapability;
      }
      if level.None? || objectId == 0 {
        return InvalidPayload;
      }
      if objectId !in gpioObjects {
        return ObjectNotFound;
      }
      var o := gpioObjects[objectId];
      if (o.owner != 0 && o.owner != session) || !o.output {
        return AccessDenied;
      }
      WritePin(o.pin, level.value);
      status := Done;
    }

    method EnterUart(a: UartArgs, resourceId: u32, owner: u32)
      modifies this`uartObjects, this`nextObjectId
      ensures View() == AddUart(old(View()), a, resourceId, owner)
    {
      var id := nextObjectId;
      nextObjectId := Wrap32(nextObjectId + 1);
      uartObjects := uartObjects[id := UartObject(a.port, resourceId, owner, a.streaming)];
    }

    method CreateUartObject(objectId: u32, session: u32, args: Option<UartArgs>, backend: Status)
      returns (status: Status)
      requires Valid()
      modifies this
      ensures Valid() && (View(), status) == CreateUart(config, old(View()), objectId, session, args, backend)
    {
      CreateUartKeepsInv(config, View(), objectId, session, args, backend);
      status := CheckAndEnterUart(objectId, session, args, backend);
    }

    method CheckAndEnterUart(objectId: u32, session: u32, args: Option<UartArgs>, backend: Status)
      returns (status: Status)
      modifies this`uartObjects, this`nextObjectId
      ensures (View(), status) == CreateUart(config, old(View()), objectId, session, args, backend)
    {
      if !config.uartBackend || !config.uartCapability {
        return UnsupportedCapability;
      }
      if objectId != 0 || args.None? {
        return InvalidPayload;
      }
      if nextObjectId == 0 {
        return ResourceExhausted;
      }
      var resource := FindInstance(config.resources, Uart, args.value.port);
      if HasKind(config.resources, Uart) && resource.None? {
        return ObjectNotFound;
      }
      var owner := FindOwner(resource, session);
      if owner.None? {
        return AccessDenied;
      }
      if exists id | id in uartObjects :: uartObjects[id].port == args.value.port {
        return ResourceBusy;
      }
      if backend != Done {
        return backend;
      }
      EnterUart(args.value, ResourceIdOf(resource), owner.value);
      status := Done;
    }

    // -------------------------------------------------------------- motion

    method CheckMotionAxes(session: u32, moves: seq<Motion.Move>) returns (status: Status)
      ensures status == CheckAxes(config, View(), session, moves)
    {
      var i := 0;
      while i < |moves|
        invariant 0 <= i <= |moves|
        invariant CheckAxes(config, View(), session, moves) == CheckAxes(config, View(), session, moves[i..])
      {
        assert moves[i..][0] == moves[i] && moves[i..][1..] == moves[i + 1..];
        var id := moves[i].resourceId;
        if !IsAxis(config, id) {
          return ObjectNotFound;
        }
        var holds := id in leases &&
          exists k | 0 <= k < |leases[id]| :: leases[id][k].owner == session && leases[id][k].mode.Exclusive?;
        if (LeaseRequired(config, id) || id in leases) && !holds {
          return AccessDenied;
        }
        i := i + 1;
      }
      status := Done;
    }

    method EnqueueSegment(objectId: u32, session: u32, segment: Option<Motion.Segment>) returns (status: Status)
      requires Valid()
      modifies this
      ensures config.motionBackend ==> Motion.Configured(old(motion).axes)
      ensures Valid() && (View(), status) == EnqueueMotion(config, old(View()), objectId, session, segment)
    {
      EnqueueKeepsInv(config, View(), objectId, session, segment);
      if !config.motionBackend || !config.motionCapability {
        return UnsupportedCapability;
      }
      if objectId != 0 || segment.None? {
        return InvalidPayload;
      }
      status := CheckMotionAxes(session, segment.value.axes);
      if status != Done {
        return;
      }
      var r := Motion.Enqueue(motion, segment.value, motion.now);
      motion := r.executor;
      if r.Rejected? {
        status := if r.error.QueueFull? then ResourceExhausted
                  else if r.error.FaultLatched? then ResourceFailed
                  else InvalidPayload;
      }
    }

    method AbortSegments(objectId: u32) returns (status: Status)
      requires Valid()
      modifies this
      ensures MotionReady(config, old(View()))
      ensures Valid() && (View(), status) == AbortMotion(config, old(View()), objectId)
    {
      InvMotionReady(config, View());
      AbortKeepsInv(config, View(), objectId);
      if !config.motionBackend || !config.motionCapability {
        return UnsupportedCapability;
      }
      if objectId != 0 {
        return InvalidPayload;
      }
      var r := Motion.Abort(motion, motion.now, Motion.Aborted);
      motion := Outcome(r);
      if r.Thrown? {
        return if r.error.FaultLatched? then ResourceFailed else InvalidPayload;
      }
      status := Done;
    }

    method ClearFaultOfMotion(objectId: u32) returns (status: Status)
      requires Valid()
      modifies this
      ensures Valid() && (View(), status) == ClearMotionFault(config, old(View()), objectId)
    {
      ClearFaultKeepsInv(config, View(), objectId);
      if !config.motionBackend || !config.motionCapability {
        return UnsupportedCapability;
      }
      if objectId != 0 {
        return InvalidPayload;
      }
      var r := Motion.ClearFault(motion);
      if r.Thrown? {
        return ResourceBusy;
      }
      motion := r.output.executor;
      status := Done;
    }

    method Reset(objectId: u32, session: u32, resourceId: Option<u32>, backend: Status) returns (status: Status)
      requires Valid()
      modifies this
      ensures MotionReady(config, old(View()))
      ensures Valid() && (View(), status) == ResetResource(config, old(View()), objectId, session, resourceId, backend)
    {
      InvMotionReady(config, View());
      ResetKeepsInv(config, View(), objectId, session, resourceId, backend);
      if objectId != 0 || resourceId.None? {
        return InvalidPayload;
      }
      var found := FindResource(config.resources, resourceId.value);
      if found.None? {
        return ObjectNotFound;
      }
      if resourceId.value in leases && !HoldsExclusive(View(), resourceId.value, session) {
        return AccessDenied;
      }
      if found.value.kind.StepgenAxis? && config.motionBackend {
        status := ResetMotion();
        return;
      }
      if !found.value.kind.Uart? || !config.uartBackend || found.value.instance > 255 {
        return UnsupportedCapability;
      }
      status := backend;
    }

    method ResetMotion() returns (status: Status)
      requires Motion.Ready(motion)
      modifies this`motion
      ensures Motion.Ready(old(motion))
      ensures var refused := Moving(old(motion)) && Motion.Abort(old(motion), old(motion).now, Motion.Aborted).Thrown?;
              var stopped := StopMotion(old(motion));
              var cleared := Motion.ClearFault(stopped);
              motion == (if refused || cleared.Thrown? then stopped else cleared.output.executor) &&
              status == (if refused || cleared.Thrown? then ResourceFailed else Done)
    {
      if Moving(motion) {
        var aborted := Motion.Abort(motion, motion.now, Motion.Aborted);
        motion := Outcome(aborted);
        if aborted.Thrown? {
          return ResourceFailed;
        }
      }
      var cleared := Motion.ClearFault(motion);
      if cleared.Thrown? {
        return ResourceFailed;
      }
      motion := cleared.output.executor;
      status := Done;
    }
  }
}
