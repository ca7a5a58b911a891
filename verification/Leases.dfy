/** Leases, the objects owned through them and the link to live motion, in the remote core of
    mock_mcu/src/remote_core.cpp.  Command payloads arrive decoded; None stands for one that does not decode. */
module Leases {
  import opened FixedWidth
  import opened Results
  import Motion = MockMotion

  const MINIMUM_DURATION_MS: nat := 100
  const MAXIMUM_DURATION_MS: nat := 60000
  const NANOSECONDS_PER_MILLISECOND: nat := 1_000_000

  datatype Kind = Gpio | Uart | StepgenAxis | OtherKind

  datatype Resource = Resource(id: u32, kind: Kind, instance: u16)

  datatype Contract = Contract(
    resourceId: u32, version: u16, leaseSupported: bool, leaseRequired: bool, sharedRead: bool)

  /** What the core is built with: the catalogue, which backends exist and which capabilities are switched on. */
  datatype Config = Config(
    resources: seq<Resource>, contracts: seq<Contract>,
    gpioBackend: bool, uartBackend: bool, motionBackend: bool,
    gpioCapability: bool, uartCapability: bool, motionCapability: bool)

  datatype LeaseMode = SharedRead | Exclusive

  datatype Lease = Lease(id: u64, owner: u32, duration: u32, mode: LeaseMode, expiresAt: int)

  datatype GpioObject = GpioObject(pin: u16, output: bool, resourceId: u32, owner: u32)

  datatype UartObject = UartObject(port: u8, resourceId: u32, owner: u32, streaming: bool)

  datatype Pin = Pin(output: bool, level: bool)

  datatype State = State(
    leases: map<u32, seq<Lease>>, gpio: map<u32, GpioObject>, uart: map<u32, UartObject>,
    nextObjectId: u32, nextLeaseId: u64, pins: map<u16, Pin>, motion: Motion.Executor)

  datatype Status =
    | Done | InvalidPayload | ObjectNotFound | AccessDenied | ResourceExhausted | UnsupportedCapability
    | ResourceFailed | ResourceBusy

  // ---------------------------------------------------------------- the catalogue

  function FindResource(resources: seq<Resource>, id: u32): (r: Option<Resource>)
    ensures r.Some? ==> r.value in resources && r.value.id == id
    ensures r.None? ==> forall i | 0 <= i < |resources| :: resources[i].id != id
  {
    if resources == [] then None
    else if resources[0].id == id then Some(resources[0])
    else FindResource(resources[1..], id)
  }

  function FindInstance(resources: seq<Resource>, kind: Kind, instance: u16): (r: Option<Resource>)
    ensures r.Some? ==> r.value in resources && r.value.kind == kind && r.value.instance == instance
    ensures r.None? ==> forall i | 0 <= i < |resources| :: !(resources[i].kind == kind && resources[i].instance == instance)
  {
    if resources == [] then None
    else if resources[0].kind == kind && resources[0].instance == instance then Some(resources[0])
    else FindInstance(resources[1..], kind, instance)
  }

  function FindContract(contracts: seq<Contract>, id: u32): (r: Option<Contract>)
    ensures r.Some? ==> r.value in contracts && r.value.resourceId == id
    ensures r.None? ==> forall i | 0 <= i < |contracts| :: contracts[i].resourceId != id
  {
    if contracts == [] then None
    else if contracts[0].resourceId == id then Some(contracts[0])
    else FindContract(contracts[1..], id)
  }

  predicate LeaseRequired(c: Config, resourceId: u32) {
    var contract := FindContract(c.contracts, resourceId);
    contract.Some? && contract.value.leaseRequired
  }

  predicate IsAxis(c: Config, resourceId: u32) {
    var r := FindResource(c.resources, resourceId);
    r.Some? && r.value.kind.StepgenAxis?
  }

  predicate ContractOk(c: Config, contract: Contract) {
    contract.resourceId != 0 && contract.version == 1 && FindResource(c.resources, contract.resourceId).Some? &&
    (contract.leaseRequired ==> contract.leaseSupported)
  }

  ghost predicate ResourcesOk(resources: seq<Resource>) {
    && (forall i | 0 <= i < |resources| :: resources[i].id != 0)
    && (forall i, j | 0 <= i < j < |resources| :: resources[i].id != resources[j].id)
  }

  ghost predicate ContractsOk(c: Config, contracts: seq<Contract>) {
    && (forall i | 0 <= i < |contracts| :: ContractOk(c, contracts[i]))
    && (forall i, j | 0 <= i < j < |contracts| :: contracts[i].resourceId != contracts[j].resourceId)
  }

  /** The checks of the constructor. */
  ghost predicate ValidCatalog(c: Config) {
    ResourcesOk(c.resources) && ContractsOk(c, c.contracts)
  }

  function Initial(motion: Motion.Executor): State {
    State(map[], map[], map[], 1, 1, map[], motion)
  }

  // ---------------------------------------------------------------- who holds what

  predicate HasOwner(entries: seq<Lease>, session: u32) {
    exists i | 0 <= i < |entries| :: entries[i].owner == session
  }

  predicate HasExclusive(entries: seq<Lease>) {
    exists i | 0 <= i < |entries| :: entries[i].mode.Exclusive?
  }

  /** session_has_exclusive_lease */
  predicate HoldsExclusive(s: State, resourceId: u32, session: u32) {
    resourceId in s.leases &&
    exists i | 0 <= i < |s.leases[resourceId]| ::
      s.leases[resourceId][i].owner == session && s.leases[resourceId][i].mode.Exclusive?
  }

  predicate HasObjects(s: State, resourceId: u32) {
    (exists id | id in s.gpio :: s.gpio[id].resourceId == resourceId) ||
    (exists id | id in s.uart :: s.uart[id].resourceId == resourceId)
  }

  predicate Moving(e: Motion.Executor) {
    e.mode.Armed? || e.mode.Running?
  }

  // ---------------------------------------------------------------- ending a lease

  ghost predicate MotionReady(c: Config, s: State) {
    c.motionBackend ==> Motion.Ready(s.motion)
  }

  /** Motion stops, at the executor's own time, if it is under way; an executor that refuses stays as it is. */
  function StopMotion(e: Motion.Executor): Motion.Executor
    requires Motion.Ready(e)
  {
    if !Moving(e) then e
    else
      var stopped := Motion.Abort(e, e.now, Motion.Aborted);
      if stopped.Thrown? then stopped.executor else stopped.output.executor
  }

  predicate GpioOf(o: GpioObject, resourceId: u32, owner: u32) {
    o.resourceId == resourceId && o.owner == owner
  }

  predicate UartOf(o: UartObject, resourceId: u32, owner: u32) {
    o.resourceId == resourceId && o.owner == owner
  }

  /** Pins driven by output objects of an owner. */
  predicate DrivenBy(s: State, pin: u16, resourceId: u32, owner: u32) {
    exists id | id in s.gpio :: GpioOf(s.gpio[id], resourceId, owner) && s.gpio[id].output && s.gpio[id].pin == pin
  }

  /** Writing false to output pins; a pin that is no output refuses and keeps its level. */
  function Lowered(c: Config, s: State, resourceId: u32, owner: u32): map<u16, Pin> {
    map p | p in s.pins ::
      if c.gpioBackend && s.pins[p].output && DrivenBy(s, p, resourceId, owner) then Pin(true, false) else s.pins[p]
  }

  function WithoutGpio(objects: map<u32, GpioObject>, resourceId: u32, owner: u32): map<u32, GpioObject> {
    map id | id in objects && !GpioOf(objects[id], resourceId, owner) :: objects[id]
  }

  function WithoutUart(objects: map<u32, UartObject>, resourceId: u32, owner: u32): map<u32, UartObject> {
    map id | id in objects && !UartOf(objects[id], resourceId, owner) :: objects[id]
  }

  /** release_resource_objects */
  function ReleaseObjects(c: Config, s: State, resourceId: u32, owner: u32): State
    requires MotionReady(c, s)
  {
    s.(motion := if IsAxis(c, resourceId) && c.motionBackend then StopMotion(s.motion) else s.motion,
       pins := Lowered(c, s, resourceId, owner),
       gpio := WithoutGpio(s.gpio, resourceId, owner),
       uart := WithoutUart(s.uart, resourceId, owner))
  }

  function Erased(entries: seq<Lease>, i: nat): seq<Lease>
    requires i < |entries|
  {
    entries[..i] + entries[i + 1..]
  }

  /** The table without lease i of a resource. */
  function EraseLease(leases: map<u32, seq<Lease>>, resourceId: u32, i: nat): map<u32, seq<Lease>>
    requires resourceId in leases && i < |leases[resourceId]|
  {
    var rest := Erased(leases[resourceId], i);
    if rest == [] then leases - {resourceId} else leases[resourceId := rest]
  }

  function EndLease(c: Config, s: State, resourceId: u32, i: nat): State
    requires MotionReady(c, s) && resourceId in s.leases && i < |s.leases[resourceId]|
  {
    ReleaseObjects(c, s, resourceId, s.leases[resourceId][i].owner).(leases := EraseLease(s.leases, resourceId, i))
  }

  // ---------------------------------------------------------------- expiry and session release

  /** Which leases a pass ends. */
  datatype Selector = ExpiredAt(now: int) | OfSession(session: u32)

  predicate Selected(sel: Selector, lease: Lease) {
    match sel
    case ExpiredAt(now) => lease.expiresAt <= now
    case OfSession(session) => lease.owner == session
  }

  lemma StopMotionReady(e: Motion.Executor)
    requires Motion.Ready(e)
    ensures Motion.Ready(StopMotion(e))
  {
    if Moving(e) {
      assert Motion.Abort(e, e.now, Motion.Aborted).Advanced? ==> StopMotion(e).queue == [];
    }
  }

  lemma EndLeaseReady(c: Config, s: State, resourceId: u32, i: nat)
    requires MotionReady(c, s) && resourceId in s.leases && i < |s.leases[resourceId]|
    ensures MotionReady(c, EndLease(c, s, resourceId, i))
  {
    if c.motionBackend {
      StopMotionReady(s.motion);
    }
  }

  function Entries(s: State, resourceId: u32): seq<Lease> {
    if resourceId in s.leases then s.leases[resourceId] else []
  }

  /** The inner loop of expire_leases and release_session, from lease i of a resource on. */
  function EndSelected(c: Config, s: State, resourceId: u32, sel: Selector, i: nat): (after: State)
    requires MotionReady(c, s)
    ensures MotionReady(c, after)
    decreases |Entries(s, resourceId)| - i
  {
    if i >= |Entries(s, resourceId)| then s
    else if Selected(sel, s.leases[resourceId][i]) then
      EndLeaseReady(c, s, resourceId, i);
      EndSelected(c, EndLease(c, s, resourceId, i), resourceId, sel, i)
    else EndSelected(c, s, resourceId, sel, i + 1)
  }

  /** The outer loop, over the resources in the order in which the table yields them. */
  function EndAll(c: Config, s: State, keys: seq<u32>, sel: Selector): (after: State)
    requires MotionReady(c, s)
    ensures MotionReady(c, after)
    decreases keys
  {
    if keys == [] then s else EndAll(c, EndSelected(c, s, keys[0], sel, 0), keys[1..], sel)
  }

  // ---------------------------------------------------------------- lease commands

  datatype AcquireArgs = AcquireArgs(resourceId: u32, duration: u32, mode: LeaseMode)

  datatype TokenArgs = TokenArgs(resourceId: u32, leaseId: u64, duration: u32)

  predicate DurationOk(duration: u32) {
    MINIMUM_DURATION_MS <= duration <= MAXIMUM_DURATION_MS
  }

  predicate Blocked(s: State, session: u32, args: AcquireArgs) {
    var entries := Entries(s, args.resourceId);
    HasOwner(entries, session) ||
    (args.mode.Exclusive? && (entries != [] || HasObjects(s, args.resourceId))) ||
    (args.mode.SharedRead? && (HasExclusive(entries) || HasObjects(s, args.resourceId)))
  }

  function NextLeaseId(id: u64): (next: u64)
    ensures next != 0
  {
    var next := Wrap64(id + 1);
    if next == 0 then 1 else next
  }

  function Granted(s: State, session: u32, args: AcquireArgs, now: int): State {
    var lease := Lease(s.nextLeaseId, session, args.duration, args.mode,
                       now + args.duration * NANOSECONDS_PER_MILLISECOND);
    s.(nextLeaseId := NextLeaseId(s.nextLeaseId),
       leases := s.leases[args.resourceId := Entries(s, args.resourceId) + [lease]])
  }

  function Acquire(c: Config, s: State, objectId: u32, session: u32, args: Option<AcquireArgs>, now: int):
      (State, Status)
  {
    if objectId != 0 || session == 0 || args.None? || !DurationOk(args.value.duration) then (s, InvalidPayload)
    else if FindResource(c.resources, args.value.resourceId).None? then (s, ObjectNotFound)
    else
      var contract := FindContract(c.contracts, args.value.resourceId);
      if contract.None? || !contract.value.leaseSupported then (s, UnsupportedCapability)
      else if args.value.mode.SharedRead? && !contract.value.sharedRead then (s, AccessDenied)
      else if Blocked(s, session, args.value) then (s, ResourceBusy)
      else (Granted(s, session, args.value, now), Done)
  }

  /** The session's lease with that id; the number of leases if there is none. */
  function FindLease(entries: seq<Lease>, leaseId: u64, session: u32): (i: nat)
    ensures i <= |entries|
    ensures i < |entries| ==> entries[i].id == leaseId && entries[i].owner == session
    ensures forall j | 0 <= j < i :: !(entries[j].id == leaseId && entries[j].owner == session)
  {
    if entries == [] || (entries[0].id == leaseId && entries[0].owner == session) then 0
    else 1 + FindLease(entries[1..], leaseId, session)
  }

  function Prolonged(lease: Lease, duration: u32, now: int): Lease {
    lease.(duration := duration, expiresAt := now + duration * NANOSECONDS_PER_MILLISECOND)
  }

  function Renew(c: Config, s: State, objectId: u32, session: u32, args: Option<TokenArgs>, now: int): (State, Status) {
    if objectId != 0 || session == 0 || args.None? || args.value.leaseId == 0 || !DurationOk(args.value.duration) then
      (s, InvalidPayload)
    else if FindResource(c.resources, args.value.resourceId).None? then (s, ObjectNotFound)
    else
      var entries := Entries(s, args.value.resourceId);
      var i := FindLease(entries, args.value.leaseId, session);
      if i == |entries| then (s, AccessDenied)
      else
        (s.(leases := s.leases[args.value.resourceId := entries[i := Prolonged(entries[i], args.value.duration, now)]]),
         Done)
  }

  function Release(c: Config, s: State, objectId: u32, session: u32, args: Option<TokenArgs>): (State, Status)
    requires MotionReady(c, s)
  {
    if objectId != 0 || session == 0 || args.None? || args.value.leaseId == 0 || args.value.duration != 0 then
      (s, InvalidPayload)
    else if FindResource(c.resources, args.value.resourceId).None? then (s, ObjectNotFound)
    else
      var entries := Entries(s, args.value.resourceId);
      var i := FindLease(entries, args.value.leaseId, session);
      if i == |entries| then (s, AccessDenied)
      else (EndLease(c, s, args.value.resourceId, i), Done)
  }

  // ---------------------------------------------------------------- objects

  datatype GpioArgs = GpioArgs(pin: u16, output: bool, initial: bool)

  datatype UartArgs = UartArgs(port: u8, streaming: bool)

  /** The lease check of a create: the owner recorded, or None if access is denied. */
  function OwnerFor(c: Config, s: State, resource: Option<Resource>, session: u32): Option<u32> {
    if resource.None? then Some(0)
    else
      var id := resource.value.id;
      if (LeaseRequired(c, id) || id in s.leases) && !HoldsExclusive(s, id, session) then None
      else Some(if HoldsExclusive(s, id, session) then session else 0)
  }

  predicate HasKind(resources: seq<Resource>, kind: Kind) {
    exists i | 0 <= i < |resources| :: resources[i].kind == kind
  }

  function ResourceIdOf(resource: Option<Resource>): u32 {
    if resource.None? then 0 else resource.value.id
  }

  /** The pin configured and its object entered. */
  function AddGpio(s: State, a: GpioArgs, resourceId: u32, owner: u32): State {
    s.(pins := s.pins[a.pin := Pin(a.output, a.initial)],
       nextObjectId := Wrap32(s.nextObjectId + 1),
       gpio := s.gpio[s.nextObjectId := GpioObject(a.pin, a.output, resourceId, owner)])
  }

  function CreateGpio(c: Config, s: State, objectId: u32, session: u32, args: Option<GpioArgs>): (State, Status) {
    if !c.gpioBackend || !c.gpioCapability then (s, UnsupportedCapability)
    else if objectId != 0 || args.None? then (s, InvalidPayload)
    else if s.nextObjectId == 0 || |s.gpio| >= U32_MAX - 1 then (s, ResourceExhausted)
    else
      var a := args.value;
      var resource := FindInstance(c.resources, Gpio, a.pin);
      if HasKind(c.resources, Gpio) && resource.None? then (s, ObjectNotFound)
      else
        var owner := OwnerFor(c, s, resource, session);
        if owner.None? then (s, AccessDenied)
        else if exists id | id in s.gpio :: s.gpio[id].pin == a.pin then (s, ResourceBusy)
        else
          (AddGpio(s, a, ResourceIdOf(resource), owner.value), Done)
  }

  function WriteGpio(c: Config, s: State, objectId: u32, session: u32, level: Option<bool>): (State, Status) {
    if !c.gpioBackend || !c.gpioCapability then (s, UnsupportedCapability)
    else if level.None? || objectId == 0 then (s, InvalidPayload)
    else if objectId !in s.gpio then (s, ObjectNotFound)
    else
      var o := s.gpio[objectId];
      if (o.owner != 0 && o.owner != session) || !o.output then (s, AccessDenied)
      else (s.(pins := s.pins[o.pin := Pin(true, level.value)]), Done)
  }

  function AddUart(s: State, a: UartArgs, resourceId: u32, owner: u32): State {
    s.(nextObjectId := Wrap32(s.nextObjectId + 1),
       uart := s.uart[s.nextObjectId := UartObject(a.port, resourceId, owner, a.streaming)])
  }

  /** `backend` is how the serial backend answers when it is configured. */
  function CreateUart(c: Config, s: State, objectId: u32, session: u32, args: Option<UartArgs>, backend: Status):
      (State, Status)
  {
    if !c.uartBackend || !c.uartCapability then (s, UnsupportedCapability)
    else if objectId != 0 || args.None? then (s, InvalidPayload)
    else if s.nextObjectId == 0 then (s, ResourceExhausted)
    else
      var a := args.value;
      var resource := FindInstance(c.resources, Uart, a.port);
      if HasKind(c.resources, Uart) && resource.None? then (s, ObjectNotFound)
      else
        var owner := OwnerFor(c, s, resource, session);
        if owner.None? then (s, AccessDenied)
        else if exists id | id in s.uart :: s.uart[id].port == a.port then (s, ResourceBusy)
        else if backend != Done then (s, backend)
        else
          (AddUart(s, a, ResourceIdOf(resource), owner.value), Done)
  }

  // ---------------------------------------------------------------- motion

  function CheckAxis(c: Config, s: State, session: u32, resourceId: u32): Status {
    if !IsAxis(c, resourceId) then ObjectNotFound
    else if (LeaseRequired(c, resourceId) || resourceId in s.leases) && !HoldsExclusive(s, resourceId, session) then
      AccessDenied
    else Done
  }

  function CheckAxes(c: Config, s: State, session: u32, moves: seq<Motion.Move>): Status {
    if moves == [] then Done
    else if CheckAxis(c, s, session, moves[0].resourceId) != Done then CheckAxis(c, s, session, moves[0].resourceId)
    else CheckAxes(c, s, session, moves[1..])
  }

  function EnqueueMotion(c: Config, s: State, objectId: u32, session: u32, segment: Option<Motion.Segment>):
      (State, Status)
    requires c.motionBackend ==> Motion.Configured(s.motion.axes)
  {
    if !c.motionBackend || !c.motionCapability then (s, UnsupportedCapability)
    else if objectId != 0 || segment.None? then (s, InvalidPayload)
    else
      var checked := CheckAxes(c, s, session, segment.value.axes);
      if checked != Done then (s, checked)
      else
        var r := Motion.Enqueue(s.motion, segment.value, s.motion.now);
        (s.(motion := r.executor),
         if r.Accepted? then Done
         else if r.error.QueueFull? then ResourceExhausted
         else if r.error.FaultLatched? then ResourceFailed
         else InvalidPayload)
  }

  function AbortMotion(c: Config, s: State, objectId: u32): (State, Status)
    requires MotionReady(c, s)
  {
    if !c.motionBackend || !c.motionCapability then (s, UnsupportedCapability)
    else if objectId != 0 then (s, InvalidPayload)
    else
      var r := Motion.Abort(s.motion, s.motion.now, Motion.Aborted);
      if r.Thrown? then (s.(motion := r.executor), if r.error.FaultLatched? then ResourceFailed else InvalidPayload)
      else (s.(motion := r.output.executor), Done)
  }

  function ClearMotionFault(c: Config, s: State, objectId: u32): (State, Status) {
    if !c.motionBackend || !c.motionCapability then (s, UnsupportedCapability)
    else if objectId != 0 then (s, InvalidPayload)
    else
      var r := Motion.ClearFault(s.motion);
      if r.Thrown? then (s, ResourceBusy) else (s.(motion := r.output.executor), Done)
  }

  /** handle_resource_reset; `backend` is how the serial backend answers when it is reset. */
  function ResetResource(c: Config, s: State, objectId: u32, session: u32, resourceId: Option<u32>, backend: Status):
      (State, Status)
    requires MotionReady(c, s)
  {
    if objectId != 0 || resourceId.None? then (s, InvalidPayload)
    else
      var found := FindResource(c.resources, resourceId.value);
      if found.None? then (s, ObjectNotFound)
      else if resourceId.value in s.leases && !HoldsExclusive(s, resourceId.value, session) then (s, AccessDenied)
      else if found.value.kind.StepgenAxis? && c.motionBackend then
        if Moving(s.motion) && Motion.Abort(s.motion, s.motion.now, Motion.Aborted).Thrown? then
          (s.(motion := StopMotion(s.motion)), ResourceFailed)
        else
          var stopped := StopMotion(s.motion);
          var cleared := Motion.ClearFault(stopped);
          if cleared.Thrown? then (s.(motion := stopped), ResourceFailed)
          else (s.(motion := cleared.output.executor), Done)
      else if !found.value.kind.Uart? || !c.uartBackend || found.value.instance > 255 then (s, UnsupportedCapability)
      else (s, backend)
  }
}
