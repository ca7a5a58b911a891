/** Host, network and node together: a request manager, a node with its cache, and between them a network that may
    lose, repeat and reorder the encoded packets in both directions. */
module ReliableDelivery {
  import opened FixedWidth
  import opened Results
  import opened Sequences
  import opened PacketCodec
  import Requests
  import NodeCache

  type Core = NodeCache.Core

  datatype Setup = Setup(host: Requests.Config, maximumCachedRequests: nat, core: Core)

  /** Everything ever put on the wire stays there to be delivered any number of times, or never. `submitted` and
      `delivered` record, for each request key, the packet submitted and how long the node's history was when the
      request last reached the node. */
  datatype System = System(
    host: Requests.State, node: NodeCache.State, requests: set<seq<u8>>, responses: set<seq<u8>>,
    submitted: map<u64, Packet>, delivered: map<u64, nat>)

  datatype Action =
    | Submit(request: Packet, now: int)
    | Poll(now: int, keys: seq<u64>)
    | Cancel(sessionId: u32, requestId: u32)
    | Deliver(bytes: seq<u8>, now: int)
    | Return(bytes: seq<u8>, now: int)
    | Clear(sessionId: u32)

  const INITIAL: System := System(Requests.INITIAL, NodeCache.INITIAL, {}, {}, map[], map[])

  ghost predicate Possible(sys: System, a: Action) {
    match a
    case Submit(_, _) => sys.host.nextRequestId < U32_MAX
    case Poll(_, keys) => Requests.Enumerates(keys, sys.host.pending)
    case Deliver(bytes, _) => bytes in sys.requests
    case Return(bytes, _) => bytes in sys.responses
    case _ => true
  }

  ghost function OnWire(packet: Packet): set<seq<u8>> {
    var bytes := Encode(packet);
    if bytes.Ok? then {bytes.value} else {}
  }

  ghost function RetriesOnWire(events: seq<Requests.Event>): set<seq<u8>> {
    if events == [] then {}
    else (if events[0].Retry? then OnWire(events[0].packet) else {}) + RetriesOnWire(events[1..])
  }

  ghost function AfterSubmit(setup: Setup, sys: System, request: Packet, now: int): System {
    var (host, r) := Requests.Submit(setup.host, sys.host, request, now);
    if r.Err? then sys.(host := host)
    else
      sys.(host := host, requests := sys.requests + OnWire(r.value),
           submitted := sys.submitted[Requests.KeyOf(r.value) := r.value])
  }

  ghost function AfterDeliver(setup: Setup, sys: System, bytes: seq<u8>, now: int): System {
    var request := Decode(bytes);
    if request.Err? then sys
    else
      var (node, r) := NodeCache.ProcessRequest(setup.core, setup.maximumCachedRequests, sys.node, request.value, now);
      sys.(node := node,
           delivered := sys.delivered[Requests.KeyOf(request.value) := |sys.node.history|],
           responses := sys.responses + if r.Ok? && r.value.Some? then {r.value.value.encodedResponse} else {})
  }

  ghost function AfterReturn(setup: Setup, sys: System, bytes: seq<u8>, now: int): System {
    var response := Decode(bytes);
    if response.Err? then sys
    else sys.(host := Requests.AcceptResponse(setup.host, sys.host, response.value, now).0)
  }

  ghost function Step(setup: Setup, sys: System, a: Action): System
    requires Possible(sys, a)
  {
    match a
    case Submit(request, now) => AfterSubmit(setup, sys, request, now)
    case Poll(now, keys) =>
      var (host, events) := Requests.Poll(setup.host, sys.host, now, keys);
      sys.(host := host, requests := sys.requests + RetriesOnWire(events))
    case Cancel(sessionId, requestId) =>
      sys.(host := Requests.Cancel(sys.host, sessionId, requestId).0)
    case Deliver(bytes, now) => AfterDeliver(setup, sys, bytes, now)
    case Return(bytes, now) => AfterReturn(setup, sys, bytes, now)
    case Clear(sessionId) => sys.(node := NodeCache.ClearSession(sys.node, sessionId))
  }

  // ---------------------------------------------------------------- what is assumed of the core

  /** Answers carry the ids of their requests, and can be encoded. */
  ghost predicate WellBehaved(core: Core) {
    NodeCache.Encodable(core) &&
    forall history, request, now :: core(history, request, now).Some? ==>
      Requests.KeyOf(core(history, request, now).value) == Requests.KeyOf(request)
  }

  ghost predicate ValidSetup(setup: Setup) {
    Requests.ValidConfig(setup.host) && setup.maximumCachedRequests > 0 && WellBehaved(setup.core)
  }

  // ---------------------------------------------------------------- invariant

  ghost predicate WasSubmitted(sys: System, packet: Packet) {
    Requests.KeyOf(packet) in sys.submitted && sys.submitted[Requests.KeyOf(packet)] == packet
  }

  /** Every key was submitted once, with an id below the next one. */
  ghost predicate FreshIds(sys: System) {
    sys.host.nextRequestId != 0 &&
    (forall k | k in sys.submitted ::
      Requests.KeyOf(sys.submitted[k]) == k && 0 < Requests.RequestIdOf(k) < sys.host.nextRequestId)
  }

  ghost predicate HostTracks(sys: System) {
    && (forall k | k in sys.host.pending :: k in sys.submitted && sys.host.pending[k].packet == sys.submitted[k])
    && (forall k | k in sys.host.completed :: k in sys.submitted)
  }

  /** The bytes of some submitted request. */
  ghost predicate IsRequest(sys: System, bytes: seq<u8>) {
    exists packet :: WasSubmitted(sys, packet) && Encode(packet) == Ok(bytes)
  }

  ghost predicate RequestsGenuine(sys: System) {
    forall bytes | bytes in sys.requests :: IsRequest(sys, bytes)
  }

  /** The execution of a submitted request, as it came over the wire. */
  ghost predicate GenuineExecution(sys: System, h: NodeCache.Happening) {
    h.Executed? ==>
      var key := Requests.KeyOf(h.request);
      key in sys.submitted && Encode(sys.submitted[key]).Ok? && h.request == Completed(sys.submitted[key]) &&
      Requests.KeyOf(h.response) == key && key in sys.delivered
  }

  ghost predicate HistoryGenuine(sys: System) {
    forall i | 0 <= i < |sys.node.history| :: GenuineExecution(sys, sys.node.history[i])
  }

  /** The bytes of the answer that execution i gave. */
  ghost predicate IsAnswer(sys: System, bytes: seq<u8>, i: nat) {
    i < |sys.node.history| && sys.node.history[i].Executed? && Encode(sys.node.history[i].response) == Ok(bytes)
  }

  ghost predicate ResponsesGenuine(sys: System) {
    forall bytes | bytes in sys.responses :: exists i: nat :: IsAnswer(sys, bytes, i)
  }

  /** A request executes only when it is delivered. */
  ghost predicate DeliveriesRecorded(sys: System) {
    forall i | 0 <= i < |sys.node.history| && sys.node.history[i].Executed? ::
      var key := Requests.KeyOf(sys.node.history[i].request);
      key in sys.delivered && i <= sys.delivered[key] <= |sys.node.history|
  }

  ghost predicate DeliveredBefore(sys: System) {
    forall k | k in sys.delivered :: sys.delivered[k] <= |sys.node.history|
  }

  ghost predicate Inv(setup: Setup, sys: System) {
    FreshIds(sys) && HostTracks(sys) && RequestsGenuine(sys) && HistoryGenuine(sys) && ResponsesGenuine(sys) &&
    DeliveriesRecorded(sys) && DeliveredBefore(sys) && NodeCache.Inv(setup.maximumCachedRequests, sys.node)
  }

  // ---------------------------------------------------------------- host steps

  lemma ExpiryTracks(sys: System, now: int)
    requires HostTracks(sys)
    ensures HostTracks(sys.(host := Requests.ExpireCompleted(sys.host, now)))
  {
  }

  /** With fresh ids the first candidate is free. */
  lemma FirstCandidateFree(sys: System, s: Requests.State, sessionId: u32)
    requires FreshIds(sys) && s.nextRequestId == sys.host.nextRequestId < U32_MAX
    requires forall k | Requests.InUse(s, k) :: k in sys.submitted
    ensures Requests.Allocate(s, sessionId, U32_MAX) ==
      (s.(nextRequestId := s.nextRequestId + 1), Some(s.nextRequestId))
    ensures Requests.Key(sessionId, s.nextRequestId) !in sys.submitted
  {
    Requests.KeyParts(sessionId, s.nextRequestId);
    assert Requests.NextId(s.nextRequestId) == s.nextRequestId + 1;
  }

  lemma SubmitResult(setup: Setup, sys: System, request: Packet, now: int)
    requires FreshIds(sys) && HostTracks(sys) && sys.host.nextRequestId < U32_MAX
    ensures var alive := Requests.ExpireCompleted(sys.host, now);
            var packet := Requests.WithRequestId(request, sys.host.nextRequestId);
            var key := Requests.KeyOf(packet);
            key !in sys.submitted && Requests.RequestIdOf(key) == sys.host.nextRequestId &&
            Requests.Submit(setup.host, sys.host, request, now) ==
              if request.header.messageType != MESSAGE_REQUEST then (alive, Err(Requests.NotRequest))
              else
                (alive.(nextRequestId := alive.nextRequestId + 1,
                        pending := alive.pending[key := Requests.Pending(packet, now + setup.host.timeout,
                                                                         setup.host.maximumRetries)]),
                 Ok(packet))
  {
    var alive := Requests.ExpireCompleted(sys.host, now);
    FirstCandidateFree(sys, alive, request.header.sessionId);
    Requests.KeyParts(request.header.sessionId, sys.host.nextRequestId);
  }

  lemma SubmitHost(setup: Setup, sys: System, request: Packet, now: int)
    requires FreshIds(sys) && HostTracks(sys) && sys.host.nextRequestId < U32_MAX
    ensures var next := AfterSubmit(setup, sys, request, now);
            FreshIds(next) && HostTracks(next) &&
            next.node == sys.node && next.responses == sys.responses && next.delivered == sys.delivered &&
            (forall k | k in sys.submitted :: k in next.submitted && next.submitted[k] == sys.submitted[k]) &&
            (forall bytes | bytes in next.requests && bytes !in sys.requests :: IsRequest(next, bytes))
  {
    SubmitResult(setup, sys, request, now);
    var next := AfterSubmit(setup, sys, request, now);
    forall bytes | bytes in next.requests && bytes !in sys.requests
      ensures IsRequest(next, bytes)
    {
      var packet := Requests.WithRequestId(request, sys.host.nextRequestId);
      assert WasSubmitted(next, packet) && Encode(packet) == Ok(bytes);
    }
  }

  /** More submissions keep what was genuine. */
  lemma StaysGenuine(setup: Setup, sys: System, next: System)
    requires Inv(setup, sys)
    requires next.node == sys.node && next.responses == sys.responses && next.delivered == sys.delivered
    requires forall k | k in sys.submitted :: k in next.submitted && next.submitted[k] == sys.submitted[k]
    requires forall bytes | bytes in next.requests && bytes !in sys.requests :: IsRequest(next, bytes)
    requires FreshIds(next) && HostTracks(next)
    ensures Inv(setup, next)
  {
    forall bytes | bytes in next.requests
      ensures IsRequest(next, bytes)
    {
      if bytes in sys.requests {
        var packet :| WasSubmitted(sys, packet) && Encode(packet) == Ok(bytes);
        assert WasSubmitted(next, packet);
      }
    }
    forall i | 0 <= i < |next.node.history|
      ensures GenuineExecution(next, next.node.history[i])
    {
      assert GenuineExecution(sys, sys.node.history[i]);
    }
    forall bytes | bytes in next.responses
      ensures exists i: nat :: IsAnswer(next, bytes, i)
    {
      var i: nat :| IsAnswer(sys, bytes, i);
      assert IsAnswer(next, bytes, i);
    }
  }

  lemma {:induction false} PollKeysTracks(setup: Setup, sys: System, now: int, keys: seq<u64>)
    requires HostTracks(sys) && Distinct(keys)
    requires forall i | 0 <= i < |keys| :: keys[i] in sys.host.pending
    ensures var (host, events) := Requests.PollKeys(setup.host, sys.host, now, keys);
            host.nextRequestId == sys.host.nextRequestId && HostTracks(sys.(host := host)) &&
            forall bytes | bytes in RetriesOnWire(events) ::
              exists k :: k in sys.submitted && Encode(sys.submitted[k]) == Ok(bytes)
    decreases keys
  {
    if keys != [] {
      var (next, events) := Requests.PollKey(setup.host, sys.host, now, keys[0]);
      var middle := sys.(host := next);
      PollKeysTracks(setup, middle, now, keys[1..]);
      var rest := Requests.PollKeys(setup.host, next, now, keys[1..]).1;
      var packet := sys.host.pending[keys[0]].packet;
      if events == [] {
        assert events + rest == rest;
      } else {
        assert (events + rest)[0] == events[0] && (events + rest)[1..] == rest;
        assert Encode(packet).Ok? ==> keys[0] in sys.submitted && Encode(sys.submitted[keys[0]]) == Encode(packet);
      }
    }
  }

  lemma PollKeepsInv(setup: Setup, sys: System, now: int, keys: seq<u64>)
    requires Inv(setup, sys) && Requests.Enumerates(keys, sys.host.pending)
    ensures Inv(setup, Step(setup, sys, Poll(now, keys)))
  {
    var alive := sys.(host := Requests.ExpireCompleted(sys.host, now));
    ExpiryTracks(sys, now);
    PollKeysTracks(setup, alive, now, keys);
    var next := Step(setup, sys, Poll(now, keys));
    forall bytes | bytes in next.requests && bytes !in sys.requests
      ensures IsRequest(next, bytes)
    {
      var k :| k in sys.submitted && Encode(sys.submitted[k]) == Ok(bytes);
      assert WasSubmitted(next, sys.submitted[k]);
    }
    StaysGenuine(setup, sys, next);
  }

  lemma AcceptTracks(setup: Setup, sys: System, response: Packet, now: int)
    requires FreshIds(sys) && HostTracks(sys)
    ensures var next := sys.(host := Requests.AcceptResponse(setup.host, sys.host, response, now).0);
            FreshIds(next) && HostTracks(next)
  {
    ExpiryTracks(sys, now);
  }

  lemma ReturnKeepsInv(setup: Setup, sys: System, bytes: seq<u8>, now: int)
    requires Inv(setup, sys)
    ensures Inv(setup, AfterReturn(setup, sys, bytes, now))
  {
    var response := Decode(bytes);
    if response.Ok? {
      AcceptTracks(setup, sys, response.value, now);
      StaysGenuine(setup, sys, AfterReturn(setup, sys, bytes, now));
    }
  }

  lemma CancelKeepsInv(setup: Setup, sys: System, sessionId: u32, requestId: u32)
    requires Inv(setup, sys)
    ensures Inv(setup, Step(setup, sys, Cancel(sessionId, requestId)))
  {
    StaysGenuine(setup, sys, Step(setup, sys, Cancel(sessionId, requestId)));
  }

  lemma SubmitKeepsInv(setup: Setup, sys: System, request: Packet, now: int)
    requires Inv(setup, sys) && sys.host.nextRequestId < U32_MAX
    ensures Inv(setup, AfterSubmit(setup, sys, request, now))
  {
    SubmitHost(setup, sys, request, now);
    StaysGenuine(setup, sys, AfterSubmit(setup, sys, request, now));
  }

  // ---------------------------------------------------------------- node steps

  lemma CompletedKey(p: Packet)
    requires |p.payload| <= MAXIMUM_PAYLOAD_SIZE
    ensures Requests.KeyOf(Completed(p)) == Requests.KeyOf(p)
  {
  }

  /** A request off the wire is one that was submitted. */
  lemma WireRequest(setup: Setup, sys: System, bytes: seq<u8>)
    requires Inv(setup, sys) && bytes in sys.requests
    ensures var d := Decode(bytes);
            d.Ok? &&
            var key := Requests.KeyOf(d.value);
            key in sys.submitted && Encode(sys.submitted[key]).Ok? && d.value == Completed(sys.submitted[key])
  {
    var packet :| WasSubmitted(sys, packet) && Encode(packet) == Ok(bytes);
    DecodeEncode(packet);
    CompletedKey(packet);
  }

  /** What processing a request does to the history, and what it answers with: the answer of a remembered execution,
      that of a new one, or nothing. */
  lemma ProcessEffect(core: Core, max: nat, n: NodeCache.State, request: Packet, now: int)
    requires NodeCache.Encodable(core)
    ensures var (next, r) := NodeCache.ProcessRequest(core, max, n, request, now);
            var key := Requests.KeyOf(request);
            var response := core(n.history, request, now);
            if key in n.cache then
              next.history == n.history &&
              (r.Ok? ==> r.value.Some? && r.value.value.encodedResponse == n.cache[key].encodedResponse)
            else if response.None? then next.history == n.history && r == Ok(None)
            else
              next.history == n.history + [NodeCache.Executed(request, now, response.value)] &&
              r.Ok? && r.value.Some? && Encode(response.value) == Ok(r.value.value.encodedResponse)
  {
  }

  /** The history grows by at most the execution of the request delivered. */
  ghost predicate Grows(sys: System, next: System, request: Packet) {
    var key := Requests.KeyOf(request);
    next.submitted == sys.submitted && next.delivered == sys.delivered[key := |sys.node.history|] &&
    (next.node.history == sys.node.history ||
     exists h: NodeCache.Happening ::
       next.node.history == sys.node.history + [h] && h.Executed? && h.request == request &&
       Requests.KeyOf(h.response) == key)
  }

  lemma DeliverGrows(setup: Setup, sys: System, bytes: seq<u8>, now: int)
    requires WellBehaved(setup.core) && Decode(bytes).Ok?
    ensures Grows(sys, AfterDeliver(setup, sys, bytes, now), Decode(bytes).value)
  {
    var request := Decode(bytes).value;
    ProcessEffect(setup.core, setup.maximumCachedRequests, sys.node, request, now);
    var response := setup.core(sys.node.history, request, now);
    if response.Some? {
      var h := NodeCache.Executed(request, now, response.value);
      assert h.request == request;
    }
  }

  lemma GrowthIsGenuine(sys: System, next: System, request: Packet)
    requires HistoryGenuine(sys) && Grows(sys, next, request)
    requires var key := Requests.KeyOf(request);
             key in sys.submitted && Encode(sys.submitted[key]).Ok? && request == Completed(sys.submitted[key])
    ensures HistoryGenuine(next)
  {
    forall i | 0 <= i < |next.node.history|
      ensures GenuineExecution(next, next.node.history[i])
    {
      if i < |sys.node.history| {
        assert GenuineExecution(sys, sys.node.history[i]);
      }
    }
  }

  lemma GrowthIsRecorded(sys: System, next: System, request: Packet)
    requires DeliveriesRecorded(sys) && DeliveredBefore(sys) && Grows(sys, next, request)
    ensures DeliveriesRecorded(next) && DeliveredBefore(next)
  {
  }

  lemma AnswersStay(sys: System, next: System, bytes: seq<u8>)
    requires ResponsesGenuine(sys) && bytes in sys.responses
    requires next.node.history == sys.node.history || exists h :: next.node.history == sys.node.history + [h]
    ensures exists i: nat :: IsAnswer(next, bytes, i)
  {
    var i: nat :| IsAnswer(sys, bytes, i);
    assert IsAnswer(next, bytes, i);
  }

  lemma DeliverResponses(setup: Setup, sys: System, bytes: seq<u8>, now: int)
    requires WellBehaved(setup.core) && Decode(bytes).Ok?
    requires ResponsesGenuine(sys) && NodeCache.AllRemembered(sys.node)
    ensures ResponsesGenuine(AfterDeliver(setup, sys, bytes, now))
  {
    var request := Decode(bytes).value;
    var key := Requests.KeyOf(request);
    var next := AfterDeliver(setup, sys, bytes, now);
    ProcessEffect(setup.core, setup.maximumCachedRequests, sys.node, request, now);
    DeliverGrows(setup, sys, bytes, now);
    forall b | b in next.responses
      ensures exists i: nat :: IsAnswer(next, b, i)
    {
      if b in sys.responses {
        AnswersStay(sys, next, b);
      } else if key in sys.node.cache {
        assert NodeCache.Remembers(sys.node, key);
        assert IsAnswer(next, b, NodeCache.LastOf(sys.node.history, key));
      } else {
        assert IsAnswer(next, b, |sys.node.history|);
      }
    }
  }

  lemma DeliverKeepsInv(setup: Setup, sys: System, bytes: seq<u8>, now: int)
    requires ValidSetup(setup) && Inv(setup, sys) && bytes in sys.requests
    ensures Inv(setup, AfterDeliver(setup, sys, bytes, now))
  {
    WireRequest(setup, sys, bytes);
    DeliverGrows(setup, sys, bytes, now);
    DeliverResponses(setup, sys, bytes, now);
    var next := AfterDeliver(setup, sys, bytes, now);
    GrowthIsGenuine(sys, next, Decode(bytes).value);
    GrowthIsRecorded(sys, next, Decode(bytes).value);
    NodeCache.ProcessKeepsInv(setup.core, setup.maximumCachedRequests, sys.node, Decode(bytes).value, now);
    forall b | b in next.requests
      ensures IsRequest(next, b)
    {
      var packet :| WasSubmitted(sys, packet) && Encode(packet) == Ok(b);
      assert WasSubmitted(next, packet);
    }
  }

  lemma ClearKeepsInv(setup: Setup, sys: System, sessionId: u32)
    requires Inv(setup, sys)
    ensures Inv(setup, Step(setup, sys, Clear(sessionId)))
  {
    var next := Step(setup, sys, Clear(sessionId));
    NodeCache.ClearKeepsInv(setup.maximumCachedRequests, sys.node, sessionId);
    forall b | b in next.requests
      ensures IsRequest(next, b)
    {
      var packet :| WasSubmitted(sys, packet) && Encode(packet) == Ok(b);
      assert WasSubmitted(next, packet);
    }
    ClearedHistory(sys, next, sessionId);
  }

  /** A happening that executes nothing. */
  ghost predicate GrowsQuietly(sys: System, next: System, h: NodeCache.Happening) {
    !h.Executed? && next.node.history == sys.node.history + [h] && next.submitted == sys.submitted &&
    next.delivered == sys.delivered && next.responses == sys.responses
  }

  lemma QuietIsGenuine(sys: System, next: System, h: NodeCache.Happening)
    requires HistoryGenuine(sys) && GrowsQuietly(sys, next, h)
    ensures HistoryGenuine(next)
  {
    forall i | 0 <= i < |next.node.history|
      ensures GenuineExecution(next, next.node.history[i])
    {
      if i < |sys.node.history| {
        assert GenuineExecution(sys, sys.node.history[i]);
      }
    }
  }

  lemma QuietIsRecorded(sys: System, next: System, h: NodeCache.Happening)
    requires DeliveriesRecorded(sys) && DeliveredBefore(sys) && GrowsQuietly(sys, next, h)
    ensures DeliveriesRecorded(next) && DeliveredBefore(next)
  {
  }

  lemma ClearedHistory(sys: System, next: System, sessionId: u32)
    requires HistoryGenuine(sys) && ResponsesGenuine(sys) && DeliveriesRecorded(sys) && DeliveredBefore(sys)
    requires GrowsQuietly(sys, next, NodeCache.Cleared(sessionId))
    ensures HistoryGenuine(next) && ResponsesGenuine(next) && DeliveriesRecorded(next) && DeliveredBefore(next)
  {
    QuietIsGenuine(sys, next, NodeCache.Cleared(sessionId));
    QuietIsRecorded(sys, next, NodeCache.Cleared(sessionId));
    forall b | b in next.responses
      ensures exists i: nat :: IsAnswer(next, b, i)
    {
      AnswersStay(sys, next, b);
    }
  }

  lemma StepKeepsInv(setup: Setup, sys: System, a: Action)
    requires ValidSetup(setup) && Inv(setup, sys) && Possible(sys, a)
    ensures Inv(setup, Step(setup, sys, a))
  {
    match a
    case Submit(request, now) => SubmitKeepsInv(setup, sys, request, now);
    case Poll(now, keys) => PollKeepsInv(setup, sys, now, keys);
    case Cancel(sessionId, requestId) => CancelKeepsInv(setup, sys, sessionId, requestId);
    case Deliver(bytes, now) => DeliverKeepsInv(setup, sys, bytes, now);
    case Return(bytes, now) => ReturnKeepsInv(setup, sys, bytes, now);
    case Clear(sessionId) => ClearKeepsInv(setup, sys, sessionId);
  }

  // ---------------------------------------------------------------- whole runs

  /** A run of the system: any submissions, polls, deliveries and returns, in any order, as long as the request ids
      have not wrapped around. */
  ghost predicate IsRun(setup: Setup, actions: seq<Action>, states: seq<System>) {
    |states| == |actions| + 1 && states[0] == INITIAL &&
    forall i | 0 <= i < |actions| ::
      Possible(states[i], actions[i]) && states[i + 1] == Step(setup, states[i], actions[i])
  }

  lemma {:induction false} RunKeepsInv(setup: Setup, actions: seq<Action>, states: seq<System>, i: nat)
    requires ValidSetup(setup) && IsRun(setup, actions, states) && i <= |actions|
    ensures Inv(setup, states[i])
  {
    if i == 0 {
      NodeCache.InitialInv(setup.maximumCachedRequests);
    } else {
      RunKeepsInv(setup, actions, states, i - 1);
      StepKeepsInv(setup, states[i - 1], actions[i - 1]);
    }
  }

  // ---------------------------------------------------------------- the guarantees

  /** No delivery is ever taken for a conflicting duplicate. */
  lemma NeverConflicts(setup: Setup, sys: System, bytes: seq<u8>, now: int)
    requires ValidSetup(setup) && Inv(setup, sys) && bytes in sys.requests
    ensures Decode(bytes).Ok?
    ensures NodeCache.ProcessRequest(setup.core, setup.maximumCachedRequests, sys.node, Decode(bytes).value, now).1.Ok?
  {
    WireRequest(setup, sys, bytes);
    var request := Decode(bytes).value;
    var key := Requests.KeyOf(request);
    if key in sys.node.cache {
      assert NodeCache.SameRequest(sys.node.cache[key].request, request) by {
        assert NodeCache.Remembers(sys.node, key);
        assert GenuineExecution(sys, sys.node.history[NodeCache.LastOf(sys.node.history, key)]);
      }
    }
  }

  /** The requests of a key that the node executed. */
  ghost predicate ExecutedAt(sys: System, key: u64, i: nat) {
    i < |sys.node.history| && NodeCache.Executes(sys.node.history[i], key)
  }

  /** From its first execution to its last delivery a request's session is not cleared, and fewer than
      `maximumCachedRequests` other requests execute. */
  ghost predicate Undisturbed(setup: Setup, sys: System, key: u64, first: nat) {
    && ExecutedAt(sys, key, first) && (forall i | 0 <= i < first :: !ExecutedAt(sys, key, i))
    && key in sys.delivered && first <= sys.delivered[key] <= |sys.node.history|
    && (forall j | first <= j < sys.delivered[key] ::
         sys.node.history[j] != NodeCache.Cleared(Requests.SessionOf(key)))
    && NodeCache.CountOthers(sys.node.history[first..sys.delivered[key]], key) < setup.maximumCachedRequests
  }

  /** Then it is executed once, however often it arrives. */
  lemma AppliedAtMostOnce(setup: Setup, sys: System, key: u64, first: nat)
    requires ValidSetup(setup) && Inv(setup, sys) && Undisturbed(setup, sys, key, first)
    ensures forall i: nat | ExecutedAt(sys, key, i) :: i == first
  {
    var history, to := sys.node.history, sys.delivered[key];
    forall i: nat | ExecutedAt(sys, key, i)
      ensures i == first
    {
      if first < i {
        OthersBetween(setup.maximumCachedRequests, history, first, i, to, key);
      }
    }
  }

  /** Between two executions of a request whose session is not cleared there are at least `max` of others. */
  lemma OthersBetween(max: nat, history: NodeCache.History, first: nat, i: nat, to: nat, key: u64)
    requires NodeCache.Legal(max, history) && first < i <= to <= |history| && i < |history|
    requires NodeCache.Executes(history[first], key) && NodeCache.Executes(history[i], key)
    requires forall j | first <= j < to :: history[j] != NodeCache.Cleared(Requests.SessionOf(key))
    ensures NodeCache.CountOthers(history[first..to], key) >= max
  {
    var before := history[..i];
    assert before[first..] == history[first..i];
    assert NodeCache.MayExecute(max, before, key);
    CountPositive(before, first, first, key);
    NodeCache.LastExists(before, first, key);
    NodeCache.OthersAfterLast(before, first, key);
    OthersGrow(history, first, i, to, key);
  }

  lemma {:induction false} CountPositive(history: NodeCache.History, from: nat, i: nat, key: u64)
    requires from <= i < |history| && NodeCache.Executes(history[i], key)
    ensures NodeCache.CountOf(history[from..], key) > 0
  {
    var last := |history| - 1;
    assert history[from..][..last - from] == history[..last][from..];
    if i < last {
      CountPositive(history[..last], from, i, key);
    }
  }

  lemma {:induction false} OthersGrow(history: NodeCache.History, from: nat, i: nat, to: nat, key: u64)
    requires from <= i <= to <= |history|
    ensures NodeCache.CountOthers(history[from..i], key) <= NodeCache.CountOthers(history[from..to], key)
  {
    if i < to {
      assert history[from..to][..to - 1 - from] == history[from..to - 1];
      OthersGrow(history, from, i, to - 1, key);
    }
  }

  /** Execution i was of the request `pending` as it came over the wire, and answered with `response`. */
  ghost predicate Answered(sys: System, pending: Packet, response: Packet, i: nat) {
    i < |sys.node.history| && sys.node.history[i].Executed? &&
    Encode(pending).Ok? && sys.node.history[i].request == Completed(pending) &&
    Encode(sys.node.history[i].response).Ok? && response == Completed(sys.node.history[i].response)
  }

  /** What comes off the wire for the host is the answer of an execution of a submitted request. */
  lemma WireResponse(setup: Setup, sys: System, bytes: seq<u8>, response: Packet)
    requires Inv(setup, sys) && bytes in sys.responses && Decode(bytes) == Ok(response)
    ensures var key := Requests.KeyOf(response);
            key in sys.submitted &&
            exists i: nat :: ExecutedAt(sys, key, i) && Answered(sys, sys.submitted[key], response, i)
  {
    var i: nat :| IsAnswer(sys, bytes, i);
    var h := sys.node.history[i];
    assert GenuineExecution(sys, h);
    DecodeEncode(h.response);
    CompletedKey(h.response);
    var key := Requests.KeyOf(h.request);
    assert ExecutedAt(sys, key, i);
    assert Answered(sys, sys.submitted[key], response, i);
  }

  lemma MatchedWasPending(c: Requests.Config, host: Requests.State, response: Packet, now: int)
    requires Requests.AcceptResponse(c, host, response, now).1.Matched?
    ensures Requests.KeyOf(response) in host.pending
  {
  }

  /** A response that the host matches was given by an execution of exactly the request it was waiting for. */
  lemma MatchedIsTheExecution(setup: Setup, sys: System, bytes: seq<u8>, response: Packet, now: int)
    requires Inv(setup, sys) && bytes in sys.responses && Decode(bytes) == Ok(response)
    requires Requests.AcceptResponse(setup.host, sys.host, response, now).1.Matched?
    ensures var key := Requests.KeyOf(response);
            key in sys.host.pending &&
            exists i: nat :: ExecutedAt(sys, key, i) && Answered(sys, sys.host.pending[key].packet, response, i)
  {
    WireResponse(setup, sys, bytes, response);
    MatchedWasPending(setup.host, sys.host, response, now);
  }

  /** Both together: an undisturbed request is executed once, and the response matched is the one that execution
      gave. */
  lemma MatchedIsTheOnlyExecution(setup: Setup, sys: System, bytes: seq<u8>, response: Packet, now: int, first: nat)
    requires ValidSetup(setup) && Inv(setup, sys) && bytes in sys.responses && Decode(bytes) == Ok(response)
    requires Requests.AcceptResponse(setup.host, sys.host, response, now).1.Matched?
    requires Undisturbed(setup, sys, Requests.KeyOf(response), first)
    ensures var key := Requests.KeyOf(response);
            key in sys.host.pending && Answered(sys, sys.host.pending[key].packet, response, first) &&
            forall i: nat | ExecutedAt(sys, key, i) :: i == first
  {
    var key := Requests.KeyOf(response);
    MatchedIsTheExecution(setup, sys, bytes, response, now);
    AppliedAtMostOnce(setup, sys, key, first);
  }
}
