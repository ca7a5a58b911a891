/** Nothing genuine is dropped: over a network that loses, repeats and reorders packets, the host matches every response
    that comes back while its request is pending (toolbusd/src/request_manager.cpp:41-82). */
module ReliableAnswers {
  import opened FixedWidth
  import opened Results
  import opened PacketCodec
  import Requests
  import NodeCache
  import opened ReliableDelivery
  import opened RequestAnswers

  /** What the core answers is an answer to its request: a response with the same ids and command, and the right object. */
  ghost predicate Answering(core: Core) {
    forall history, request, now :: core(history, request, now).Some? ==>
      AnswersTo(request.header, core(history, request, now).value.header)
  }

  /** The responses in the history are the core's. */
  ghost predicate FromCore(setup: Setup, sys: System) {
    forall i | 0 <= i < |sys.node.history| && sys.node.history[i].Executed? ::
      var h := sys.node.history[i];
      setup.core(sys.node.history[..i], h.request, h.at) == Some(h.response)
  }

  lemma OneMoreFromCore(setup: Setup, sys: System, next: System, h: NodeCache.Happening)
    requires FromCore(setup, sys) && next.node.history == sys.node.history + [h]
    requires h.Executed? ==> setup.core(sys.node.history, h.request, h.at) == Some(h.response)
    ensures FromCore(setup, next)
  {
    var n := |sys.node.history|;
    forall i | 0 <= i < |next.node.history| && next.node.history[i].Executed?
      ensures var g := next.node.history[i];
              setup.core(next.node.history[..i], g.request, g.at) == Some(g.response)
    {
      if i < n {
        assert next.node.history[..i] == sys.node.history[..i] && next.node.history[i] == sys.node.history[i];
      } else {
        assert next.node.history[..i] == sys.node.history;
      }
    }
  }

  lemma DeliverFromCore(setup: Setup, sys: System, bytes: seq<u8>, now: int)
    requires ValidSetup(setup) && FromCore(setup, sys)
    ensures FromCore(setup, AfterDeliver(setup, sys, bytes, now))
  {
    var decoded := Decode(bytes);
    if decoded.Ok? {
      var request := decoded.value;
      var next := AfterDeliver(setup, sys, bytes, now);
      ProcessEffect(setup.core, setup.maximumCachedRequests, sys.node, request, now);
      var response := setup.core(sys.node.history, request, now);
      if Requests.KeyOf(request) !in sys.node.cache && response.Some? {
        OneMoreFromCore(setup, sys, next, NodeCache.Executed(request, now, response.value));
      }
    }
  }

  lemma StepFromCore(setup: Setup, sys: System, a: Action)
    requires ValidSetup(setup) && FromCore(setup, sys) && Possible(sys, a)
    ensures FromCore(setup, Step(setup, sys, a))
  {
    match a
    case Submit(request, now) =>
    case Poll(now, keys) =>
    case Cancel(sessionId, requestId) =>
    case Deliver(bytes, now) => DeliverFromCore(setup, sys, bytes, now);
    case Return(bytes, now) =>
    case Clear(sessionId) => OneMoreFromCore(setup, sys, Step(setup, sys, a), NodeCache.Cleared(sessionId));
  }

  lemma {:induction false} RunFromCore(setup: Setup, actions: seq<Action>, states: seq<System>, i: nat)
    requires ValidSetup(setup) && IsRun(setup, actions, states) && i <= |actions|
    ensures FromCore(setup, states[i])
  {
    if i > 0 {
      RunFromCore(setup, actions, states, i - 1);
      StepFromCore(setup, states[i - 1], actions[i - 1]);
    }
  }

  /** A response on the wire answers the request that was submitted under its ids. */
  lemma WireAnswers(setup: Setup, sys: System, bytes: seq<u8>, response: Packet)
    requires ResponsesGenuine(sys) && HistoryGenuine(sys) && FromCore(setup, sys) && Answering(setup.core)
    requires bytes in sys.responses && Decode(bytes) == Ok(response)
    ensures var key := Requests.KeyOf(response);
            key in sys.submitted && AnswersTo(sys.submitted[key].header, response.header)
  {
    var i: nat :| IsAnswer(sys, bytes, i);
    var h := sys.node.history[i];
    assert GenuineExecution(sys, h);
    assert AnswersTo(h.request.header, h.response.header) by {
      assert setup.core(sys.node.history[..i], h.request, h.at) == Some(h.response);
    }
    DecodeEncode(h.response);
    ExecutedAnswers(sys, h, response);
  }

  lemma ExecutedAnswers(sys: System, h: NodeCache.Happening, response: Packet)
    requires h.Executed? && GenuineExecution(sys, h) && AnswersTo(h.request.header, h.response.header)
    requires |h.response.payload| <= MAXIMUM_PAYLOAD_SIZE && response == Completed(h.response)
    ensures var key := Requests.KeyOf(response);
            key in sys.submitted && AnswersTo(sys.submitted[key].header, response.header)
  {
    CompletedKey(h.response);
    CompletedAnswers(sys.submitted[Requests.KeyOf(h.request)], h.response);
  }

  /** Filling in length and CRC changes nothing that is matched. */
  lemma CompletedAnswers(request: Packet, response: Packet)
    requires |request.payload| <= MAXIMUM_PAYLOAD_SIZE && |response.payload| <= MAXIMUM_PAYLOAD_SIZE
    ensures AnswersTo(Completed(request).header, response.header) ==>
              AnswersTo(request.header, Completed(response).header)
  {
  }

  lemma HostKeyed(setup: Setup, sys: System)
    requires Inv(setup, sys)
    ensures KeyedByPacket(sys.host)
  {
  }

  /** A response that comes back while its request is pending is matched, in whatever order things arrived, however often
      the request or the response was repeated, and whatever else was lost. */
  lemma GenuineIsMatched(setup: Setup, actions: seq<Action>, states: seq<System>, i: nat, bytes: seq<u8>,
      response: Packet, now: int)
    requires ValidSetup(setup) && Answering(setup.core) && IsRun(setup, actions, states) && i <= |actions|
    requires bytes in states[i].responses && Decode(bytes) == Ok(response)
    ensures Requests.AcceptResponse(setup.host, states[i].host, response, now).1.Matched? <==>
              Requests.KeyOf(response) in states[i].host.pending
  {
    var sys := states[i];
    RunKeepsInv(setup, actions, states, i);
    RunFromCore(setup, actions, states, i);
    WireAnswers(setup, sys, bytes, response);
    HostKeyed(setup, sys);
    AcceptExactly(setup.host, sys.host, response, now);
    MatchedHasKey(setup, sys, response);
  }

  lemma MatchedHasKey(setup: Setup, sys: System, response: Packet)
    requires KeyedByPacket(sys.host)
    ensures forall k | k in sys.host.pending && AnswersTo(sys.host.pending[k].packet.header, response.header) ::
              k == Requests.KeyOf(response)
  {
    forall k | k in sys.host.pending && AnswersTo(sys.host.pending[k].packet.header, response.header)
      ensures k == Requests.KeyOf(response)
    {
      SameKeySameIds(sys.host.pending[k].packet, response);
    }
  }
}
