/** What the request manager answers, on the fields of the packets: which responses it matches, what a poll does to each
    pending request, and that every request ends (toolbusd/src/request_manager.cpp:24-165). */
module RequestAnswers {
  import opened FixedWidth
  import opened Results
  import opened Sequences
  import opened PacketCodec
  import opened Requests

  // ---------------------------------------------------------------- responses

  /** The response names the object that its request calls for: a create that succeeds names a new object, anything else
      the object of the request. */
  predicate NamesItsObject(request: Header, response: Header) {
    if (request.command == 0x0100 || request.command == 0x0200) && response.flags % 2 == 0
    then request.objectId == 0 && response.objectId != 0
    else response.objectId == request.objectId
  }

  /** The response answers this request: same session, id and command, and the right object. */
  predicate AnswersTo(request: Header, response: Header) {
    && response.messageType == 2
    && response.sessionId == request.sessionId && response.requestId == request.requestId
    && response.command == request.command
    && NamesItsObject(request, response)
  }

  /** Completed keys that are still remembered. */
  function Remembered(s: State, now: int): map<u64, int> {
    map k | k in s.completed && s.completed[k] > now :: s.completed[k]
  }

  /** Every pending request stands under the key of its packet. */
  ghost predicate KeyedByPacket(s: State) {
    forall k | k in s.pending :: KeyOf(s.pending[k].packet) == k
  }

  lemma SameKeySameIds(a: Packet, b: Packet)
    ensures KeyOf(a) == KeyOf(b) <==>
              a.header.sessionId == b.header.sessionId && a.header.requestId == b.header.requestId
  {
    KeyParts(a.header.sessionId, a.header.requestId);
    KeyParts(b.header.sessionId, b.header.requestId);
  }

  /** Every answer of accept_response: a response is matched if and only if it answers a request that is pending, which then
      is completed and remembered; it is a duplicate if and only if its request is no longer pending but still remembered;
      and anything else is unexpected and changes nothing. */
  lemma AcceptExactly(c: Config, s: State, response: Packet, now: int)
    requires KeyedByPacket(s)
    ensures var (next, status) := AcceptResponse(c, s, response, now); var key := KeyOf(response);
            && (status.Matched? <==> exists k :: k in s.pending && AnswersTo(s.pending[k].packet.header, response.header))
            && (status.Duplicate? <==>
                  response.header.messageType == 2 && key !in s.pending && key in s.completed && s.completed[key] > now)
            && next.nextRequestId == s.nextRequestId
            && (if status.Matched? then
                  key in s.pending && next.pending == s.pending - {key} &&
                  next.completed == Remembered(s, now)[key := now + c.duplicateWindow]
                else next.pending == s.pending && next.completed == Remembered(s, now))
  {
    var key := KeyOf(response);
    assert ExpireCompleted(s, now).completed == Remembered(s, now);
    if k :| k in s.pending && AnswersTo(s.pending[k].packet.header, response.header) {
      SameKeySameIds(s.pending[k].packet, response);
    }
    if key in s.pending {
      SameKeySameIds(s.pending[key].packet, response);
      assert AnswersTo(s.pending[key].packet.header, response.header) <==>
             response.header.messageType == 2 && Fits(s.pending[key].packet, response);
    }
  }

  // ---------------------------------------------------------------- submitting and cancelling

  /** What a submission does: it is refused for what is no request and when no id is left; else it sends the request under a
      nonzero id that nothing pending or remembered uses, and waits for it with all its retries. */
  lemma SubmitExactly(c: Config, s: State, request: Packet, now: int)
    requires s.nextRequestId != 0
    ensures var (next, r) := Submit(c, s, request, now);
            var free := exists id: u32 ::
              id != 0 && Key(request.header.sessionId, id) !in s.pending &&
              Key(request.header.sessionId, id) !in Remembered(s, now);
            && next.completed == Remembered(s, now)
            && (r == Err(NotRequest) <==> request.header.messageType != 1)
            && (r == Err(RequestIdExhausted) <==> request.header.messageType == 1 && !free)
            && (r.Ok? <==> request.header.messageType == 1 && free)
            && (r.Err? ==> next.pending == s.pending)
            && (r.Ok? ==>
                  var id := r.value.header.requestId; var key := Key(request.header.sessionId, id);
                  && id != 0 && r.value == request.(header := request.header.(requestId := id))
                  && key !in s.pending && key !in Remembered(s, now)
                  && next.pending == s.pending[key := Pending(r.value, now + c.timeout, c.maximumRetries)])
  {
    var alive := ExpireCompleted(s, now);
    assert alive.completed == Remembered(s, now);
    AllocationFailsOnlyWhenFull(alive, request.header.sessionId);
    AllocateTries(alive, request.header.sessionId, U32_MAX);
  }

  lemma CancelExactly(s: State, sessionId: u32, requestId: u32)
    ensures var (next, cancelled) := Cancel(s, sessionId, requestId); var key := Key(sessionId, requestId);
            (cancelled <==> key in s.pending) && next == s.(pending := s.pending - {key})
  {
  }

  /** Requests stand under the keys of their packets from the start and ever after. */
  lemma KeysStay(c: Config, s: State, packet: Packet, sessionId: u32, requestId: u32, now: int)
    requires KeyedByPacket(s) && s.nextRequestId != 0
    ensures KeyedByPacket(INITIAL)
    ensures KeyedByPacket(Submit(c, s, packet, now).0) && KeyedByPacket(AcceptResponse(c, s, packet, now).0)
    ensures KeyedByPacket(Cancel(s, sessionId, requestId).0)
  {
    SubmitExactly(c, s, packet, now);
  }

  // ---------------------------------------------------------------- polling

  /** What a poll makes of one pending request. */
  ghost predicate Polled(c: Config, s: State, next: State, events: seq<Event>, now: int, key: u64)
    requires key in s.pending
  {
    var p := s.pending[key]; var h := p.packet.header;
    if now < p.deadline then key in next.pending && next.pending[key] == p
    else if p.retriesRemaining > 0 then
      key in next.pending && next.pending[key] == Pending(p.packet, now + c.timeout, p.retriesRemaining - 1) &&
      Retry(h.sessionId, h.requestId, p.packet) in events
    else
      key !in next.pending && key in next.completed && next.completed[key] == now + c.duplicateWindow &&
      TimedOut(h.sessionId, h.requestId) in events
  }

  /** The event is that of a pending request whose deadline has passed. */
  ghost predicate DueEvent(s: State, e: Event, now: int, key: u64) {
    key in s.pending && s.pending[key].deadline <= now &&
    var p := s.pending[key]; var h := p.packet.header;
    e == if p.retriesRemaining > 0 then Retry(h.sessionId, h.requestId, p.packet) else TimedOut(h.sessionId, h.requestId)
  }

  lemma {:induction false} PollKeysExactly(c: Config, s: State, now: int, keys: seq<u64>)
    requires KeyedByPacket(s) && Distinct(keys) && forall i | 0 <= i < |keys| :: keys[i] in s.pending
    ensures var (next, events) := PollKeys(c, s, now, keys);
            && KeyedByPacket(next) && next.nextRequestId == s.nextRequestId
            && (forall i | 0 <= i < |keys| :: Polled(c, s, next, events, now, keys[i]))
            && (forall k | k !in keys :: (k in next.pending <==> k in s.pending) &&
                                         (k in s.pending ==> next.pending[k] == s.pending[k]))
            && (forall k | k !in keys :: (k in next.completed <==> k in s.completed) &&
                                         (k in s.completed ==> next.completed[k] == s.completed[k]))
            && (forall e | e in events :: exists k :: k in keys && DueEvent(s, e, now, k))
    decreases |keys|
  {
    if keys != [] {
      PollKeyExactly(c, s, now, keys[0]);
      var (middle, first) := PollKey(c, s, now, keys[0]);
      var rest := keys[1..];
      PollKeysExactly(c, middle, now, rest);
      var (next, others) := PollKeys(c, middle, now, rest);
      forall i | 0 <= i < |keys|
        ensures Polled(c, s, next, first + others, now, keys[i])
      {
        if i > 0 {
          assert keys[i] == rest[i - 1] && Polled(c, middle, next, others, now, rest[i - 1]);
        }
      }
      forall e | e in first + others
        ensures exists k :: k in keys && DueEvent(s, e, now, k)
      {
        if e in first {
          assert DueEvent(s, e, now, keys[0]);
        } else {
          var k :| k in rest && DueEvent(middle, e, now, k);
          assert k in keys && DueEvent(s, e, now, k);
        }
      }
    }
  }

  lemma PollKeyExactly(c: Config, s: State, now: int, key: u64)
    requires KeyedByPacket(s) && key in s.pending
    ensures var (next, events) := PollKey(c, s, now, key);
            && KeyedByPacket(next) && next.nextRequestId == s.nextRequestId
            && Polled(c, s, next, events, now, key)
            && (forall k | k != key :: (k in next.pending <==> k in s.pending) &&
                                       (k in s.pending ==> next.pending[k] == s.pending[k]))
            && (forall k | k != key :: (k in next.completed <==> k in s.completed) &&
                                       (k in s.completed ==> next.completed[k] == s.completed[k]))
            && (forall e | e in events :: DueEvent(s, e, now, key))
  {
    var h := s.pending[key].packet.header;
    KeyParts(h.sessionId, h.requestId);
  }

  /** A poll, whatever the order of the map: a request before its deadline stays as it is; one past it is sent again if it
      has a retry left, and else is given up and remembered.  There are no other events. */
  lemma PollExactly(c: Config, s: State, now: int, keys: seq<u64>)
    requires KeyedByPacket(s) && Enumerates(keys, s.pending)
    ensures var (next, events) := Poll(c, s, now, keys);
            && KeyedByPacket(next)
            && (forall k | k in s.pending :: Polled(c, s, next, events, now, k))
            && (forall k | k in next.pending :: k in s.pending)
            && (forall k | k !in s.pending :: (k in next.completed <==> k in Remembered(s, now)) &&
                                              (k in next.completed ==> next.completed[k] == s.completed[k]))
            && (forall e | e in events :: exists k :: DueEvent(s, e, now, k))
  {
    var alive := ExpireCompleted(s, now);
    PollKeysExactly(c, alive, now, keys);
    var (next, events) := Poll(c, s, now, keys);
    forall k | k in s.pending
      ensures Polled(c, s, next, events, now, k)
    {
      var i :| 0 <= i < |keys| && keys[i] == k;
      assert Polled(c, alive, next, events, now, keys[i]);
    }
    forall e | e in events
      ensures exists k :: DueEvent(s, e, now, k)
    {
      var k :| k in keys && DueEvent(alive, e, now, k);
      assert DueEvent(s, e, now, k);
    }
  }

  // ---------------------------------------------------------------- every request ends

  datatype Turn = Turn(now: int, keys: seq<u64>)

  /** Polls one after the other, each with the map's order at its time. */
  ghost predicate Turns(c: Config, s: State, turns: seq<Turn>)
    decreases |turns|
  {
    turns != [] ==>
      Enumerates(turns[0].keys, s.pending) && Turns(c, Poll(c, s, turns[0].now, turns[0].keys).0, turns[1..])
  }

  ghost function AfterTurns(c: Config, s: State, turns: seq<Turn>): State
    requires Turns(c, s, turns)
    decreases |turns|
  {
    if turns == [] then s else AfterTurns(c, Poll(c, s, turns[0].now, turns[0].keys).0, turns[1..])
  }

  /** Polls that come late enough for each deadline in turn. */
  ghost predicate Spread(c: Config, turns: seq<Turn>, deadline: int)
    decreases |turns|
  {
    turns != [] ==> turns[0].now >= deadline && Spread(c, turns[1..], turns[0].now + c.timeout)
  }

  lemma {:induction false} NothingComesBack(c: Config, s: State, turns: seq<Turn>, key: u64)
    requires KeyedByPacket(s) && Turns(c, s, turns) && key !in s.pending
    ensures key !in AfterTurns(c, s, turns).pending
    decreases |turns|
  {
    if turns != [] {
      PollExactly(c, s, turns[0].now, turns[0].keys);
      NothingComesBack(c, Poll(c, s, turns[0].now, turns[0].keys).0, turns[1..], key);
    }
  }

  /** A request that gets no response is given up: after one poll past its deadline for each retry that it has left, and
      one more, it is no longer pending. */
  lemma {:induction false} EveryRequestEnds(c: Config, s: State, turns: seq<Turn>, key: u64)
    requires KeyedByPacket(s) && Turns(c, s, turns) && key in s.pending
    requires Spread(c, turns, s.pending[key].deadline) && |turns| > s.pending[key].retriesRemaining
    ensures key !in AfterTurns(c, s, turns).pending
    decreases |turns|
  {
    var next := Poll(c, s, turns[0].now, turns[0].keys).0;
    PollExactly(c, s, turns[0].now, turns[0].keys);
    assert Polled(c, s, next, Poll(c, s, turns[0].now, turns[0].keys).1, turns[0].now, key);
    if key in next.pending {
      EveryRequestEnds(c, next, turns[1..], key);
    } else {
      NothingComesBack(c, next, turns[1..], key);
    }
  }
}
