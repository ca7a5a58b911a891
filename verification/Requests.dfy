/** The host's request manager (toolbusd/src/request_manager.cpp): its state as a value. */
module Requests {
  import opened FixedWidth
  import opened Results
  import opened Sequences
  import opened PacketCodec

  const COMMAND_GPIO_CREATE: u16 := 0x0100
  const COMMAND_UART_CREATE: u16 := 0x0200
  const ERROR_RESPONSE_FLAG: u16 := 1

  datatype Config = Config(timeout: int, maximumRetries: nat, duplicateWindow: int)

  datatype Pending = Pending(packet: Packet, deadline: int, retriesRemaining: nat)

  datatype State = State(nextRequestId: u32, pending: map<u64, Pending>, completed: map<u64, int>)

  datatype RequestError = InvalidConfiguration | NotRequest | RequestIdExhausted

  datatype Event =
    | Retry(sessionId: u32, requestId: u32, packet: Packet)
    | TimedOut(sessionId: u32, requestId: u32)

  datatype ResponseStatus = Matched | Duplicate | Unexpected

  predicate ValidConfig(c: Config) {
    c.timeout > 0 && c.duplicateWindow > 0
  }

  const INITIAL: State := State(1, map[], map[])

  /** (session << 32) | request */
  function Key(sessionId: u32, requestId: u32): u64 {
    sessionId * 0x1_0000_0000 + requestId
  }

  function SessionOf(key: u64): u32 {
    key / 0x1_0000_0000
  }

  function RequestIdOf(key: u64): u32 {
    key % 0x1_0000_0000
  }

  lemma KeyParts(sessionId: u32, requestId: u32)
    ensures SessionOf(Key(sessionId, requestId)) == sessionId
    ensures RequestIdOf(Key(sessionId, requestId)) == requestId
  {
  }

  function KeyOf(p: Packet): u64 {
    Key(p.header.sessionId, p.header.requestId)
  }

  function ExpireCompleted(s: State, now: int): State {
    s.(completed := map k | k in s.completed && now < s.completed[k] :: s.completed[k])
  }

  // ---------------------------------------------------------------- request ids

  function NextId(id: u32): (next: u32)
    ensures next != 0
  {
    var next := Wrap32(id + 1);
    if next == 0 then 1 else next
  }

  predicate InUse(s: State, key: u64) {
    key in s.pending || key in s.completed
  }

  /** At most `attempts` candidates are tried. */
  function Allocate(s: State, sessionId: u32, attempts: nat): (State, Option<u32>)
    decreases attempts
  {
    if attempts == 0 then (s, None)
    else
      var candidate := s.nextRequestId;
      var next := s.(nextRequestId := NextId(candidate));
      if InUse(next, Key(sessionId, candidate)) then Allocate(next, sessionId, attempts - 1)
      else (next, Some(candidate))
  }

  // ---------------------------------------------------------------- operations

  function WithRequestId(p: Packet, id: u32): Packet {
    p.(header := p.header.(requestId := id))
  }

  function Submit(c: Config, s: State, request: Packet, now: int): (State, Result<Packet, RequestError>) {
    var alive := ExpireCompleted(s, now);
    if request.header.messageType != MESSAGE_REQUEST then (alive, Err(NotRequest))
    else
      var (next, id) := Allocate(alive, request.header.sessionId, U32_MAX);
      if id.None? then (next, Err(RequestIdExhausted))
      else
        var packet := WithRequestId(request, id.value);
        (next.(pending := next.pending[KeyOf(packet) := Pending(packet, now + c.timeout, c.maximumRetries)]),
         Ok(packet))
  }

  predicate IsErrorResponse(response: Packet) {
    response.header.flags % 2 == 1
  }

  /** Does the response fit the request? A successful create answers with the new object's id. */
  predicate Fits(request: Packet, response: Packet) {
    var creates := request.header.command == COMMAND_GPIO_CREATE || request.header.command == COMMAND_UART_CREATE;
    request.header.command == response.header.command &&
    (if creates && !IsErrorResponse(response)
     then request.header.objectId == 0 && response.header.objectId != 0
     else response.header.objectId == request.header.objectId)
  }

  function AcceptResponse(c: Config, s: State, response: Packet, now: int): (State, ResponseStatus) {
    var alive := ExpireCompleted(s, now);
    var key := KeyOf(response);
    if response.header.messageType != MESSAGE_RESPONSE then (alive, Unexpected)
    else if key !in alive.pending then (alive, if key in alive.completed then Duplicate else Unexpected)
    else if !Fits(alive.pending[key].packet, response) then (alive, Unexpected)
    else
      (alive.(pending := alive.pending - {key},
              completed := alive.completed[key := now + c.duplicateWindow]), Matched)
  }

  /** One turn of poll's loop: nothing, a retry or a timeout. */
  function PollKey(c: Config, s: State, now: int, key: u64): (State, seq<Event>)
    requires key in s.pending
  {
    var p := s.pending[key];
    if now < p.deadline then (s, [])
    else if p.retriesRemaining > 0 then
      (s.(pending := s.pending[key := p.(retriesRemaining := p.retriesRemaining - 1, deadline := now + c.timeout)]),
       [Retry(p.packet.header.sessionId, p.packet.header.requestId, p.packet)])
    else
      (s.(pending := s.pending - {key}, completed := s.completed[key := now + c.duplicateWindow]),
       [TimedOut(SessionOf(key), p.packet.header.requestId)])
  }

  /** The loop of poll over the pending requests, in the order `keys` in which the map yields them. */
  function PollKeys(c: Config, s: State, now: int, keys: seq<u64>): (State, seq<Event>)
    requires Distinct(keys) && forall i | 0 <= i < |keys| :: keys[i] in s.pending
    decreases keys
  {
    if keys == [] then (s, [])
    else
      var (next, events) := PollKey(c, s, now, keys[0]);
      var (final, rest) := PollKeys(c, next, now, keys[1..]);
      (final, events + rest)
  }

  /** An order in which the map may yield its keys. */
  ghost predicate Enumerates(keys: seq<u64>, pending: map<u64, Pending>) {
    Distinct(keys) && forall k :: k in keys <==> k in pending
  }

  function Poll(c: Config, s: State, now: int, keys: seq<u64>): (State, seq<Event>)
    requires Distinct(keys) && forall i | 0 <= i < |keys| :: keys[i] in s.pending
  {
    PollKeys(c, ExpireCompleted(s, now), now, keys)
  }

  function Cancel(s: State, sessionId: u32, requestId: u32): (State, bool) {
    var key := Key(sessionId, requestId);
    (s.(pending := s.pending - {key}), key in s.pending)
  }

  // ---------------------------------------------------------------- id allocation

  /** The candidate tried after j others. */
  function Candidate(start: u32, j: nat): u32
    requires start != 0
  {
    (start - 1 + j) % U32_MAX + 1
  }

  lemma CandidateStep(start: u32, j: nat)
    requires start != 0
    ensures Candidate(NextId(start), j) == Candidate(start, j + 1)
    ensures Candidate(start, 0) == start
  {
  }

  lemma {:induction false} AllocateTries(s: State, sessionId: u32, attempts: nat)
    requires s.nextRequestId != 0
    ensures var (next, id) := Allocate(s, sessionId, attempts);
            next.pending == s.pending && next.completed == s.completed && next.nextRequestId != 0 &&
            (id.Some? ==> id.value != 0 && !InUse(s, Key(sessionId, id.value))) &&
            (id.None? ==> forall j | 0 <= j < attempts :: InUse(s, Key(sessionId, Candidate(s.nextRequestId, j))))
    decreases attempts
  {
    if attempts > 0 {
      var start := s.nextRequestId;
      CandidateStep(start, 0);
      var next := s.(nextRequestId := NextId(start));
      if InUse(s, Key(sessionId, start)) {
        AllocateTries(next, sessionId, attempts - 1);
        if Allocate(next, sessionId, attempts - 1).1.None? {
          forall j | 0 <= j < attempts
            ensures InUse(s, Key(sessionId, Candidate(start, j)))
          {
            if j > 0 {
              CandidateStep(start, j - 1);
              assert InUse(next, Key(sessionId, Candidate(next.nextRequestId, j - 1)));
            }
          }
        }
      }
    }
  }

  /** Every nonzero id is some candidate. */
  lemma CandidatesCoverIds(start: u32, id: u32) returns (j: nat)
    requires start != 0 && id != 0
    ensures j < U32_MAX && Candidate(start, j) == id
  {
    j := if id >= start then id - start else id - start + U32_MAX;
  }

  /** Allocation fails only when every nonzero id of the session is in use, and else gives an unused one. */
  lemma AllocationFailsOnlyWhenFull(s: State, sessionId: u32)
    requires s.nextRequestId != 0
    ensures var id := Allocate(s, sessionId, U32_MAX).1;
            (id.None? <==> forall other: u32 | other != 0 :: InUse(s, Key(sessionId, other))) &&
            (id.Some? ==> id.value != 0 && !InUse(s, Key(sessionId, id.value)))
  {
    AllocateTries(s, sessionId, U32_MAX);
    if Allocate(s, sessionId, U32_MAX).1.None? {
      forall other: u32 | other != 0
        ensures InUse(s, Key(sessionId, other))
      {
        var j := CandidatesCoverIds(s.nextRequestId, other);
      }
    }
  }
}
