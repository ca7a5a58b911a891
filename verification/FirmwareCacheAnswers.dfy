/** What the firmware answers to a request that it has executed before (firmware/src/core.c:252-349, 961). */
module FirmwareCacheAnswers {
  import opened FixedWidth
  import opened Results
  import opened Words
  import opened PacketCodec
  import opened FirmwareCache

  /** Execution j is the last one of the request's session and id. */
  ghost predicate IsLatest(log: seq<Execution>, j: nat, request: Request) {
    j < |log| && log[j].request.sessionId == request.sessionId && log[j].request.requestId == request.requestId &&
    forall k | j < k < |log| ::
      !(log[k].request.sessionId == request.sessionId && log[k].request.requestId == request.requestId)
  }

  /** Its answer fits an entry, and fewer than `entries` answers that fit have been given since. */
  ghost predicate Kept(c: Config, log: seq<Execution>, j: nat)
    requires j < |log|
  {
    |log[j].response| <= c.responseSize && |Inserted(c, log[j + 1..])| < c.entries
  }

  lemma {:induction false} InsertedSplits(c: Config, a: seq<Execution>, b: seq<Execution>)
    ensures Inserted(c, a + b) == Inserted(c, a) + Inserted(c, b)
    decreases |b|
  {
    if b == [] {
      assert a + b == a;
    } else {
      var front := b[..|b| - 1];
      assert (a + b)[..|a + b| - 1] == a + front;
      InsertedSplits(c, a, front);
    }
  }

  lemma {:induction false} InsertedHappened(c: Config, log: seq<Execution>, m: nat)
    requires m < |Inserted(c, log)|
    ensures exists k :: 0 <= k < |log| && log[k] == Inserted(c, log)[m]
    decreases |log|
  {
    var front := log[..|log| - 1];
    if m < |Inserted(c, front)| {
      InsertedHappened(c, front, m);
      var k :| 0 <= k < |front| && front[k] == Inserted(c, front)[m];
      assert log[k] == front[k];
    } else {
      assert log[|log| - 1] == Inserted(c, log)[m];
    }
  }

  lemma NotBefore(c: Config, log: seq<Execution>, j: nat, m: nat)
    requires Legal(c, log) && j < |log|
    requires var kept := Inserted(c, log[..j]);
             |kept| - c.entries <= m < |kept|
    ensures !SameKey(Inserted(c, log[..j])[m].request, log[j].request)
  {
    RecentIsAmongLast(c, c.entries, log[..j], log[j].request);
    assert !AmongLast(c, c.entries, log[..j], log[j].request);
  }

  lemma NotAfter(c: Config, log: seq<Execution>, j: nat, m: nat, request: Request)
    requires IsLatest(log, j, request) && m < |Inserted(c, log[j + 1..])|
    ensures !SameKey(Inserted(c, log[j + 1..])[m].request, request)
  {
    var after := log[j + 1..];
    InsertedHappened(c, after, m);
    var k :| 0 <= k < |after| && after[k] == Inserted(c, after)[m];
    assert log[j + 1 + k] == after[k];
  }

  /** The answers kept before execution j, its own if it fits, and those after it. */
  lemma InsertedAround(c: Config, log: seq<Execution>, j: nat)
    requires j < |log|
    ensures Inserted(c, log) ==
              Inserted(c, log[..j]) + (if Cacheable(c, log[j]) then [log[j]] else []) + Inserted(c, log[j + 1..])
  {
    var before, after := log[..j], log[j + 1..];
    assert log == before + [log[j]] + after;
    InsertedSplits(c, before + [log[j]], after);
    InsertedGrows(c, before, log[j]);
  }

  /** What the ring keeps for a request is its latest execution. */
  lemma RingHoldsLatest(c: Config, log: seq<Execution>, j: nat, m: nat, request: Request)
    requires Legal(c, log) && IsLatest(log, j, request)
    requires |Inserted(c, log)| - c.entries <= m < |Inserted(c, log)| && SameKey(Inserted(c, log)[m].request, request)
    ensures Inserted(c, log)[m] == log[j]
  {
    InsertedAround(c, log, j);
    var first := |Inserted(c, log[..j])|;
    var own := if Cacheable(c, log[j]) then 1 else 0;
    if m < first {
      NotBefore(c, log, j, m);
    } else if m >= first + own {
      NotAfter(c, log, j, m - first - own, request);
    }
  }

  lemma {:induction false} LatestExists(log: seq<Execution>, k: nat, request: Request)
    requires k < |log| && SameKey(log[k].request, request)
    ensures exists j :: IsLatest(log, j, request)
    decreases |log| - k
  {
    if !IsLatest(log, k, request) {
      var l :| k < l < |log| && SameKey(log[l].request, request);
      LatestExists(log, l, request);
    }
  }

  lemma OneLatest(log: seq<Execution>, i: nat, j: nat, request: Request)
    requires IsLatest(log, i, request) && IsLatest(log, j, request)
    ensures i == j
  {
  }

  /** The entry found is that of the latest execution, which is kept. */
  lemma FoundIsLatest(c: Config, s: State, request: Request) returns (j: nat)
    requires Inv(c, s) && Legal(c, s.log) && Find(s.ring, request) < |s.ring|
    ensures IsLatest(s.log, j, request) && Kept(c, s.log, j)
    ensures var e := s.ring[Find(s.ring, request)]; e.request == s.log[j].request && e.response == s.log[j].response
  {
    var all := Inserted(c, s.log);
    var m := PlaceOf(c, s, Find(s.ring, request));
    assert InRing(c, s, m);
    InsertedHappened(c, s.log, m);
    var k :| 0 <= k < |s.log| && s.log[k] == all[m];
    LatestExists(s.log, k, request);
    j :| IsLatest(s.log, j, request);
    RingHoldsLatest(c, s.log, j, m, request);
    FindsRecent(c, s, request);
    RecentExactly(c, s.log, j, request);
  }

  /** Every answer to a request: if the answer to its latest execution is kept, that answer again if command, object, flags
      and checksum are the same, and none if they are not, without executing anything; else what the commands answer now,
      which is executed. */
  lemma ProcessExactly(c: Config, commands: Commands, requests: seq<Request>, states: seq<State>, i: nat, request: Request)
    requires ValidConfig(c) && IsRun(c, commands, requests, states) && i <= |requests|
    ensures states[i].cursor < |states[i].ring| == c.entries
    ensures var s := states[i]; var (next, outcome) := Process(c, commands, s, request);
            && (forall j: nat | IsLatest(s.log, j, request) && Kept(c, s.log, j) ::
                  next == s && outcome == Repeated(s.log[j], request))
            && ((forall j: nat | IsLatest(s.log, j, request) :: !Kept(c, s.log, j)) ==>
                  match commands(s.log, request)
                  case None => next == s && outcome == Dropped
                  case Some(response) =>
                    outcome == Answered(response) && next.log == s.log + [Execution(request, response)])
  {
    RunIsLegal(c, commands, requests, states, i);
    CursorInRing(c, states[i]);
    StateExactly(c, commands, states[i], request);
  }

  lemma CursorInRing(c: Config, s: State)
    requires Inv(c, s)
    ensures s.cursor < |s.ring| == c.entries
  {
  }

  function Repeated(e: Execution, request: Request): Outcome {
    if e.request.command == request.command && e.request.objectId == request.objectId &&
       e.request.flags == request.flags && e.request.crc == request.crc then Answered(e.response)
    else Dropped
  }

  lemma StateExactly(c: Config, commands: Commands, s: State, request: Request)
    requires Inv(c, s) && Legal(c, s.log) && s.cursor < |s.ring| == c.entries
    ensures var (next, outcome) := Process(c, commands, s, request);
            && (forall j: nat | IsLatest(s.log, j, request) && Kept(c, s.log, j) ::
                  next == s && outcome == Repeated(s.log[j], request))
            && ((forall j: nat | IsLatest(s.log, j, request) :: !Kept(c, s.log, j)) ==>
                  match commands(s.log, request)
                  case None => next == s && outcome == Dropped
                  case Some(response) =>
                    outcome == Answered(response) && next.log == s.log + [Execution(request, response)])
  {
    if Find(s.ring, request) < |s.ring| {
      var latest := FoundIsLatest(c, s, request);
      forall j: nat | IsLatest(s.log, j, request)
        ensures j == latest
      {
        OneLatest(s.log, j, latest, request);
      }
    } else {
      FindsRecent(c, s, request);
      forall j: nat | IsLatest(s.log, j, request)
        ensures !Kept(c, s.log, j)
      {
        RecentExactly(c, s.log, j, request);
      }
    }
  }

  // ---------------------------------------------------------------- pings

  /** The packet that the bytes are: a response with the request's ids, command and object, and the error flag or not. */
  ghost predicate Answers(request: Request, bytes: seq<u8>, failed: bool, payload: seq<u8>) {
    Decode(bytes).Ok? &&
    var p := Decode(bytes).value; var h := p.header;
    h.version == 1 && h.messageType == 2 && h.command == request.command && h.sessionId == request.sessionId &&
    h.requestId == request.requestId && h.objectId == request.objectId && h.flags == (if failed then 1 else 0) &&
    p.payload == payload
  }

  /** A ping is answered with its own payload behind a zero status; if that does not fit a packet, with a failure. */
  lemma PingAnswers(c: Config, request: Request)
    requires ValidConfig(c)
    ensures var fits := |request.payload| + 1 + 24 <= c.packetSize;
            Answers(request, Ping(c, request), !fits, if fits then [0] + request.payload else [2])
  {
    if |request.payload| + 1 > c.packetSize - HEADER_SIZE {
      StatusAnswers(request, 2, []);
    } else {
      StatusAnswers(request, 0, request.payload);
    }
  }

  lemma StatusAnswers(request: Request, status: u8, data: seq<u8>)
    requires 1 + |data| <= MAXIMUM_PAYLOAD_SIZE
    ensures Answers(request, StatusResponse(request, status, data), status != 0, [status] + data)
  {
    var flags: u16 := if status == 0 then 0 else 1;
    var p := Packet(Header(1, 2, request.command, request.sessionId, request.requestId, request.objectId, 0, flags, Zero()),
                    [status] + data);
    assert Encode(p) == Ok(StatusResponse(request, status, data));
    DecodeEncode(p);
  }
}
