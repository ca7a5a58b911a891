/** The firmware's request cache (firmware/src/core.c): a ring of the latest answers short enough to keep. */
module FirmwareCache {
  import opened FixedWidth
  import opened NonlinearFacts
  import opened Results
  import opened Words
  import opened PacketCodec

  datatype Request = Request(
    sessionId: u32, requestId: u32, command: u16, objectId: u32, flags: u16, crc: Word, payload: seq<u8>)

  datatype Entry = Entry(valid: bool, request: Request, response: seq<u8>)

  /** CONFIG_REMOTE_REQUEST_CACHE_ENTRIES, CONFIG_REMOTE_CACHE_RESPONSE_SIZE and CONFIG_REMOTE_MAX_PACKET_SIZE. */
  datatype Config = Config(entries: nat, responseSize: nat, packetSize: nat)

  /** An executed request and its answer. */
  datatype Execution = Execution(request: Request, response: seq<u8>)

  datatype State = State(ring: seq<Entry>, cursor: nat, log: seq<Execution>)

  /** What the commands answer, as a function of what was executed before; None where the request is dropped. */
  type Commands = (seq<Execution>, Request) -> Option<seq<u8>>

  /** What the build accepts: an entry holds a header and a status, a packet no more than the protocol allows. */
  ghost predicate ValidConfig(c: Config) {
    0 < c.entries <= 255 && HEADER_SIZE < c.responseSize && HEADER_SIZE < c.packetSize <= MAXIMUM_PACKET_SIZE
  }

  predicate SameKey(a: Request, b: Request) {
    a.sessionId == b.sessionId && a.requestId == b.requestId
  }

  predicate SameContent(a: Request, b: Request) {
    a.command == b.command && a.objectId == b.objectId && a.flags == b.flags && a.crc == b.crc
  }

  function Blank(): Entry {
    Entry(false, Request(0, 0, 0, 0, 0, Zero(), []), [])
  }

  function Initial(c: Config): State {
    State(seq(c.entries, _ => Blank()), 0, [])
  }

  /** find_cache: the first valid entry of the request's key; the ring's length if there is none. */
  function Find(ring: seq<Entry>, request: Request): (k: nat)
    ensures k <= |ring|
    ensures k < |ring| ==> ring[k].valid && SameKey(ring[k].request, request)
    ensures forall j | 0 <= j < k :: !(ring[j].valid && SameKey(ring[j].request, request))
  {
    if ring == [] || (ring[0].valid && SameKey(ring[0].request, request)) then 0 else 1 + Find(ring[1..], request)
  }

  predicate Cacheable(c: Config, e: Execution) {
    |e.response| <= c.responseSize
  }

  function Insert(c: Config, s: State, e: Execution): State
    requires s.cursor < |s.ring| == c.entries
  {
    if !Cacheable(c, e) then s
    else s.(ring := s.ring[s.cursor := Entry(true, e.request, e.response)], cursor := (s.cursor + 1) % c.entries)
  }

  datatype Outcome = Answered(response: seq<u8>) | Dropped

  /** The skeleton of process_request. */
  function Process(c: Config, commands: Commands, s: State, request: Request): (State, Outcome)
    requires s.cursor < |s.ring| == c.entries
  {
    var k := Find(s.ring, request);
    if k < |s.ring| then
      (s, if SameContent(s.ring[k].request, request) then Answered(s.ring[k].response) else Dropped)
    else
      var response := commands(s.log, request);
      if response.None? then (s, Dropped)
      else
        var e := Execution(request, response.value);
        (Insert(c, s, e).(log := s.log + [e]), Answered(response.value))
  }

  // ---------------------------------------------------------------- the ring is the recent past

  /** The executions whose answers were kept. */
  function Inserted(c: Config, log: seq<Execution>): seq<Execution> {
    if log == [] then []
    else
      var front := Inserted(c, log[..|log| - 1]);
      if Cacheable(c, log[|log| - 1]) then front + [log[|log| - 1]] else front
  }

  /** Entry j of the insertions is still in the ring. */
  ghost predicate InRing(c: Config, s: State, j: nat)
    requires ValidConfig(c) && |s.ring| == c.entries
  {
    j < |Inserted(c, s.log)| &&
    s.ring[j % c.entries] == Entry(true, Inserted(c, s.log)[j].request, Inserted(c, s.log)[j].response)
  }

  ghost predicate Inv(c: Config, s: State) {
    && ValidConfig(c) && |s.ring| == c.entries
    && s.cursor == |Inserted(c, s.log)| % c.entries
    && (forall j: nat | |Inserted(c, s.log)| - c.entries <= j < |Inserted(c, s.log)| :: InRing(c, s, j))
    && (forall k | |Inserted(c, s.log)| <= k < c.entries :: !s.ring[k].valid)
  }

  lemma InitialInv(c: Config)
    requires ValidConfig(c)
    ensures Inv(c, Initial(c))
  {
  }

  /** Numbers less than n apart have different places in a ring of n. */
  lemma PlacesDiffer(a: nat, b: nat, n: nat)
    requires 0 < n && a < b < a + n
    ensures a % n != b % n
  {
    DivMod(a, n);
    DivMod(b, n);
    if a % n == b % n {
      assert (b / n - a / n) * n == (b / n) * n - (a / n) * n;
      if b / n > a / n {
        MulAtLeast(b / n - a / n, n);
      } else {
        MulMonotone(n, b / n, a / n);
      }
    }
  }

  lemma RemainderOf(q: nat, r: nat, n: nat)
    requires r < n
    ensures (q * n + r) % n == r
  {
    QuotientOf(q, r, q * n + r, n);
    DivMod(q * n + r, n);
  }

  lemma NextPlace(a: nat, n: nat)
    requires 0 < n
    ensures (a % n + 1) % n == (a + 1) % n
  {
    var q, r := a / n, a % n;
    DivMod(a, n);
    if r + 1 < n {
      RemainderOf(q, r + 1, n);
      RemainderOf(0, r + 1, n);
    } else {
      assert (q + 1) * n == q * n + n;
      RemainderOf(q + 1, 0, n);
      RemainderOf(1, 0, n);
    }
  }

  /** The latest number below `total` with a given remainder. */
  lemma LatestPlace(total: nat, n: nat, k: nat) returns (j: nat)
    requires k < n && (k < total % n || n <= total)
    ensures total - n <= j < total && j % n == k
  {
    var q := total / n;
    DivMod(total, n);
    if k < total % n {
      j := q * n + k;
      RemainderOf(q, k, n);
    } else {
      AtMostQuotient(1, total, n);
      j := (q - 1) * n + k;
      assert (q - 1) * n == q * n - n;
      RemainderOf(q - 1, k, n);
    }
  }

  lemma InsertedGrows(c: Config, log: seq<Execution>, e: Execution)
    ensures Inserted(c, log + [e]) == Inserted(c, log) + (if Cacheable(c, e) then [e] else [])
  {
    assert (log + [e])[..|log|] == log;
  }

  lemma InsertKeepsInv(c: Config, s: State, e: Execution)
    requires Inv(c, s) && Cacheable(c, e)
    ensures Inv(c, Insert(c, s, e).(log := s.log + [e]))
  {
    var next := Insert(c, s, e).(log := s.log + [e]);
    var total, n := |Inserted(c, s.log)|, c.entries;
    InsertedGrows(c, s.log, e);
    NextPlace(total, n);
    forall j: nat | total + 1 - n <= j < total + 1
      ensures InRing(c, next, j)
    {
      if j < total {
        assert InRing(c, s, j);
        PlacesDiffer(j, total, n);
      }
    }
    forall k | total + 1 <= k < n
      ensures !next.ring[k].valid
    {
      SmallPlace(total, n);
    }
  }

  lemma SmallPlace(a: nat, n: nat)
    requires a < n
    ensures a % n == a
  {
  }

  lemma ProcessKeepsInv(c: Config, commands: Commands, s: State, request: Request)
    requires Inv(c, s)
    ensures s.cursor < |s.ring|
    ensures Inv(c, Process(c, commands, s, request).0)
  {
    DivMod(|Inserted(c, s.log)|, c.entries);
    if Find(s.ring, request) == |s.ring| && commands(s.log, request).Some? {
      var e := Execution(request, commands(s.log, request).value);
      if Cacheable(c, e) {
        InsertKeepsInv(c, s, e);
      } else {
        InsertedGrows(c, s.log, e);
        var next := s.(log := s.log + [e]);
        forall j: nat | |Inserted(c, s.log)| - c.entries <= j < |Inserted(c, s.log)|
          ensures InRing(c, next, j)
        {
          assert InRing(c, s, j);
        }
      }
    }
  }

  /** Is the key among the last n cacheable executions? */
  predicate Recent(c: Config, n: nat, log: seq<Execution>, request: Request)
    decreases |log|
  {
    n > 0 && log != [] &&
    var front, last := log[..|log| - 1], log[|log| - 1];
    if Cacheable(c, last) then SameKey(last.request, request) || Recent(c, n - 1, front, request)
    else Recent(c, n, front, request)
  }

  ghost predicate AmongLast(c: Config, n: nat, log: seq<Execution>, request: Request) {
    exists j: nat :: |Inserted(c, log)| - n <= j < |Inserted(c, log)| && SameKey(Inserted(c, log)[j].request, request)
  }

  lemma {:induction false} RecentIsAmongLast(c: Config, n: nat, log: seq<Execution>, request: Request)
    ensures Recent(c, n, log, request) <==> AmongLast(c, n, log, request)
    decreases |log|
  {
    if n > 0 && log != [] {
      var front, last := log[..|log| - 1], log[|log| - 1];
      var before, all := Inserted(c, front), Inserted(c, log);
      if Cacheable(c, last) {
        RecentIsAmongLast(c, n - 1, front, request);
        if AmongLast(c, n - 1, front, request) {
          var j: nat :| |before| - (n - 1) <= j < |before| && SameKey(before[j].request, request);
          assert all[j] == before[j];
        }
        if SameKey(last.request, request) {
          assert all[|all| - 1] == last;
        }
        if AmongLast(c, n, log, request) && !SameKey(last.request, request) {
          var j: nat :| |all| - n <= j < |all| && SameKey(all[j].request, request);
          assert j < |before| && before[j] == all[j];
        }
      } else {
        RecentIsAmongLast(c, n, front, request);
      }
    }
  }

  /** The cache finds a request exactly when it is among the last `entries` cacheable executions. */
  lemma FindsRecent(c: Config, s: State, request: Request)
    requires Inv(c, s)
    ensures Find(s.ring, request) < |s.ring| <==> Recent(c, c.entries, s.log, request)
  {
    RecentIsAmongLast(c, c.entries, s.log, request);
    var k := Find(s.ring, request);
    var all := Inserted(c, s.log);
    if k < |s.ring| {
      var j := PlaceOf(c, s, k);
      assert InRing(c, s, j);
      assert SameKey(all[j].request, request);
    }
    if AmongLast(c, c.entries, s.log, request) {
      var j: nat :| |all| - c.entries <= j < |all| && SameKey(all[j].request, request);
      assert InRing(c, s, j);
      DivMod(j, c.entries);
    }
  }

  /** Which insertion a valid entry holds. */
  lemma PlaceOf(c: Config, s: State, k: nat) returns (j: nat)
    requires Inv(c, s) && k < |s.ring| && s.ring[k].valid
    ensures |Inserted(c, s.log)| - c.entries <= j < |Inserted(c, s.log)| && j % c.entries == k
  {
    var total := |Inserted(c, s.log)|;
    if total < c.entries {
      SmallPlace(total, c.entries);
    }
    j := LatestPlace(total, c.entries, k);
  }

  // ---------------------------------------------------------------- whole runs

  /** No execution repeats a request that is among the last `entries` cacheable ones before it. */
  ghost predicate Legal(c: Config, log: seq<Execution>) {
    forall j | 0 <= j < |log| :: !Recent(c, c.entries, log[..j], log[j].request)
  }

  ghost predicate IsRun(c: Config, commands: Commands, requests: seq<Request>, states: seq<State>) {
    |states| == |requests| + 1 && states[0] == Initial(c) &&
    forall i | 0 <= i < |requests| ::
      states[i].cursor < |states[i].ring| == c.entries &&
      states[i + 1] == Process(c, commands, states[i], requests[i]).0
  }

  lemma ProcessStaysLegal(c: Config, commands: Commands, s: State, request: Request)
    requires Inv(c, s) && Legal(c, s.log) && s.cursor < |s.ring|
    ensures Legal(c, Process(c, commands, s, request).0.log)
  {
    FindsRecent(c, s, request);
    var after := Process(c, commands, s, request).0.log;
    forall j | 0 <= j < |after|
      ensures !Recent(c, c.entries, after[..j], after[j].request)
    {
      if j < |s.log| {
        assert after[..j] == s.log[..j];
      } else {
        assert after[..j] == s.log;
      }
    }
  }

  /** In every run of requests, repeated or not, one whose answer fits the cache is executed again only after
      `entries` other cacheable executions. */
  lemma {:induction false} RunIsLegal(c: Config, commands: Commands, requests: seq<Request>, states: seq<State>, i: nat)
    requires ValidConfig(c) && IsRun(c, commands, requests, states) && i <= |requests|
    ensures Inv(c, states[i]) && Legal(c, states[i].log)
  {
    if i == 0 {
      InitialInv(c);
    } else {
      RunIsLegal(c, commands, requests, states, i - 1);
      ProcessKeepsInv(c, commands, states[i - 1], requests[i - 1]);
      ProcessStaysLegal(c, commands, states[i - 1], requests[i - 1]);
    }
  }

  // ---------------------------------------------------------------- executing again

  /** The request is executed. */
  predicate Executes(c: Config, commands: Commands, s: State, request: Request)
    requires s.cursor < |s.ring| == c.entries
  {
    |Process(c, commands, s, request).0.log| == |s.log| + 1
  }

  lemma {:induction false} RecentGrows(c: Config, less: nat, more: nat, log: seq<Execution>, request: Request)
    requires less <= more && Recent(c, less, log, request)
    ensures Recent(c, more, log, request)
    decreases |log|
  {
    var front, last := log[..|log| - 1], log[|log| - 1];
    if Cacheable(c, last) {
      if !SameKey(last.request, request) {
        RecentGrows(c, less - 1, more - 1, front, request);
      }
    } else {
      RecentGrows(c, less, more, front, request);
    }
  }

  /** Executions of other requests only push a request back. */
  lemma {:induction false} RecentBefore(c: Config, n: nat, log: seq<Execution>, j: nat, request: Request)
    requires j <= |log| && forall k | j <= k < |log| :: !SameKey(log[k].request, request)
    ensures var kept := |Inserted(c, log[j..])|;
            Recent(c, n, log, request) <==> kept <= n && Recent(c, n - kept, log[..j], request)
    decreases |log|
  {
    if j == |log| {
      assert log[..j] == log;
    } else {
      var front, last := log[..|log| - 1], log[|log| - 1];
      assert log[j..][..|log[j..]| - 1] == front[j..];
      assert log[j..][|log[j..]| - 1] == last;
      assert front[..j] == log[..j];
      if Cacheable(c, last) && n > 0 {
        RecentBefore(c, n - 1, front, j, request);
      } else if !Cacheable(c, last) {
        RecentBefore(c, n, front, j, request);
      }
    }
  }

  /** When the last execution of a request is execution j of a legal log, the request is still recent
      exactly if its answer was kept and fewer than `entries` answers have been kept since. */
  lemma RecentExactly(c: Config, log: seq<Execution>, j: nat, request: Request)
    requires Legal(c, log) && j < |log| && SameKey(log[j].request, request)
    requires forall k | j < k < |log| :: !SameKey(log[k].request, request)
    ensures Recent(c, c.entries, log, request) <==>
              Cacheable(c, log[j]) && |Inserted(c, log[j + 1..])| < c.entries
  {
    var kept := |Inserted(c, log[j + 1..])|;
    RecentBefore(c, c.entries, log, j + 1, request);
    assert log[..j + 1][..j] == log[..j];
    SameKeyIsRecent(c, c.entries, log[..j], log[j].request, request);
    if kept <= c.entries && Recent(c, c.entries - kept, log[..j], request) {
      RecentGrows(c, c.entries - kept, c.entries, log[..j], request);
    }
  }

  lemma {:induction false} SameKeyIsRecent(c: Config, n: nat, log: seq<Execution>, a: Request, b: Request)
    requires SameKey(a, b)
    ensures Recent(c, n, log, a) <==> Recent(c, n, log, b)
    decreases |log|
  {
    if n > 0 && log != [] {
      SameKeyIsRecent(c, n - 1, log[..|log| - 1], a, b);
      SameKeyIsRecent(c, n, log[..|log| - 1], a, b);
    }
  }

  /** In every run, a request that the commands would answer is executed again if and only if the answer of
      its last execution was too long for an entry, or `entries` answers have been kept since. */
  lemma ExecutesAgainExactly(c: Config, commands: Commands, requests: seq<Request>, states: seq<State>, i: nat,
                             j: nat, request: Request)
    requires ValidConfig(c) && IsRun(c, commands, requests, states) && i <= |requests|
    requires var log := states[i].log;
             && j < |log| && SameKey(log[j].request, request)
             && forall k | j < k < |log| :: !SameKey(log[k].request, request)
    requires commands(states[i].log, request).Some?
    ensures states[i].cursor < |states[i].ring| == c.entries
    ensures var log := states[i].log;
            Executes(c, commands, states[i], request) <==>
              |log[j].response| > c.responseSize || |Inserted(c, log[j + 1..])| >= c.entries
  {
    RunIsLegal(c, commands, requests, states, i);
    DivMod(|Inserted(c, states[i].log)|, c.entries);
    FindsRecent(c, states[i], request);
    RecentExactly(c, states[i].log, j, request);
  }

  // ---------------------------------------------------------------- long answers

  const STATUS_OK: u8 := 0
  const STATUS_INVALID_PAYLOAD: u8 := 2
  const ERROR_FLAG: u16 := 1
  const COMMAND_PING: u16 := 0x12

  /** make_status_response. */
  function StatusResponse(request: Request, status: u8, data: seq<u8>): (response: seq<u8>)
    requires 1 + |data| <= MAXIMUM_PAYLOAD_SIZE
    ensures |response| == HEADER_SIZE + 1 + |data|
  {
    var flags: u16 := if status == STATUS_OK then 0 else ERROR_FLAG;
    Bytes(Completed(Packet(
      Header(PROTOCOL_VERSION, MESSAGE_RESPONSE, request.command, request.sessionId, request.requestId,
             request.objectId, 0, flags, Zero()),
      [status] + data)))
  }

  /** The ping command: it sends the payload back if that fits a packet. */
  function Ping(c: Config, request: Request): (response: seq<u8>)
    requires ValidConfig(c)
  {
    if |request.payload| + 1 > c.packetSize - HEADER_SIZE
    then StatusResponse(request, STATUS_INVALID_PAYLOAD, [])
    else StatusResponse(request, STATUS_OK, request.payload)
  }

  ghost predicate AnswersPings(c: Config, commands: Commands)
    requires ValidConfig(c)
  {
    forall log, request: Request | request.command == COMMAND_PING :: commands(log, request) == Some(Ping(c, request))
  }

  /** A ping repeated at once is executed again if and only if its answer is longer than a cache entry: if it
      carries more bytes than an entry holds beside the header and the status, and few enough to be sent back. */
  lemma PingExecutesAgain(c: Config, commands: Commands, s: State, request: Request)
    requires Inv(c, s) && AnswersPings(c, commands) && request.command == COMMAND_PING
    requires s.cursor < |s.ring| && Executes(c, commands, s, request)
    ensures var next := Process(c, commands, s, request).0;
            && next.cursor < |next.ring| == c.entries
            && (Executes(c, commands, next, request) <==>
                  c.responseSize - HEADER_SIZE - 1 < |request.payload| < c.packetSize - HEADER_SIZE)
  {
    ProcessKeepsInv(c, commands, s, request);
    var next := Process(c, commands, s, request).0;
    DivMod(|Inserted(c, next.log)|, c.entries);
    FindsRecent(c, s, request);
    FindsRecent(c, next, request);
    assert next.log[..|s.log|] == s.log;
    assert next.log[|s.log|] == Execution(request, Ping(c, request));
  }

  const BOARD := Config(16, 256, 2048)
  const LONG_PING := Request(1, 1, COMMAND_PING, 0, 0, Zero(), seq(232, _ => 0))

  /** A ping of 232 bytes is executed twice by a board whose entries hold 256: its answer has 257. */
  lemma LongPingExecutesAgain(commands: Commands)
    requires AnswersPings(BOARD, commands)
    ensures |Ping(BOARD, LONG_PING)| == 257
    ensures var first := Process(BOARD, commands, Initial(BOARD), LONG_PING).0;
            && first.cursor < |first.ring| == BOARD.entries
            && Process(BOARD, commands, first, LONG_PING).0.log ==
               [Execution(LONG_PING, Ping(BOARD, LONG_PING)), Execution(LONG_PING, Ping(BOARD, LONG_PING))]
  {
    var first := Process(BOARD, commands, Initial(BOARD), LONG_PING).0;
    InitialInv(BOARD);
    ExecutedIsLogged(BOARD, commands, Initial(BOARD), LONG_PING);
    PingExecutesAgain(BOARD, commands, Initial(BOARD), LONG_PING);
    ProcessKeepsInv(BOARD, commands, Initial(BOARD), LONG_PING);
    ExecutedIsLogged(BOARD, commands, first, LONG_PING);
  }

  lemma ExecutedIsLogged(c: Config, commands: Commands, s: State, request: Request)
    requires Inv(c, s) && AnswersPings(c, commands) && s.cursor < |s.ring| && request.command == COMMAND_PING
    ensures Executes(c, commands, s, request) ==>
              Process(c, commands, s, request).0.log == s.log + [Execution(request, Ping(c, request))]
    ensures s.log == [] ==> Executes(c, commands, s, request)
  {
    FindsRecent(c, s, request);
  }

  // ---------------------------------------------------------------- in place

  class RequestCache {
    const config: Config
    const cache: array<Entry>
    var cursor: nat
    ghost var log: seq<Execution>

    ghost function View(): State
      reads this, cache
    {
      State(cache[..], cursor, log)
    }

    ghost predicate Valid()
      reads this, cache
    {
      Inv(config, View())
    }

    constructor (config: Config)
      requires ValidConfig(config)
      ensures Valid() && fresh(cache) && View() == Initial(config) && this.config == config
    {
      this.config := config;
      cache := new Entry[config.entries](_ => Blank());
      cursor := 0;
      log := [];
      new;
      assert cache[..] == Initial(config).ring;
      InitialInv(config);
    }

    method FindCache(request: Request) returns (k: nat)
      ensures k == Find(cache[..], request)
    {
      k := 0;
      while k < cache.Length
        invariant 0 <= k <= cache.Length
        invariant forall j | 0 <= j < k :: !(cache[j].valid && SameKey(cache[j].request, request))
      {
        if cache[k].valid && SameKey(cache[k].request, request) {
          return;
        }
        k := k + 1;
      }
    }

    method InsertCache(request: Request, response: seq<u8>)
      requires cursor < cache.Length == config.entries
      modifies this`cursor, cache
      ensures View() == Insert(config, old(View()), Execution(request, response))
    {
      if |response| > config.responseSize {
        return;
      }
      cache[cursor] := Entry(true, request, response);
      cursor := (cursor + 1) % config.entries;
    }

    method ProcessRequest(commands: Commands, request: Request, response: Option<seq<u8>>) returns (outcome: Outcome)
      requires Valid() && response == commands(log, request)
      modifies this, cache
      ensures Valid() && old(cursor) < |old(cache[..])|
      ensures (View(), outcome) == Process(config, commands, old(View()), request)
    {
      ghost var before := View();
      ProcessKeepsInv(config, commands, before, request);
      var k := FindCache(request);
      if k < cache.Length {
        if !SameContent(cache[k].request, request) {
          return Dropped;
        }
        return Answered(cache[k].response);
      }
      if response.None? {
        return Dropped;
      }
      InsertCache(request, response.value);
      log := log + [Execution(request, response.value)];
      outcome := Answered(response.value);
    }
  }
}
