/** The response cache of mock_mcu/src/mock_node.cpp: a request is executed, its answer remembered, and repeats are
    answered from memory. */
module NodeCache {
  import opened FixedWidth
  import opened Results
  import opened Sequences
  import opened PacketCodec
  import Requests

  /** What the node does to its core, oldest first: the core's state is a function of it. */
  datatype Happening =
    | Executed(request: Packet, at: int, response: Packet)
    | Cleared(sessionId: u32)

  type History = seq<Happening>

  /** The core as an arbitrary function; None where the node neither answers nor executes (a discovery for other
      versions, an assignment for another node). */
  type Core = (History, Packet, int) -> Option<Packet>

  datatype CachedRequest = CachedRequest(request: Packet, encodedResponse: seq<u8>)

  datatype State = State(
    cache: map<u64, CachedRequest>, order: seq<u64>, executedCount: nat, cachedResponseCount: nat, nextTransferId: u16,
    history: History)

  /** The encoded response, to be split into frames under the transfer id. */
  datatype Reply = Reply(transferId: u16, encodedResponse: seq<u8>)

  datatype NodeError = InvalidCacheSize | ConflictingDuplicateRequest | ResponseNotEncodable

  const INITIAL: State := State(map[], [], 0, 0, 1, [])

  function KeyOf(p: Packet): u64 {
    Requests.KeyOf(p)
  }

  function NextTransferId(id: u16): (next: u16)
    ensures next != 0
  {
    var next := (id + 1) % 0x1_0000;
    if next == 0 then 1 else next
  }

  /** Everything but the length and the CRC, which the codec fills in. */
  predicate SameRequest(a: Packet, b: Packet) {
    a.header.version == b.header.version && a.header.messageType == b.header.messageType &&
    a.header.command == b.header.command && a.header.sessionId == b.header.sessionId &&
    a.header.requestId == b.header.requestId && a.header.objectId == b.header.objectId &&
    a.header.flags == b.header.flags && a.payload == b.payload
  }

  function InsertCache(max: nat, n: State, key: u64, entry: CachedRequest): State {
    var room := if |n.cache| == max && n.order != []
                then n.(cache := n.cache - {n.order[0]}, order := n.order[1..]) else n;
    room.(cache := room.cache[key := entry], order := room.order + [key])
  }

  /** The state after the execution of a request. */
  function AfterExecution(max: nat, n: State, request: Packet, at: int, response: Packet, bytes: seq<u8>): State {
    InsertCache(max, n.(history := n.history + [Executed(request, at, response)], executedCount := n.executedCount + 1),
                KeyOf(request), CachedRequest(request, bytes))
  }

  function ProcessRequest(core: Core, max: nat, n: State, request: Packet, now: int):
      (State, Result<Option<Reply>, NodeError>)
  {
    var key := KeyOf(request);
    if key in n.cache then
      if !SameRequest(n.cache[key].request, request) then (n, Err(ConflictingDuplicateRequest))
      else
        (n.(cachedResponseCount := n.cachedResponseCount + 1, nextTransferId := NextTransferId(n.nextTransferId)),
         Ok(Some(Reply(n.nextTransferId, n.cache[key].encodedResponse))))
    else
      var response := core(n.history, request, now);
      if response.None? then (n, Ok(None))
      else
        var encoded := Encode(response.value);
        if encoded.Err? then
          (n.(history := n.history + [Executed(request, now, response.value)]), Err(ResponseNotEncodable))
        else
          var done := AfterExecution(max, n, request, now, response.value, encoded.value);
          (done.(nextTransferId := NextTransferId(done.nextTransferId)),
           Ok(Some(Reply(done.nextTransferId, encoded.value))))
  }

  /** The keys of other sessions. */
  function Without(order: seq<u64>, sessionId: u32): seq<u64> {
    if order == [] then []
    else
      var front := Without(order[..|order| - 1], sessionId);
      if Requests.SessionOf(order[|order| - 1]) == sessionId then front else front + [order[|order| - 1]]
  }

  function CacheWithout(cache: map<u64, CachedRequest>, sessionId: u32): map<u64, CachedRequest> {
    map k | k in cache && Requests.SessionOf(k) != sessionId :: cache[k]
  }

  function ClearSession(n: State, sessionId: u32): State {
    n.(cache := CacheWithout(n.cache, sessionId),
       order := Without(n.order, sessionId),
       history := n.history + [Cleared(sessionId)])
  }

  // ---------------------------------------------------------------- histories

  predicate Executes(h: Happening, key: u64) {
    h.Executed? && KeyOf(h.request) == key
  }

  /** The last execution of a key; -1 if there is none. */
  function LastOf(history: History, key: u64): (i: int)
    ensures -1 <= i < |history|
    ensures i >= 0 ==> Executes(history[i], key)
  {
    if history == [] then -1
    else if Executes(history[|history| - 1], key) then |history| - 1
    else LastOf(history[..|history| - 1], key)
  }

  /** How many executions follow position i. */
  function After(history: History, i: int): nat
    requires -1 <= i < |history|
  {
    if i == |history| - 1 then 0
    else After(history[..|history| - 1], i) + (if history[|history| - 1].Executed? then 1 else 0)
  }

  /** Is the session cleared after position i? */
  predicate ClearedAfter(history: History, i: int, sessionId: u32)
    requires -1 <= i
  {
    exists j :: i < j < |history| && history[j] == Cleared(sessionId)
  }

  /** A request is executed again only after its session was cleared or at least `max` other executions. */
  ghost predicate MayExecute(max: nat, history: History, key: u64) {
    var i := LastOf(history, key);
    i < 0 || ClearedAfter(history, i, Requests.SessionOf(key)) || After(history, i) >= max
  }

  ghost predicate Legal(max: nat, history: History) {
    forall j | 0 <= j < |history| && history[j].Executed? ::
      MayExecute(max, history[..j], KeyOf(history[j].request))
  }

  // ---------------------------------------------------------------- the cache is the recent past

  /** How far a key is from the end of the order. */
  function Rank(order: seq<u64>, key: u64): nat
    requires key in order
  {
    if order[|order| - 1] == key then 0 else 1 + Rank(order[..|order| - 1], key)
  }

  /** The cached answer is that of the key's last execution. */
  ghost predicate Remembers(n: State, key: u64)
    requires key in n.cache
  {
    var i := LastOf(n.history, key);
    i >= 0 && n.cache[key].request == n.history[i].request &&
    Encode(n.history[i].response) == Ok(n.cache[key].encodedResponse)
  }

  /** What has happened lately and was not cleared is in the cache. */
  ghost predicate Complete(max: nat, n: State, key: u64) {
    !MayExecute(max, n.history, key) ==> key in n.cache
  }

  ghost predicate Ranked(n: State, key: u64)
    requires key in n.order
  {
    var i := LastOf(n.history, key);
    i >= 0 && Rank(n.order, key) <= After(n.history, i)
  }

  /** Map and queue hold the same keys. */
  ghost predicate InStep(max: nat, n: State) {
    Distinct(n.order) && |n.order| == |n.cache| <= max && forall k :: k in n.order <==> k in n.cache
  }

  ghost predicate AllRemembered(n: State) {
    forall k | k in n.cache :: Remembers(n, k)
  }

  ghost predicate AllRanked(n: State) {
    forall k | k in n.order :: Ranked(n, k)
  }

  ghost predicate AllComplete(max: nat, n: State) {
    forall k: u64 :: Complete(max, n, k)
  }

  ghost predicate Inv(max: nat, n: State) {
    InStep(max, n) && AllRemembered(n) && AllRanked(n) && AllComplete(max, n) && Legal(max, n.history)
  }

  lemma HistoryGrows(history: History, h: Happening, i: int)
    requires -1 <= i < |history|
    ensures After(history + [h], i) == After(history, i) + (if h.Executed? then 1 else 0)
  {
    assert (history + [h])[..|history|] == history;
  }

  lemma LastGrows(history: History, h: Happening, key: u64)
    ensures LastOf(history + [h], key) == if Executes(h, key) then |history| else LastOf(history, key)
  {
    assert (history + [h])[..|history|] == history;
  }

  lemma LegalGrows(max: nat, history: History, h: Happening)
    requires Legal(max, history) && (h.Executed? ==> MayExecute(max, history, KeyOf(h.request)))
    ensures Legal(max, history + [h])
  {
    var longer := history + [h];
    forall j | 0 <= j < |longer| && longer[j].Executed?
      ensures MayExecute(max, longer[..j], KeyOf(longer[j].request))
    {
      if j < |history| {
        assert longer[..j] == history[..j];
      } else {
        assert longer[..j] == history;
      }
    }
  }

  /** More history only makes a key easier to execute again, unless it is the one just executed. */
  lemma MayExecuteGrows(max: nat, history: History, h: Happening, key: u64)
    requires MayExecute(max, history, key) && !Executes(h, key)
    ensures MayExecute(max, history + [h], key)
  {
    var i := LastOf(history, key);
    LastGrows(history, h, key);
    if i >= 0 {
      HistoryGrows(history, h, i);
      if ClearedAfter(history, i, Requests.SessionOf(key)) {
        var j :| i < j < |history| && history[j] == Cleared(Requests.SessionOf(key));
        assert (history + [h])[j] == history[j];
      }
    }
  }

  lemma RankAppend(order: seq<u64>, key: u64, last: u64)
    requires key in order && last !in order
    ensures Rank(order + [last], key) == Rank(order, key) + 1
  {
    assert (order + [last])[..|order|] == order;
  }

  lemma {:induction false} RankOfFront(order: seq<u64>)
    requires order != [] && Distinct(order)
    ensures Rank(order, order[0]) == |order| - 1
  {
    if |order| > 1 {
      RankOfFront(order[..|order| - 1]);
    }
  }

  lemma {:induction false} RankDrop(order: seq<u64>, key: u64)
    requires order != [] && Distinct(order) && key in order[1..]
    ensures key in order && Rank(order[1..], key) == Rank(order, key)
  {
    var tail := order[1..];
    assert tail[|tail| - 1] == order[|order| - 1];
    if order[|order| - 1] != key {
      assert order[..|order| - 1][1..] == tail[..|tail| - 1];
      RankDrop(order[..|order| - 1], key);
    }
  }

  lemma {:induction false} WithoutFacts(order: seq<u64>, sessionId: u32, key: u64)
    requires Distinct(order)
    ensures key in Without(order, sessionId) <==> key in order && Requests.SessionOf(key) != sessionId
    ensures key in Without(order, sessionId) ==> Rank(Without(order, sessionId), key) <= Rank(order, key)
  {
    if order != [] {
      var front, last := order[..|order| - 1], order[|order| - 1];
      assert order == front + [last];
      WithoutFacts(front, sessionId, key);
      WithoutFacts(front, sessionId, last);
      if key in front {
        RankAppend(front, key, last);
        if key in Without(front, sessionId) && Requests.SessionOf(last) != sessionId {
          RankAppend(Without(front, sessionId), key, last);
        }
      } else if key == last {
        assert Rank(order, key) == 0;
      }
    }
  }

  lemma {:induction false} WithoutDistinct(order: seq<u64>, sessionId: u32)
    requires Distinct(order)
    ensures Distinct(Without(order, sessionId))
  {
    if order != [] {
      var front, last := order[..|order| - 1], order[|order| - 1];
      WithoutDistinct(front, sessionId);
      WithoutFacts(front, sessionId, last);
      assert last !in front;
    }
  }

  function KeySet(order: seq<u64>): set<u64> {
    set k | k in order
  }

  lemma {:induction false} DistinctSize(order: seq<u64>)
    requires Distinct(order)
    ensures |KeySet(order)| == |order|
  {
    if order != [] {
      var front, last := order[..|order| - 1], order[|order| - 1];
      DistinctSize(front);
      assert order == front + [last];
      assert last !in KeySet(front);
      assert KeySet(order) == KeySet(front) + {last};
    }
  }

  lemma CacheSize(n: State)
    requires Distinct(n.order) && forall k :: k in n.order <==> k in n.cache
    ensures |n.order| == |n.cache|
  {
    DistinctSize(n.order);
    assert KeySet(n.order) == n.cache.Keys;
  }

  // ---------------------------------------------------------------- the steps keep the invariant

  /** The order after an insertion. */
  function Inserted(max: nat, order: seq<u64>, key: u64): seq<u64> {
    (if |order| == max && order != [] then order[1..] else order) + [key]
  }

  lemma InsertedFacts(max: nat, order: seq<u64>, key: u64)
    requires 0 < max && Distinct(order) && |order| <= max && key !in order
    ensures Distinct(Inserted(max, order, key)) && |Inserted(max, order, key)| <= max
    ensures forall k :: k in Inserted(max, order, key) <==>
                          k == key || (k in order && !(|order| == max && k == order[0]))
  {
    if |order| == max {
      assert order == [order[0]] + order[1..];
    }
  }

  lemma InsertedRank(max: nat, order: seq<u64>, key: u64, other: u64)
    requires 0 < max && Distinct(order) && |order| <= max && key !in order
    requires other in Inserted(max, order, key) && other != key
    ensures other in order && Rank(Inserted(max, order, key), other) == Rank(order, other) + 1
  {
    InsertedFacts(max, order, key);
    if |order| == max {
      assert order == [order[0]] + order[1..];
      assert other in order[1..];
      RankDrop(order, other);
      RankAppend(order[1..], other, key);
    } else {
      RankAppend(order, other, key);
    }
  }

  lemma ExecutionInStep(max: nat, n: State, request: Packet, at: int, response: Packet, bytes: seq<u8>)
    requires 0 < max && InStep(max, n) && KeyOf(request) !in n.cache
    ensures var next := AfterExecution(max, n, request, at, response, bytes);
            InStep(max, next) && next.order == Inserted(max, n.order, KeyOf(request))
  {
    var next := AfterExecution(max, n, request, at, response, bytes);
    assert next.order == Inserted(max, n.order, KeyOf(request));
    InsertedFacts(max, n.order, KeyOf(request));
    CacheSize(next);
  }

  lemma ExecutionRemembers(max: nat, n: State, request: Packet, at: int, response: Packet, bytes: seq<u8>)
    requires AllRemembered(n) && Encode(response) == Ok(bytes)
    ensures AllRemembered(AfterExecution(max, n, request, at, response, bytes))
  {
    var h := Executed(request, at, response);
    var next := AfterExecution(max, n, request, at, response, bytes);
    forall key | key in next.cache
      ensures Remembers(next, key)
    {
      LastGrows(n.history, h, key);
      if key != KeyOf(request) {
        assert Remembers(n, key);
        assert (n.history + [h])[LastOf(n.history, key)] == n.history[LastOf(n.history, key)];
      }
    }
  }

  lemma ExecutionRanks(max: nat, n: State, request: Packet, at: int, response: Packet, bytes: seq<u8>, key: u64)
    requires 0 < max && InStep(max, n) && AllRanked(n) && KeyOf(request) !in n.cache
    requires key in AfterExecution(max, n, request, at, response, bytes).order
    ensures Ranked(AfterExecution(max, n, request, at, response, bytes), key)
  {
    var h := Executed(request, at, response);
    var next := AfterExecution(max, n, request, at, response, bytes);
    ExecutionInStep(max, n, request, at, response, bytes);
    LastGrows(n.history, h, key);
    if key != KeyOf(request) {
      InsertedRank(max, n.order, KeyOf(request), key);
      assert Ranked(n, key);
      HistoryGrows(n.history, h, LastOf(n.history, key));
    }
  }

  /** The key that has to make room has at least max executions behind it. */
  lemma EvictedMayExecute(max: nat, n: State, h: Happening)
    requires 0 < max && InStep(max, n) && AllRanked(n) && |n.order| == max && h.Executed?
    requires KeyOf(h.request) !in n.cache
    ensures MayExecute(max, n.history + [h], n.order[0])
  {
    var key := n.order[0];
    RankOfFront(n.order);
    assert Ranked(n, key);
    LastGrows(n.history, h, key);
    HistoryGrows(n.history, h, LastOf(n.history, key));
  }

  lemma ExecutionCompletes(max: nat, n: State, request: Packet, at: int, response: Packet, bytes: seq<u8>, key: u64)
    requires 0 < max && InStep(max, n) && AllRanked(n) && AllComplete(max, n) && KeyOf(request) !in n.cache
    ensures Complete(max, AfterExecution(max, n, request, at, response, bytes), key)
  {
    var h := Executed(request, at, response);
    assert Complete(max, n, key);
    if key != KeyOf(request) {
      if MayExecute(max, n.history, key) {
        MayExecuteGrows(max, n.history, h, key);
      }
      if |n.order| == max && key == n.order[0] {
        EvictedMayExecute(max, n, h);
      }
    }
  }

  lemma ExecutionAllRanked(max: nat, n: State, request: Packet, at: int, response: Packet, bytes: seq<u8>)
    requires 0 < max && InStep(max, n) && AllRanked(n) && KeyOf(request) !in n.cache
    ensures AllRanked(AfterExecution(max, n, request, at, response, bytes))
  {
    var next := AfterExecution(max, n, request, at, response, bytes);
    forall k | k in next.order
      ensures Ranked(next, k)
    {
      ExecutionRanks(max, n, request, at, response, bytes, k);
    }
  }

  lemma ExecutionAllComplete(max: nat, n: State, request: Packet, at: int, response: Packet, bytes: seq<u8>)
    requires 0 < max && InStep(max, n) && AllRanked(n) && AllComplete(max, n) && KeyOf(request) !in n.cache
    ensures AllComplete(max, AfterExecution(max, n, request, at, response, bytes))
  {
    var next := AfterExecution(max, n, request, at, response, bytes);
    forall k: u64
      ensures Complete(max, next, k)
    {
      ExecutionCompletes(max, n, request, at, response, bytes, k);
    }
  }

  lemma ExecutionLegal(max: nat, n: State, request: Packet, at: int, response: Packet, bytes: seq<u8>)
    requires AllComplete(max, n) && Legal(max, n.history) && KeyOf(request) !in n.cache
    ensures Legal(max, AfterExecution(max, n, request, at, response, bytes).history)
  {
    assert Complete(max, n, KeyOf(request));
    LegalGrows(max, n.history, Executed(request, at, response));
  }

  lemma ExecutionKeepsInv(max: nat, n: State, request: Packet, at: int, response: Packet, bytes: seq<u8>)
    requires 0 < max && Inv(max, n) && KeyOf(request) !in n.cache && Encode(response) == Ok(bytes)
    ensures Inv(max, AfterExecution(max, n, request, at, response, bytes))
  {
    ExecutionInStep(max, n, request, at, response, bytes);
    ExecutionRemembers(max, n, request, at, response, bytes);
    ExecutionAllRanked(max, n, request, at, response, bytes);
    ExecutionAllComplete(max, n, request, at, response, bytes);
    ExecutionLegal(max, n, request, at, response, bytes);
  }

  /** Answers of the core can be encoded. */
  ghost predicate Encodable(core: Core) {
    forall history, request, now :: core(history, request, now).Some? ==> Encode(core(history, request, now).value).Ok?
  }

  /** The answer to this request, if there is one, can be encoded. */
  predicate Encodes(core: Core, n: State, request: Packet, now: int) {
    core(n.history, request, now).Some? ==> Encode(core(n.history, request, now).value).Ok?
  }

  /** What that spares: an answer that could not be encoded would not be remembered, and the repeat would execute the
      request again. */
  lemma UnencodableAnswerExecutesAgain(core: Core, max: nat, n: State, request: Packet, now: int, later: int)
    requires KeyOf(request) !in n.cache
    requires core(n.history, request, now).Some? && Encode(core(n.history, request, now).value).Err?
    ensures var (next, r) := ProcessRequest(core, max, n, request, now);
            r == Err(ResponseNotEncodable) && next.cache == n.cache &&
            (core(next.history, request, later).Some? ==>
              CountOf(ProcessRequest(core, max, next, request, later).0.history, KeyOf(request)) ==
              CountOf(n.history, KeyOf(request)) + 2)
  {
    var first := core(n.history, request, now).value;
    var next := ProcessRequest(core, max, n, request, now).0;
    var e := Executed(request, now, first);
    assert (n.history + [e])[..|n.history|] == n.history;
    if core(next.history, request, later).Some? {
      var again := Executed(request, later, core(next.history, request, later).value);
      assert (next.history + [again])[..|next.history|] == next.history;
      assert ProcessRequest(core, max, next, request, later).0.history == next.history + [again];
    }
  }

  lemma SameCacheKeepsInv(max: nat, n: State, next: State)
    requires Inv(max, n) && next.cache == n.cache && next.order == n.order && next.history == n.history
    ensures Inv(max, next)
  {
    assert AllRemembered(next) by {
      forall k | k in next.cache
        ensures Remembers(next, k)
      {
        assert Remembers(n, k);
      }
    }
    assert AllRanked(next) by {
      forall k | k in next.order
        ensures Ranked(next, k)
      {
        assert Ranked(n, k);
      }
    }
    assert AllComplete(max, next) by {
      forall k: u64
        ensures Complete(max, next, k)
      {
        assert Complete(max, n, k);
      }
    }
  }

  lemma NewRequestKeepsInv(max: nat, n: State, request: Packet, now: int, response: Packet)
    requires 0 < max && Inv(max, n) && KeyOf(request) !in n.cache && Encode(response).Ok?
    ensures var done := AfterExecution(max, n, request, now, response, Encode(response).value);
            Inv(max, done.(nextTransferId := NextTransferId(done.nextTransferId)))
  {
    var done := AfterExecution(max, n, request, now, response, Encode(response).value);
    ExecutionKeepsInv(max, n, request, now, response, Encode(response).value);
    SameCacheKeepsInv(max, done, done.(nextTransferId := NextTransferId(done.nextTransferId)));
  }

  /** A repeated request changes nothing but the counters. */
  lemma RepeatLeavesCache(core: Core, max: nat, n: State, request: Packet, now: int)
    requires KeyOf(request) in n.cache || core(n.history, request, now).None?
    ensures var next := ProcessRequest(core, max, n, request, now).0;
            next.cache == n.cache && next.order == n.order && next.history == n.history
  {
  }

  lemma RepeatKeepsInv(core: Core, max: nat, n: State, request: Packet, now: int)
    requires Inv(max, n) && (KeyOf(request) in n.cache || core(n.history, request, now).None?)
    ensures Inv(max, ProcessRequest(core, max, n, request, now).0)
  {
    RepeatLeavesCache(core, max, n, request, now);
    SameCacheKeepsInv(max, n, ProcessRequest(core, max, n, request, now).0);
  }

  lemma ProcessKeepsInv(core: Core, max: nat, n: State, request: Packet, now: int)
    requires 0 < max && Inv(max, n) && Encodes(core, n, request, now)
    ensures Inv(max, ProcessRequest(core, max, n, request, now).0)
  {
    var response := core(n.history, request, now);
    if KeyOf(request) in n.cache || response.None? {
      RepeatKeepsInv(core, max, n, request, now);
    } else {
      assert Encode(response.value).Ok?;
      var bytes := Encode(response.value).value;
      NewRequestKeepsInv(max, n, request, now, response.value);
      var done := AfterExecution(max, n, request, now, response.value, bytes);
      assert ProcessRequest(core, max, n, request, now).0 == done.(nextTransferId := NextTransferId(done.nextTransferId));
    }
  }

  lemma ClearKeepsInv(max: nat, n: State, sessionId: u32)
    requires Inv(max, n)
    ensures Inv(max, ClearSession(n, sessionId))
  {
    var h := Cleared(sessionId);
    var next := ClearSession(n, sessionId);
    WithoutDistinct(n.order, sessionId);
    forall k
      ensures k in next.order <==> k in next.cache
    {
      WithoutFacts(n.order, sessionId, k);
    }
    CacheSize(next);
    assert next.cache.Keys <= n.cache.Keys;
    SubsetSize(next.cache.Keys, n.cache.Keys);
    assert AllRemembered(next) by {
      forall k | k in next.cache
        ensures Remembers(next, k)
      {
        assert Remembers(n, k);
        LastGrows(n.history, h, k);
        assert next.history[LastOf(n.history, k)] == n.history[LastOf(n.history, k)];
      }
    }
    assert AllRanked(next) by {
      forall k | k in next.order
        ensures Ranked(next, k)
      {
        WithoutFacts(n.order, sessionId, k);
        assert Ranked(n, k);
        LastGrows(n.history, h, k);
        HistoryGrows(n.history, h, LastOf(n.history, k));
      }
    }
    assert AllComplete(max, next) by {
      forall k: u64
        ensures Complete(max, next, k)
      {
        ClearCompletes(max, n, sessionId, k);
      }
    }
    LegalGrows(max, n.history, h);
  }

  lemma ClearCompletes(max: nat, n: State, sessionId: u32, key: u64)
    requires Inv(max, n)
    ensures Complete(max, ClearSession(n, sessionId), key)
  {
    var h := Cleared(sessionId);
    var next := ClearSession(n, sessionId);
    if !MayExecute(max, next.history, key) {
      if MayExecute(max, n.history, key) {
        MayExecuteGrows(max, n.history, h, key);
      }
      assert Complete(max, n, key);
      LastGrows(n.history, h, key);
      assert next.history[|n.history|] == h;
    }
  }

  lemma SubsetSize(a: set<u64>, b: set<u64>)
    requires a <= b
    ensures |a| <= |b|
  {
    assert b == a + (b - a);
  }

  lemma InitialInv(max: nat)
    ensures Inv(max, INITIAL)
  {
  }

  // ---------------------------------------------------------------- without clearings, exactly the recent past

  ghost predicate NoClears(history: History) {
    forall i | 0 <= i < |history| :: history[i].Executed?
  }

  /** The place of a key in the queue is the number of executions after its last one. */
  ghost predicate ExactlyRanked(n: State, key: u64)
    requires key in n.order
  {
    var i := LastOf(n.history, key);
    i >= 0 && Rank(n.order, key) == After(n.history, i)
  }

  ghost predicate AllExact(n: State) {
    NoClears(n.history) && forall k | k in n.order :: ExactlyRanked(n, k)
  }

  lemma {:induction false} RankBelow(order: seq<u64>, key: u64)
    requires key in order
    ensures Rank(order, key) < |order|
  {
    if order[|order| - 1] != key {
      RankBelow(order[..|order| - 1], key);
    }
  }

  lemma OlderRanksExactly(max: nat, n: State, request: Packet, at: int, response: Packet, bytes: seq<u8>, key: u64)
    requires 0 < max && InStep(max, n) && AllExact(n) && KeyOf(request) !in n.cache && key != KeyOf(request)
    requires key in AfterExecution(max, n, request, at, response, bytes).order
    ensures ExactlyRanked(AfterExecution(max, n, request, at, response, bytes), key)
  {
    var h := Executed(request, at, response);
    ExecutionInStep(max, n, request, at, response, bytes);
    LastGrows(n.history, h, key);
    InsertedRank(max, n.order, KeyOf(request), key);
    assert ExactlyRanked(n, key);
    HistoryGrows(n.history, h, LastOf(n.history, key));
  }

  lemma NewestRanksExactly(max: nat, n: State, request: Packet, at: int, response: Packet, bytes: seq<u8>)
    requires 0 < max && InStep(max, n) && KeyOf(request) !in n.cache
    ensures var next := AfterExecution(max, n, request, at, response, bytes);
            KeyOf(request) in next.order && ExactlyRanked(next, KeyOf(request))
  {
    ExecutionInStep(max, n, request, at, response, bytes);
    LastGrows(n.history, Executed(request, at, response), KeyOf(request));
    LastRank(n.order, max, KeyOf(request));
  }

  lemma LastRank(order: seq<u64>, max: nat, key: u64)
    ensures Rank(Inserted(max, order, key), key) == 0
  {
  }

  lemma ExecutionKeepsExact(max: nat, n: State, request: Packet, at: int, response: Packet, bytes: seq<u8>)
    requires 0 < max && InStep(max, n) && AllExact(n) && KeyOf(request) !in n.cache
    ensures AllExact(AfterExecution(max, n, request, at, response, bytes))
  {
    var next := AfterExecution(max, n, request, at, response, bytes);
    forall k | k in next.order
      ensures ExactlyRanked(next, k)
    {
      if k == KeyOf(request) {
        NewestRanksExactly(max, n, request, at, response, bytes);
      } else {
        OlderRanksExactly(max, n, request, at, response, bytes, k);
      }
    }
  }

  lemma SameOrderKeepsExact(n: State, next: State)
    requires AllExact(n) && next.order == n.order && next.history == n.history
    ensures AllExact(next)
  {
    forall k | k in next.order
      ensures ExactlyRanked(next, k)
    {
      assert ExactlyRanked(n, k);
    }
  }

  lemma ProcessKeepsExact(core: Core, max: nat, n: State, request: Packet, now: int)
    requires 0 < max && Inv(max, n) && Encodes(core, n, request, now) && AllExact(n)
    ensures AllExact(ProcessRequest(core, max, n, request, now).0)
  {
    var response := core(n.history, request, now);
    if KeyOf(request) in n.cache || response.None? {
      RepeatLeavesCache(core, max, n, request, now);
      SameOrderKeepsExact(n, ProcessRequest(core, max, n, request, now).0);
    } else {
      assert Encode(response.value).Ok?;
      var done := AfterExecution(max, n, request, now, response.value, Encode(response.value).value);
      ExecutionKeepsExact(max, n, request, now, response.value, Encode(response.value).value);
      SameOrderKeepsExact(done, ProcessRequest(core, max, n, request, now).0);
    }
  }

  /** The cache holds exactly the keys that may not execute again. */
  lemma CachedWhileRecent(max: nat, n: State, key: u64)
    requires Inv(max, n) && AllExact(n)
    ensures key in n.cache <==> !MayExecute(max, n.history, key)
  {
    assert Complete(max, n, key);
    if key in n.cache {
      assert ExactlyRanked(n, key);
      RankBelow(n.order, key);
    }
  }

  ghost predicate IsRun(core: Core, max: nat, requests: seq<Packet>, times: seq<int>, states: seq<State>) {
    |states| == |requests| + 1 && |times| == |requests| && states[0] == INITIAL &&
    forall i | 0 <= i < |requests| ::
      states[i + 1] == ProcessRequest(core, max, states[i], requests[i], times[i]).0
  }

  /** Every answer given before delivery i can be encoded. */
  ghost predicate EncodesUntil(core: Core, requests: seq<Packet>, times: seq<int>, states: seq<State>, i: nat) {
    i <= |requests| == |times| && |requests| < |states| &&
    forall m | 0 <= m < i :: Encodes(core, states[m], requests[m], times[m])
  }

  lemma {:induction false} RunStaysExact(core: Core, max: nat, requests: seq<Packet>, times: seq<int>,
      states: seq<State>, i: nat)
    requires 0 < max && IsRun(core, max, requests, times, states) && i <= |requests|
    requires EncodesUntil(core, requests, times, states, i)
    ensures Inv(max, states[i]) && AllExact(states[i])
  {
    if i == 0 {
      InitialInv(max);
    } else {
      RunStaysExact(core, max, requests, times, states, i - 1);
      ProcessKeepsInv(core, max, states[i - 1], requests[i - 1], times[i - 1]);
      ProcessKeepsExact(core, max, states[i - 1], requests[i - 1], times[i - 1]);
    }
  }

  /** In every run of deliveries without clearings, a request that the core would answer is executed if and only if
      it never was before or at least `max` executions followed its last one. */
  lemma ExecutesExactly(core: Core, max: nat, requests: seq<Packet>, times: seq<int>, states: seq<State>, i: nat)
    requires 0 < max && IsRun(core, max, requests, times, states) && i < |requests|
    requires EncodesUntil(core, requests, times, states, i)
    requires core(states[i].history, requests[i], times[i]).Some?
    ensures var n, key := states[i], KeyOf(requests[i]);
            |states[i + 1].history| == |n.history| + 1 <==>
              LastOf(n.history, key) < 0 || After(n.history, LastOf(n.history, key)) >= max
  {
    RunStaysExact(core, max, requests, times, states, i);
    CachedWhileRecent(max, states[i], KeyOf(requests[i]));
    HistoryAfter(core, max, states[i], requests[i], times[i]);
  }

  lemma HistoryAfter(core: Core, max: nat, n: State, request: Packet, now: int)
    requires core(n.history, request, now).Some?
    ensures |ProcessRequest(core, max, n, request, now).0.history| ==
              |n.history| + (if KeyOf(request) in n.cache then 0 else 1)
  {
  }

  // ---------------------------------------------------------------- at most once

  /** How often a key is executed. */
  function CountOf(history: History, key: u64): nat {
    if history == [] then 0
    else
      CountOf(history[..|history| - 1], key) + (if Executes(history[|history| - 1], key) then 1 else 0)
  }

  /** How often other keys are executed. */
  function CountOthers(history: History, key: u64): nat {
    if history == [] then 0
    else
      CountOthers(history[..|history| - 1], key) +
      (if history[|history| - 1].Executed? && KeyOf(history[|history| - 1].request) != key then 1 else 0)
  }

  /** Executions after the last one of a key are executions of others. */
  lemma {:induction false} OthersAfterLast(history: History, from: nat, key: u64)
    requires from <= |history| && LastOf(history, key) >= from
    ensures After(history, LastOf(history, key)) <= CountOthers(history[from..], key)
  {
    var last := |history| - 1;
    var front := history[..last];
    assert history == front + [history[last]];
    if LastOf(history, key) < last {
      OthersAfterLast(front, from, key);
      assert history[from..][..last - from] == front[from..];
    }
  }

  lemma {:induction false} LastExists(history: History, from: nat, key: u64)
    requires from <= |history| && CountOf(history[from..], key) > 0
    ensures LastOf(history, key) >= from
  {
    if from < |history| {
      var last := |history| - 1;
      assert history[from..][..last - from] == history[..last][from..];
      if !Executes(history[last], key) {
        LastExists(history[..last], from, key);
      }
    }
  }

  /** In a stretch of history without a clearing of its session and with fewer than `max` executions of other
      requests, a request is executed at most once. */
  lemma {:induction false} AtMostOnce(max: nat, history: History, from: nat, key: u64)
    requires Legal(max, history) && from <= |history|
    requires !exists j :: from <= j < |history| && history[j] == Cleared(Requests.SessionOf(key))
    requires CountOthers(history[from..], key) < max
    ensures CountOf(history[from..], key) <= 1
  {
    if from < |history| {
      var last := |history| - 1;
      var front := history[..last];
      assert history[from..][..last - from] == front[from..];
      forall j | 0 <= j < |front| && front[j].Executed?
        ensures MayExecute(max, front[..j], KeyOf(front[j].request))
      {
        assert front[..j] == history[..j];
      }
      AtMostOnce(max, front, from, key);
      assert Executes(history[last], key) ==> MayExecute(max, front, key);
      if Executes(history[last], key) && CountOf(front[from..], key) > 0 {
        LastExists(front, from, key);
        OthersAfterLast(front, from, key);
      }
    }
  }
}
