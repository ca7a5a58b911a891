/** What the node answers to a request and what it keeps, on the fields of the packets
    (mock_mcu/src/mock_node.cpp:76-190). */
module NodeAnswers {
  import opened FixedWidth
  import opened Results
  import opened Sequences
  import opened PacketCodec
  import Requests
  import opened NodeCache

  /** The request under the key differs from the one that was executed in something other than length and CRC. */
  predicate Differs(a: Packet, b: Packet) {
    a.payload != b.payload ||
    a.header != b.header.(payloadLength := a.header.payloadLength, crc := a.header.crc)
  }

  lemma KeysExactly(a: Packet, b: Packet)
    ensures KeyOf(a) == KeyOf(b) <==>
              a.header.sessionId == b.header.sessionId && a.header.requestId == b.header.requestId
    ensures Requests.SessionOf(KeyOf(a)) == a.header.sessionId
  {
    Requests.KeyParts(a.header.sessionId, a.header.requestId);
    Requests.KeyParts(b.header.sessionId, b.header.requestId);
  }

  /** Everything but the counters and the transfer ids. */
  predicate SameMemory(n: State, next: State) {
    next.cache == n.cache && next.order == n.order && next.history == n.history && next.executedCount == n.executedCount
  }

  /** The answer to a new request is kept; if that leaves no room, the oldest one goes. */
  ghost predicate Kept(max: nat, n: State, next: State, request: Packet, bytes: seq<u8>) {
    var key := KeyOf(request);
    && key in next.cache && next.cache[key] == CachedRequest(request, bytes)
    && (|n.cache| == max ==> n.order != [] && n.order[0] !in next.cache)
    && (forall k | k in n.cache :: k in next.cache || (|n.cache| == max && k == n.order[0]))
    && (forall k | k in next.cache && k != key :: k in n.cache && next.cache[k] == n.cache[k])
  }

  /** Every answer to a request.  A key the node remembers gets the answer given before, byte for byte, if the request is the
      same, and is a conflict if it differs; any other is executed, if the core answers it at all, and its answer kept. */
  lemma ProcessExactly(core: Core, max: nat, n: State, request: Packet, now: int)
    requires 0 < max && InStep(max, n)
    ensures var (next, r) := ProcessRequest(core, max, n, request, now);
            var key := KeyOf(request);
            if key in n.cache then
              if Differs(n.cache[key].request, request) then next == n && r == Err(ConflictingDuplicateRequest)
              else
                r == Ok(Some(Reply(n.nextTransferId, n.cache[key].encodedResponse))) && SameMemory(n, next) &&
                next.cachedResponseCount == n.cachedResponseCount + 1 && next.nextTransferId == n.nextTransferId % 0xFFFF + 1
            else
              match core(n.history, request, now)
              case None => next == n && r == Ok(None)
              case Some(response) =>
                next.history == n.history + [Executed(request, now, response)] &&
                match Encode(response)
                case Err(_) => r == Err(ResponseNotEncodable) && next == n.(history := next.history)
                case Ok(bytes) =>
                  r == Ok(Some(Reply(n.nextTransferId, bytes))) && Kept(max, n, next, request, bytes) &&
                  next.executedCount == n.executedCount + 1 && next.cachedResponseCount == n.cachedResponseCount &&
                  next.nextTransferId == n.nextTransferId % 0xFFFF + 1
  {
    NextTransferIdExactly(n.nextTransferId);
    var key := KeyOf(request);
    if key !in n.cache {
      var response := core(n.history, request, now);
      if response.Some? && Encode(response.value).Ok? {
        InsertKeeps(max, n, request, now, response.value, Encode(response.value).value);
      }
    }
  }

  lemma NextTransferIdExactly(id: u16)
    ensures NextTransferId(id) == id % 0xFFFF + 1
  {
  }

  lemma InsertKeeps(max: nat, n: State, request: Packet, at: int, response: Packet, bytes: seq<u8>)
    requires 0 < max && InStep(max, n) && KeyOf(request) !in n.cache
    ensures var next := AfterExecution(max, n, request, at, response, bytes);
            Kept(max, n, next, request, bytes) && next.executedCount == n.executedCount + 1 &&
            next.cachedResponseCount == n.cachedResponseCount && next.nextTransferId == n.nextTransferId
  {
    if |n.cache| == max {
      assert n.order[0] in n.order;
    }
  }

  /** Clearing a session forgets its answers and no others. */
  lemma ClearExactly(n: State, sessionId: u32)
    ensures var next := ClearSession(n, sessionId);
            && (forall k :: k in next.cache <==> k in n.cache && Requests.SessionOf(k) != sessionId)
            && (forall k | k in next.cache :: next.cache[k] == n.cache[k])
            && next.history == n.history + [Cleared(sessionId)]
            && next.executedCount == n.executedCount && next.cachedResponseCount == n.cachedResponseCount
            && next.nextTransferId == n.nextTransferId
  {
  }
}
