/** The request side of mock_mcu/src/mock_node.cpp as the class it is; the remote core behind it is any function of
    what has been done to it. */
module MockNodes {
  import opened FixedWidth
  import opened Results
  import opened PacketCodec
  import opened NodeCache
  import Requests

  lemma {:induction false} WithoutAppend(order: seq<u64>, i: nat, sessionId: u32)
    requires i < |order|
    ensures Without(order[..i + 1], sessionId) ==
      Without(order[..i], sessionId) + (if Requests.SessionOf(order[i]) == sessionId then [] else [order[i]])
  {
    assert order[..i + 1][..i] == order[..i];
  }

  class MockNode {
    const core: Core
    const maximumCachedRequests: nat
    var cache: map<u64, CachedRequest>
    var cacheOrder: seq<u64>
    var executedRequestCount: nat
    var cachedResponseCount: nat
    var nextOutboundTransferId: u16
    var history: History

    function View(): State
      reads this
    {
      State(cache, cacheOrder, executedRequestCount, cachedResponseCount, nextOutboundTransferId, history)
    }

    ghost predicate Valid()
      reads this
    {
      maximumCachedRequests > 0 && Inv(maximumCachedRequests, View())
    }

    constructor (core: Core, maximumCachedRequests: nat)
      requires maximumCachedRequests > 0
      ensures Valid() && View() == INITIAL && this.core == core && this.maximumCachedRequests == maximumCachedRequests
    {
      this.core := core;
      this.maximumCachedRequests := maximumCachedRequests;
      cache := map[];
      cacheOrder := [];
      executedRequestCount := 0;
      cachedResponseCount := 0;
      nextOutboundTransferId := 1;
      history := [];
      new;
      InitialInv(maximumCachedRequests);
    }

    method AllocateTransferId() returns (id: u16)
      modifies this`nextOutboundTransferId
      ensures id == old(nextOutboundTransferId) && nextOutboundTransferId == NextTransferId(id)
    {
      id := nextOutboundTransferId;
      nextOutboundTransferId := (nextOutboundTransferId + 1) % 0x1_0000;
      if nextOutboundTransferId == 0 {
        nextOutboundTransferId := 1;
      }
    }

    method Insert(key: u64, entry: CachedRequest)
      requires InStep(maximumCachedRequests, View())
      modifies this`cache, this`cacheOrder
      ensures View() == InsertCache(maximumCachedRequests, old(View()), key, entry)
    {
      if |cache| == maximumCachedRequests && cacheOrder != [] {
        cache := cache - {cacheOrder[0]};
        cacheOrder := cacheOrder[1..];
      }
      cache := cache[key := entry];
      cacheOrder := cacheOrder + [key];
    }

    /** A request not in the cache that the core answers. */
    method Execute(request: Packet, now: int, response: Packet, bytes: seq<u8>) returns (reply: Reply)
      requires InStep(maximumCachedRequests, View())
      modifies this
      ensures var done := AfterExecution(maximumCachedRequests, old(View()), request, now, response, bytes);
              View() == done.(nextTransferId := NextTransferId(done.nextTransferId)) &&
              reply == Reply(done.nextTransferId, bytes)
    {
      history := history + [Executed(request, now, response)];
      executedRequestCount := executedRequestCount + 1;
      Insert(KeyOf(request), CachedRequest(request, bytes));
      var id := AllocateTransferId();
      reply := Reply(id, bytes);
    }

    /** A repeated request. */
    method Answer(request: Packet) returns (r: Result<Option<Reply>, NodeError>)
      requires KeyOf(request) in cache
      modifies this`cachedResponseCount, this`nextOutboundTransferId
      ensures forall now :: (View(), r) == ProcessRequest(core, maximumCachedRequests, old(View()), request, now)
    {
      var entry := cache[KeyOf(request)];
      if !SameRequest(entry.request, request) {
        return Err(ConflictingDuplicateRequest);
      }
      cachedResponseCount := cachedResponseCount + 1;
      var id := AllocateTransferId();
      r := Ok(Some(Reply(id, entry.encodedResponse)));
    }

    /** A request not in the cache. */
    method Handle(request: Packet, now: int) returns (r: Result<Option<Reply>, NodeError>)
      requires InStep(maximumCachedRequests, View()) && KeyOf(request) !in cache
      modifies this
      ensures (View(), r) == ProcessRequest(core, maximumCachedRequests, old(View()), request, now)
    {
      var response := core(history, request, now);
      if response.None? {
        return Ok(None);
      }
      var encoded := PacketCodec.EncodePacket(response.value);
      if encoded.Err? {
        history := history + [Executed(request, now, response.value)];
        return Err(ResponseNotEncodable);
      }
      var reply := Execute(request, now, response.value, encoded.value);
      r := Ok(Some(reply));
    }

    method Process(request: Packet, now: int) returns (r: Result<Option<Reply>, NodeError>)
      requires Valid()
      modifies this
      ensures old(Encodes(core, View(), request, now)) ==> Valid()
      ensures (View(), r) == ProcessRequest(core, maximumCachedRequests, old(View()), request, now)
    {
      ghost var before := View();
      if KeyOf(request) in cache {
        r := Answer(request);
      } else {
        r := Handle(request, now);
      }
      if Encodes(core, before, request, now) {
        ProcessKeepsInv(core, maximumCachedRequests, before, request, now);
      }
    }

    method ForgetCache(sessionId: u32)
      modifies this`cache
      ensures cache == CacheWithout(old(cache), sessionId)
    {
      var rest := cache.Keys;
      while rest != {}
        invariant rest <= cache.Keys <= old(cache).Keys
        invariant forall k | k in cache :: cache[k] == old(cache)[k]
        invariant forall k | k in old(cache) && k !in rest :: k in cache <==> Requests.SessionOf(k) != sessionId
        decreases |rest|
      {
        var key :| key in rest;
        if Requests.SessionOf(key) == sessionId {
          cache := cache - {key};
        }
        rest := rest - {key};
      }
      assert cache == CacheWithout(old(cache), sessionId);
    }

    method ForgetOrder(sessionId: u32)
      modifies this`cacheOrder
      ensures cacheOrder == Without(old(cacheOrder), sessionId)
    {
      var kept: seq<u64> := [];
      var i := 0;
      while i < |cacheOrder|
        invariant 0 <= i <= |cacheOrder| && cacheOrder == old(cacheOrder) && kept == Without(cacheOrder[..i], sessionId)
      {
        WithoutAppend(cacheOrder, i, sessionId);
        if Requests.SessionOf(cacheOrder[i]) != sessionId {
          kept := kept + [cacheOrder[i]];
        }
        i := i + 1;
      }
      assert cacheOrder[..|cacheOrder|] == cacheOrder;
      cacheOrder := kept;
    }

    method Forget(sessionId: u32)
      modifies this
      ensures View() == ClearSession(old(View()), sessionId)
    {
      ForgetCache(sessionId);
      ForgetOrder(sessionId);
      history := history + [Cleared(sessionId)];
    }

    method Clear(sessionId: u32)
      requires Valid()
      modifies this
      ensures Valid() && View() == ClearSession(old(View()), sessionId)
    {
      ghost var before := View();
      Forget(sessionId);
      ClearKeepsInv(maximumCachedRequests, before, sessionId);
    }
  }

  /** The C++ constructor, which refuses an empty cache. */
  method CreateNode(core: Core, maximumCachedRequests: nat) returns (r: Result<MockNode, NodeError>)
    ensures r.Ok? <==> maximumCachedRequests > 0
    ensures r.Err? ==> r.error == InvalidCacheSize
    ensures r.Ok? ==> fresh(r.value) && r.value.Valid() && r.value.core == core && r.value.View() == INITIAL &&
                      r.value.maximumCachedRequests == maximumCachedRequests
  {
    if maximumCachedRequests == 0 {
      return Err(InvalidCacheSize);
    }
    var node := new MockNode(core, maximumCachedRequests);
    r := Ok(node);
  }
}
