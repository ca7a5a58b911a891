/** The request manager of toolbusd/src/request_manager.cpp as the class it is. */
module RequestManagers {
  import opened FixedWidth
  import opened Results
  import opened Sequences
  import opened PacketCodec
  import opened Requests

  lemma OneMoreKey(keys: seq<u64>, key: u64)
    requires Distinct(keys) && key !in keys
    ensures Distinct(keys + [key])
  {
  }

  /** The loop of poll, read from its end. */
  lemma {:induction false} PollKeysAppend(c: Config, s: State, now: int, keys: seq<u64>, key: u64)
    requires Distinct(keys) && (forall i | 0 <= i < |keys| :: keys[i] in s.pending)
    requires key !in keys && key in s.pending
    ensures Distinct(keys + [key])
    ensures var (middle, events) := PollKeys(c, s, now, keys);
            key in middle.pending &&
            PollKeys(c, s, now, keys + [key]) ==
              (PollKey(c, middle, now, key).0, events + PollKey(c, middle, now, key).1)
    decreases keys
  {
    OneMoreKey(keys, key);
    if keys == [] {
      var (next, last) := PollKey(c, s, now, key);
      assert keys + [key] == [key] && [key][1..] == [];
      assert PollKeys(c, next, now, []) == (next, []);
      assert PollKeys(c, s, now, [key]) == (next, last + []);
      assert last + [] == last && [] + last == last;
    } else {
      var (next, events) := PollKey(c, s, now, keys[0]);
      var tail := keys[1..];
      assert key !in tail;
      PollKeysAppend(c, next, now, tail, key);
      assert (keys + [key])[0] == keys[0] && (keys + [key])[1..] == tail + [key];
      var (middle, rest) := PollKeys(c, next, now, tail);
      var last := PollKey(c, middle, now, key).1;
      assert events + (rest + last) == (events + rest) + last;
    }
  }

  lemma {:induction false} PollKeysLeaves(c: Config, s: State, now: int, keys: seq<u64>, other: u64)
    requires Distinct(keys) && (forall i | 0 <= i < |keys| :: keys[i] in s.pending)
    requires other in s.pending && other !in keys
    ensures other in PollKeys(c, s, now, keys).0.pending
    decreases keys
  {
    if keys != [] {
      assert other != keys[0] && other !in keys[1..];
      PollKeysLeaves(c, PollKey(c, s, now, keys[0]).0, now, keys[1..], other);
    }
  }

  class RequestManager {
    const config: Config
    var nextRequestId: u32
    var pending: map<u64, Pending>
    var completed: map<u64, int>

    function View(): State
      reads this
    {
      State(nextRequestId, pending, completed)
    }

    ghost predicate Valid()
      reads this
    {
      ValidConfig(config) && nextRequestId != 0
    }

    constructor (config: Config)
      requires ValidConfig(config)
      ensures Valid() && View() == INITIAL && this.config == config
    {
      this.config := config;
      nextRequestId := 1;
      pending := map[];
      completed := map[];
    }

    method Expire(now: int)
      requires Valid()
      modifies this
      ensures Valid() && View() == ExpireCompleted(old(View()), now)
    {
      var rest := completed.Keys;
      ghost var before := completed;
      while rest != {}
        invariant Valid() && pending == old(pending) && nextRequestId == old(nextRequestId)
        invariant rest <= completed.Keys <= before.Keys
        invariant forall k | k in completed :: completed[k] == before[k]
        invariant forall k | k in before && k !in rest :: k in completed <==> now < before[k]
        decreases |rest|
      {
        var key :| key in rest;
        if now >= completed[key] {
          completed := completed - {key};
        }
        rest := rest - {key};
      }
      assert completed == ExpireCompleted(old(View()), now).completed;
    }

    method AllocateRequestId(sessionId: u32) returns (id: Option<u32>)
      requires Valid()
      modifies this`nextRequestId
      ensures Valid() && (View(), id) == Allocate(old(View()), sessionId, U32_MAX)
    {
      var attempt := 0;
      while attempt < U32_MAX
        invariant Valid() && 0 <= attempt <= U32_MAX
        invariant Allocate(old(View()), sessionId, U32_MAX) == Allocate(View(), sessionId, U32_MAX - attempt)
      {
        var candidate := nextRequestId;
        nextRequestId := Wrap32(nextRequestId + 1);
        if nextRequestId == 0 {
          nextRequestId := 1;
        }
        var key := Key(sessionId, candidate);
        if key !in pending && key !in completed {
          return Some(candidate);
        }
        attempt := attempt + 1;
      }
      id := None;
    }

    method SubmitRequest(request: Packet, now: int) returns (r: Result<Packet, RequestError>)
      requires Valid()
      modifies this
      ensures Valid() && (View(), r) == Submit(config, old(View()), request, now)
    {
      Expire(now);
      if request.header.messageType != MESSAGE_REQUEST {
        return Err(NotRequest);
      }
      var id := AllocateRequestId(request.header.sessionId);
      if id.None? {
        return Err(RequestIdExhausted);
      }
      var packet := WithRequestId(request, id.value);
      pending := pending[KeyOf(packet) := Pending(packet, now + config.timeout, config.maximumRetries)];
      r := Ok(packet);
    }

    method RememberCompleted(key: u64, now: int)
      requires Valid()
      modifies this`completed
      ensures Valid() && completed == old(completed)[key := now + config.duplicateWindow]
    {
      completed := completed[key := now + config.duplicateWindow];
    }

    method Accept(response: Packet, now: int) returns (status: ResponseStatus)
      requires Valid()
      modifies this
      ensures Valid() && (View(), status) == AcceptResponse(config, old(View()), response, now)
    {
      Expire(now);
      if response.header.messageType != MESSAGE_RESPONSE {
        return Unexpected;
      }
      var key := KeyOf(response);
      if key !in pending {
        if key in completed {
          return Duplicate;
        }
        return Unexpected;
      }
      if !Fits(pending[key].packet, response) {
        return Unexpected;
      }
      pending := pending - {key};
      RememberCompleted(key, now);
      status := Matched;
    }

    /** One turn of poll's loop. */
    method PollOne(key: u64, now: int) returns (events: seq<Event>)
      requires Valid() && key in pending
      modifies this
      ensures Valid() && (View(), events) == PollKey(config, old(View()), now, key)
    {
      var p := pending[key];
      if now < p.deadline {
        return [];
      }
      if p.retriesRemaining > 0 {
        p := p.(retriesRemaining := p.retriesRemaining - 1);
        p := p.(deadline := now + config.timeout);
        pending := pending[key := p];
        return [Retry(p.packet.header.sessionId, p.packet.header.requestId, p.packet)];
      }
      pending := pending - {key};
      RememberCompleted(key, now);
      events := [TimedOut(SessionOf(key), p.packet.header.requestId)];
    }

    /** poll; `keys` is the order in which the loop met the pending requests. */
    method PollRequests(now: int) returns (events: seq<Event>, ghost keys: seq<u64>)
      requires Valid()
      modifies this
      ensures Valid() && Enumerates(keys, old(pending))
      ensures (View(), events) == Poll(config, old(View()), now, keys)
    {
      Expire(now);
      ghost var start := View();
      var rest := pending.Keys;
      events, keys := [], [];
      while rest != {}
        invariant Valid() && Distinct(keys)
        invariant forall k :: k in keys <==> k in start.pending && k !in rest
        invariant forall k | k in rest :: k in start.pending && k in pending
        invariant (View(), events) == PollKeys(config, start, now, keys)
        decreases |rest|
      {
        var key :| key in rest;
        PollKeysAppend(config, start, now, keys, key);
        var more := PollOne(key, now);
        events := events + more;
        keys := keys + [key];
        rest := rest - {key};
        forall k | k in rest
          ensures k in pending
        {
          PollKeysLeaves(config, start, now, keys, k);
        }
      }
    }

    method CancelRequest(sessionId: u32, requestId: u32) returns (cancelled: bool)
      requires Valid()
      modifies this`pending
      ensures Valid() && (View(), cancelled) == Cancel(old(View()), sessionId, requestId)
    {
      var key := Key(sessionId, requestId);
      cancelled := key in pending;
      pending := pending - {key};
    }
  }

  /** The C++ constructor, which refuses a timeout or window that is not positive. */
  method CreateManager(config: Config) returns (r: Result<RequestManager, RequestError>)
    ensures r.Ok? <==> config.timeout > 0 && config.duplicateWindow > 0
    ensures r.Err? ==> r.error == InvalidConfiguration
    ensures r.Ok? ==> fresh(r.value) && r.value.Valid() && r.value.config == config && r.value.View() == INITIAL
  {
    if !ValidConfig(config) {
      return Err(InvalidConfiguration);
    }
    var manager := new RequestManager(config);
    r := Ok(manager);
  }
}
