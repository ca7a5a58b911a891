/** What can happen to a submitted request, over every run of the request manager. */
module RequestFate {
  import opened FixedWidth
  import opened Results
  import opened Sequences
  import opened PacketCodec
  import opened Requests

  datatype Call =
    | SubmitCall(request: Packet, now: int)
    | ResponseCall(response: Packet, now: int)
    | PollCall(now: int, keys: seq<u64>)
    | CancelCall(sessionId: u32, requestId: u32)

  /** What a caller sees happen to the request of a key. */
  datatype Entry =
    | Submitted(key: u64, at: int)
    | Retried(key: u64, at: int)
    | Matched(key: u64)
    | TimedOut(key: u64, at: int)
    | Cancelled(key: u64)

  function EntryOf(e: Event, now: int): Entry {
    match e
    case Retry(sessionId, requestId, _) => Retried(Key(sessionId, requestId), now)
    case TimedOut(sessionId, requestId) => Entry.TimedOut(Key(sessionId, requestId), now)
  }

  function Entries(events: seq<Event>, now: int): (entries: seq<Entry>)
    ensures |entries| == |events|
  {
    seq(|events|, i requires 0 <= i < |events| => EntryOf(events[i], now))
  }

  ghost predicate Possible(s: State, call: Call) {
    call.PollCall? ==> Enumerates(call.keys, s.pending)
  }

  /** A call, and what it shows. */
  function Step(c: Config, s: State, call: Call): (State, seq<Entry>)
    requires call.PollCall? ==> Distinct(call.keys) && forall i | 0 <= i < |call.keys| :: call.keys[i] in s.pending
  {
    match call
    case SubmitCall(request, now) =>
      var (next, packet) := Submit(c, s, request, now);
      (next, if packet.Ok? then [Submitted(KeyOf(packet.value), now)] else [])
    case ResponseCall(response, now) =>
      var (next, status) := AcceptResponse(c, s, response, now);
      (next, if status.Matched? then [Entry.Matched(KeyOf(response))] else [])
    case PollCall(now, keys) =>
      var (next, events) := Poll(c, s, now, keys);
      (next, Entries(events, now))
    case CancelCall(sessionId, requestId) =>
      var (next, cancelled) := Cancel(s, sessionId, requestId);
      (next, if cancelled then [Cancelled(Key(sessionId, requestId))] else [])
  }

  // ---------------------------------------------------------------- legal logs

  datatype Phase = Idle | Open(since: int, retries: nat)

  function Next(phase: Phase, e: Entry): Phase {
    match e
    case Submitted(_, at) => Open(at, 0)
    case Retried(_, _) => if phase.Open? then Open(phase.since, phase.retries + 1) else phase
    case Matched(_) => Idle
    case TimedOut(_, _) => Idle
    case Cancelled(_) => Idle
  }

  /** Where the request of a key stands after a log. */
  function PhaseOf(log: seq<Entry>, key: u64): Phase {
    if log == [] then Idle
    else
      var before := PhaseOf(log[..|log| - 1], key);
      var last := log[|log| - 1];
      if last.key == key then Next(before, last) else before
  }

  /** The rules: nothing happens to a request that is not open, it is retried at most so often, each retry and the
      timeout come a full timeout after what came before. */
  ghost predicate Legal(c: Config, phase: Phase, e: Entry) {
    match e
    case Submitted(_, _) => phase.Idle?
    case Retried(_, at) =>
      phase.Open? && phase.retries < c.maximumRetries && at >= phase.since + (phase.retries + 1) * c.timeout
    case Matched(_) => phase.Open?
    case TimedOut(_, at) =>
      phase.Open? && phase.retries == c.maximumRetries && at >= phase.since + (c.maximumRetries + 1) * c.timeout
    case Cancelled(_) => phase.Open?
  }

  ghost predicate LegalLog(c: Config, log: seq<Entry>) {
    forall i | 0 <= i < |log| :: Legal(c, PhaseOf(log[..i], log[i].key), log[i])
  }

  // ---------------------------------------------------------------- the state tells the phase

  ghost predicate AgreesOn(c: Config, s: State, log: seq<Entry>, key: u64) {
    var phase := PhaseOf(log, key);
    && (key in s.pending <==> phase.Open?)
    && (key in s.pending ==> key !in s.completed)
    && (key in s.pending ==>
          var p := s.pending[key];
          KeyOf(p.packet) == key && p.retriesRemaining + phase.retries == c.maximumRetries &&
          p.deadline >= phase.since + (phase.retries + 1) * c.timeout)
  }

  ghost predicate Agrees(c: Config, s: State, log: seq<Entry>) {
    LegalLog(c, log) && s.nextRequestId != 0 && forall key: u64 :: AgreesOn(c, s, log, key)
  }

  lemma LogGrows(c: Config, log: seq<Entry>, e: Entry)
    requires LegalLog(c, log) && Legal(c, PhaseOf(log, e.key), e)
    ensures LegalLog(c, log + [e])
    ensures forall key: u64 ::
              PhaseOf(log + [e], key) == if key == e.key then Next(PhaseOf(log, key), e) else PhaseOf(log, key)
  {
    var longer := log + [e];
    assert longer[..|log|] == log;
    forall i | 0 <= i < |longer|
      ensures Legal(c, PhaseOf(longer[..i], longer[i].key), longer[i])
    {
      if i < |log| {
        assert longer[..i] == log[..i];
      }
    }
  }

  lemma ExpiryAgrees(c: Config, s: State, log: seq<Entry>, now: int)
    requires Agrees(c, s, log)
    ensures Agrees(c, ExpireCompleted(s, now), log)
  {
    forall key: u64
      ensures AgreesOn(c, ExpireCompleted(s, now), log, key)
    {
      assert AgreesOn(c, s, log, key);
    }
  }

  lemma OpeningAgrees(c: Config, s: State, log: seq<Entry>, packet: Packet, now: int)
    requires ValidConfig(c) && Agrees(c, s, log) && !InUse(s, KeyOf(packet))
    ensures var key := KeyOf(packet);
            Agrees(c, s.(pending := s.pending[key := Pending(packet, now + c.timeout, c.maximumRetries)]),
                   log + [Submitted(key, now)])
  {
    var e := Submitted(KeyOf(packet), now);
    assert AgreesOn(c, s, log, e.key);
    LogGrows(c, log, e);
    var next := s.(pending := s.pending[e.key := Pending(packet, now + c.timeout, c.maximumRetries)]);
    forall key: u64
      ensures AgreesOn(c, next, log + [e], key)
    {
      assert AgreesOn(c, s, log, key);
    }
  }

  lemma AllocationAgrees(c: Config, s: State, log: seq<Entry>, sessionId: u32)
    requires Agrees(c, s, log)
    ensures Agrees(c, Allocate(s, sessionId, U32_MAX).0, log)
  {
    AllocateTries(s, sessionId, U32_MAX);
    forall key: u64
      ensures AgreesOn(c, Allocate(s, sessionId, U32_MAX).0, log, key)
    {
      assert AgreesOn(c, s, log, key);
    }
  }

  lemma SubmitAgrees(c: Config, s: State, log: seq<Entry>, request: Packet, now: int)
    requires ValidConfig(c) && Agrees(c, s, log)
    ensures var (next, entries) := Step(c, s, SubmitCall(request, now)); Agrees(c, next, log + entries)
  {
    var alive := ExpireCompleted(s, now);
    var (ready, id) := Allocate(alive, request.header.sessionId, U32_MAX);
    var entries := Step(c, s, SubmitCall(request, now)).1;
    ExpiryAgrees(c, s, log, now);
    AllocationAgrees(c, alive, log, request.header.sessionId);
    AllocateTries(alive, request.header.sessionId, U32_MAX);
    if entries == [] {
      assert log + entries == log;
    } else {
      OpeningAgrees(c, ready, log, WithRequestId(request, id.value), now);
    }
  }

  /** Ending the open request of a key. */
  lemma EndingAgrees(c: Config, s: State, next: State, log: seq<Entry>, e: Entry)
    requires ValidConfig(c) && Agrees(c, s, log) && e.key in s.pending
    requires e.Matched? || e.Cancelled? || (e.TimedOut? && Legal(c, PhaseOf(log, e.key), e))
    requires next.pending == s.pending - {e.key} && next.nextRequestId == s.nextRequestId
    requires forall k | k in next.completed :: k in s.completed || k == e.key
    ensures Agrees(c, next, log + [e])
  {
    assert Legal(c, PhaseOf(log, e.key), e) by {
      assert AgreesOn(c, s, log, e.key);
    }
    LogGrows(c, log, e);
    forall key: u64
      ensures AgreesOn(c, next, log + [e], key)
    {
      assert AgreesOn(c, s, log, key);
    }
  }

  lemma RetryAgrees(c: Config, s: State, log: seq<Entry>, now: int, key: u64)
    requires ValidConfig(c) && Agrees(c, s, log) && key in s.pending
    requires now >= s.pending[key].deadline && s.pending[key].retriesRemaining > 0
    ensures PollKey(c, s, now, key).1 != []
    ensures Agrees(c, PollKey(c, s, now, key).0, log + [Retried(key, now)])
  {
    var e := Retried(key, now);
    var next := PollKey(c, s, now, key).0;
    assert AgreesOn(c, s, log, key);
    var phase := PhaseOf(log, key);
    assert (phase.retries + 2) * c.timeout == (phase.retries + 1) * c.timeout + c.timeout;
    LogGrows(c, log, e);
    forall other: u64
      ensures AgreesOn(c, next, log + [e], other)
    {
      assert AgreesOn(c, s, log, other);
    }
  }

  lemma PollKeyAgrees(c: Config, s: State, log: seq<Entry>, now: int, key: u64)
    requires ValidConfig(c) && Agrees(c, s, log) && key in s.pending
    ensures var (next, events) := PollKey(c, s, now, key); Agrees(c, next, log + Entries(events, now))
  {
    var (next, events) := PollKey(c, s, now, key);
    var p := s.pending[key];
    assert AgreesOn(c, s, log, key);
    KeyParts(p.packet.header.sessionId, p.packet.header.requestId);
    if now < p.deadline {
      assert log + Entries(events, now) == log;
    } else if p.retriesRemaining > 0 {
      RetryAgrees(c, s, log, now, key);
      assert Entries(events, now) == [Retried(key, now)];
    } else {
      var e := Entry.TimedOut(key, now);
      assert Entries(events, now) == [e];
      EndingAgrees(c, s, next, log, e);
    }
  }

  lemma EntriesAppend(log: seq<Entry>, a: seq<Event>, b: seq<Event>, now: int)
    ensures log + Entries(a + b, now) == log + Entries(a, now) + Entries(b, now)
  {
    assert Entries(a + b, now) == Entries(a, now) + Entries(b, now);
  }

  lemma {:induction false} PollKeysAgrees(c: Config, s: State, log: seq<Entry>, now: int, keys: seq<u64>)
    requires ValidConfig(c) && Agrees(c, s, log)
    requires Distinct(keys) && forall i | 0 <= i < |keys| :: keys[i] in s.pending
    ensures var (next, events) := PollKeys(c, s, now, keys); Agrees(c, next, log + Entries(events, now))
    decreases keys
  {
    if keys == [] {
      assert log + Entries([], now) == log;
    } else {
      var (next, events) := PollKey(c, s, now, keys[0]);
      PollKeyAgrees(c, s, log, now, keys[0]);
      PollKeysAgrees(c, next, log + Entries(events, now), now, keys[1..]);
      var rest := PollKeys(c, next, now, keys[1..]).1;
      EntriesAppend(log, events, rest, now);
    }
  }

  lemma StepAgrees(c: Config, s: State, log: seq<Entry>, call: Call)
    requires ValidConfig(c) && Agrees(c, s, log) && Possible(s, call)
    ensures var (next, entries) := Step(c, s, call); Agrees(c, next, log + entries)
  {
    var (next, entries) := Step(c, s, call);
    match call
    case SubmitCall(request, now) =>
      SubmitAgrees(c, s, log, request, now);
    case ResponseCall(response, now) =>
      ExpiryAgrees(c, s, log, now);
      if entries == [] {
        assert log + entries == log;
      } else {
        EndingAgrees(c, ExpireCompleted(s, now), next, log, entries[0]);
      }
    case PollCall(now, keys) =>
      ExpiryAgrees(c, s, log, now);
      PollKeysAgrees(c, ExpireCompleted(s, now), log, now, keys);
    case CancelCall(sessionId, requestId) =>
      if entries == [] {
        assert log + entries == log;
        assert next == s;
      } else {
        EndingAgrees(c, s, next, log, entries[0]);
      }
  }

  // ---------------------------------------------------------------- whole runs

  datatype Moment = Moment(state: State, log: seq<Entry>)

  ghost predicate IsRun(c: Config, calls: seq<Call>, moments: seq<Moment>) {
    |moments| == |calls| + 1 && moments[0] == Moment(INITIAL, []) &&
    forall i | 0 <= i < |calls| :: Follows(c, moments[i], calls[i], moments[i + 1])
  }

  ghost predicate Follows(c: Config, before: Moment, call: Call, after: Moment) {
    Possible(before.state, call) &&
    var (next, entries) := Step(c, before.state, call);
    after == Moment(next, before.log + entries)
  }

  /** In every run the log is legal, the open requests are the pending ones, and no key is both pending and
      completed. */
  lemma {:induction false} RunIsLegal(c: Config, calls: seq<Call>, moments: seq<Moment>, i: nat)
    requires ValidConfig(c) && IsRun(c, calls, moments) && i <= |calls|
    ensures Agrees(c, moments[i].state, moments[i].log)
    ensures moments[i].state.pending.Keys !! moments[i].state.completed.Keys
  {
    if i > 0 {
      RunIsLegal(c, calls, moments, i - 1);
      assert Follows(c, moments[i - 1], calls[i - 1], moments[i]);
      StepAgrees(c, moments[i - 1].state, moments[i - 1].log, calls[i - 1]);
    }
    forall key: u64 | key in moments[i].state.pending
      ensures key !in moments[i].state.completed
    {
      assert AgreesOn(c, moments[i].state, moments[i].log, key);
    }
  }

  // ---------------------------------------------------------------- the fate of one submission

  predicate Ends(e: Entry) {
    e.Matched? || e.TimedOut? || e.Cancelled?
  }

  function CountRetries(log: seq<Entry>, key: u64): nat {
    if log == [] then 0
    else
      CountRetries(log[..|log| - 1], key) +
      (if log[|log| - 1].key == key && log[|log| - 1].Retried? then 1 else 0)
  }

  function CountEndings(log: seq<Entry>, key: u64): nat {
    if log == [] then 0
    else
      CountEndings(log[..|log| - 1], key) +
      (if log[|log| - 1].key == key && Ends(log[|log| - 1]) then 1 else 0)
  }

  /** What has happened to submission i by position `to`: so many retries and at most one ending; while it is open
      the phase counts the retries. */
  ghost predicate SoFar(c: Config, log: seq<Entry>, i: nat, to: nat)
    requires i < to <= |log| && log[i].Submitted?
  {
    var key, after := log[i].key, log[i + 1..to];
    var phase := PhaseOf(log[..to], key);
    CountRetries(after, key) <= c.maximumRetries &&
    if phase.Open? then CountEndings(after, key) == 0 && phase == Open(log[i].at, CountRetries(after, key))
    else CountEndings(after, key) == 1
  }

  lemma OneMore(log: seq<Entry>, from: nat, to: nat, key: u64)
    requires from <= to < |log|
    ensures PhaseOf(log[..to + 1], key) ==
      if log[to].key == key then Next(PhaseOf(log[..to], key), log[to]) else PhaseOf(log[..to], key)
    ensures CountRetries(log[from..to + 1], key) ==
      CountRetries(log[from..to], key) + (if log[to].key == key && log[to].Retried? then 1 else 0)
    ensures CountEndings(log[from..to + 1], key) ==
      CountEndings(log[from..to], key) + (if log[to].key == key && Ends(log[to]) then 1 else 0)
  {
    assert log[..to + 1][..to] == log[..to];
    assert log[from..to + 1][..to - from] == log[from..to];
  }

  lemma SoFarStep(c: Config, log: seq<Entry>, i: nat, to: nat)
    requires LegalLog(c, log) && i < to < |log| && log[i].Submitted? && SoFar(c, log, i, to)
    requires !(log[to].Submitted? && log[to].key == log[i].key)
    ensures SoFar(c, log, i, to + 1)
  {
    OneMore(log, i + 1, to, log[i].key);
    assert Legal(c, PhaseOf(log[..to], log[to].key), log[to]);
  }

  lemma SubmissionStarts(c: Config, log: seq<Entry>, i: nat)
    requires i < |log| && log[i].Submitted?
    ensures SoFar(c, log, i, i + 1)
  {
    assert log[i + 1..i + 1] == [];
    OneMore(log, i, i, log[i].key);
  }

  lemma {:induction false} SubmissionSoFar(c: Config, log: seq<Entry>, i: nat, to: nat)
    requires LegalLog(c, log) && i < to <= |log| && log[i].Submitted?
    requires forall j | i < j < to :: !(log[j].Submitted? && log[j].key == log[i].key)
    ensures SoFar(c, log, i, to)
  {
    if i + 1 < to {
      SubmissionSoFar(c, log, i, to - 1);
      SoFarStep(c, log, i, to - 1);
    } else {
      SubmissionStarts(c, log, i);
    }
  }

  /** The fate of a submission: at most `maximumRetries` retries, at most one match, timeout or cancellation, and no
      timeout before maximumRetries + 1 timeouts have passed. */
  lemma FateOfSubmission(c: Config, log: seq<Entry>, i: nat, to: nat)
    requires LegalLog(c, log) && i < to <= |log| && log[i].Submitted?
    requires forall j | i < j < to :: !(log[j].Submitted? && log[j].key == log[i].key)
    ensures CountRetries(log[i + 1..to], log[i].key) <= c.maximumRetries
    ensures CountEndings(log[i + 1..to], log[i].key) <= 1
    ensures forall j | i < j < to && log[j].TimedOut? && log[j].key == log[i].key ::
              log[j].at >= log[i].at + (c.maximumRetries + 1) * c.timeout
  {
    SubmissionSoFar(c, log, i, to);
    forall j | i < j < to && log[j].TimedOut? && log[j].key == log[i].key
      ensures log[j].at >= log[i].at + (c.maximumRetries + 1) * c.timeout
    {
      SubmissionSoFar(c, log, i, j);
      assert Legal(c, PhaseOf(log[..j], log[j].key), log[j]);
    }
  }
}
