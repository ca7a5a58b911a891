/** Whatever order the frames of one packet arrive in, with repeats, padding and other traffic between them, the
    reassembler gives the packet back exactly once. */
module FragmentDelivery {
  import opened FixedWidth
  import opened NonlinearFacts
  import opened Results
  import opened Fragmentation
  import opened Reassembly

  datatype Arrival = Arrival(streamId: u32, frame: seq<u8>, now: int)

  /** The packet under way: what was split, how, and for which stream. */
  datatype Sending = Sending(packet: seq<u8>, streamId: u32, transferId: u16)

  function Run(c: Config, s: State, arrivals: seq<Arrival>): (outcomes: seq<Outcome>)
    ensures |outcomes| == |arrivals|
    decreases arrivals
  {
    if arrivals == [] then []
    else
      var (next, outcome) := Accept(c, s, arrivals[0].streamId, arrivals[0].frame, arrivals[0].now);
      [outcome] + Run(c, next, arrivals[1..])
  }

  ghost function Count(c: Config, d: Sending): nat
    requires ValidConfig(c)
  {
    PieceCount(|d.packet|, Capacity(c.mtu))
  }

  ghost predicate ValidSending(c: Config, d: Sending) {
    ValidConfig(c) && Splittable(d.packet, c.mtu)
  }

  /** An arrival that counts as part of the transfer: any frame that decodes with its key. */
  ghost predicate Ours(c: Config, d: Sending, a: Arrival) {
    var f := DecodeFragment(a.frame, c.mtu);
    f.Ok? && a.streamId == d.streamId && f.value.transferId == d.transferId
  }

  ghost function IndexOf(c: Config, d: Sending, a: Arrival): nat
    requires Ours(c, d, a)
  {
    DecodeFragment(a.frame, c.mtu).value.sequence
  }

  /** Frame i of the packet, zero-padded. */
  ghost predicate IsFrame(c: Config, d: Sending, frame: seq<u8>, i: nat)
    requires ValidSending(c, d)
  {
    IsPaddedFrame(d.packet, d.transferId, c.mtu, frame, i)
  }

  /** Every frame that claims to belong to the transfer really is one of the packet's frames, padded. */
  ghost predicate Genuine(c: Config, d: Sending, arrivals: seq<Arrival>)
    requires ValidSending(c, d)
  {
    forall j | 0 <= j < |arrivals| && Ours(c, d, arrivals[j]) ::
      exists i: nat :: IsFrame(c, d, arrivals[j].frame, i)
  }

  /** The clock does not run backwards. */
  ghost predicate Ordered(arrivals: seq<Arrival>) {
    forall i, j | 0 <= i < j < |arrivals| :: arrivals[i].now <= arrivals[j].now
  }

  ghost predicate AnyOurs(c: Config, d: Sending, arrivals: seq<Arrival>) {
    exists j :: 0 <= j < |arrivals| && Ours(c, d, arrivals[j])
  }

  /** Each frame of the transfer comes less than the timeout after the one before it, the latest at `last`. */
  ghost predicate Prompt(c: Config, d: Sending, arrivals: seq<Arrival>, last: int) {
    arrivals == [] ||
    if Ours(c, d, arrivals[0])
    then arrivals[0].now - last < c.timeout && Prompt(c, d, arrivals[1..], arrivals[0].now)
    else Prompt(c, d, arrivals[1..], last)
  }

  /** The indices that arrive. */
  ghost function Indices(c: Config, d: Sending, arrivals: seq<Arrival>): set<nat> {
    if arrivals == [] then {}
    else (if Ours(c, d, arrivals[0]) then {IndexOf(c, d, arrivals[0])} else {}) + Indices(c, d, arrivals[1..])
  }

  ghost predicate AllSeen(c: Config, d: Sending, seen: set<nat>)
    requires ValidConfig(c)
  {
    forall i | 0 <= i < Count(c, d) :: i in seen
  }

  /** What accept answers to frame i after the frames in `seen`. */
  ghost function Expected(c: Config, d: Sending, seen: set<nat>, i: nat): Report
    requires ValidConfig(c)
  {
    if i in seen then Report(Duplicate, if AllSeen(c, d, seen) then Some(d.packet) else None)
    else if !AllSeen(c, d, seen) && AllSeen(c, d, seen + {i}) then Report(Complete, Some(d.packet))
    else Report(InProgress, None)
  }

  /** Every frame of the transfer gets its expected answer; never an error. */
  ghost predicate Faithful(c: Config, d: Sending, arrivals: seq<Arrival>, outcomes: seq<Outcome>, seen: set<nat>)
    requires ValidConfig(c)
  {
    |outcomes| == |arrivals| &&
    (arrivals == [] ||
     if Ours(c, d, arrivals[0]) then
       var i := IndexOf(c, d, arrivals[0]);
       outcomes[0] == Ok(Expected(c, d, seen, i)) && Faithful(c, d, arrivals[1..], outcomes[1..], seen + {i})
     else
       Faithful(c, d, arrivals[1..], outcomes[1..], seen))
  }

  /** How often the transfer is reported complete. */
  ghost function Completions(c: Config, d: Sending, arrivals: seq<Arrival>, outcomes: seq<Outcome>): nat
    requires |outcomes| == |arrivals|
  {
    if arrivals == [] then 0
    else
      (if Ours(c, d, arrivals[0]) && outcomes[0].Ok? && outcomes[0].value.status.Complete? then 1 else 0) +
      Completions(c, d, arrivals[1..], outcomes[1..])
  }

  // ---------------------------------------------------------------- joining the pieces

  /** Where the first n pieces end. */
  function PiecesEnd(size: nat, capacity: nat, n: nat): (end: nat)
    ensures end <= size
  {
    Min(n * capacity, size)
  }

  lemma PieceExtends(packet: seq<u8>, capacity: nat, n: nat)
    requires capacity > 0 && 0 < n <= PieceCount(|packet|, capacity)
    ensures packet[..PiecesEnd(|packet|, capacity, n)] ==
      packet[..PiecesEnd(|packet|, capacity, n - 1)] + Piece(packet, capacity, n - 1)
  {
    OffsetBelow(|packet|, capacity, n - 1);
    assert n * capacity == (n - 1) * capacity + capacity;
    var from, to := PiecesEnd(|packet|, capacity, n - 1), PiecesEnd(|packet|, capacity, n);
    assert Piece(packet, capacity, n - 1) == packet[from..to];
    assert packet[..to] == packet[..from] + packet[from..to];
  }

  /** The first n pieces join to the bytes before their end. */
  lemma {:induction false} JoinedPrefix(packet: seq<u8>, capacity: nat, pieces: Pieces, n: nat)
    requires capacity > 0 && n <= PieceCount(|packet|, capacity) <= U16_MAX
    requires forall i: nat | i < n :: i in pieces && pieces[i] == Piece(packet, capacity, i)
    ensures Joined(pieces, n) == Some(packet[..PiecesEnd(|packet|, capacity, n)])
  {
    if n > 0 {
      JoinedPrefix(packet, capacity, pieces, n - 1);
      PieceExtends(packet, capacity, n);
    } else {
      assert PiecesEnd(|packet|, capacity, 0) == 0;
    }
  }

  lemma AllJoined(c: Config, d: Sending, pieces: Pieces)
    requires ValidSending(c, d) && Count(c, d) <= U16_MAX
    requires forall i: nat | i < Count(c, d) :: i in pieces && pieces[i] == Piece(d.packet, Capacity(c.mtu), i)
    ensures Joined(pieces, Count(c, d)) == Some(d.packet)
  {
    JoinedPrefix(d.packet, Capacity(c.mtu), pieces, Count(c, d));
    CountCovers(|d.packet|, Capacity(c.mtu));
    assert d.packet[..|d.packet|] == d.packet;
  }

  // ---------------------------------------------------------------- the size of what has arrived

  /** Bytes in the pieces of `seen` below n. */
  ghost function SeenSize(c: Config, d: Sending, seen: set<nat>, n: nat): nat
    requires ValidConfig(c) && n <= Count(c, d)
  {
    if n == 0 then 0
    else SeenSize(c, d, seen, n - 1) + (if n - 1 in seen then |Piece(d.packet, Capacity(c.mtu), n - 1)| else 0)
  }

  lemma {:induction false} SeenSizeBounded(c: Config, d: Sending, seen: set<nat>, n: nat)
    requires ValidConfig(c) && n <= Count(c, d)
    ensures SeenSize(c, d, seen, n) <= Min(n * Capacity(c.mtu), |d.packet|)
  {
    if n > 0 {
      SeenSizeBounded(c, d, seen, n - 1);
      OffsetBelow(|d.packet|, Capacity(c.mtu), n - 1);
      assert n * Capacity(c.mtu) == (n - 1) * Capacity(c.mtu) + Capacity(c.mtu);
    }
  }

  lemma {:induction false} SeenSizeAdds(c: Config, d: Sending, seen: set<nat>, i: nat, n: nat)
    requires ValidConfig(c) && n <= Count(c, d) && i !in seen && i < Count(c, d)
    ensures SeenSize(c, d, seen + {i}, n) ==
      SeenSize(c, d, seen, n) + (if i < n then |Piece(d.packet, Capacity(c.mtu), i)| else 0)
  {
    if n > 0 {
      SeenSizeAdds(c, d, seen, i, n - 1);
    }
  }

  // ---------------------------------------------------------------- one frame

  /** The transfer holds exactly the pieces seen. */
  ghost predicate Recorded(c: Config, d: Sending, t: Transfer, seen: set<nat>)
    requires ValidSending(c, d)
  {
    var count := Count(c, d);
    && (forall i | i in seen :: i < count <= U16_MAX)
    && (forall i | i in seen :: i in t.pieces && t.pieces[i] == Piece(d.packet, Capacity(c.mtu), i))
    && (forall i | i in seen :: i in t.pieceFlags && t.pieceFlags[i] == PieceFlags(d.packet, Capacity(c.mtu), i))
    && (forall i | i in t.pieces :: i in seen)
    && t.lastSequence == (if count - 1 in seen then Some(count - 1) else None)
    && t.receivedSize == SeenSize(c, d, seen, count)
  }

  ghost predicate Tracks(c: Config, d: Sending, t: Transfer, seen: set<nat>)
    requires ValidSending(c, d)
  {
    && Recorded(c, d, t, seen)
    && (t.complete <==> AllSeen(c, d, seen))
    && (t.complete ==> t.completedPacket == d.packet)
  }

  lemma NothingSeen(c: Config, d: Sending, n: nat)
    requires ValidConfig(c) && n <= Count(c, d)
    ensures SeenSize(c, d, {}, n) == 0
  {
  }

  lemma NewTransferTracks(c: Config, d: Sending, now: int)
    requires ValidSending(c, d)
    ensures Tracks(c, d, NewTransfer(now), {})
  {
    CountCovers(|d.packet|, Capacity(c.mtu));
    NothingSeen(c, d, Count(c, d));
    var none: set<nat> := {};
    assert 0 !in none;
  }

  /** The fragment that frame i decodes to. */
  ghost predicate IsFragment(c: Config, d: Sending, f: Fragment, i: nat)
    requires ValidSending(c, d)
  {
    i < Count(c, d) && i <= U16_MAX && f.sequence == i &&
    f.payload == Piece(d.packet, Capacity(c.mtu), i) && f.flags == PieceFlags(d.packet, Capacity(c.mtu), i)
  }

  lemma PieceRecorded(c: Config, d: Sending, t: Transfer, seen: set<nat>, f: Fragment, i: nat, now: int)
    requires ValidSending(c, d) && Count(c, d) <= U16_MAX && Recorded(c, d, t, seen) && IsFragment(c, d, f, i)
    requires i !in seen
    ensures Recorded(c, d, WithPiece(t, f, now), seen + {i})
  {
    SeenSizeAdds(c, d, seen, i, Count(c, d));
  }

  lemma CompletesWhenAllSeen(c: Config, d: Sending, t: Transfer, seen: set<nat>)
    requires ValidSending(c, d) && Count(c, d) <= U16_MAX && Recorded(c, d, t, seen)
    ensures TryComplete(t) == if AllSeen(c, d, seen) then Some(d.packet) else None
  {
    CountCovers(|d.packet|, Capacity(c.mtu));
    if AllSeen(c, d, seen) {
      AllJoined(c, d, t.pieces);
    } else if t.lastSequence.Some? {
      var missing: nat :| missing < Count(c, d) && missing !in seen;
      MissingPieceIsNotJoined(t.pieces, missing, Count(c, d));
    }
  }

  /** Recording a new piece keeps the bookkeeping up to date. */
  lemma RecordTracks(c: Config, d: Sending, t: Transfer, seen: set<nat>, f: Fragment, i: nat, now: int)
    requires ValidSending(c, d) && Count(c, d) <= U16_MAX && Tracks(c, d, t, seen) && IsFragment(c, d, f, i)
    requires i !in seen && !AllSeen(c, d, seen)
    ensures Tracks(c, d, Record(t, f, now).0, seen + {i})
    ensures Record(t, f, now).1 == Expected(c, d, seen, i)
    ensures Record(t, f, now).0.lastUpdate == now
  {
    PieceRecorded(c, d, t, seen, f, i, now);
    CompletesWhenAllSeen(c, d, WithPiece(t, f, now), seen + {i});
  }

  /** One frame of the transfer: the expected answer, and the bookkeeping goes on. */
  lemma FragmentAnswered(c: Config, d: Sending, s: State, seen: set<nat>, f: Fragment, i: nat, now: int)
    requires ValidSending(c, d) && Count(c, d) <= U16_MAX && IsFragment(c, d, f, i)
    requires (seen == {} ==> i == 0)
    requires var key := Key(d.streamId, d.transferId);
             if seen == {} then key !in s else key in s && Tracks(c, d, s[key], seen)
    ensures var key := Key(d.streamId, d.transferId);
            var (next, outcome) := AcceptFragment(s, key, f, now);
            outcome == Ok(Expected(c, d, seen, i)) &&
            key in next && Tracks(c, d, next[key], seen + {i}) && next[key].lastUpdate == now
  {
    var key := Key(d.streamId, d.transferId);
    var t := if key in s then s[key] else NewTransfer(now);
    var count := Count(c, d);
    if i in seen {
      assert seen + {i} == seen;
    } else {
      CountCovers(|d.packet|, Capacity(c.mtu));
      NewTransferTracks(c, d, now);
      SeenSizeAdds(c, d, seen, i, count);
      SeenSizeBounded(c, d, seen + {i}, count);
      assert !AllSeen(c, d, seen);
      RecordTracks(c, d, t, seen, f, i, now);
    }
  }

  /** A frame of some other transfer, or one that does not decode, leaves this transfer alone. */
  lemma OthersLeaveAlone(c: Config, d: Sending, s: State, a: Arrival)
    requires !Ours(c, d, a)
    ensures var key := Key(d.streamId, d.transferId);
            var next := Accept(c, s, a.streamId, a.frame, a.now).0;
            (key in next <==> key in s && a.now - s[key].lastUpdate < c.timeout) &&
            (key in next ==> next[key] == s[key])
  {
    var f := DecodeFragment(a.frame, c.mtu);
    if f.Ok? && Key(a.streamId, f.value.transferId) == Key(d.streamId, d.transferId) {
      KeyInjective(a.streamId, f.value.transferId, d.streamId, d.transferId);
    }
  }

  // ---------------------------------------------------------------- whole runs

  /** As long as a frame of the transfer is still to come, the transfer does not expire. */
  lemma {:induction false} NotExpiredYet(c: Config, d: Sending, arrivals: seq<Arrival>, last: int)
    requires AnyOurs(c, d, arrivals) && Ordered(arrivals) && Prompt(c, d, arrivals, last)
    ensures arrivals[0].now - last < c.timeout
  {
    if !Ours(c, d, arrivals[0]) {
      var j :| 0 <= j < |arrivals| && Ours(c, d, arrivals[j]);
      assert arrivals[1..][j - 1] == arrivals[j];
      NotExpiredYet(c, d, arrivals[1..], last);
    }
  }

  ghost predicate Underway(c: Config, d: Sending, s: State, seen: set<nat>, last: int)
    requires ValidSending(c, d)
  {
    var key := Key(d.streamId, d.transferId);
    if seen == {} then key !in s else key in s && Tracks(c, d, s[key], seen) && s[key].lastUpdate == last
  }

  /** The first frame of the transfer to arrive is frame 0. */
  ghost predicate StartsWithFirst(c: Config, d: Sending, arrivals: seq<Arrival>) {
    arrivals == [] ||
    if Ours(c, d, arrivals[0]) then IndexOf(c, d, arrivals[0]) == 0 else StartsWithFirst(c, d, arrivals[1..])
  }

  /** Time of the first frame of the transfer. */
  ghost function FirstTime(c: Config, d: Sending, arrivals: seq<Arrival>): int {
    if arrivals == [] then 0
    else if Ours(c, d, arrivals[0]) then arrivals[0].now
    else FirstTime(c, d, arrivals[1..])
  }

  lemma GenuineTail(c: Config, d: Sending, arrivals: seq<Arrival>)
    requires ValidSending(c, d) && Genuine(c, d, arrivals) && Ordered(arrivals) && arrivals != []
    ensures Genuine(c, d, arrivals[1..]) && Ordered(arrivals[1..])
    ensures AnyOurs(c, d, arrivals) ==> Ours(c, d, arrivals[0]) || AnyOurs(c, d, arrivals[1..])
  {
    forall j | 0 <= j < |arrivals| - 1 && Ours(c, d, arrivals[1..][j])
      ensures exists i: nat :: IsFrame(c, d, arrivals[1..][j].frame, i)
    {
      assert arrivals[1..][j] == arrivals[j + 1];
    }
    if AnyOurs(c, d, arrivals) && !Ours(c, d, arrivals[0]) {
      var j :| 0 <= j < |arrivals| && Ours(c, d, arrivals[j]);
      assert arrivals[1..][j - 1] == arrivals[j];
    }
  }

  /** Without a frame of the transfer there is nothing to answer. */
  lemma {:induction false} NothingToAnswer(c: Config, d: Sending, arrivals: seq<Arrival>, outcomes: seq<Outcome>,
      seen: set<nat>)
    requires ValidConfig(c) && |outcomes| == |arrivals| && !AnyOurs(c, d, arrivals)
    ensures Faithful(c, d, arrivals, outcomes, seen)
  {
    if arrivals != [] {
      assert !Ours(c, d, arrivals[0]);
      forall j | 0 <= j < |arrivals| - 1
        ensures !Ours(c, d, arrivals[1..][j])
      {
        assert arrivals[1..][j] == arrivals[j + 1];
      }
      NothingToAnswer(c, d, arrivals[1..], outcomes[1..], seen);
    }
  }

  /** One frame of the transfer in a run. */
  lemma OursAnswered(c: Config, d: Sending, s: State, a: Arrival, seen: set<nat>, last: int)
    requires ValidSending(c, d) && Underway(c, d, s, seen, last) && Ours(c, d, a)
    requires exists i: nat :: IsFrame(c, d, a.frame, i)
    requires seen == {} ==> IndexOf(c, d, a) == 0
    requires seen != {} ==> a.now - last < c.timeout
    ensures var (next, outcome) := Accept(c, s, a.streamId, a.frame, a.now);
            var i := IndexOf(c, d, a);
            outcome == Ok(Expected(c, d, seen, i)) && Underway(c, d, next, seen + {i}, a.now)
  {
    var i: nat :| IsFrame(c, d, a.frame, i);
    PaddedFrameDecodes(d.packet, d.transferId, c.mtu, a.frame, i);
    CountCovers(|d.packet|, Capacity(c.mtu));
    var f := FragmentAt(d.packet, d.transferId, c.mtu, i);
    var alive := Expire(s, c.timeout, a.now);
    FragmentAnswered(c, d, alive, seen, f, i, a.now);
  }

  lemma {:induction false} RunIsFaithful(c: Config, d: Sending, s: State, arrivals: seq<Arrival>, seen: set<nat>, last: int)
    requires ValidSending(c, d) && Genuine(c, d, arrivals) && Ordered(arrivals)
    requires Underway(c, d, s, seen, last)
    requires if seen == {} then StartsWithFirst(c, d, arrivals) && Prompt(c, d, arrivals, FirstTime(c, d, arrivals))
             else Prompt(c, d, arrivals, last)
    ensures Faithful(c, d, arrivals, Run(c, s, arrivals), seen)
    decreases |arrivals|
  {
    if !AnyOurs(c, d, arrivals) {
      NothingToAnswer(c, d, arrivals, Run(c, s, arrivals), seen);
    } else {
      var a := arrivals[0];
      var next := Accept(c, s, a.streamId, a.frame, a.now).0;
      GenuineTail(c, d, arrivals);
      assert Run(c, s, arrivals)[1..] == Run(c, next, arrivals[1..]);
      if Ours(c, d, a) {
        OursAnswered(c, d, s, a, seen, last);
        RunIsFaithful(c, d, next, arrivals[1..], seen + {IndexOf(c, d, a)}, a.now);
      } else {
        OthersLeaveAlone(c, d, s, a);
        if seen != {} {
          NotExpiredYet(c, d, arrivals, last);
        }
        RunIsFaithful(c, d, next, arrivals[1..], seen, last);
      }
    }
  }

  lemma {:induction false} FaithfulCompletesOnce(c: Config, d: Sending, arrivals: seq<Arrival>, outcomes: seq<Outcome>,
      seen: set<nat>)
    requires ValidConfig(c) && Faithful(c, d, arrivals, outcomes, seen)
    ensures Completions(c, d, arrivals, outcomes) ==
      (if !AllSeen(c, d, seen) && AllSeen(c, d, seen + Indices(c, d, arrivals)) then 1 else 0)
    decreases |arrivals|
  {
    if arrivals == [] {
      assert seen + Indices(c, d, arrivals) == seen;
    } else if Ours(c, d, arrivals[0]) {
      var i := IndexOf(c, d, arrivals[0]);
      FaithfulCompletesOnce(c, d, arrivals[1..], outcomes[1..], seen + {i});
      assert seen + {i} + Indices(c, d, arrivals[1..]) == seen + Indices(c, d, arrivals);
      if i in seen {
        assert seen + {i} == seen;
      }
    } else {
      FaithfulCompletesOnce(c, d, arrivals[1..], outcomes[1..], seen);
      assert {} + Indices(c, d, arrivals[1..]) == Indices(c, d, arrivals[1..]);
    }
  }

  /** Arrival j, if it is a frame of the transfer, is answered without an error, and with no packet but the one
      that was split. */
  ghost predicate Answered(c: Config, d: Sending, arrivals: seq<Arrival>, outcomes: seq<Outcome>, j: nat)
    requires j < |arrivals| == |outcomes|
  {
    Ours(c, d, arrivals[j]) ==>
      outcomes[j].Ok? &&
      (outcomes[j].value.status.Complete? ==> outcomes[j].value.packet.Some?) &&
      (outcomes[j].value.packet.Some? ==> outcomes[j].value.packet.value == d.packet)
  }

  lemma {:induction false} FaithfulAnswers(c: Config, d: Sending, arrivals: seq<Arrival>, outcomes: seq<Outcome>,
      seen: set<nat>, j: nat)
    requires ValidConfig(c) && Faithful(c, d, arrivals, outcomes, seen) && j < |arrivals|
    ensures Answered(c, d, arrivals, outcomes, j)
    decreases |arrivals|
  {
    if j > 0 {
      var rest := if Ours(c, d, arrivals[0]) then seen + {IndexOf(c, d, arrivals[0])} else seen;
      assert arrivals[1..][j - 1] == arrivals[j] && outcomes[1..][j - 1] == outcomes[j];
      FaithfulAnswers(c, d, arrivals[1..], outcomes[1..], rest, j - 1);
    }
  }

  /** The frames of a packet, arriving in any order that starts with frame 0, repeated, zero-padded and mixed with
      any other traffic, never raise an error, and complete the packet exactly once if all of them arrive, else
      never. Every packet reported is the one that was split. */
  lemma PacketDeliveredOnce(c: Config, d: Sending, s: State, arrivals: seq<Arrival>)
    requires ValidSending(c, d) && Key(d.streamId, d.transferId) !in s
    requires Genuine(c, d, arrivals) && Ordered(arrivals)
    requires StartsWithFirst(c, d, arrivals) && Prompt(c, d, arrivals, FirstTime(c, d, arrivals))
    ensures forall j | 0 <= j < |arrivals| :: Answered(c, d, arrivals, Run(c, s, arrivals), j)
    ensures Completions(c, d, arrivals, Run(c, s, arrivals)) ==
      (if AllSeen(c, d, Indices(c, d, arrivals)) then 1 else 0)
  {
    var outcomes := Run(c, s, arrivals);
    assert Faithful(c, d, arrivals, outcomes, {}) by {
      RunIsFaithful(c, d, s, arrivals, {}, 0);
    }
    forall j | 0 <= j < |arrivals|
      ensures Answered(c, d, arrivals, outcomes, j)
    {
      FaithfulAnswers(c, d, arrivals, outcomes, {}, j);
    }
    CompletesOnce(c, d, arrivals, outcomes);
  }

  lemma CompletesOnce(c: Config, d: Sending, arrivals: seq<Arrival>, outcomes: seq<Outcome>)
    requires ValidSending(c, d) && Faithful(c, d, arrivals, outcomes, {})
    ensures Completions(c, d, arrivals, outcomes) == (if AllSeen(c, d, Indices(c, d, arrivals)) then 1 else 0)
  {
    FaithfulCompletesOnce(c, d, arrivals, outcomes, {});
    CountCovers(|d.packet|, Capacity(c.mtu));
    var none: set<nat> := {};
    assert 0 !in none && !AllSeen(c, d, none);
    assert none + Indices(c, d, arrivals) == Indices(c, d, arrivals);
  }
}
