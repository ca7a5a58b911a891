/** What the reassembler answers to each frame, on the transfers themselves (protocol/src/fragmentation.cpp:157-286). */
module FragmentAnswers {
  import opened FixedWidth
  import opened Results
  import opened Fragmentation
  import opened Reassembly

  /** The transfer has been quiet for less than the timeout. */
  ghost predicate Alive(c: Config, s: State, key: u64, now: int) {
    key in s && now < s[key].lastUpdate + c.timeout
  }

  /** What is left but for the transfer of the key: every other one that is alive, as it was. */
  ghost predicate OthersKept(c: Config, s: State, next: State, key: u64, now: int) {
    forall k | k != key :: (k in next <==> Alive(c, s, k, now)) && (k in next ==> next[k] == s[k])
  }

  ghost predicate AllKept(c: Config, s: State, next: State, now: int) {
    forall k :: (k in next <==> Alive(c, s, k, now)) && (k in next ==> next[k] == s[k])
  }

  lemma ExpireExactly(c: Config, s: State, now: int)
    ensures AllKept(c, s, Expire(s, c.timeout, now), now)
  {
  }

  /** A transfer just begun. */
  ghost predicate Fresh(t: Transfer, now: int) {
    t.lastUpdate == now && t.pieces == map[] && t.pieceFlags == map[] && t.lastSequence.None? && t.receivedSize == 0 &&
    !t.complete
  }

  /** The frame's piece is new to the transfer and fits it. */
  ghost predicate Taken(t: Transfer, next: Transfer, f: Fragment, now: int) {
    && next.pieces == t.pieces[f.sequence := f.payload] && next.pieceFlags == t.pieceFlags[f.sequence := f.flags]
    && next.lastUpdate == now && next.receivedSize == t.receivedSize + |f.payload|
    && next.lastSequence == (if (f.flags / 2) % 2 == 1 then Some(f.sequence) else t.lastSequence)
  }

  /** All pieces up to the last one are there. */
  ghost predicate Whole(t: Transfer) {
    t.lastSequence.Some? && forall i: u16 | i <= t.lastSequence.value :: i in t.pieces
  }

  /** The first n pieces, one after the other. */
  ghost predicate Spells(pieces: Pieces, n: nat, packet: seq<u8>)
    requires n <= U16_MAX + 1
  {
    if n == 0 then packet == []
    else
      n - 1 in pieces && |pieces[n - 1]| <= |packet| &&
      packet[|packet| - |pieces[n - 1]|..] == pieces[n - 1] &&
      Spells(pieces, n - 1, packet[..|packet| - |pieces[n - 1]|])
  }

  lemma {:induction false} JoinedSpells(pieces: Pieces, n: nat)
    requires n <= U16_MAX + 1
    ensures Joined(pieces, n).Some? <==> forall i: u16 | i < n :: i in pieces
    ensures Joined(pieces, n).Some? ==> Spells(pieces, n, Joined(pieces, n).value)
  {
    if n > 0 {
      JoinedSpells(pieces, n - 1);
      if Joined(pieces, n).Some? {
        var front := Joined(pieces, n - 1).value;
        assert (front + pieces[n - 1])[..|front|] == front;
      }
      assert (forall i: u16 | i < n :: i in pieces) <==> (forall i: u16 | i < n - 1 :: i in pieces) && n - 1 in pieces;
    }
  }

  /** A frame with a new piece: reported complete with the packet that the pieces spell once all are there. */
  ghost predicate Recorded(t: Transfer, next: State, key: u64, f: Fragment, now: int, report: Report) {
    && key in next && Taken(t, next[key], f, now)
    && if Whole(next[key]) then
         report.status.Complete? && report.packet.Some? && next[key].complete &&
         next[key].completedPacket == report.packet.value &&
         Spells(next[key].pieces, next[key].lastSequence.value + 1, report.packet.value)
       else
         report == Report(InProgress, None) && next[key].complete == t.complete &&
         next[key].completedPacket == t.completedPacket
  }

  lemma RecordExactly(t: Transfer, s: State, key: u64, f: Fragment, now: int)
    ensures var (recorded, report) := Record(t, f, now); Recorded(t, s[key := recorded], key, f, now, report)
  {
    var recorded := WithPiece(t, f, now);
    assert IsLast(f.flags) <==> (f.flags / 2) % 2 == 1;
    if recorded.lastSequence.Some? {
      JoinedSpells(recorded.pieces, recorded.lastSequence.value + 1);
    }
  }

  /** What a frame does to its transfer `t`, or to the new one that it begins. */
  ghost predicate Answered(t: Transfer, next: State, key: u64, f: Fragment, now: int, r: Outcome) {
    if f.sequence in t.pieces then
      if f.sequence in t.pieceFlags && t.pieces[f.sequence] == f.payload && t.pieceFlags[f.sequence] == f.flags then
        key in next && next[key] == t.(lastUpdate := now) &&
        r == Ok(Report(Duplicate, if t.complete then Some(t.completedPacket) else None))
      else key in next && next[key] == t && r == Err(ConflictingDuplicate)
    else if t.complete || (t.lastSequence.Some? && t.lastSequence.value < f.sequence) then
      key in next && next[key] == t && r == Err(DataAfterLast)
    else if (f.flags / 2) % 2 == 1 && t.lastSequence.Some? && f.sequence < t.lastSequence.value then
      key in next && next[key] == t && r == Err(InvalidSequence)
    else if t.receivedSize + |f.payload| > 2048 then key !in next && r == Err(ReassembledPacketTooLarge)
    else r.Ok? && Recorded(t, next, key, f, now, r.value)
  }

  lemma AcceptFragmentExactly(s: State, key: u64, f: Fragment, now: int)
    ensures var (next, r) := AcceptFragment(s, key, f, now);
            && (forall k | k != key :: (k in next <==> k in s) && (k in next ==> next[k] == s[k]))
            && if key in s then Answered(s[key], next, key, f, now, r)
               else if f.flags % 2 == 0 then key !in next && r == Err(UnknownTransfer)
               else exists t :: Fresh(t, now) && Answered(t, next, key, f, now, r)
  {
    var t := if key in s then s[key] else NewTransfer(now);
    assert key !in s ==> Fresh(t, now);
    RecordExactly(t, s, key, f, now);
    if key in s || f.flags % 2 == 1 {
      AnsweredExactly(s, t, key, f, now);
    }
  }

  lemma AnsweredExactly(s: State, t: Transfer, key: u64, f: Fragment, now: int)
    requires if key in s then t == s[key] else t == NewTransfer(now) && f.flags % 2 == 1
    ensures var (next, r) := AcceptFragment(s, key, f, now); Answered(t, next, key, f, now, r)
  {
    assert IsLast(f.flags) <==> (f.flags / 2) % 2 == 1;
    RecordExactly(t, s, key, f, now);
  }

  /** Every answer to a frame.  Stale transfers go first; a frame that does not decode does no more; one that does meets the
      transfer of its stream and id, or begins it if it is a first frame, and leaves every other alone. */
  lemma AcceptExactly(c: Config, s: State, streamId: u32, frame: seq<u8>, now: int)
    ensures var (next, r) := Accept(c, s, streamId, frame, now);
            match DecodeFragment(frame, c.mtu)
            case Err(error) => r == Err(error) && AllKept(c, s, next, now)
            case Ok(f) =>
              var key := Key(streamId, f.transferId);
              OthersKept(c, s, next, key, now) &&
              if Alive(c, s, key, now) then Answered(s[key], next, key, f, now, r)
              else if f.flags % 2 == 0 then key !in next && r == Err(UnknownTransfer)
              else exists t :: Fresh(t, now) && Answered(t, next, key, f, now, r)
  {
    ExpireExactly(c, s, now);
    var decoded := DecodeFragment(frame, c.mtu);
    if decoded.Ok? {
      AcceptFragmentExactly(Expire(s, c.timeout, now), Key(streamId, decoded.value.transferId), decoded.value, now);
    }
  }
}
