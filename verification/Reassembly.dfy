/** The reassembler of protocol/src/fragmentation.cpp: its state as a value, and the class that updates it. */
module Reassembly {
  import opened FixedWidth
  import opened Results
  import opened Fragmentation

  type Pieces = map<u16, seq<u8>>

  datatype Transfer = Transfer(
    lastUpdate: int, pieces: Pieces, pieceFlags: map<u16, u8>, lastSequence: Option<u16>, receivedSize: nat,
    complete: bool, completedPacket: seq<u8>)

  datatype Config = Config(mtu: nat, timeout: int)

  type State = map<u64, Transfer>

  datatype Status = InProgress | Complete | Duplicate

  datatype Report = Report(status: Status, packet: Option<seq<u8>>)

  type Outcome = Result<Report, FragmentError>

  predicate ValidConfig(c: Config) {
    ValidMtu(c.mtu) && c.timeout > 0
  }

  /** (stream << 16) | transfer */
  function Key(streamId: u32, transferId: u16): u64 {
    streamId * 0x1_0000 + transferId
  }

  lemma KeyInjective(s1: u32, t1: u16, s2: u32, t2: u16)
    requires Key(s1, t1) == Key(s2, t2)
    ensures s1 == s2 && t1 == t2
  {
  }

  function Expire(s: State, timeout: int, now: int): State {
    map k | k in s && now - s[k].lastUpdate < timeout :: s[k]
  }

  /** The pieces 0, 1, ..., n - 1 joined, if all are there. */
  function Joined(pieces: Pieces, n: nat): Option<seq<u8>>
    requires n <= U16_MAX + 1
  {
    if n == 0 then Some([])
    else
      var front := Joined(pieces, n - 1);
      if front.Some? && n - 1 in pieces then Some(front.value + pieces[n - 1]) else None
  }

  function TryComplete(t: Transfer): Option<seq<u8>> {
    if t.lastSequence.None? then None else Joined(t.pieces, t.lastSequence.value + 1)
  }

  function NewTransfer(now: int): Transfer {
    Transfer(now, map[], map[], None, 0, false, [])
  }

  function WithPiece(t: Transfer, f: Fragment, now: int): Transfer {
    t.(lastUpdate := now,
       receivedSize := t.receivedSize + |f.payload|,
       pieces := t.pieces[f.sequence := f.payload],
       pieceFlags := t.pieceFlags[f.sequence := f.flags],
       lastSequence := if IsLast(f.flags) then Some(f.sequence) else t.lastSequence)
  }

  /** A piece not seen before is recorded, and may complete the packet. */
  function Record(t: Transfer, f: Fragment, now: int): (Transfer, Report) {
    var recorded := WithPiece(t, f, now);
    var packet := TryComplete(recorded);
    if packet.Some? then (recorded.(complete := true, completedPacket := packet.value), Report(Complete, packet))
    else (recorded, Report(InProgress, None))
  }

  function AcceptFragment(s: State, key: u64, f: Fragment, now: int): (State, Outcome) {
    if key !in s && !IsFirst(f.flags) then (s, Err(UnknownTransfer))
    else
      var t := if key in s then s[key] else NewTransfer(now);
      if f.sequence in t.pieces then
        if t.pieces[f.sequence] != f.payload ||
           f.sequence !in t.pieceFlags || t.pieceFlags[f.sequence] != f.flags then (s[key := t], Err(ConflictingDuplicate))
        else
          (s[key := t.(lastUpdate := now)],
           Ok(Report(Duplicate, if t.complete then Some(t.completedPacket) else None)))
      else if t.complete || (t.lastSequence.Some? && f.sequence > t.lastSequence.value) then
        (s[key := t], Err(DataAfterLast))
      else if IsLast(f.flags) && t.lastSequence.Some? && t.lastSequence.value != f.sequence then
        (s[key := t], Err(InvalidSequence))
      else if t.receivedSize + |f.payload| > MAXIMUM_PACKET_SIZE then
        (s - {key}, Err(ReassembledPacketTooLarge))
      else
        var (recorded, report) := Record(t, f, now);
        (s[key := recorded], Ok(report))
  }

  function Accept(c: Config, s: State, streamId: u32, frame: seq<u8>, now: int): (State, Outcome) {
    var alive := Expire(s, c.timeout, now);
    var decoded := DecodeFragment(frame, c.mtu);
    if decoded.Err? then (alive, Err(decoded.error))
    else AcceptFragment(alive, Key(streamId, decoded.value.transferId), decoded.value, now)
  }

  /** Pieces and flags are recorded together. */
  ghost predicate Inv(s: State) {
    forall k | k in s :: s[k].pieces.Keys == s[k].pieceFlags.Keys
  }

  lemma AcceptKeepsInv(c: Config, s: State, streamId: u32, frame: seq<u8>, now: int)
    requires Inv(s)
    ensures Inv(Accept(c, s, streamId, frame, now).0)
  {
    var decoded := DecodeFragment(frame, c.mtu);
    if decoded.Ok? {
      FragmentKeepsInv(Expire(s, c.timeout, now), Key(streamId, decoded.value.transferId), decoded.value, now);
    }
  }

  lemma FragmentKeepsInv(s: State, key: u64, f: Fragment, now: int)
    requires Inv(s)
    ensures Inv(AcceptFragment(s, key, f, now).0)
  {
  }

  class Reassembler {
    const mtu: nat
    const timeout: int
    var transfers: map<u64, Transfer>

    ghost predicate Valid()
      reads this
    {
      ValidConfig(Config(mtu, timeout)) && Inv(transfers)
    }

    constructor (mtu: nat, timeout: int)
      requires ValidMtu(mtu) && timeout > 0
      ensures Valid() && transfers == map[] && this.mtu == mtu && this.timeout == timeout
    {
      this.mtu := mtu;
      this.timeout := timeout;
      transfers := map[];
    }

    method ExpireTransfers(now: int) returns (removed: nat)
      requires Valid()
      modifies this
      ensures Valid() && transfers == Expire(old(transfers), timeout, now)
      ensures removed == |old(transfers)| - |transfers|
    {
      removed := 0;
      var rest := transfers.Keys;
      ghost var before := transfers;
      while rest != {}
        invariant rest <= transfers.Keys <= before.Keys
        invariant forall k | k in transfers :: transfers[k] == before[k]
        invariant forall k | k in before && k !in rest :: k in transfers <==> now - before[k].lastUpdate < timeout
        invariant removed == |before| - |transfers|
        decreases |rest|
      {
        var key :| key in rest;
        if now - transfers[key].lastUpdate >= timeout {
          ghost var kept := transfers;
          transfers := transfers - {key};
          assert transfers.Keys == kept.Keys - {key};
          assert |transfers| == |transfers.Keys| && |kept| == |kept.Keys|;
          removed := removed + 1;
        }
        rest := rest - {key};
      }
      assert transfers == Expire(before, timeout, now);
    }

    method JoinPieces(t: Transfer) returns (packet: Option<seq<u8>>)
      ensures packet == TryComplete(t)
    {
      if t.lastSequence.None? {
        return None;
      }
      var joined: seq<u8> := [];
      var sequence := 0;
      while sequence <= t.lastSequence.value
        invariant 0 <= sequence <= t.lastSequence.value + 1
        invariant Joined(t.pieces, sequence) == Some(joined)
      {
        if sequence !in t.pieces {
          MissingPieceIsNotJoined(t.pieces, sequence, t.lastSequence.value + 1);
          return None;
        }
        joined := joined + t.pieces[sequence];
        sequence := sequence + 1;
      }
      packet := Some(joined);
    }

    /** The part of accept after the checks. */
    method RecordPiece(t: Transfer, key: u64, f: Fragment, now: int) returns (report: Report)
      requires Valid() && t.pieces.Keys == t.pieceFlags.Keys
      modifies this
      ensures Valid() && transfers == old(transfers)[key := Record(t, f, now).0]
      ensures report == Record(t, f, now).1
    {
      var transfer := t.(lastUpdate := now, receivedSize := t.receivedSize + |f.payload|);
      transfer := transfer.(pieces := transfer.pieces[f.sequence := f.payload],
                            pieceFlags := transfer.pieceFlags[f.sequence := f.flags]);
      if IsLast(f.flags) {
        transfer := transfer.(lastSequence := Some(f.sequence));
      }
      var packet := JoinPieces(transfer);
      if packet.Some? {
        transfer := transfer.(complete := true, completedPacket := packet.value);
        report := Report(Complete, packet);
      } else {
        report := Report(InProgress, None);
      }
      transfers := transfers[key := transfer];
    }

    /** The part of accept after decoding. */
    method AcceptDecoded(key: u64, fragment: Fragment, now: int) returns (outcome: Outcome)
      requires Valid()
      modifies this
      ensures Valid()
      ensures (transfers, outcome) == AcceptFragment(old(transfers), key, fragment, now)
    {
      ghost var alive := transfers;
      if key !in transfers {
        if !IsFirst(fragment.flags) {
          return Err(UnknownTransfer);
        }
        transfers := transfers[key := NewTransfer(now)];
      }
      var transfer := transfers[key];
      assert transfers == alive[key := transfer];
      if fragment.sequence in transfer.pieces {
        if transfer.pieces[fragment.sequence] != fragment.payload ||
           transfer.pieceFlags[fragment.sequence] != fragment.flags {
          return Err(ConflictingDuplicate);
        }
        transfers := transfers[key := transfer.(lastUpdate := now)];
        assert transfers == alive[key := transfer.(lastUpdate := now)];
        return Ok(Report(Duplicate, if transfer.complete then Some(transfer.completedPacket) else None));
      }
      if transfer.complete ||
         (transfer.lastSequence.Some? && fragment.sequence > transfer.lastSequence.value) {
        return Err(DataAfterLast);
      }
      if IsLast(fragment.flags) && transfer.lastSequence.Some? && transfer.lastSequence.value != fragment.sequence {
        return Err(InvalidSequence);
      }
      if transfer.receivedSize + |fragment.payload| > MAXIMUM_PACKET_SIZE {
        transfers := transfers - {key};
        assert transfers == alive - {key};
        return Err(ReassembledPacketTooLarge);
      }
      var report := RecordPiece(transfer, key, fragment, now);
      assert transfers == alive[key := Record(transfer, fragment, now).0];
      outcome := Ok(report);
    }

    method AcceptFrame(streamId: u32, frame: seq<u8>, now: int) returns (outcome: Outcome)
      requires Valid()
      modifies this
      ensures Valid()
      ensures (transfers, outcome) == Accept(Config(mtu, timeout), old(transfers), streamId, frame, now)
    {
      var removed := ExpireTransfers(now);
      var decoded := DecodeFragment(frame, mtu);
      if decoded.Err? {
        return Err(decoded.error);
      }
      outcome := AcceptDecoded(Key(streamId, decoded.value.transferId), decoded.value, now);
    }
  }

  /** The C++ constructor, which refuses an MTU without room for data and a timeout that is not positive. */
  method CreateReassembler(mtu: nat, timeout: int) returns (r: Option<Reassembler>)
    ensures r.Some? <==> ValidConfig(Config(mtu, timeout))
    ensures r.Some? ==> fresh(r.value) && r.value.Valid() && r.value.transfers == map[] &&
                        r.value.mtu == mtu && r.value.timeout == timeout
  {
    if !ValidConfig(Config(mtu, timeout)) {
      return None;
    }
    var reassembler := new Reassembler(mtu, timeout);
    r := Some(reassembler);
  }

  lemma {:induction false} MissingPieceIsNotJoined(pieces: Pieces, missing: nat, n: nat)
    requires missing < n <= U16_MAX + 1 && missing !in pieces
    ensures Joined(pieces, n).None?
  {
    if missing < n - 1 {
      MissingPieceIsNotJoined(pieces, missing, n - 1);
    }
  }
}
