/** The frames of one packet, in order but with repeats, mixed with other traffic and timeout passes, rebuild the
    packet in the firmware's slots. */
module FirmwareDelivery {
  import opened FixedWidth
  import opened NonlinearFacts
  import opened Results
  import opened Fragmentation
  import opened FirmwareFrames
  import opened FirmwareReassembly
  import FragmentDelivery
  import Reassembly

  datatype Input =
    | FrameInput(identifier: u32, data: seq<u8>, now: u32)
    | PollInput(now: u32)

  /** The packet under way to the node. */
  datatype Sending = Sending(packet: seq<u8>, nodeId: u32, streamId: u32, transferId: u16)

  function Step(c: Config, slots: Slots, nodeId: u32, input: Input): (Slots, Option<seq<u8>>)
    requires ValidConfig(c) && ValidSlots(c, slots)
  {
    match input
    case FrameInput(identifier, data, now) => Accept(c, slots, nodeId, identifier, data, now)
    case PollInput(now) => (Poll(c, slots, now), None)
  }

  lemma StepKeepsInv(c: Config, slots: Slots, nodeId: u32, input: Input)
    requires ValidConfig(c) && Inv(c, slots)
    ensures Inv(c, Step(c, slots, nodeId, input).0)
  {
    match input
    case FrameInput(identifier, data, now) => AcceptKeepsInv(c, slots, nodeId, identifier, data, now);
    case PollInput(now) => PollKeepsInv(c, slots, now);
  }

  /** The packets handed on, one answer an input. */
  ghost function Run(c: Config, slots: Slots, nodeId: u32, inputs: seq<Input>): (outcomes: seq<Option<seq<u8>>>)
    requires ValidConfig(c) && Inv(c, slots)
    ensures |outcomes| == |inputs|
    decreases inputs
  {
    if inputs == [] then []
    else
      StepKeepsInv(c, slots, nodeId, inputs[0]);
      [Step(c, slots, nodeId, inputs[0]).1] +
      Run(c, Step(c, slots, nodeId, inputs[0]).0, nodeId, inputs[1..])
  }

  ghost predicate ValidSending(c: Config, d: Sending) {
    ValidConfig(c) && 0 < |d.packet| <= c.maxPacketSize && Addressed(d.nodeId, d.streamId) &&
    Splittable(d.packet, Mtu(c.mode))
  }

  ghost function Count(c: Config, d: Sending): nat {
    PieceCount(|d.packet|, PieceSize(c))
  }

  ghost predicate Ours(c: Config, d: Sending, input: Input) {
    input.FrameInput? && input.identifier == d.streamId &&
    var f := ParseFrame(c.mode, input.data);
    f.Some? && f.value.transferId == d.transferId
  }

  ghost function IndexOf(c: Config, d: Sending, input: Input): nat
    requires Ours(c, d, input)
  {
    ParseFrame(c.mode, input.data).value.sequence
  }

  /** After the first n pieces, the last at time `last`: the transfer's frames are genuine, each a repeat or the
      next one; a slot is free when the first comes; and no timeout pass finds the transfer stale. */
  ghost predicate InOrder(c: Config, d: Sending, slots: Slots, inputs: seq<Input>, n: nat, last: u32)
    requires ValidSending(c, d) && Inv(c, slots)
    decreases inputs
  {
    inputs == [] || n == Count(c, d) ||
    var input := inputs[0];
    StepKeepsInv(c, slots, d.nodeId, input);
    var next := Step(c, slots, d.nodeId, input).0;
    if Ours(c, d, input) then
      var i := IndexOf(c, d, input);
      i <= n && IsPaddedFrame(d.packet, d.transferId, Mtu(c.mode), input.data, i) &&
      (n == 0 ==> FreeSlot(slots) < |slots|) &&
      InOrder(c, d, next, inputs[1..], if i == n then n + 1 else n, input.now)
    else
      (input.PollInput? && n > 0 ==> Wrap32(input.now - last) < c.timeout) &&
      InOrder(c, d, next, inputs[1..], n, last)
  }

  /** Nothing is handed on for the transfer until its last frame; then the packet is. */
  ghost predicate Rebuilt(c: Config, d: Sending, inputs: seq<Input>, outcomes: seq<Option<seq<u8>>>, n: nat) {
    |outcomes| == |inputs| &&
    (inputs == [] || n == Count(c, d) ||
     if Ours(c, d, inputs[0]) then
       var after := if IndexOf(c, d, inputs[0]) == n then n + 1 else n;
       outcomes[0] == (if after == Count(c, d) then Some(d.packet) else None) &&
       Rebuilt(c, d, inputs[1..], outcomes[1..], after)
     else Rebuilt(c, d, inputs[1..], outcomes[1..], n))
  }

  // ---------------------------------------------------------------- the slot of the transfer

  /** Where the first n pieces end. */
  function PiecesEnd(c: Config, d: Sending, n: nat): nat {
    FragmentDelivery.PiecesEnd(|d.packet|, PieceSize(c), n)
  }

  /** The slot holds the first n pieces. */
  ghost predicate Holding(c: Config, d: Sending, slot: Slot, n: nat)
    requires ValidSending(c, d)
  {
    ValidSlot(c, slot) && Matches(slot, d.streamId, d.transferId) && slot.nextSequence == n &&
    slot.size == PiecesEnd(c, d, n) && slot.packet[..slot.size] == d.packet[..slot.size]
  }

  ghost predicate Underway(c: Config, d: Sending, slots: Slots, n: nat, last: u32)
    requires ValidSending(c, d)
  {
    var k := FindSlot(slots, d.streamId, d.transferId);
    if n == 0 then k == |slots|
    else k < |slots| && Holding(c, d, slots[k], n) && slots[k].lastUpdate == last
  }

  lemma OverwrittenFront(buffer: seq<u8>, at: nat, bytes: seq<u8>)
    requires at + |bytes| <= |buffer|
    ensures Overwritten(buffer, at, bytes)[..at + |bytes|] == buffer[..at] + bytes
  {
  }

  /** The next piece goes behind the others. */
  lemma NextPiece(c: Config, d: Sending, slot: Slot, n: nat, f: Fragment, now: u32)
    requires ValidSending(c, d) && Holding(c, d, slot, n) && n < Count(c, d) && n < U16_MAX
    requires f == FragmentAt(d.packet, d.transferId, Mtu(c.mode), n)
    ensures slot.size + |f.payload| <= c.maxPacketSize
    ensures Holding(c, d, Appended(c, slot, f, now), n + 1)
  {
    FragmentDelivery.PieceExtends(d.packet, PieceSize(c), n + 1);
    assert |d.packet[..PiecesEnd(c, d, n + 1)]| == slot.size + |f.payload|;
    OverwrittenFront(slot.packet, slot.size, f.payload);
  }

  lemma EarlierEnd(size: nat, capacity: nat, i: nat, n: nat)
    requires capacity > 0 && i < n < PieceCount(size, capacity)
    ensures i * capacity + capacity <= FragmentDelivery.PiecesEnd(size, capacity, n)
    ensures PieceEnd(size, capacity, i) == i * capacity + capacity
  {
    OffsetBelow(size, capacity, n);
    MulMonotone(capacity, i + 1, n);
    assert (i + 1) * capacity == i * capacity + capacity;
  }

  lemma SamePart(a: seq<u8>, b: seq<u8>, size: nat, from: nat, to: nat)
    requires from <= to <= size <= |a| && size <= |b| && a[..size] == b[..size]
    ensures a[from..to] == b[from..to]
  {
    assert a[from..to] == a[..size][from..to];
    assert b[from..to] == b[..size][from..to];
  }

  /** A piece already taken repeats what the slot holds. */
  lemma EarlierPiece(c: Config, d: Sending, slot: Slot, n: nat, f: Fragment, i: nat)
    requires ValidSending(c, d) && Holding(c, d, slot, n) && i < n < Count(c, d)
    requires f == FragmentAt(d.packet, d.transferId, Mtu(c.mode), i)
    ensures Repeats(c, slot, f)
  {
    var capacity := PieceSize(c);
    EarlierEnd(|d.packet|, capacity, i, n);
    SamePart(slot.packet, d.packet, slot.size, i * capacity, i * capacity + capacity);
  }

  lemma AllPieces(c: Config, d: Sending)
    requires ValidSending(c, d)
    ensures 0 < Count(c, d) <= MAXIMUM_PACKET_SIZE
    ensures PiecesEnd(c, d, Count(c, d)) == |d.packet|
  {
    CountCovers(|d.packet|, PieceSize(c));
  }

  /** What the slot does with piece i <= n of the packet. */
  lemma PiecePlaced(c: Config, d: Sending, slot: Slot, n: nat, f: Fragment, i: nat, now: u32)
    requires ValidSending(c, d) && Holding(c, d, slot, n) && i <= n < Count(c, d)
    requires f == FragmentAt(d.packet, d.transferId, Mtu(c.mode), i)
    ensures var (placed, packet) := Place(c, slot, f, now);
            var after := if i == n then n + 1 else n;
            packet == (if after == Count(c, d) then Some(d.packet) else None) &&
            (after < Count(c, d) ==> Holding(c, d, placed, after) && placed.lastUpdate == now) &&
            placed.streamId == d.streamId && placed.transferId == d.transferId
  {
    AllPieces(c, d);
    if i < n {
      EarlierPiece(c, d, slot, n, f, i);
    } else {
      NextPiece(c, d, slot, n, f, now);
      assert d.packet[..|d.packet|] == d.packet;
    }
  }

  lemma ClearedHoldsNothing(c: Config, d: Sending)
    requires ValidSending(c, d)
    ensures Holding(c, d, Cleared(c, d.streamId, d.transferId), 0)
  {
  }

  /** The transfer's slot stays the one that is found. */
  lemma FoundSlot(c: Config, slots: Slots, k: nat, streamId: u32, transferId: u16)
    requires Inv(c, slots) && k < |slots| && Matches(slots[k], streamId, transferId)
    ensures FindSlot(slots, streamId, transferId) == k
  {
    var j := FindSlot(slots, streamId, transferId);
    assert j < |slots|;
    if j < k {
      assert SameTransfer(slots[j], slots[k]);
    }
  }

  lemma FrameTaken(c: Config, d: Sending, slots: Slots, input: Input, n: nat, last: u32)
    requires ValidSending(c, d) && Inv(c, slots) && Underway(c, d, slots, n, last) && n < Count(c, d)
    requires Ours(c, d, input) && IndexOf(c, d, input) <= n
    requires IsPaddedFrame(d.packet, d.transferId, Mtu(c.mode), input.data, IndexOf(c, d, input))
    requires n == 0 ==> FreeSlot(slots) < |slots|
    ensures var (next, packet) := Step(c, slots, d.nodeId, input);
            var after := if IndexOf(c, d, input) == n then n + 1 else n;
            packet == (if after == Count(c, d) then Some(d.packet) else None) &&
            (after < Count(c, d) ==> Underway(c, d, next, after, input.now))
  {
    var i := IndexOf(c, d, input);
    FrameIsParsed(c.mode, d.packet, d.transferId, input.data, i);
    var f := FragmentAt(d.packet, d.transferId, Mtu(c.mode), i);
    var found := FindSlot(slots, d.streamId, d.transferId);
    ClearedHoldsNothing(c, d);
    var k := if n == 0 then FreeSlot(slots) else found;
    var slot := if n == 0 then Cleared(c, d.streamId, d.transferId) else slots[k];
    PiecePlaced(c, d, slot, n, f, i, input.now);
    var next := Step(c, slots, d.nodeId, input).0;
    assert next == slots[k := Place(c, slot, f, input.now).0];
    StepKeepsInv(c, slots, d.nodeId, input);
    var after := if i == n then n + 1 else n;
    if after < Count(c, d) {
      FoundSlot(c, next, k, d.streamId, d.transferId);
    }
  }

  /** Frames of other transfers, and those the parser drops, leave the transfer's slot alone. */
  lemma OtherFrame(c: Config, d: Sending, slots: Slots, input: Input, n: nat, last: u32)
    requires ValidSending(c, d) && Inv(c, slots) && Underway(c, d, slots, n, last)
    requires input.FrameInput? && !Ours(c, d, input)
    ensures Underway(c, d, Step(c, slots, d.nodeId, input).0, n, last)
  {
    var next := Step(c, slots, d.nodeId, input).0;
    StepKeepsInv(c, slots, d.nodeId, input);
    var k := FindSlot(slots, d.streamId, d.transferId);
    var parsed := ParseFrame(c.mode, input.data);
    if Addressed(d.nodeId, input.identifier) && parsed.Some? {
      ParsedFrames(c, input.data);
      var f := parsed.value;
      var j := FindSlot(slots, input.identifier, f.transferId);
      var changed := if j < |slots| then j else FreeSlot(slots);
      assert k < |slots| ==> changed != k;
      if j < |slots| {
        PlaceKeepsInv(c, slots[j], f, input.now);
      } else if FreeSlot(slots) < |slots| {
        PlaceKeepsInv(c, Cleared(c, input.identifier, f.transferId), f, input.now);
      }
      assert changed < |slots| ==> !Matches(next[changed], d.streamId, d.transferId);
      assert forall i | 0 <= i < |slots| && i != changed :: next[i] == slots[i];
    }
    if k < |slots| {
      FoundSlot(c, next, k, d.streamId, d.transferId);
    }
  }

  lemma PollPasses(c: Config, d: Sending, slots: Slots, now: u32, n: nat, last: u32)
    requires ValidSending(c, d) && Inv(c, slots) && Underway(c, d, slots, n, last)
    requires n > 0 ==> Wrap32(now - last) < c.timeout
    ensures Underway(c, d, Poll(c, slots, now), n, last)
  {
    var k := FindSlot(slots, d.streamId, d.transferId);
    var next := Poll(c, slots, now);
    PollKeepsInv(c, slots, now);
    if k < |slots| {
      FoundSlot(c, next, k, d.streamId, d.transferId);
    }
  }

  // ---------------------------------------------------------------- whole runs

  lemma {:induction false} RunRebuilds(c: Config, d: Sending, slots: Slots, inputs: seq<Input>, n: nat, last: u32)
    requires ValidSending(c, d) && Inv(c, slots) && n <= Count(c, d)
    requires n < Count(c, d) ==> Underway(c, d, slots, n, last)
    requires InOrder(c, d, slots, inputs, n, last)
    ensures Rebuilt(c, d, inputs, Run(c, slots, d.nodeId, inputs), n)
    decreases inputs
  {
    if inputs != [] && n < Count(c, d) {
      var input := inputs[0];
      StepKeepsInv(c, slots, d.nodeId, input);
      var next := Step(c, slots, d.nodeId, input).0;
      if Ours(c, d, input) {
        var i := IndexOf(c, d, input);
        FrameTaken(c, d, slots, input, n, last);
        RunRebuilds(c, d, next, inputs[1..], if i == n then n + 1 else n, input.now);
      } else {
        if input.FrameInput? {
          OtherFrame(c, d, slots, input, n, last);
        } else {
          PollPasses(c, d, slots, input.now, n, last);
        }
        RunRebuilds(c, d, next, inputs[1..], n, last);
      }
    }
  }

  /** The frames of a packet, in order with repeats, whatever comes between them, hand on exactly that packet with
      the last frame and nothing before it. */
  lemma PacketRebuilt(c: Config, d: Sending, slots: Slots, inputs: seq<Input>)
    requires ValidSending(c, d) && Inv(c, slots)
    requires FindSlot(slots, d.streamId, d.transferId) == |slots|
    requires InOrder(c, d, slots, inputs, 0, 0)
    ensures Rebuilt(c, d, inputs, Run(c, slots, d.nodeId, inputs), 0)
  {
    AllPieces(c, d);
    RunRebuilds(c, d, slots, inputs, 0, 0);
  }

  ghost function FrameNumber(c: Config, d: Sending, i: nat, now: u32): Input
    requires ValidSending(c, d) && i < Count(c, d)
  {
    FrameInput(d.streamId, Frames(d.packet, d.transferId, Mtu(c.mode))[i], now)
  }

  /** The frames of the packet from number n on, as split makes them. */
  ghost function FramesFrom(c: Config, d: Sending, n: nat, now: u32): (inputs: seq<Input>)
    requires ValidSending(c, d) && n <= Count(c, d)
    ensures |inputs| == Count(c, d) - n
    decreases Count(c, d) - n
  {
    if n == Count(c, d) then [] else [FrameNumber(c, d, n, now)] + FramesFrom(c, d, n + 1, now)
  }

  lemma OwnFrame(c: Config, d: Sending, i: nat, now: u32)
    requires ValidSending(c, d) && i < Count(c, d)
    ensures IsPaddedFrame(d.packet, d.transferId, Mtu(c.mode), FrameNumber(c, d, i, now).data, i)
    ensures Ours(c, d, FrameNumber(c, d, i, now)) && IndexOf(c, d, FrameNumber(c, d, i, now)) == i
  {
    var frame := Frames(d.packet, d.transferId, Mtu(c.mode))[i];
    FragmentsEncode(d.packet, d.transferId, Mtu(c.mode), i);
    FrameIsParsed(c.mode, d.packet, d.transferId, frame, i);
  }

  lemma {:induction false} FramesAreInOrder(c: Config, d: Sending, slots: Slots, n: nat, now: u32, last: u32)
    requires ValidSending(c, d) && Inv(c, slots) && n <= Count(c, d)
    requires n == 0 ==> FreeSlot(slots) < |slots|
    ensures InOrder(c, d, slots, FramesFrom(c, d, n, now), n, last)
    decreases Count(c, d) - n
  {
    if n < Count(c, d) {
      var first := FrameNumber(c, d, n, now);
      var rest := FramesFrom(c, d, n + 1, now);
      OwnFrame(c, d, n, now);
      StepKeepsInv(c, slots, d.nodeId, first);
      assert ([first] + rest)[1..] == rest;
      FramesAreInOrder(c, d, Step(c, slots, d.nodeId, first).0, n + 1, now, now);
    }
  }

  /** Only the last frame hands on the packet. */
  ghost predicate HandsOnLast(d: Sending, outcomes: seq<Option<seq<u8>>>) {
    forall j | 0 <= j < |outcomes| :: outcomes[j] == if j == |outcomes| - 1 then Some(d.packet) else None
  }

  lemma {:induction false} LastHandsOn(c: Config, d: Sending, n: nat, now: u32, outcomes: seq<Option<seq<u8>>>)
    requires ValidSending(c, d) && n < Count(c, d)
    requires Rebuilt(c, d, FramesFrom(c, d, n, now), outcomes, n)
    ensures HandsOnLast(d, outcomes)
    decreases Count(c, d) - n
  {
    var first := FrameNumber(c, d, n, now);
    var rest := FramesFrom(c, d, n + 1, now);
    OwnFrame(c, d, n, now);
    assert ([first] + rest)[1..] == rest;
    if n + 1 < Count(c, d) {
      LastHandsOn(c, d, n + 1, now, outcomes[1..]);
      PrependNothing(d, outcomes);
    }
  }

  lemma PrependNothing(d: Sending, outcomes: seq<Option<seq<u8>>>)
    requires |outcomes| > 1 && outcomes[0].None? && HandsOnLast(d, outcomes[1..])
    ensures HandsOnLast(d, outcomes)
  {
    forall j | 1 <= j < |outcomes|
      ensures outcomes[j] == outcomes[1..][j - 1]
    {
    }
  }

  /** In particular the frames of split, fed in order to a node with a free slot. */
  lemma SplitRebuilds(c: Config, d: Sending, slots: Slots, now: u32)
    requires ValidSending(c, d) && Inv(c, slots)
    requires FindSlot(slots, d.streamId, d.transferId) == |slots| && FreeSlot(slots) < |slots|
    ensures var outcomes := Run(c, slots, d.nodeId, FramesFrom(c, d, 0, now));
            |outcomes| == Count(c, d) > 0 && HandsOnLast(d, outcomes)
  {
    AllPieces(c, d);
    FramesAreInOrder(c, d, slots, 0, now, 0);
    PacketRebuilt(c, d, slots, FramesFrom(c, d, 0, now));
    LastHandsOn(c, d, 0, now, Run(c, slots, d.nodeId, FramesFrom(c, d, 0, now)));
  }

  /** The other direction: what the firmware's send_packet puts on the bus, padding included, the host's reassembler
      gives back exactly once, in any order that starts with the first frame. */
  lemma FirmwareFramesReassemble(mode: CanMode, c: Reassembly.Config, d: FragmentDelivery.Sending,
      frames: seq<seq<u8>>, s: Reassembly.State, arrivals: seq<FragmentDelivery.Arrival>)
    requires c.mtu == Mtu(mode) && FragmentDelivery.ValidSending(c, d)
    requires |frames| == FragmentDelivery.Count(c, d)
    requires forall i | 0 <= i < |frames| :: IsSent(mode, d.packet, d.transferId, frames[i], i)
    requires Reassembly.Key(d.streamId, d.transferId) !in s
    requires forall j | 0 <= j < |arrivals| && FragmentDelivery.Ours(c, d, arrivals[j]) :: arrivals[j].frame in frames
    requires FragmentDelivery.Ordered(arrivals) && FragmentDelivery.StartsWithFirst(c, d, arrivals)
    requires FragmentDelivery.Prompt(c, d, arrivals, FragmentDelivery.FirstTime(c, d, arrivals))
    ensures forall j | 0 <= j < |arrivals| ::
              FragmentDelivery.Answered(c, d, arrivals, FragmentDelivery.Run(c, s, arrivals), j)
    ensures FragmentDelivery.Completions(c, d, arrivals, FragmentDelivery.Run(c, s, arrivals)) ==
            (if FragmentDelivery.AllSeen(c, d, FragmentDelivery.Indices(c, d, arrivals)) then 1 else 0)
  {
    forall j | 0 <= j < |arrivals| && FragmentDelivery.Ours(c, d, arrivals[j])
      ensures exists i: nat :: FragmentDelivery.IsFrame(c, d, arrivals[j].frame, i)
    {
      var i :| 0 <= i < |frames| && frames[i] == arrivals[j].frame;
      assert FragmentDelivery.IsFrame(c, d, arrivals[j].frame, i);
    }
    FragmentDelivery.PacketDeliveredOnce(c, d, s, arrivals);
  }
}
