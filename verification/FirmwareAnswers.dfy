/** What the firmware does with every frame, on its reassembly slots (firmware/src/core.c:973-1218). */
module FirmwareAnswers {
  import opened FixedWidth
  import opened Results
  import opened Fragmentation
  import opened FirmwareFrames
  import opened FirmwareReassembly

  // ---------------------------------------------------------------- frames

  /** Slot k serves the transfer. */
  ghost predicate Serves(slots: Slots, k: nat, streamId: u32, transferId: u16) {
    k < |slots| && slots[k].active && slots[k].streamId == streamId && slots[k].transferId == transferId
  }

  ghost predicate Others(slots: Slots, next: Slots, k: nat) {
    |next| == |slots| && forall j | 0 <= j < |slots| && j != k :: next[j] == slots[j]
  }

  /** The slot holds the frame's bytes where its piece belongs. */
  ghost predicate Stored(c: Config, slot: Slot, f: Fragment) {
    var at := f.sequence * ((if c.mode.Fd? then 64 else 8) - 5);
    at + |f.payload| <= slot.size <= |slot.packet| &&
    forall i | 0 <= i < |f.payload| :: slot.packet[at + i] == f.payload[i]
  }

  /** A frame out of turn or too much for the buffer drops the transfer; a repeat refreshes it if it repeats what is stored;
      the next piece goes behind the others, and the last one hands the packet on and frees the slot. */
  ghost predicate Placed(c: Config, slot: Slot, next: Slot, f: Fragment, now: u32, packet: Option<seq<u8>>)
    requires slot.size <= |slot.packet|
  {
    if f.sequence < slot.nextSequence then
      packet.None? && next == slot.(lastUpdate := if Stored(c, slot, f) then now else slot.lastUpdate)
    else if f.sequence > slot.nextSequence || slot.size + |f.payload| > c.maxPacketSize then
      packet.None? && next == slot.(active := false)
    else
      var whole := slot.packet[..slot.size] + f.payload;
      |whole| <= |next.packet| == |slot.packet| && next.size == |whole| && next.packet[..next.size] == whole &&
      next.packet[next.size..] == slot.packet[next.size..] &&
      next.nextSequence == (slot.nextSequence + 1) % 0x1_0000 && next.lastUpdate == now &&
      next.streamId == slot.streamId && next.transferId == slot.transferId &&
      (if (f.flags / 2) % 2 == 1 then packet == Some(whole) && !next.active else packet.None? && next.active)
  }

  lemma RepeatsExactly(c: Config, slot: Slot, f: Fragment)
    requires ValidSlot(c, slot)
    ensures Repeats(c, slot, f) <==> Stored(c, slot, f)
  {
    var at := f.sequence * PieceSize(c);
    if at + |f.payload| <= slot.size {
      var stored := slot.packet[at..at + |f.payload|];
      assert forall i | 0 <= i < |f.payload| :: stored[i] == slot.packet[at + i];
    }
  }

  lemma PlaceExactly(c: Config, slot: Slot, f: Fragment, now: u32)
    requires ValidSlot(c, slot) && slot.active
    ensures var (next, packet) := Place(c, slot, f, now); Placed(c, slot, next, f, now, packet)
  {
    RepeatsExactly(c, slot, f);
    assert IsLast(f.flags) <==> (f.flags / 2) % 2 == 1;
  }

  /** A slot that a first frame begins. */
  ghost predicate Begun(c: Config, slot: Slot, streamId: u32, transferId: u16) {
    slot.active && slot.streamId == streamId && slot.transferId == transferId && slot.nextSequence == 0 && slot.size == 0 &&
    |slot.packet| == c.maxPacketSize
  }

  /** The frame is the node's: discovery, or its own request identifier. */
  ghost predicate ForNode(nodeId: u32, identifier: u32) {
    identifier == 0x700 || (nodeId != 0 && identifier == (0x600 + nodeId) % 0x1_0000_0000)
  }

  /** What a well-formed frame does: it meets the slot of its transfer, or begins one in the first free slot if it is a first
      frame; without either nothing happens, and no other slot is touched. */
  lemma AcceptExactly(c: Config, slots: Slots, nodeId: u32, identifier: u32, data: seq<u8>, now: u32)
    requires ValidConfig(c) && Inv(c, slots)
    ensures var (next, packet) := Accept(c, slots, nodeId, identifier, data, now);
            var f := ParseFrame(c.mode, data);
            if !ForNode(nodeId, identifier) || f.None? then next == slots && packet.None?
            else
              && (forall k: nat | Serves(slots, k, identifier, f.value.transferId) ::
                    Others(slots, next, k) && Placed(c, slots[k], next[k], f.value, now, packet))
              && ((!exists k :: Serves(slots, k, identifier, f.value.transferId)) ==>
                    Begins(c, slots, next, identifier, f.value, now, packet))
  {
    var f := ParseFrame(c.mode, data);
    if ForNode(nodeId, identifier) && f.Some? {
      var id := f.value.transferId;
      var k := FindSlot(slots, identifier, id);
      forall j: nat | Serves(slots, j, identifier, id)
        ensures j == k
      {
        assert j > k ==> SameTransfer(slots[k], slots[j]);
      }
      if k < |slots| {
        assert Serves(slots, k, identifier, id);
        PlaceExactly(c, slots[k], f.value, now);
      } else {
        BeginsExactly(c, slots, identifier, f.value, now);
      }
    }
  }

  ghost predicate Begins(c: Config, slots: Slots, next: Slots, streamId: u32, f: Fragment, now: u32,
                         packet: Option<seq<u8>>)
  {
    if f.flags % 2 == 0 || forall k | 0 <= k < |slots| :: slots[k].active then next == slots && packet.None?
    else
      exists k: nat, slot ::
        k < |slots| && !slots[k].active && (forall j | 0 <= j < k :: slots[j].active) && Others(slots, next, k) &&
        Begun(c, slot, streamId, f.transferId) && Placed(c, slot, next[k], f, now, packet)
  }

  lemma BeginsExactly(c: Config, slots: Slots, streamId: u32, f: Fragment, now: u32)
    requires ValidConfig(c) && ValidSlots(c, slots) && FindSlot(slots, streamId, f.transferId) == |slots|
    ensures var (next, packet) := AcceptFragment(c, slots, streamId, f, now);
            Begins(c, slots, next, streamId, f, now, packet)
  {
    var k := FreeSlot(slots);
    if k < |slots| && IsFirst(f.flags) {
      var slot := Cleared(c, streamId, f.transferId);
      PlaceExactly(c, slot, f, now);
      assert Begun(c, slot, streamId, f.transferId);
    }
  }

  /** A poll frees the slots that have been quiet for the timeout, by the clock's own wrapped difference, and no others. */
  lemma PollExactly(c: Config, slots: Slots, now: u32)
    ensures var next := Poll(c, slots, now);
            |next| == |slots| && forall k | 0 <= k < |slots| ::
              next[k] == slots[k].(active := slots[k].active &&
                                             (now - slots[k].lastUpdate) % 0x1_0000_0000 < c.timeout)
  {
  }
}
