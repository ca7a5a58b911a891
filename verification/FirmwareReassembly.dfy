/** The firmware's reassembly slots (firmware/src/core.c): frames in order, with repeats, in a fixed number of
    buffers. */
module FirmwareReassembly {
  import opened FixedWidth
  import opened NonlinearFacts
  import opened Results
  import opened Fragmentation
  import opened FirmwareFrames

  const CAN_ID_DISCOVERY: u32 := 0x700
  const CAN_ID_REQUEST_BASE: u32 := 0x600

  datatype Config = Config(mode: CanMode, maxPacketSize: nat, timeout: u32)

  datatype Slot = Slot(
    active: bool, streamId: u32, transferId: u16, nextSequence: u16, size: u16, lastUpdate: u32, packet: seq<u8>)

  type Slots = seq<Slot>

  ghost predicate ValidConfig(c: Config) {
    0 < c.maxPacketSize <= MAXIMUM_PACKET_SIZE && c.timeout > 0
  }

  function PieceSize(c: Config): (capacity: nat)
    ensures capacity > 0
  {
    Capacity(Mtu(c.mode))
  }

  predicate ValidSlot(c: Config, slot: Slot) {
    |slot.packet| == c.maxPacketSize && slot.size <= c.maxPacketSize <= MAXIMUM_PACKET_SIZE
  }

  predicate Matches(slot: Slot, streamId: u32, transferId: u16) {
    slot.active && slot.streamId == streamId && slot.transferId == transferId
  }

  /** The first active slot of a transfer; |slots| if there is none. */
  function FindSlot(slots: Slots, streamId: u32, transferId: u16): (k: nat)
    ensures k <= |slots|
    ensures k < |slots| ==> Matches(slots[k], streamId, transferId)
    ensures forall j | 0 <= j < k :: !Matches(slots[j], streamId, transferId)
  {
    if slots == [] || Matches(slots[0], streamId, transferId) then 0
    else 1 + FindSlot(slots[1..], streamId, transferId)
  }

  /** The first inactive slot; |slots| if there is none. */
  function FreeSlot(slots: Slots): (k: nat)
    ensures k <= |slots|
    ensures k < |slots| ==> !slots[k].active
    ensures forall j | 0 <= j < k :: slots[j].active
  {
    if slots == [] || !slots[0].active then 0 else 1 + FreeSlot(slots[1..])
  }

  function Cleared(c: Config, streamId: u32, transferId: u16): Slot
  {
    Slot(true, streamId, transferId, 0, 0, 0, seq(c.maxPacketSize, _ => 0))
  }

  /** memcpy(buffer + at, bytes, |bytes|) */
  function Overwritten(buffer: seq<u8>, at: nat, bytes: seq<u8>): (copied: seq<u8>)
    requires at + |bytes| <= |buffer|
    ensures |copied| == |buffer|
  {
    buffer[..at] + bytes + buffer[at + |bytes|..]
  }

  function Appended(c: Config, slot: Slot, f: Fragment, now: u32): (s: Slot)
    requires ValidSlot(c, slot) && slot.size + |f.payload| <= c.maxPacketSize
    ensures ValidSlot(c, s)
  {
    slot.(packet := Overwritten(slot.packet, slot.size, f.payload),
          size := slot.size + |f.payload|,
          nextSequence := (slot.nextSequence + 1) % 0x1_0000,
          lastUpdate := now)
  }

  /** A repeated frame refreshes the slot if it repeats what is stored. */
  predicate Repeats(c: Config, slot: Slot, f: Fragment)
    requires ValidSlot(c, slot)
  {
    var offset := f.sequence * PieceSize(c);
    offset + |f.payload| <= slot.size && slot.packet[offset..offset + |f.payload|] == f.payload
  }

  /** What a frame does to its slot, and the packet it completes. */
  function Place(c: Config, slot: Slot, f: Fragment, now: u32): (r: (Slot, Option<seq<u8>>))
    requires ValidSlot(c, slot)
    ensures ValidSlot(c, r.0)
  {
    if f.sequence < slot.nextSequence then
      (if Repeats(c, slot, f) then slot.(lastUpdate := now) else slot, None)
    else if f.sequence != slot.nextSequence || slot.size + |f.payload| > c.maxPacketSize then
      (slot.(active := false), None)
    else
      var filled := Appended(c, slot, f, now);
      if IsLast(f.flags) then (filled.(active := false), Some(filled.packet[..filled.size]))
      else (filled, None)
  }

  ghost predicate ValidSlots(c: Config, slots: Slots) {
    forall k | 0 <= k < |slots| :: ValidSlot(c, slots[k])
  }

  function AcceptFragment(c: Config, slots: Slots, streamId: u32, f: Fragment, now: u32): (Slots, Option<seq<u8>>)
    requires ValidConfig(c) && ValidSlots(c, slots)
  {
    var k := FindSlot(slots, streamId, f.transferId);
    if k < |slots| then
      var (slot, packet) := Place(c, slots[k], f, now);
      (slots[k := slot], packet)
    else if !IsFirst(f.flags) then (slots, None)
    else
      var free := FreeSlot(slots);
      if free == |slots| then (slots, None)
      else
        var (slot, packet) := Place(c, Cleared(c, streamId, f.transferId), f, now);
        (slots[free := slot], packet)
  }

  predicate Addressed(nodeId: u32, identifier: u32) {
    identifier == CAN_ID_DISCOVERY || (nodeId != 0 && identifier == Wrap32(CAN_ID_REQUEST_BASE + nodeId))
  }

  /** rbsp_core_accept_can, up to the completed packet it hands on. */
  function Accept(c: Config, slots: Slots, nodeId: u32, identifier: u32, data: seq<u8>, now: u32):
      (Slots, Option<seq<u8>>)
    requires ValidConfig(c) && ValidSlots(c, slots)
  {
    if !Addressed(nodeId, identifier) then (slots, None)
    else
      var f := ParseFrame(c.mode, data);
      if f.None? then (slots, None) else AcceptFragment(c, slots, identifier, f.value, now)
  }

  predicate Stale(c: Config, slot: Slot, now: u32) {
    slot.active && Wrap32(now - slot.lastUpdate) >= c.timeout
  }

  /** The timeout pass of rbsp_core_poll. */
  function Poll(c: Config, slots: Slots, now: u32): (after: Slots)
    ensures |after| == |slots|
  {
    seq(|slots|, k requires 0 <= k < |slots| =>
      if Stale(c, slots[k], now) then slots[k].(active := false) else slots[k])
  }

  // ---------------------------------------------------------------- invariant

  /** An active slot holds whole pieces, one for each sequence number taken. */
  ghost predicate SlotInv(c: Config, slot: Slot) {
    ValidSlot(c, slot) && (slot.active ==> slot.size == slot.nextSequence * PieceSize(c))
  }

  ghost predicate Inv(c: Config, slots: Slots) {
    && (forall k | 0 <= k < |slots| :: SlotInv(c, slots[k]))
    && (forall j, k | 0 <= j < k < |slots| :: !SameTransfer(slots[j], slots[k]))
  }

  ghost predicate SameTransfer(a: Slot, b: Slot) {
    a.active && b.active && a.streamId == b.streamId && a.transferId == b.transferId
  }

  /** A frame the parser lets through. */
  ghost predicate Parsed(c: Config, f: Fragment) {
    0 < |f.payload| <= PieceSize(c) && (IsLast(f.flags) || |f.payload| == PieceSize(c)) &&
    (IsFirst(f.flags) <==> f.sequence == 0)
  }

  lemma ParsedFrames(c: Config, data: seq<u8>)
    requires ParseFrame(c.mode, data).Some?
    ensures Parsed(c, ParseFrame(c.mode, data).value)
  {
  }

  lemma PlaceKeepsInv(c: Config, slot: Slot, f: Fragment, now: u32)
    requires ValidConfig(c) && SlotInv(c, slot) && slot.active && Parsed(c, f)
    ensures SlotInv(c, Place(c, slot, f, now).0)
    ensures Place(c, slot, f, now).0.streamId == slot.streamId
    ensures Place(c, slot, f, now).0.transferId == slot.transferId
  {
    MulMonotone(slot.nextSequence, 1, PieceSize(c));
    var next := slot.nextSequence + 1;
    assert next * PieceSize(c) == slot.nextSequence * PieceSize(c) + PieceSize(c);
  }

  lemma AcceptKeepsInv(c: Config, slots: Slots, nodeId: u32, identifier: u32, data: seq<u8>, now: u32)
    requires ValidConfig(c) && Inv(c, slots)
    ensures Inv(c, Accept(c, slots, nodeId, identifier, data, now).0)
  {
    var parsed := ParseFrame(c.mode, data);
    if Addressed(nodeId, identifier) && parsed.Some? {
      var f := parsed.value;
      ParsedFrames(c, data);
      var k := FindSlot(slots, identifier, f.transferId);
      if k < |slots| {
        PlaceKeepsInv(c, slots[k], f, now);
      } else if FreeSlot(slots) < |slots| {
        PlaceKeepsInv(c, Cleared(c, identifier, f.transferId), f, now);
        assert forall j | 0 <= j < |slots| :: !Matches(slots[j], identifier, f.transferId);
      }
    }
  }

  lemma PollKeepsInv(c: Config, slots: Slots, now: u32)
    requires Inv(c, slots)
    ensures Inv(c, Poll(c, slots, now))
  {
  }
}
