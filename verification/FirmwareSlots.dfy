/** The reassembly slots of rbsp_core_t as the firmware updates them, in place. */
module FirmwareSlots {
  import opened FixedWidth
  import opened Results
  import opened Fragmentation
  import opened FirmwareFrames
  import opened FirmwareReassembly

  class ReassemblySlots {
    const mode: CanMode
    const maxPacketSize: nat
    const timeout: u32
    const reassembly: array<Slot>

    ghost function Configured(): Config {
      Config(mode, maxPacketSize, timeout)
    }

    ghost predicate Valid()
      reads this, reassembly
    {
      ValidConfig(Configured()) && Inv(Configured(), reassembly[..])
    }

    constructor (mode: CanMode, maxPacketSize: nat, timeout: u32, count: nat)
      requires 0 < maxPacketSize <= MAXIMUM_PACKET_SIZE && timeout > 0
      ensures Valid() && fresh(reassembly) && reassembly.Length == count
      ensures Configured() == Config(mode, maxPacketSize, timeout)
      ensures forall k | 0 <= k < count :: !reassembly[k].active
    {
      this.mode := mode;
      this.maxPacketSize := maxPacketSize;
      this.timeout := timeout;
      reassembly := new Slot[count](_ => Slot(false, 0, 0, 0, 0, 0, seq(maxPacketSize, _ => 0)));
    }

    /** find_slot */
    method Find(streamId: u32, transferId: u16) returns (k: nat)
      ensures k == FindSlot(reassembly[..], streamId, transferId)
    {
      k := 0;
      while k < reassembly.Length
        invariant 0 <= k <= reassembly.Length
        invariant forall j | 0 <= j < k :: !Matches(reassembly[j], streamId, transferId)
      {
        if Matches(reassembly[k], streamId, transferId) {
          return;
        }
        k := k + 1;
      }
    }

    /** The search of allocate_slot. */
    method Free() returns (k: nat)
      ensures k == FreeSlot(reassembly[..])
    {
      k := 0;
      while k < reassembly.Length
        invariant 0 <= k <= reassembly.Length
        invariant forall j | 0 <= j < k :: reassembly[j].active
      {
        if !reassembly[k].active {
          return;
        }
        k := k + 1;
      }
    }

    /** The last part of rbsp_core_accept_can: a frame in its slot. */
    method PlaceFragment(k: nat, f: Fragment, now: u32) returns (packet: Option<seq<u8>>)
      requires ValidConfig(Configured()) && k < reassembly.Length
      requires ValidSlot(Configured(), reassembly[k])
      modifies reassembly
      ensures (reassembly[k], packet) == Place(Configured(), old(reassembly[k]), f, now)
      ensures reassembly[..] == old(reassembly[..])[k := reassembly[k]]
    {
      var slot := reassembly[k];
      var capacity := Capacity(Mtu(mode));
      packet := None;
      if f.sequence < slot.nextSequence {
        var offset := f.sequence * capacity;
        if offset + |f.payload| <= slot.size && slot.packet[offset..offset + |f.payload|] == f.payload {
          reassembly[k] := slot.(lastUpdate := now);
        }
        return;
      }
      if f.sequence != slot.nextSequence || slot.size + |f.payload| > maxPacketSize {
        reassembly[k] := slot.(active := false);
        return;
      }
      slot := slot.(packet := Overwritten(slot.packet, slot.size, f.payload));
      slot := slot.(size := slot.size + |f.payload|);
      slot := slot.(nextSequence := (slot.nextSequence + 1) % 0x1_0000, lastUpdate := now);
      if IsLast(f.flags) {
        packet := Some(slot.packet[..slot.size]);
        slot := slot.(active := false);
      }
      reassembly[k] := slot;
    }

    method TakeFragment(streamId: u32, f: Fragment, now: u32) returns (packet: Option<seq<u8>>)
      requires Valid()
      modifies reassembly
      ensures ValidSlots(Configured(), old(reassembly[..]))
      ensures (reassembly[..], packet) == AcceptFragment(Configured(), old(reassembly[..]), streamId, f, now)
    {
      ghost var before := reassembly[..];
      var k := Find(streamId, f.transferId);
      if k == reassembly.Length {
        if !IsFirst(f.flags) {
          return None;
        }
        k := Free();
        if k == reassembly.Length {
          return None;
        }
        reassembly[k] := Slot(true, streamId, f.transferId, 0, 0, 0, seq(maxPacketSize, _ => 0));
        assert reassembly[k] == Cleared(Configured(), streamId, f.transferId);
      }
      packet := PlaceFragment(k, f, now);
      assert reassembly[..] == before[k := reassembly[k]];
    }

    /** rbsp_core_accept_can, up to the packet it hands to the request decoder. */
    method AcceptCan(nodeId: u32, identifier: u32, data: seq<u8>, now: u32) returns (packet: Option<seq<u8>>)
      requires Valid()
      modifies reassembly
      ensures Valid() && ValidSlots(Configured(), old(reassembly[..]))
      ensures (reassembly[..], packet) == Accept(Configured(), old(reassembly[..]), nodeId, identifier, data, now)
    {
      AcceptKeepsInv(Configured(), reassembly[..], nodeId, identifier, data, now);
      if !Addressed(nodeId, identifier) {
        return None;
      }
      var f := ParseFrame(mode, data);
      if f.None? {
        return None;
      }
      packet := TakeFragment(identifier, f.value, now);
    }

    /** The timeout pass of rbsp_core_poll. */
    method PollTimeouts(now: u32)
      requires Valid()
      modifies reassembly
      ensures Valid() && reassembly[..] == Poll(Configured(), old(reassembly[..]), now)
    {
      PollKeepsInv(Configured(), reassembly[..], now);
      var k := 0;
      ghost var before := reassembly[..];
      while k < reassembly.Length
        invariant 0 <= k <= reassembly.Length
        invariant forall j | 0 <= j < k :: reassembly[j] == Poll(Configured(), before, now)[j]
        invariant forall j | k <= j < reassembly.Length :: reassembly[j] == before[j]
      {
        var slot := reassembly[k];
        if slot.active && Wrap32(now - slot.lastUpdate) >= timeout {
          reassembly[k] := slot.(active := false);
        }
        k := k + 1;
      }
    }
  }
}
