/** The firmware's fragment layer (firmware/src/core.c): sending with CAN-FD padding, and reassembly in order in a
    fixed number of slots. */
module FirmwareFrames {
  import opened FixedWidth
  import opened NonlinearFacts
  import opened Results
  import opened Fragmentation
  import PacketCodec

  datatype CanMode = Classical | Fd

  function Mtu(mode: CanMode): (mtu: nat)
    ensures ValidMtu(mtu)
  {
    if mode.Fd? then 64 else 8
  }

  // ---------------------------------------------------------------- sending

  const FD_LENGTHS: seq<nat> := [0, 1, 2, 3, 4, 5, 6, 7, 8, 12, 16, 20, 24, 32, 48, 64]

  /** The shortest CAN-FD length that holds `length` bytes; 64 if none does. */
  method CanonicalFdLength(length: u8) returns (canonical: nat)
    ensures canonical in FD_LENGTHS
    ensures length <= 64 ==> length <= canonical
    ensures forall other | other in FD_LENGTHS && other >= length :: canonical <= other
    ensures length > 64 ==> canonical == 64
  {
    var index := 0;
    while index < |FD_LENGTHS|
      invariant 0 <= index <= |FD_LENGTHS|
      invariant forall i | 0 <= i < index :: FD_LENGTHS[i] < length
    {
      if length <= FD_LENGTHS[index] {
        return FD_LENGTHS[index];
      }
      index := index + 1;
    }
    assert FD_LENGTHS[15] == 64;
    canonical := 64;
  }

  /** Frame i of a packet as it appears on the bus: padded to the least CAN-FD length, in classical mode not at all. */
  ghost predicate IsSent(mode: CanMode, packet: seq<u8>, transferId: u16, frame: seq<u8>, i: nat)
    requires Splittable(packet, Mtu(mode))
  {
    IsPaddedFrame(packet, transferId, Mtu(mode), frame, i) &&
    (mode.Classical? ==> frame == Frames(packet, transferId, Mtu(mode))[i]) &&
    (mode.Fd? ==>
       |frame| in FD_LENGTHS &&
       forall other | other in FD_LENGTHS && other >= |Frames(packet, transferId, Mtu(mode))[i]| :: |frame| <= other)
  }

  lemma FirmwarePacketsSplit(mode: CanMode, packet: seq<u8>)
    requires 0 < |packet| <= MAXIMUM_PACKET_SIZE
    ensures Splittable(packet, Mtu(mode))
  {
  }

  /** Header and payload of a frame, written over the start of a buffer. */
  method FillFrame(data: array<u8>, f: Fragment)
    requires data.Length == 64 && f.flags < LENGTH_UNIT && FRAGMENT_HEADER_SIZE + |f.payload| <= 64
    modifies data
    ensures data[..FRAGMENT_HEADER_SIZE + |f.payload|] == FragmentBytes(f)
    ensures forall i | FRAGMENT_HEADER_SIZE + |f.payload| <= i < 64 :: data[i] == old(data[i])
  {
    PacketCodec.PutU16(data, 0, f.transferId);
    PacketCodec.PutU16(data, 2, f.sequence);
    data[4] := LENGTH_UNIT * |f.payload|;
    if IsFirst(f.flags) {
      data[4] := data[4] + FIRST;
    }
    if IsLast(f.flags) {
      data[4] := data[4] + LAST;
    }
    assert data[4] == f.flags + LENGTH_UNIT * |f.payload|;
    forall i | 0 <= i < |f.payload| {
      data[FRAGMENT_HEADER_SIZE + i] := f.payload[i];
    }
    ghost var n := FRAGMENT_HEADER_SIZE + |f.payload|;
    assert data[FRAGMENT_HEADER_SIZE..n] == f.payload;
    assert data[..n] == data[..FRAGMENT_HEADER_SIZE] + data[FRAGMENT_HEADER_SIZE..n];
  }

  /** The piece the loop takes at `offset`. */
  method TakePiece(packet: seq<u8>, transferId: u16, mtu: nat, sequence: nat) returns (f: Fragment)
    requires ValidMtu(mtu) && |packet| <= MAXIMUM_PACKET_SIZE && sequence < PieceCount(|packet|, Capacity(mtu))
    ensures f == FragmentAt(packet, transferId, mtu, sequence)
  {
    var capacity := Capacity(mtu);
    var offset := sequence * capacity;
    OffsetBelow(|packet|, capacity, sequence);
    CountCovers(|packet|, capacity);
    var remaining := |packet| - offset;
    var length := if remaining > capacity then capacity else remaining;
    var flags := if sequence == 0 then FIRST else 0;
    if offset + length == |packet| {
      flags := flags + LAST;
    }
    f := Fragment(transferId, sequence, flags, packet[offset..offset + length]);
  }

  /** One pass of the loop of send_packet. */
  method BuildFrame(mode: CanMode, packet: seq<u8>, transferId: u16, sequence: nat) returns (bytes: seq<u8>)
    requires 0 < |packet| <= MAXIMUM_PACKET_SIZE && sequence < PieceCount(|packet|, Capacity(Mtu(mode)))
    ensures Splittable(packet, Mtu(mode)) && IsSent(mode, packet, transferId, bytes, sequence)
  {
    var f := TakePiece(packet, transferId, Mtu(mode), sequence);
    var data := new u8[64](_ => 0);
    FillFrame(data, f);
    var size := FRAGMENT_HEADER_SIZE + |f.payload|;
    FragmentsEncode(packet, transferId, Mtu(mode), sequence);
    var frameLength := size;
    if mode.Fd? {
      frameLength := CanonicalFdLength(size);
    }
    bytes := data[..frameLength];
    assert bytes[..size] == data[..size];
  }

  /** send_packet, to a driver that takes `accepted` frames before it refuses one. */
  method SendPacket(mode: CanMode, packet: seq<u8>, transferId: u16, accepted: nat)
    returns (sent: bool, frames: seq<seq<u8>>)
    requires |packet| <= MAXIMUM_PACKET_SIZE
    ensures sent <==> PieceCount(|packet|, Capacity(Mtu(mode))) <= accepted
    ensures |frames| == Min(PieceCount(|packet|, Capacity(Mtu(mode))), accepted)
    ensures packet != [] ==>
      Splittable(packet, Mtu(mode)) &&
      forall i | 0 <= i < |frames| :: IsSent(mode, packet, transferId, frames[i], i)
  {
    var capacity := Capacity(Mtu(mode));
    ghost var count := PieceCount(|packet|, capacity);
    var sequence, offset := 0, 0;
    frames := [];
    if packet == [] {
      EmptyHasNoPieces(capacity);
    } else {
      CountCovers(|packet|, capacity);
    }
    while offset < |packet|
      invariant 0 <= sequence <= count && sequence == |frames| <= accepted
      invariant offset == Min(sequence * capacity, |packet|)
      invariant offset < |packet| <==> sequence < count
      invariant packet != [] ==>
        Splittable(packet, Mtu(mode)) &&
        forall i | 0 <= i < |frames| :: IsSent(mode, packet, transferId, frames[i], i)
    {
      var frame := BuildFrame(mode, packet, transferId, sequence);
      if sequence == accepted {
        return false, frames;
      }
      frames := frames + [frame];
      OffsetAdvances(|packet|, capacity, sequence);
      var remaining := |packet| - offset;
      offset := offset + (if remaining > capacity then capacity else remaining);
      sequence := sequence + 1;
    }
    sent := true;
  }

  lemma EmptyHasNoPieces(capacity: nat)
    requires capacity > 0
    ensures PieceCount(0, capacity) == 0
  {
    AtMostQuotient(1, capacity - 1, capacity);
  }

  lemma OffsetAdvances(n: nat, capacity: nat, i: nat)
    requires capacity > 0 && i < PieceCount(n, capacity)
    ensures i * capacity < n && (i + 1) * capacity == i * capacity + capacity
    ensures i + 1 == PieceCount(n, capacity) <==> (i + 1) * capacity >= n
  {
    OffsetBelow(n, capacity, i);
  }

  // ---------------------------------------------------------------- receiving: one frame

  /** The checks of rbsp_core_accept_can on a frame's bytes. */
  function ParseFrame(mode: CanMode, data: seq<u8>): Option<Fragment> {
    var mtu := Mtu(mode);
    var capacity := Capacity(mtu);
    if |data| <= FRAGMENT_HEADER_SIZE || |data| > mtu then None
    else
      var sequence := PacketCodec.Number16(data[2], data[3]);
      var flags := data[4] % LENGTH_UNIT;
      var length := data[4] / LENGTH_UNIT;
      if length == 0 || length > capacity || FRAGMENT_HEADER_SIZE + length > |data| ||
         IsFirst(flags) != (sequence == 0) then None
      else if !AllZero(data[FRAGMENT_HEADER_SIZE + length..]) then None
      else if !IsLast(flags) && length != capacity then None
      else
        Some(Fragment(PacketCodec.Number16(data[0], data[1]), sequence, flags,
                      data[FRAGMENT_HEADER_SIZE..FRAGMENT_HEADER_SIZE + length]))
  }

  /** The firmware takes exactly the frames that the C++ decoder takes and that are full unless last. */
  lemma ParseAgreesWithDecode(mode: CanMode, data: seq<u8>)
    ensures ParseFrame(mode, data).Some? <==>
              var f := DecodeFragment(data, Mtu(mode));
              f.Ok? && (IsLast(f.value.flags) || |f.value.payload| == Capacity(Mtu(mode)))
    ensures ParseFrame(mode, data).Some? ==> DecodeFragment(data, Mtu(mode)) == Ok(ParseFrame(mode, data).value)
  {
  }

  /** A padded frame of a packet is parsed as the packet's fragment. */
  lemma FrameIsParsed(mode: CanMode, packet: seq<u8>, transferId: u16, frame: seq<u8>, i: nat)
    requires Splittable(packet, Mtu(mode)) && IsPaddedFrame(packet, transferId, Mtu(mode), frame, i)
    ensures ParseFrame(mode, frame) == Some(FragmentAt(packet, transferId, Mtu(mode), i))
  {
    PaddedFrameDecodes(packet, transferId, Mtu(mode), frame, i);
    FullUnlessLast(packet, transferId, Mtu(mode), i);
    ParseAgreesWithDecode(mode, frame);
  }
}
