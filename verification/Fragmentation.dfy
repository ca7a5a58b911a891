/** Fragments, the fragmenter and the reassembler of protocol/src/fragmentation.cpp. */
module Fragmentation {
  import opened FixedWidth
  import opened NonlinearFacts
  import opened Results
  import PacketCodec

  const FRAGMENT_HEADER_SIZE: nat := 5
  const FIRST: u8 := 1
  const LAST: u8 := 2
  /** The flag byte holds the payload length in its upper six bits. */
  const LENGTH_UNIT: nat := 4
  const MAXIMUM_ENCODED_LENGTH: nat := 63
  const MAXIMUM_PACKET_SIZE: nat := PacketCodec.MAXIMUM_PACKET_SIZE

  datatype Fragment = Fragment(transferId: u16, sequence: u16, flags: u8, payload: seq<u8>)

  datatype FragmentError =
    InvalidMtu | EmptyPacket | PacketTooLarge | FrameTooShort | FrameTooLarge | InvalidFlags | InvalidPadding |
    InvalidSequence | UnknownTransfer | ConflictingDuplicate | DataAfterLast | ReassembledPacketTooLarge

  predicate ValidMtu(mtu: nat) {
    mtu > FRAGMENT_HEADER_SIZE
  }

  predicate IsFirst(flags: u8) {
    flags % 2 == 1
  }

  predicate IsLast(flags: u8) {
    (flags / 2) % 2 == 1
  }

  // ---------------------------------------------------------------- one fragment

  function FragmentBytes(f: Fragment): (frame: seq<u8>)
    requires f.flags < LENGTH_UNIT && |f.payload| <= MAXIMUM_ENCODED_LENGTH
    ensures |frame| == FRAGMENT_HEADER_SIZE + |f.payload|
  {
    [PacketCodec.ByteAt(f.transferId, 0), PacketCodec.ByteAt(f.transferId, 1),
     PacketCodec.ByteAt(f.sequence, 0), PacketCodec.ByteAt(f.sequence, 1),
     f.flags + LENGTH_UNIT * |f.payload|] + f.payload
  }

  function EncodeFragment(f: Fragment, mtu: nat): Result<seq<u8>, FragmentError> {
    if !ValidMtu(mtu) then Err(InvalidMtu)
    else if f.flags >= LENGTH_UNIT then Err(InvalidFlags)
    else if IsFirst(f.flags) != (f.sequence == 0) then Err(InvalidSequence)
    else if f.payload == [] then Err(EmptyPacket)
    else if FRAGMENT_HEADER_SIZE + |f.payload| > mtu then Err(FrameTooLarge)
    else if |f.payload| > MAXIMUM_ENCODED_LENGTH then Err(FrameTooLarge)
    else Ok(FragmentBytes(f))
  }

  predicate AllZero(bytes: seq<u8>) {
    forall i | 0 <= i < |bytes| :: bytes[i] == 0
  }

  function DecodeFragment(data: seq<u8>, mtu: nat): Result<Fragment, FragmentError> {
    if !ValidMtu(mtu) then Err(InvalidMtu)
    else if |data| <= FRAGMENT_HEADER_SIZE then Err(FrameTooShort)
    else if |data| > mtu then Err(FrameTooLarge)
    else
      var length := data[4] / LENGTH_UNIT;
      if length == 0 then Err(EmptyPacket)
      else if FRAGMENT_HEADER_SIZE + length > mtu then Err(FrameTooLarge)
      else if |data| < FRAGMENT_HEADER_SIZE + length then Err(FrameTooShort)
      else if !AllZero(data[FRAGMENT_HEADER_SIZE + length..]) then Err(InvalidPadding)
      else
        var sequence := PacketCodec.Number16(data[2], data[3]);
        var flags := data[4] % LENGTH_UNIT;
        if IsFirst(flags) != (sequence == 0) then Err(InvalidSequence)
        else
          Ok(Fragment(PacketCodec.Number16(data[0], data[1]), sequence, flags,
                      data[FRAGMENT_HEADER_SIZE..FRAGMENT_HEADER_SIZE + length]))
  }

  /** Zero padding up to the MTU does not change what a frame decodes to. */
  lemma DecodePadded(f: Fragment, mtu: nat, padding: seq<u8>)
    requires EncodeFragment(f, mtu).Ok? && AllZero(padding)
    requires |EncodeFragment(f, mtu).value| + |padding| <= mtu
    ensures DecodeFragment(EncodeFragment(f, mtu).value + padding, mtu) == Ok(f)
  {
    var data := FragmentBytes(f) + padding;
    var n := FRAGMENT_HEADER_SIZE + |f.payload|;
    assert data[4] / LENGTH_UNIT == |f.payload| && data[4] % LENGTH_UNIT == f.flags;
    assert data[n..] == padding && data[FRAGMENT_HEADER_SIZE..n] == f.payload;
    PacketCodec.Number16RoundTrip(f.transferId);
    PacketCodec.Number16RoundTrip(f.sequence);
  }

  /** A frame that decodes is the encoding of what it decodes to, padded with zeros. */
  lemma DecodedWasEncoded(data: seq<u8>, mtu: nat)
    requires DecodeFragment(data, mtu).Ok?
    ensures var f := DecodeFragment(data, mtu).value;
            EncodeFragment(f, mtu).Ok? &&
            var frame := EncodeFragment(f, mtu).value;
            |frame| <= |data| && data[..|frame|] == frame && AllZero(data[|frame|..])
  {
    var f := DecodeFragment(data, mtu).value;
    PacketCodec.Bytes16RoundTrip(data[0], data[1]);
    PacketCodec.Bytes16RoundTrip(data[2], data[3]);
    assert data[4] == f.flags + LENGTH_UNIT * |f.payload|;
    var n := FRAGMENT_HEADER_SIZE + |f.payload|;
    assert data[..n] == data[..FRAGMENT_HEADER_SIZE] + f.payload;
    assert data[..n] == FragmentBytes(f);
  }

  method EncodeFrame(f: Fragment, mtu: nat) returns (r: Result<seq<u8>, FragmentError>)
    ensures r == EncodeFragment(f, mtu)
  {
    if mtu <= FRAGMENT_HEADER_SIZE {
      return Err(InvalidMtu);
    }
    if f.flags >= LENGTH_UNIT {
      return Err(InvalidFlags);
    }
    if IsFirst(f.flags) != (f.sequence == 0) {
      return Err(InvalidSequence);
    }
    if f.payload == [] {
      return Err(EmptyPacket);
    }
    if FRAGMENT_HEADER_SIZE + |f.payload| > mtu {
      return Err(FrameTooLarge);
    }
    if |f.payload| > MAXIMUM_ENCODED_LENGTH {
      return Err(FrameTooLarge);
    }
    var frame := new u8[FRAGMENT_HEADER_SIZE + |f.payload|];
    PacketCodec.PutU16(frame, 0, f.transferId);
    PacketCodec.PutU16(frame, 2, f.sequence);
    frame[4] := f.flags + LENGTH_UNIT * |f.payload|;
    forall i | 0 <= i < |f.payload| {
      frame[FRAGMENT_HEADER_SIZE + i] := f.payload[i];
    }
    assert frame[..] == FragmentBytes(f);
    r := Ok(frame[..]);
  }

  // ---------------------------------------------------------------- splitting

  function Capacity(mtu: nat): (capacity: nat)
    requires ValidMtu(mtu)
    ensures capacity > 0
  {
    mtu - FRAGMENT_HEADER_SIZE
  }

  /** How many pieces of the given capacity cover n bytes. */
  function PieceCount(n: nat, capacity: nat): nat
    requires capacity > 0
  {
    (n + capacity - 1) / capacity
  }

  /** Piece count - 1 is the last one with bytes left. */
  lemma CountCovers(n: nat, capacity: nat)
    requires n > 0 && capacity > 0
    ensures PieceCount(n, capacity) > 0
    ensures (PieceCount(n, capacity) - 1) * capacity < n <= PieceCount(n, capacity) * capacity
    ensures PieceCount(n, capacity) <= n
  {
    var count := PieceCount(n, capacity);
    DivMod(n + capacity - 1, capacity);
    assert (count - 1) * capacity == count * capacity - capacity;
    AtMostQuotient(1, n + capacity - 1, capacity);
    MulMonotone(count - 1, 1, capacity);
  }

  lemma OffsetBelow(n: nat, capacity: nat, i: nat)
    requires capacity > 0 && i < PieceCount(n, capacity)
    ensures n > 0 && i * capacity < n
    ensures i + 1 == PieceCount(n, capacity) <==> i * capacity + capacity >= n
  {
    if n == 0 {
      AtMostQuotient(1, capacity - 1, capacity);
    }
    CountCovers(n, capacity);
    var count := PieceCount(n, capacity);
    MulMonotone(capacity, i, count - 1);
    assert (i + 1) * capacity == i * capacity + capacity;
    if i + 1 < count {
      MulMonotone(capacity, i + 1, count - 1);
    }
  }

  /** Where piece i ends. */
  function PieceEnd(n: nat, capacity: nat, i: nat): (end: nat)
    ensures end <= n
  {
    Min(i * capacity + capacity, n)
  }

  function Piece(packet: seq<u8>, capacity: nat, i: nat): (piece: seq<u8>)
    requires capacity > 0 && i < PieceCount(|packet|, capacity)
    ensures 0 < |piece| <= capacity
  {
    OffsetBelow(|packet|, capacity, i);
    packet[i * capacity..PieceEnd(|packet|, capacity, i)]
  }

  function PieceFlags(packet: seq<u8>, capacity: nat, i: nat): (flags: u8)
    requires capacity > 0
    ensures flags < LENGTH_UNIT
    ensures IsFirst(flags) == (i == 0) && IsLast(flags) == (i + 1 == PieceCount(|packet|, capacity))
  {
    (if i == 0 then FIRST else 0) + (if i + 1 == PieceCount(|packet|, capacity) then LAST else 0)
  }

  /** Fragment i of a packet. */
  function FragmentAt(packet: seq<u8>, transferId: u16, mtu: nat, i: nat): Fragment
    requires ValidMtu(mtu) && |packet| <= MAXIMUM_PACKET_SIZE && i < PieceCount(|packet|, Capacity(mtu))
  {
    OffsetBelow(|packet|, Capacity(mtu), i);
    CountCovers(|packet|, Capacity(mtu));
    Fragment(transferId, i, PieceFlags(packet, Capacity(mtu), i), Piece(packet, Capacity(mtu), i))
  }

  /** Pieces that the six bits of the flag byte can describe. */
  ghost predicate Splittable(packet: seq<u8>, mtu: nat) {
    ValidMtu(mtu) && 0 < |packet| <= MAXIMUM_PACKET_SIZE && Min(|packet|, Capacity(mtu)) <= MAXIMUM_ENCODED_LENGTH
  }

  /** A splittable packet has no fragment that cannot be encoded; any other packet already fails at the first. */
  lemma FragmentsEncode(packet: seq<u8>, transferId: u16, mtu: nat, i: nat)
    requires ValidMtu(mtu) && |packet| <= MAXIMUM_PACKET_SIZE && i < PieceCount(|packet|, Capacity(mtu))
    ensures Splittable(packet, mtu) ==>
      EncodeFragment(FragmentAt(packet, transferId, mtu, i), mtu) ==
      Ok(FragmentBytes(FragmentAt(packet, transferId, mtu, i)))
    ensures !Splittable(packet, mtu) && i == 0 ==>
      EncodeFragment(FragmentAt(packet, transferId, mtu, i), mtu) == Err(FrameTooLarge)
  {
    OffsetBelow(|packet|, Capacity(mtu), i);
  }

  /** The frames split makes of a packet. */
  ghost function Frames(packet: seq<u8>, transferId: u16, mtu: nat): seq<seq<u8>>
    requires Splittable(packet, mtu)
  {
    seq(PieceCount(|packet|, Capacity(mtu)), i requires 0 <= i < PieceCount(|packet|, Capacity(mtu)) =>
      FragmentsEncode(packet, transferId, mtu, i);
      FragmentBytes(FragmentAt(packet, transferId, mtu, i)))
  }

  /** A frame of the packet, possibly zero-padded by the driver. */
  ghost predicate IsPaddedFrame(packet: seq<u8>, transferId: u16, mtu: nat, frame: seq<u8>, i: nat)
    requires Splittable(packet, mtu)
  {
    i < PieceCount(|packet|, Capacity(mtu)) &&
    var sent := Frames(packet, transferId, mtu)[i];
    |sent| <= |frame| <= mtu && frame[..|sent|] == sent && AllZero(frame[|sent|..])
  }

  /** A padded frame of the packet decodes to its fragment. */
  lemma PaddedFrameDecodes(packet: seq<u8>, transferId: u16, mtu: nat, frame: seq<u8>, i: nat)
    requires Splittable(packet, mtu) && IsPaddedFrame(packet, transferId, mtu, frame, i)
    ensures DecodeFragment(frame, mtu) == Ok(FragmentAt(packet, transferId, mtu, i))
  {
    var f := FragmentAt(packet, transferId, mtu, i);
    FragmentsEncode(packet, transferId, mtu, i);
    var sent := FragmentBytes(f);
    assert frame == sent + frame[|sent|..];
    DecodePadded(f, mtu, frame[|sent|..]);
  }

  lemma FullUnlessLast(packet: seq<u8>, transferId: u16, mtu: nat, i: nat)
    requires ValidMtu(mtu) && |packet| <= MAXIMUM_PACKET_SIZE && i < PieceCount(|packet|, Capacity(mtu))
    ensures var f := FragmentAt(packet, transferId, mtu, i); IsLast(f.flags) || |f.payload| == Capacity(mtu)
  {
    OffsetBelow(|packet|, Capacity(mtu), i);
  }

  ghost function SplitError(packet: seq<u8>): FragmentError {
    if packet == [] then EmptyPacket
    else if |packet| > MAXIMUM_PACKET_SIZE then PacketTooLarge
    else FrameTooLarge
  }

  method MakeFrame(packet: seq<u8>, transferId: u16, mtu: nat, i: nat) returns (r: Result<seq<u8>, FragmentError>)
    requires ValidMtu(mtu) && |packet| <= MAXIMUM_PACKET_SIZE && i < PieceCount(|packet|, Capacity(mtu))
    ensures r == EncodeFragment(FragmentAt(packet, transferId, mtu, i), mtu)
  {
    var capacity := Capacity(mtu);
    OffsetBelow(|packet|, capacity, i);
    CountCovers(|packet|, capacity);
    var offset := i * capacity;
    var length := Min(capacity, |packet| - offset);
    var flags := 0;
    if i == 0 {
      flags := flags + FIRST;
    }
    if i + 1 == PieceCount(|packet|, capacity) {
      flags := flags + LAST;
    }
    r := EncodeFrame(Fragment(transferId, i, flags, packet[offset..offset + length]), mtu);
  }

  method Split(packet: seq<u8>, transferId: u16, mtu: nat) returns (r: Result<seq<seq<u8>>, FragmentError>)
    requires ValidMtu(mtu)
    ensures r.Ok? <==> Splittable(packet, mtu)
    ensures r.Ok? ==> r.value == Frames(packet, transferId, mtu)
    ensures r.Err? ==> r.error == SplitError(packet)
  {
    if packet == [] {
      return Err(EmptyPacket);
    }
    if |packet| > MAXIMUM_PACKET_SIZE {
      return Err(PacketTooLarge);
    }
    var count := PieceCount(|packet|, Capacity(mtu));
    CountCovers(|packet|, Capacity(mtu));
    if count > U16_MAX {
      return Err(PacketTooLarge);
    }
    var frames: seq<seq<u8>> := [];
    var i := 0;
    while i < count
      invariant 0 <= i <= count
      invariant i > 0 ==> Splittable(packet, mtu)
      invariant Splittable(packet, mtu) ==> frames == Frames(packet, transferId, mtu)[..i]
    {
      FragmentsEncode(packet, transferId, mtu, i);
      var frame := MakeFrame(packet, transferId, mtu, i);
      if frame.Err? {
        return Err(frame.error);
      }
      frames := frames + [frame.value];
      i := i + 1;
    }
    r := Ok(frames);
  }
}
