/** The bytes on the wire, place by place, and the error for each kind of malformed input
    (protocol/src/packet.cpp, protocol/src/fragmentation.cpp; the layout is that of tests/protocol_tests.cpp:51-62). */
module WireFormat {
  import opened FixedWidth
  import opened Results
  import opened Words
  import opened PacketCodec
  import Crc32
  import Fragmentation

  function Little16(bytes: seq<u8>, at: nat): nat
    requires at + 2 <= |bytes|
  {
    var low: nat, high: nat := bytes[at], bytes[at + 1];
    low + 0x100 * high
  }

  function Little32(bytes: seq<u8>, at: nat): nat
    requires at + 4 <= |bytes|
  {
    Little16(bytes, at) + 0x1_0000 * Little16(bytes, at + 2)
  }

  // ---------------------------------------------------------------- packets

  lemma Bytes16(x: u16)
    ensures Little16([ByteAt(x, 0), ByteAt(x, 1)], 0) == x
  {
    Number16RoundTrip(x);
  }

  lemma Bytes32(x: u32)
    ensures Little32([ByteAt(x, 0), ByteAt(x, 1), ByteAt(x, 2), ByteAt(x, 3)], 0) == x
  {
    Number32RoundTrip(x);
  }

  lemma HeaderLayout(h: Header)
    ensures var b := HeaderBytes(h);
            && b[0] == h.version && b[1] == h.messageType && Little16(b, 2) == h.command
            && Little32(b, 4) == h.sessionId && Little32(b, 8) == h.requestId && Little32(b, 12) == h.objectId
            && Little16(b, 16) == h.payloadLength && Little16(b, 18) == h.flags
  {
    Bytes16(h.command);
    Bytes32(h.sessionId);
    Bytes32(h.requestId);
    Bytes32(h.objectId);
    Bytes16(h.payloadLength);
    Bytes16(h.flags);
  }

  /** Where an encoded packet has what: every number with its lowest byte first, the checksum of all other bytes behind the
      header, then the payload. */
  lemma PacketLayout(p: Packet)
    requires Encode(p).Ok?
    ensures var b := Encode(p).value; var h := p.header;
            && |b| == 24 + |p.payload|
            && b[0] == 1 == h.version && b[1] == h.messageType && 1 <= b[1] <= 3 && Little16(b, 2) == h.command
            && Little32(b, 4) == h.sessionId && Little32(b, 8) == h.requestId && Little32(b, 12) == h.objectId
            && Little16(b, 16) == |p.payload| && Little16(b, 18) == h.flags
            && b[20..24] == ToBytes(Crc32.Checksum(b[..20] + b[24..]))
            && b[24..] == p.payload
  {
    var done := Completed(p);
    var b := Encode(p).value;
    HeaderLayout(done.header);
    assert b[..20] == HeaderBytes(done.header);
    assert forall i | 0 <= i < 20 :: b[i] == HeaderBytes(done.header)[i];
    assert b[24..] == p.payload && b[20..24] == ToBytes(done.header.crc);
    assert HeaderBytes(done.header) == HeaderBytes(p.header.(payloadLength := |p.payload|));
  }

  /** What cannot be encoded. */
  lemma EncodeErrors(p: Packet)
    ensures var r := Encode(p);
            if p.header.version != 1 then r == Err(UnsupportedVersion)
            else if p.header.messageType == 0 || p.header.messageType > 3 then r == Err(InvalidMessageType)
            else if |p.payload| > 2048 - 24 then r == Err(TooLarge)
            else r.Ok?
  {
  }

  /** What cannot be decoded, by the first thing that is wrong with it. */
  lemma DecodeErrors(data: seq<u8>)
    ensures var r := Decode(data);
            if |data| < 24 then r == Err(TooShort)
            else if |data| > 2048 then r == Err(TooLarge)
            else if data[0] != 1 then r == Err(UnsupportedVersion)
            else if data[1] == 0 || data[1] > 3 then r == Err(InvalidMessageType)
            else if |data| != 24 + Little16(data, 16) then r == Err(LengthMismatch)
            else if data[20..24] != ToBytes(Crc32.Checksum(data[..20] + data[24..])) then r == Err(CrcMismatch)
            else r.Ok?
  {
    if |data| >= 24 {
      var crc := data[20..24];
      var checksum := Crc32.Checksum(data[..20] + data[24..]);
      BytesRoundTrip(checksum);
      if FromBytes(crc) == checksum {
        FromBytesInjective(crc, ToBytes(checksum));
      }
    }
  }

  // ---------------------------------------------------------------- fragments

  /** Where an encoded fragment has what: the fifth byte holds the flags and, above them, the length. */
  lemma FragmentLayout(f: Fragmentation.Fragment, mtu: nat)
    requires Fragmentation.EncodeFragment(f, mtu).Ok?
    ensures var b := Fragmentation.EncodeFragment(f, mtu).value;
            && |b| == 5 + |f.payload| <= mtu
            && Little16(b, 0) == f.transferId && Little16(b, 2) == f.sequence
            && b[4] % 4 == f.flags && b[4] / 4 == |f.payload| && b[5..] == f.payload
  {
    Bytes16(f.transferId);
    Bytes16(f.sequence);
  }

  lemma EncodeFragmentErrors(f: Fragmentation.Fragment, mtu: nat)
    ensures var r := Fragmentation.EncodeFragment(f, mtu);
            if mtu <= 5 then r == Err(Fragmentation.InvalidMtu)
            else if f.flags > 3 then r == Err(Fragmentation.InvalidFlags)
            else if (f.flags % 2 == 1) != (f.sequence == 0) then r == Err(Fragmentation.InvalidSequence)
            else if f.payload == [] then r == Err(Fragmentation.EmptyPacket)
            else if 5 + |f.payload| > mtu || |f.payload| > 63 then r == Err(Fragmentation.FrameTooLarge)
            else r.Ok?
  {
  }

  /** What is no frame, by the first thing that is wrong with it. */
  lemma DecodeFragmentErrors(data: seq<u8>, mtu: nat)
    ensures var r := Fragmentation.DecodeFragment(data, mtu);
            if mtu <= 5 then r == Err(Fragmentation.InvalidMtu)
            else if |data| <= 5 then r == Err(Fragmentation.FrameTooShort)
            else if |data| > mtu then r == Err(Fragmentation.FrameTooLarge)
            else
              var length := data[4] / 4;
              if length == 0 then r == Err(Fragmentation.EmptyPacket)
              else if 5 + length > mtu then r == Err(Fragmentation.FrameTooLarge)
              else if |data| < 5 + length then r == Err(Fragmentation.FrameTooShort)
              else if exists i :: 5 + length <= i < |data| && data[i] != 0 then r == Err(Fragmentation.InvalidPadding)
              else if (data[4] % 2 == 1) != (Little16(data, 2) == 0) then r == Err(Fragmentation.InvalidSequence)
              else r.Ok?
  {
    if mtu > 5 && 5 < |data| <= mtu && 5 + data[4] / 4 <= |data| {
      var rest := data[5 + data[4] / 4..];
      assert Fragmentation.AllZero(rest) <==> !exists i :: 5 + data[4] / 4 <= i < |data| && data[i] != 0 by {
        assert forall k | 0 <= k < |rest| :: rest[k] == data[5 + data[4] / 4 + k];
        assert forall i | 5 + data[4] / 4 <= i < |data| :: data[i] == rest[i - (5 + data[4] / 4)];
      }
      assert Fragmentation.IsFirst(data[4] % 4) <==> data[4] % 2 == 1;
    }
  }
}
