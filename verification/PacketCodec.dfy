/** The packet codec of protocol/src/packet.cpp: a 24-byte header, its last four bytes a CRC-32 over the
    other twenty and the payload, then the payload. */
module PacketCodec {
  import opened FixedWidth
  import opened Results
  import opened Words
  import Crc32

  const PROTOCOL_VERSION: u8 := 1
  const MESSAGE_REQUEST: u8 := 1
  const MESSAGE_RESPONSE: u8 := 2
  const HEADER_SIZE: nat := 24
  /** The header without its CRC. */
  const CHECKED_HEADER_SIZE: nat := 20
  const MAXIMUM_PACKET_SIZE: nat := 2048
  const MAXIMUM_PAYLOAD_SIZE: nat := MAXIMUM_PACKET_SIZE - HEADER_SIZE

  datatype Header = Header(
    version: u8, messageType: u8, command: u16, sessionId: u32, requestId: u32, objectId: u32,
    payloadLength: u16, flags: u16, crc: Word)

  datatype Packet = Packet(header: Header, payload: seq<u8>)

  datatype PacketError = TooShort | TooLarge | UnsupportedVersion | InvalidMessageType | LengthMismatch | CrcMismatch

  // ---------------------------------------------------------------- little-endian numbers

  /** x >> 8 * k */
  function ShiftedRight(x: nat, k: nat): nat {
    if k == 0 then x else ShiftedRight(x, k - 1) / 256
  }

  /** Byte k of x, lowest first. */
  function ByteAt(x: nat, k: nat): u8 {
    ShiftedRight(x, k) % 256
  }

  function Number16(b0: u8, b1: u8): u16 {
    b0 + 256 * b1
  }

  function Number32(b0: u8, b1: u8, b2: u8, b3: u8): u32 {
    b0 + 256 * (b1 + 256 * (b2 + 256 * b3))
  }

  lemma Number16RoundTrip(x: u16)
    ensures Number16(ByteAt(x, 0), ByteAt(x, 1)) == x
  {
    assert ShiftedRight(x, 1) == x / 256;
  }

  lemma Number32RoundTrip(x: u32)
    ensures Number32(ByteAt(x, 0), ByteAt(x, 1), ByteAt(x, 2), ByteAt(x, 3)) == x
  {
    var x1 := x / 256;
    var x2 := x1 / 256;
    assert ShiftedRight(x, 1) == x1 && ShiftedRight(x, 2) == x2 && ShiftedRight(x, 3) == x2 / 256;
  }

  lemma Bytes16RoundTrip(b0: u8, b1: u8)
    ensures ByteAt(Number16(b0, b1), 0) == b0 && ByteAt(Number16(b0, b1), 1) == b1
  {
    assert ShiftedRight(Number16(b0, b1), 1) == b1;
  }

  lemma Bytes32RoundTrip(b0: u8, b1: u8, b2: u8, b3: u8)
    ensures var x := Number32(b0, b1, b2, b3);
            ByteAt(x, 0) == b0 && ByteAt(x, 1) == b1 && ByteAt(x, 2) == b2 && ByteAt(x, 3) == b3
  {
    var x := Number32(b0, b1, b2, b3);
    assert ShiftedRight(x, 1) == b1 + 256 * (b2 + 256 * b3);
    assert ShiftedRight(x, 2) == b2 + 256 * b3;
    assert ShiftedRight(x, 3) == b3;
  }

  // ---------------------------------------------------------------- encoding

  predicate ValidMessageType(value: u8) {
    1 <= value <= 3
  }

  /** The twenty checked bytes of a header. */
  function HeaderBytes(h: Header): (bytes: seq<u8>)
    ensures |bytes| == CHECKED_HEADER_SIZE
  {
    [h.version, h.messageType, ByteAt(h.command, 0), ByteAt(h.command, 1),
     ByteAt(h.sessionId, 0), ByteAt(h.sessionId, 1), ByteAt(h.sessionId, 2), ByteAt(h.sessionId, 3),
     ByteAt(h.requestId, 0), ByteAt(h.requestId, 1), ByteAt(h.requestId, 2), ByteAt(h.requestId, 3),
     ByteAt(h.objectId, 0), ByteAt(h.objectId, 1), ByteAt(h.objectId, 2), ByteAt(h.objectId, 3),
     ByteAt(h.payloadLength, 0), ByteAt(h.payloadLength, 1), ByteAt(h.flags, 0), ByteAt(h.flags, 1)]
  }

  /** The packet as encode completes it: its true length and CRC filled in. */
  function Completed(p: Packet): Packet
    requires |p.payload| <= MAXIMUM_PAYLOAD_SIZE
  {
    var h := p.header.(payloadLength := |p.payload|);
    p.(header := h.(crc := Crc32.Checksum(HeaderBytes(h) + p.payload)))
  }

  function Bytes(p: Packet): (bytes: seq<u8>)
    ensures |bytes| == HEADER_SIZE + |p.payload|
  {
    HeaderBytes(p.header) + ToBytes(p.header.crc) + p.payload
  }

  function Encode(p: Packet): Result<seq<u8>, PacketError> {
    if p.header.version != PROTOCOL_VERSION then Err(UnsupportedVersion)
    else if !ValidMessageType(p.header.messageType) then Err(InvalidMessageType)
    else if |p.payload| > MAXIMUM_PAYLOAD_SIZE then Err(TooLarge)
    else Ok(Bytes(Completed(p)))
  }

  // ---------------------------------------------------------------- decoding

  function HeaderOf(data: seq<u8>): Header
    requires |data| >= HEADER_SIZE
  {
    Header(data[0], data[1], Number16(data[2], data[3]),
           Number32(data[4], data[5], data[6], data[7]),
           Number32(data[8], data[9], data[10], data[11]),
           Number32(data[12], data[13], data[14], data[15]),
           Number16(data[16], data[17]), Number16(data[18], data[19]),
           FromBytes(data[CHECKED_HEADER_SIZE..HEADER_SIZE]))
  }

  /** What the CRC covers: everything but the CRC. */
  function Covered(data: seq<u8>): seq<u8>
    requires |data| >= HEADER_SIZE
  {
    data[..CHECKED_HEADER_SIZE] + data[HEADER_SIZE..]
  }

  function Decode(data: seq<u8>): Result<Packet, PacketError> {
    if |data| < HEADER_SIZE then Err(TooShort)
    else if |data| > MAXIMUM_PACKET_SIZE then Err(TooLarge)
    else if data[0] != PROTOCOL_VERSION then Err(UnsupportedVersion)
    else if !ValidMessageType(data[1]) then Err(InvalidMessageType)
    else
      var h := HeaderOf(data);
      if |data| != HEADER_SIZE + h.payloadLength then Err(LengthMismatch)
      else if Crc32.Checksum(Covered(data)) != h.crc then Err(CrcMismatch)
      else Ok(Packet(h, data[HEADER_SIZE..]))
  }

  // ---------------------------------------------------------------- round trips

  lemma HeaderRoundTrip(h: Header, rest: seq<u8>)
    ensures HeaderOf(HeaderBytes(h) + ToBytes(h.crc) + rest) == h
  {
    var checked, crc := HeaderBytes(h), ToBytes(h.crc);
    var data := checked + crc + rest;
    assert data[CHECKED_HEADER_SIZE..HEADER_SIZE] == crc;
    BytesRoundTrip(h.crc);
    Number16RoundTrip(h.command);
    Number32RoundTrip(h.sessionId);
    Number32RoundTrip(h.requestId);
    Number32RoundTrip(h.objectId);
    Number16RoundTrip(h.payloadLength);
    Number16RoundTrip(h.flags);
    assert forall i | 0 <= i < CHECKED_HEADER_SIZE :: data[i] == checked[i];
  }

  lemma HeaderBytesRoundTrip(data: seq<u8>)
    requires |data| >= HEADER_SIZE
    ensures HeaderBytes(HeaderOf(data)) == data[..CHECKED_HEADER_SIZE]
  {
    Bytes16RoundTrip(data[2], data[3]);
    Bytes32RoundTrip(data[4], data[5], data[6], data[7]);
    Bytes32RoundTrip(data[8], data[9], data[10], data[11]);
    Bytes32RoundTrip(data[12], data[13], data[14], data[15]);
    Bytes16RoundTrip(data[16], data[17]);
    Bytes16RoundTrip(data[18], data[19]);
  }

  /** Decoding what encode produced gives the packet back, with its length and CRC filled in. */
  lemma DecodeEncode(p: Packet)
    requires Encode(p).Ok?
    ensures Decode(Encode(p).value) == Ok(Completed(p))
  {
    var done := Completed(p);
    var data := Bytes(done);
    HeaderRoundTrip(done.header, p.payload);
    assert data[..CHECKED_HEADER_SIZE] == HeaderBytes(done.header);
    assert data[0] == p.header.version && data[1] == p.header.messageType;
    assert data[HEADER_SIZE..] == p.payload;
    assert HeaderBytes(done.header) == HeaderBytes(p.header.(payloadLength := |p.payload|));
  }

  /** Whatever decode accepts is exactly what encode produces for it: one byte string a packet. */
  lemma EncodeDecode(data: seq<u8>)
    requires Decode(data).Ok?
    ensures Encode(Decode(data).value) == Ok(data)
    ensures Completed(Decode(data).value) == Decode(data).value
  {
    var p := Decode(data).value;
    HeaderBytesRoundTrip(data);
    assert p.header.(payloadLength := |p.payload|) == p.header;
    assert Covered(data) == HeaderBytes(p.header) + p.payload;
    var crc := data[CHECKED_HEADER_SIZE..HEADER_SIZE];
    FromBytesInjective(ToBytes(p.header.crc), crc) by {
      BytesRoundTrip(p.header.crc);
    }
    assert data == data[..CHECKED_HEADER_SIZE] + crc + data[HEADER_SIZE..];
  }

  /** decode accepts the encodings and nothing else. */
  lemma DecodeAcceptsEncodings(data: seq<u8>)
    ensures Decode(data).Ok? <==> exists p :: Encode(p) == Ok(data)
  {
    if Decode(data).Ok? {
      EncodeDecode(data);
    } else if p :| Encode(p) == Ok(data) {
      DecodeEncode(p);
    }
  }

  // ---------------------------------------------------------------- damage

  /** b is a with the bytes from `from` up to `to` replaced. */
  ghost predicate DiffersWithin(a: seq<u8>, b: seq<u8>, from: nat, to: nat) {
    |a| == |b| && from <= to <= |a| && a[..from] == b[..from] && a[to..] == b[to..]
  }

  lemma CoveredBurst(a: seq<u8>, b: seq<u8>, from: nat, to: nat)
    requires |a| >= HEADER_SIZE && DiffersWithin(a, b, from, to) && to - from <= 4 && a != b
    requires to <= CHECKED_HEADER_SIZE || from >= HEADER_SIZE
    ensures Crc32.Checksum(Covered(a)) != Crc32.Checksum(Covered(b))
  {
    var x, y := a[from..to], b[from..to];
    assert a == a[..from] + x + a[to..] && b == b[..from] + y + b[to..];
    var before, after;
    if to <= CHECKED_HEADER_SIZE {
      before := a[..from];
      after := a[to..CHECKED_HEADER_SIZE] + a[HEADER_SIZE..];
      assert a[to..CHECKED_HEADER_SIZE] == a[to..][..CHECKED_HEADER_SIZE - to];
      assert b[to..CHECKED_HEADER_SIZE] == b[to..][..CHECKED_HEADER_SIZE - to];
      assert a[HEADER_SIZE..] == a[to..][HEADER_SIZE - to..];
      assert b[HEADER_SIZE..] == b[to..][HEADER_SIZE - to..];
    } else {
      before := a[..CHECKED_HEADER_SIZE] + a[HEADER_SIZE..from];
      after := a[to..];
      assert a[..CHECKED_HEADER_SIZE] == a[..from][..CHECKED_HEADER_SIZE];
      assert b[..CHECKED_HEADER_SIZE] == b[..from][..CHECKED_HEADER_SIZE];
      assert a[HEADER_SIZE..from] == a[..from][HEADER_SIZE..];
      assert b[HEADER_SIZE..from] == b[..from][HEADER_SIZE..];
    }
    assert Covered(a) == before + x + after;
    assert Covered(b) == before + y + after;
    Crc32.BurstChangesChecksum(before, x, y, after);
  }

  /** Damage confined to four neighbouring bytes of the checked header, of the CRC or of the payload never
      leaves a decodable packet. */
  lemma BurstIsDetected(a: seq<u8>, b: seq<u8>, from: nat, to: nat)
    requires Decode(a).Ok? && DiffersWithin(a, b, from, to) && to - from <= 4 && a != b
    requires to <= CHECKED_HEADER_SIZE || (CHECKED_HEADER_SIZE <= from && to <= HEADER_SIZE) || from >= HEADER_SIZE
    ensures Decode(b).Err?
  {
    var crcA, crcB := a[CHECKED_HEADER_SIZE..HEADER_SIZE], b[CHECKED_HEADER_SIZE..HEADER_SIZE];
    if to <= CHECKED_HEADER_SIZE || from >= HEADER_SIZE {
      CoveredBurst(a, b, from, to);
      assert crcA == crcB by {
        if to <= CHECKED_HEADER_SIZE {
          assert crcA == a[to..][CHECKED_HEADER_SIZE - to..HEADER_SIZE - to];
        } else {
          assert crcA == a[..from][CHECKED_HEADER_SIZE..HEADER_SIZE];
        }
      }
    } else {
      assert a[..CHECKED_HEADER_SIZE] == a[..from][..CHECKED_HEADER_SIZE];
      assert b[..CHECKED_HEADER_SIZE] == b[..from][..CHECKED_HEADER_SIZE];
      assert a[HEADER_SIZE..] == a[to..][HEADER_SIZE - to..];
      assert b[HEADER_SIZE..] == b[to..][HEADER_SIZE - to..];
      assert Covered(a) == Covered(b);
      assert a == a[..CHECKED_HEADER_SIZE] + crcA + a[HEADER_SIZE..];
      assert b == b[..CHECKED_HEADER_SIZE] + crcB + b[HEADER_SIZE..];
      if FromBytes(crcA) == FromBytes(crcB) {
        FromBytesInjective(crcA, crcB);
      }
    }
  }

  /** Changing exactly one byte of an encoded packet, wherever it is, makes decode fail. */
  lemma OneByteIsDetected(p: Packet, at: nat, value: u8)
    requires Encode(p).Ok? && at < |Encode(p).value| && value != Encode(p).value[at]
    ensures Decode(Encode(p).value[at := value]).Err?
  {
    var a := Encode(p).value;
    var b := a[at := value];
    DecodeEncode(p);
    assert a != b by {
      assert b[at] != a[at];
    }
    BurstIsDetected(a, b, at, at + 1);
  }

  // ---------------------------------------------------------------- filling the buffer

  method PutU16(out: array<u8>, at: nat, value: u16)
    requires at + 2 <= out.Length
    modifies out
    ensures out[at] == ByteAt(value, 0) && out[at + 1] == ByteAt(value, 1)
    ensures forall i | 0 <= i < out.Length && !(at <= i < at + 2) :: out[i] == old(out[i])
  {
    assert ShiftedRight(value, 1) == value / 256;
    out[at] := value % 256;
    out[at + 1] := value / 256;
  }

  method PutU32(out: array<u8>, at: nat, value: u32)
    requires at + 4 <= out.Length
    modifies out
    ensures forall k | 0 <= k < 4 :: out[at + k] == ByteAt(value, k)
    ensures forall i | 0 <= i < out.Length && !(at <= i < at + 4) :: out[i] == old(out[i])
  {
    var shifted := value;
    var k := 0;
    while k < 4
      invariant 0 <= k <= 4 && shifted == ShiftedRight(value, k)
      invariant forall j | 0 <= j < k :: out[at + j] == ByteAt(value, j)
      invariant forall i | 0 <= i < out.Length && !(at <= i < at + k) :: out[i] == old(out[i])
    {
      out[at + k] := shifted % 256;
      shifted := shifted / 256;
      k := k + 1;
    }
  }

  method PutWord(out: array<u8>, at: nat, word: Word)
    requires at + 4 <= out.Length
    modifies out
    ensures out[at..at + 4] == ToBytes(word)
    ensures out[..at] == old(out[..at]) && out[at + 4..] == old(out[at + 4..])
  {
    out[at], out[at + 1], out[at + 2], out[at + 3] := ByteOf(word, 0), ByteOf(word, 1), ByteOf(word, 2), ByteOf(word, 3);
  }

  method WriteHeaderWithoutCrc(out: array<u8>, h: Header)
    requires out.Length >= HEADER_SIZE
    modifies out
    ensures out[..CHECKED_HEADER_SIZE] == HeaderBytes(h)
    ensures out[CHECKED_HEADER_SIZE..] == old(out[CHECKED_HEADER_SIZE..])
  {
    out[0] := h.version;
    out[1] := h.messageType;
    PutU16(out, 2, h.command);
    PutU32(out, 4, h.sessionId);
    PutU32(out, 8, h.requestId);
    PutU32(out, 12, h.objectId);
    PutU16(out, 16, h.payloadLength);
    PutU16(out, 18, h.flags);
  }

  method EncodePacket(p: Packet) returns (r: Result<seq<u8>, PacketError>)
    ensures r == Encode(p)
  {
    if p.header.version != PROTOCOL_VERSION {
      return Err(UnsupportedVersion);
    }
    if !ValidMessageType(p.header.messageType) {
      return Err(InvalidMessageType);
    }
    if |p.payload| > MAXIMUM_PAYLOAD_SIZE {
      return Err(TooLarge);
    }
    var header := p.header.(payloadLength := |p.payload|);
    var bytes := new u8[HEADER_SIZE + |p.payload|];
    WriteHeaderWithoutCrc(bytes, header);
    forall i | 0 <= i < |p.payload| {
      bytes[HEADER_SIZE + i] := p.payload[i];
    }
    assert bytes[..CHECKED_HEADER_SIZE] == HeaderBytes(header);
    assert bytes[HEADER_SIZE..] == p.payload;
    var input := bytes[..CHECKED_HEADER_SIZE] + p.payload;
    var crc := Crc32.Compute(input);
    PutWord(bytes, CHECKED_HEADER_SIZE, crc);
    assert HeaderBytes(header.(crc := crc)) == HeaderBytes(header);
    assert bytes[..] == bytes[..CHECKED_HEADER_SIZE] + bytes[CHECKED_HEADER_SIZE..HEADER_SIZE] + bytes[HEADER_SIZE..];
    r := Ok(bytes[..]);
  }
}
