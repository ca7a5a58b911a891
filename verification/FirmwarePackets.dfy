/** The firmware's packet codec (firmware/src/core.c): it speaks exactly the wire format of the C++ codec. */
module FirmwarePackets {
  import opened FixedWidth
  import opened Results
  import opened Words
  import opened PacketCodec
  import Crc32

  /** packet_crc: the CRC is run over the header and then on over the payload, jumping over the CRC field. */
  method PacketCrc(packet: seq<u8>) returns (crc: Word)
    requires |packet| >= HEADER_SIZE
    ensures crc == Crc32.Checksum(Covered(packet))
  {
    var running := Crc32.Advance(Ones(), packet[..CHECKED_HEADER_SIZE]);
    running := Crc32.Advance(running, packet[HEADER_SIZE..]);
    Crc32.UpdateAppend(Ones(), packet[..CHECKED_HEADER_SIZE], packet[HEADER_SIZE..]);
    crc := Complement(running);
  }

  /** decode_request. */
  method DecodeRequest(packet: seq<u8>) returns (request: Option<Packet>)
    ensures |packet| <= MAXIMUM_PACKET_SIZE ==>
      (request.Some? <==> Decode(packet).Ok? && Decode(packet).value.header.messageType == MESSAGE_REQUEST)
    ensures |packet| <= MAXIMUM_PACKET_SIZE && request.Some? ==> request.value == Decode(packet).value
  {
    if |packet| < HEADER_SIZE || packet[0] != PROTOCOL_VERSION || packet[1] != MESSAGE_REQUEST {
      return None;
    }
    var length := Number16(packet[16], packet[17]);
    if HEADER_SIZE + length != |packet| {
      return None;
    }
    var crc := PacketCrc(packet);
    if crc != FromBytes(packet[CHECKED_HEADER_SIZE..HEADER_SIZE]) {
      return None;
    }
    request := Some(Packet(HeaderOf(packet), packet[HEADER_SIZE..]));
  }

  /** Header and payload, with a zero in place of the CRC. */
  method WriteWithoutCrc(output: array<u8>, header: Header, payload: seq<u8>)
    requires output.Length >= HEADER_SIZE + |payload|
    modifies output
    ensures output[..CHECKED_HEADER_SIZE] == HeaderBytes(header)
    ensures output[HEADER_SIZE..HEADER_SIZE + |payload|] == payload
    ensures output[HEADER_SIZE + |payload|..] == old(output[HEADER_SIZE + |payload|..])
  {
    WriteHeaderWithoutCrc(output, header);
    assert output[HEADER_SIZE + |payload|..] == output[CHECKED_HEADER_SIZE..][4 + |payload|..];
    PutWord(output, CHECKED_HEADER_SIZE, Zero());
    assert output[HEADER_SIZE + |payload|..] == old(output[HEADER_SIZE + |payload|..]);
    forall i | 0 <= i < |payload| {
      output[HEADER_SIZE + i] := payload[i];
    }
  }

  /** encode_packet, into the first bytes of a buffer. */
  method EncodePacket(output: array<u8>, messageType: u8, command: u16, sessionId: u32, requestId: u32, objectId: u32,
      flags: u16, payload: seq<u8>) returns (size: nat)
    requires |payload| <= MAXIMUM_PAYLOAD_SIZE && output.Length >= HEADER_SIZE + |payload|
    requires ValidMessageType(messageType)
    modifies output
    ensures size == HEADER_SIZE + |payload|
    ensures Encode(Packet(Header(PROTOCOL_VERSION, messageType, command, sessionId, requestId, objectId, 0, flags, Zero()),
                          payload)) == Ok(output[..size])
    ensures output[size..] == old(output[size..])
  {
    size := HEADER_SIZE + |payload|;
    var header := Header(PROTOCOL_VERSION, messageType, command, sessionId, requestId, objectId, |payload|, flags, Zero());
    WriteWithoutCrc(output, header, payload);
    ghost var checked, before := HeaderBytes(header), output[..];
    assert Covered(output[..size]) == checked + payload;
    var crc := PacketCrc(output[..size]);
    PutWord(output, CHECKED_HEADER_SIZE, crc);
    assert output[size..] == output[HEADER_SIZE..][|payload|..];
    assert output[..size] == output[..CHECKED_HEADER_SIZE] + output[CHECKED_HEADER_SIZE..HEADER_SIZE] +
                             output[HEADER_SIZE..][..|payload|];
    assert HeaderBytes(header.(crc := crc)) == checked;
    assert output[..size] == Bytes(Packet(header.(crc := crc), payload));
  }
}
