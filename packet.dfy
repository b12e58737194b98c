/**
 * The fixed header every MQTT control packet starts with, and the frame
 * `finalPacket` assembles from it (section 2.2 of MQTT 3.1.1): the header
 * byte, the Remaining Length, the variable header, the payload.
 */
module Packet {
  import opened Bytes
  import RemainingLength

  type Nibble = x: int | 0 <= x < 16

  /** Packet type tag of PUBLISH (section 2.2.1 of MQTT 3.1.1). */
  const PUBLISH: Nibble := 3

  /** The packet type in the high four bits of the header byte and the flags in the low four. */
  datatype FixedHeader = FixedHeader(packetType: Nibble, flags: Nibble)

  /** The header byte sent on the wire: `(packetType << 4) | flags`. */
  function NetworkByte(h: FixedHeader): (b: Byte)
    ensures b / 16 == h.packetType && b % 16 == h.flags
  {
    16 * h.packetType + h.flags
  }

  /** `MQTTPacketFixedHeader(networkByte:)`: the header a received first byte stands for. */
  function FromNetworkByte(b: Byte): (h: FixedHeader)
    ensures NetworkByte(h) == b
  {
    FixedHeader(b / 16, b % 16)
  }

  /** Reading a header byte back gives the header that was written. */
  lemma NetworkByteRoundTrip(h: FixedHeader)
    ensures FromNetworkByte(NetworkByte(h)) == h
  {
  }

  /**
   * `finalPacket(variableHeader, payload:)`: the complete frame of a packet,
   * the header byte, then length bytes whose value is the size of the body,
   * then the body.
   */
  function FinalPacket(h: FixedHeader, variableHeader: seq<Byte>, payload: seq<Byte>): (frame: seq<Byte>)
    ensures var body := variableHeader + payload;
      && |frame| > 1 + |body|
      && frame[0] == NetworkByte(h)
      && RemainingLength.Value(frame[1..|frame| - |body|]) == |body|
      && frame[|frame| - |body|..] == body
  {
    var body := variableHeader + payload;
    var e := RemainingLength.Encode(|body|);
    FrameParts(NetworkByte(h), e, variableHeader, payload);
    [NetworkByte(h)] + e + variableHeader + payload
  }

  /** Where a header byte, length bytes and the two parts of a body fall in the frame they make. */
  lemma FrameParts(b: Byte, e: seq<Byte>, variableHeader: seq<Byte>, payload: seq<Byte>)
    ensures var body := variableHeader + payload;
      var frame := [b] + e + variableHeader + payload;
      && |frame| == 1 + |e| + |body| && frame[0] == b
      && frame[1..|frame| - |body|] == e && frame[|frame| - |body|..] == body
  {
    var body := variableHeader + payload;
    var frame := [b] + e + variableHeader + payload;
    assert frame == [b] + e + body;
  }
}
