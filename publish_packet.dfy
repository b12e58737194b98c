/**
 * The PUBLISH packet codec of `MQTTPublishPacket`: the fixed-header flags,
 * the variable header and payload it sends, and the decoder of a received
 * frame body. The codec is kept as it is written, including two places where
 * the encoder and the decoder disagree about the flags; `FixedHeaderFlagsStd`
 * and `DecodeStd` are the definitions that agree with section 3.3.1 of MQTT
 * 3.1.1.
 */
module Publish {
  import opened Wrappers
  import opened Bytes
  import opened Packet
  import RemainingLength

  /** `MQTTQoS`, whose raw values are 0, 1 and 2. */
  datatype QoS = AtMostOnce | AtLeastOnce | ExactlyOnce

  /** `MQTTQoS(rawValue:)`: no level for a raw value other than 0, 1 and 2. */
  function QoSFromRawValue(raw: Byte): (q: Option<QoS>)
    ensures q.Some? <==> raw <= 2
  {
    if raw == 0 then Some(AtMostOnce)
    else if raw == 1 then Some(AtLeastOnce)
    else if raw == 2 then Some(ExactlyOnce)
    else None
  }

  /** `QoS.rawValue`. */
  function RawValue(q: QoS): (r: Byte)
    ensures r <= 2 && QoSFromRawValue(r) == Some(q)
  {
    match q
    case AtMostOnce => 0
    case AtLeastOnce => 1
    case ExactlyOnce => 2
  }

  /** `MQTTPubMsg`: the topic as its UTF-8 bytes, the application message, the retain flag, the level. */
  datatype PubMsg = PubMsg(topic: seq<Byte>, message: seq<Byte>, retain: bool, qos: QoS)

  /** `MQTTPublishPacket`: its fixed header, its packet identifier and the message it carries. */
  datatype PublishPacket = PublishPacket(header: FixedHeader, messageID: UInt16, message: PubMsg)

  /**
   * The flag bytes both layouts can produce, worked out bit by bit: retain at
   * 0x08 or at 0x01, and a raw level of 0, 1 or 2 shifted into bits 2-1.
   */
  lemma FlagLayouts(retain: bool, raw: Byte)
    requires raw <= 2
    ensures var f := Or(if retain then Or(0, 0x08) else 0, ShiftLeft(raw, 1));
      f < 16 && (And(f, 0x08) == 0x08) == retain && And(f, 0x06) == 2 * raw && And(f, 0x01) == 0
    ensures var f := Or(if retain then Or(0, 0x01) else 0, ShiftLeft(raw, 1));
      f < 16 && (And(f, 0x01) == 0x01) == retain && And(f, 0x06) == 2 * raw && And(f, 0x08) == 0
  {
    assert Or(0, 8) == 8 && Or(0, 1) == 1;
    if raw == 0 {
      assert ShiftLeft(0, 1) == 0;
      assert Or(8, 0) == 8 && Or(1, 0) == 1 && Or(0, 0) == 0;
      assert And(8, 8) == 8 && And(8, 6) == 0 && And(8, 1) == 0;
      assert And(1, 8) == 0 && And(1, 6) == 0 && And(1, 1) == 1;
      assert And(0, 8) == 0 && And(0, 6) == 0 && And(0, 1) == 0;
    } else if raw == 1 {
      assert ShiftLeft(1, 1) == 2;
      assert Or(8, 2) == 10 && Or(1, 2) == 3 && Or(0, 2) == 2;
      assert And(10, 8) == 8 && And(10, 6) == 2 && And(10, 1) == 0;
      assert And(3, 8) == 0 && And(3, 6) == 2 && And(3, 1) == 1;
      assert And(2, 8) == 0 && And(2, 6) == 2 && And(2, 1) == 0;
    } else {
      assert ShiftLeft(2, 1) == 4;
      assert Or(8, 4) == 12 && Or(1, 4) == 5 && Or(0, 4) == 4;
      assert And(12, 8) == 8 && And(12, 6) == 4 && And(12, 1) == 0;
      assert And(5, 8) == 0 && And(5, 6) == 4 && And(5, 1) == 1;
      assert And(4, 8) == 0 && And(4, 6) == 4 && And(4, 1) == 0;
    }
  }

  /** `fixedHeaderFlags(for:)` as written: retain in bit 3, the level shifted into bits 2-1. */
  function FixedHeaderFlags(m: PubMsg): (f: Byte)
    ensures f < 16
    ensures (And(f, 0x08) == 0x08) == m.retain
    ensures And(f, 0x06) == 2 * RawValue(m.qos)
    ensures And(f, 0x01) == 0
  {
    FlagLayouts(m.retain, RawValue(m.qos));
    var flags := if m.retain then Or(0, 0x08) else 0;
    Or(flags, ShiftLeft(RawValue(m.qos), 1))
  }

  /** The flags in the layout of section 3.3.1 of MQTT 3.1.1: RETAIN in bit 0, QoS in bits 2-1, DUP clear. */
  function FixedHeaderFlagsStd(m: PubMsg): (f: Byte)
    ensures f < 16
    ensures (And(f, 0x01) == 0x01) == m.retain
    ensures And(f, 0x06) == 2 * RawValue(m.qos)
    ensures And(f, 0x08) == 0
  {
    FlagLayouts(m.retain, RawValue(m.qos));
    var flags := if m.retain then Or(0, 0x01) else 0;
    Or(flags, ShiftLeft(RawValue(m.qos), 1))
  }

  /** `init(messageID:message:)`: an outbound packet with a PUBLISH header over the message's flags. */
  function NewPublishPacket(messageID: UInt16, m: PubMsg): (p: PublishPacket)
    ensures p.header.packetType == PUBLISH && p.header.flags == FixedHeaderFlags(m)
    ensures p.messageID == messageID && p.message == m
  {
    PublishPacket(FixedHeader(PUBLISH, FixedHeaderFlags(m)), messageID, m)
  }

  /** The outbound constructor over the corrected flags. */
  function NewPublishPacketStd(messageID: UInt16, m: PubMsg): (p: PublishPacket)
    ensures p.header.packetType == PUBLISH && p.header.flags == FixedHeaderFlagsStd(m)
    ensures p.messageID == messageID && p.message == m
  {
    PublishPacket(FixedHeader(PUBLISH, FixedHeaderFlagsStd(m)), messageID, m)
  }

  /** `mqtt_append(String)`: a UTF-8 string prefixed with its byte count (section 1.5.3 of MQTT 3.1.1). */
  function AppendString(d: seq<Byte>, s: seq<Byte>): (r: seq<Byte>)
    requires |s| < 0x1_0000
    ensures |r| == |d| + 2 + |s| && r[..|d|] == d
    ensures FromBigEndian16(r[|d|], r[|d| + 1]) == |s| && r[|d| + 2..] == s
  {
    d + BigEndian16(|s|) + s
  }

  /** `mqtt_append(UInt16)`. */
  function AppendUInt16(d: seq<Byte>, v: UInt16): (r: seq<Byte>)
    ensures |r| == |d| + 2 && r[..|d|] == d && FromBigEndian16(r[|d|], r[|d| + 1]) == v
  {
    d + BigEndian16(v)
  }

  /** Bytes the packet identifier takes on the wire: none at QoS 0 (section 3.3.2 of MQTT 3.1.1). */
  function IdentifierSize(q: QoS): nat
  {
    if q == AtMostOnce then 0 else 2
  }

  /** The variable header `networkPacket` builds: the length-prefixed topic, then the identifier unless QoS is 0. */
  function VariableHeader(p: PublishPacket): (vh: seq<Byte>)
    requires |p.message.topic| < 0x1_0000
    ensures var t := p.message.topic;
      && |vh| == 2 + |t| + IdentifierSize(p.message.qos)
      && vh[..2] == BigEndian16(|t|)
      && vh[2..2 + |t|] == t
      && (p.message.qos != AtMostOnce ==> vh[2 + |t|..] == BigEndian16(p.messageID))
  {
    var vh := AppendString([], p.message.topic);
    if p.message.qos != AtMostOnce then AppendUInt16(vh, p.messageID) else vh
  }

  /** What follows the Remaining Length in the frame: the variable header, then the message verbatim. */
  function Body(p: PublishPacket): (body: seq<Byte>)
    requires |p.message.topic| < 0x1_0000
    ensures var vh := VariableHeader(p);
      |body| == |vh| + |p.message.message| && body[..|vh|] == vh && body[|vh|..] == p.message.message
  {
    VariableHeader(p) + p.message.message
  }

  /** `networkPacket()`: the frame `finalPacket` makes of the variable header and the payload. */
  function NetworkPacket(p: PublishPacket): (frame: seq<Byte>)
    requires |p.message.topic| < 0x1_0000
    ensures var body := Body(p);
      && |frame| > 1 + |body|
      && frame[0] == NetworkByte(p.header)
      && RemainingLength.Value(frame[1..|frame| - |body|]) == |body|
      && frame[|frame| - |body|..] == body
  {
    FinalPacket(p.header, VariableHeader(p), p.message.message)
  }

  /**
   * Where `init(header:networkData:)` stops. The Swift code traps (or reads
   * out of bounds) at each of these points; none of them is handled.
   */
  datatype DecodeError =
    | TopicLengthMissing          // fewer than 2 bytes: line 46 reads past the end unchecked, the `subdata` at line 48 traps
    | TopicTruncated              // `subdata` past the end of the data (line 48)
    | TopicNotUtf8                // the force-unwrap of `String(data:encoding:)` (line 49)
    | InvalidQoS(raw: Byte)       // the force-unwrap of `MQTTQoS(rawValue:)` (line 53)
    | MessageIDMissing            // fewer than 2 bytes: line 57 reads past the end unchecked, the `subdata` at line 58 traps

  /**
   * The body layout `init(header:networkData:)` parses, given the raw level
   * and retain flag the caller reads from the header flags: a big-endian topic
   * length, the topic, then an identifier unless the level is 0, then the payload.
   */
  function ParseBody(header: FixedHeader, body: seq<Byte>, qosRaw: Byte, retain: bool): (r: Result<PublishPacket, DecodeError>)
    ensures r.Success? ==> var p := r.value;
      && p.header == header
      && |p.message.topic| < 0x1_0000 && ValidUtf8(p.message.topic)
      && Body(p) == body
      && p.message.retain == retain
      && RawValue(p.message.qos) == qosRaw
      && (p.message.qos == AtMostOnce ==> p.messageID == 0)
  {
    if |body| < 2 then Failure(TopicLengthMissing)
    else
      var topicLength := 256 * (body[0] as int) + body[1] as int;
      if |body| < topicLength + 2 then Failure(TopicTruncated)
      else
        var topic := body[2..topicLength + 2];
        if !ValidUtf8(topic) then Failure(TopicNotUtf8)
        else
          var payload := body[2 + topicLength..];
          match QoSFromRawValue(qosRaw)
          case None => Failure(InvalidQoS(qosRaw))
          case Some(qos) =>
            if qos != AtMostOnce then
              if |payload| < 2 then Failure(MessageIDMissing)
              else
                var p := PublishPacket(header, FromBigEndian16(payload[0], payload[1]), PubMsg(topic, payload[2..], retain, qos));
                ParsedBodyReencodes(p, body, topicLength);
                Success(p)
            else
              var p := PublishPacket(header, 0, PubMsg(topic, payload, retain, qos));
              ParsedBodyReencodes(p, body, topicLength);
              Success(p)
  }

  /** The packet `ParseBody` builds from the parts of `body` encodes back to `body`. */
  lemma ParsedBodyReencodes(p: PublishPacket, body: seq<Byte>, topicLength: int)
    requires |body| >= 2 && topicLength == 256 * (body[0] as int) + body[1] as int
    requires 2 + topicLength <= |body| && p.message.topic == body[2..2 + topicLength]
    requires var rest := body[2 + topicLength..];
      if p.message.qos == AtMostOnce then p.message.message == rest
      else |rest| >= 2 && p.messageID == FromBigEndian16(rest[0], rest[1]) && p.message.message == rest[2..]
    ensures |p.message.topic| < 0x1_0000 && Body(p) == body
  {
    var t := p.message.topic;
    var rest := body[2 + topicLength..];
    BigEndianPrefix(body, |t|);
    SplitAt2(body, topicLength);
    VariableHeaderBytes(p);
    if p.message.qos != AtMostOnce {
      BigEndianPrefix(rest, p.messageID);
      assert rest == rest[..2] + rest[2..];
      assert body == BigEndian16(|t|) + t + (rest[..2] + rest[2..]);
    }
  }

  /** Two bytes that read back as `v` are the bytes `BigEndian16` writes for `v`. */
  lemma BigEndianPrefix(s: seq<Byte>, v: UInt16)
    requires |s| >= 2 && FromBigEndian16(s[0], s[1]) == v
    ensures s[..2] == BigEndian16(v)
  {
  }

  lemma SplitAt2(body: seq<Byte>, n: nat)
    requires 2 + n <= |body|
    ensures body == body[..2] + body[2..2 + n] + body[2 + n..]
  {
  }

  /** The bytes of the variable header, part by part. */
  lemma VariableHeaderBytes(p: PublishPacket)
    requires |p.message.topic| < 0x1_0000
    ensures var t := p.message.topic;
      Body(p) == BigEndian16(|t|) + t + (if p.message.qos == AtMostOnce then [] else BigEndian16(p.messageID)) + p.message.message
  {
    var t := p.message.topic;
    assert AppendString([], t) == BigEndian16(|t|) + t;
  }

  /**
   * `init(header:networkData:)` as written: level from `flags & 0x06` without
   * a shift, retain from `flags & 0x01`. A decoded packet encodes back to the
   * body it came from: the decoder loses no byte.
   */
  function Decode(header: FixedHeader, body: seq<Byte>): (r: Result<PublishPacket, DecodeError>)
    ensures r.Success? ==>
      && r.value.header == header
      && |r.value.message.topic| < 0x1_0000 && Body(r.value) == body
      && r.value.message.retain == (And(header.flags, 0x01) == 0x01)
      && QoSFromRawValue(And(header.flags, 0x06)) == Some(r.value.message.qos)
    ensures r.Failure? && r.error.InvalidQoS? ==> r.error.raw == And(header.flags, 0x06) > 2
  {
    ParseBody(header, body, And(header.flags, 0x06), And(header.flags, 0x01) == 0x01)
  }

  /** The corrected decoder: the level is `(flags & 0x06) >> 1`. */
  function DecodeStd(header: FixedHeader, body: seq<Byte>): (r: Result<PublishPacket, DecodeError>)
    ensures r.Success? ==>
      && r.value.header == header
      && |r.value.message.topic| < 0x1_0000 && Body(r.value) == body
      && r.value.message.retain == (And(header.flags, 0x01) == 0x01)
      && RawValue(r.value.message.qos) == And(header.flags, 0x06) / 2
  {
    ParseBody(header, body, And(header.flags, 0x06) / 2, And(header.flags, 0x01) == 0x01)
  }

  /**
   * Decoding succeeds exactly when none of the trapping points is reached: two
   * length bytes, the whole topic present and well-formed UTF-8, `flags & 0x06`
   * a raw level, and two identifier bytes when that level is not 0.
   */
  lemma DecodeSucceedsIff(header: FixedHeader, body: seq<Byte>)
    ensures Decode(header, body).Success? <==>
      && |body| >= 2
      && (var topicLength := 256 * (body[0] as int) + body[1] as int;
          && |body| >= 2 + topicLength
          && ValidUtf8(body[2..2 + topicLength])
          && And(header.flags, 0x06) <= 2
          && (And(header.flags, 0x06) != 0 ==> |body| >= 4 + topicLength))
  {
  }

  /**
   * The fields a successful decode takes from the body: the topic after the
   * two length bytes, then the identifier and the rest as the message when
   * the level is not 0, the whole rest as the message with identifier 0 when it is.
   */
  lemma DecodedFields(header: FixedHeader, body: seq<Byte>)
    requires Decode(header, body).Success?
    ensures var p := Decode(header, body).value;
      var topicLength := 256 * (body[0] as int) + body[1] as int;
      var rest := body[2 + topicLength..];
      && p.message.topic == body[2..2 + topicLength]
      && (p.message.qos == AtMostOnce ==> p.messageID == 0 && p.message.message == rest)
      && (p.message.qos != AtMostOnce ==>
            p.messageID == FromBigEndian16(rest[0], rest[1]) && p.message.message == rest[2..])
  {
  }

  /** Where `Body` puts the topic length, the topic, the identifier and the message. */
  lemma BodyLayout(p: PublishPacket)
    requires |p.message.topic| < 0x1_0000
    ensures var body := Body(p);
      var t := p.message.topic;
      && |body| >= 2 + |t|
      && 256 * (body[0] as int) + body[1] as int == |t|
      && body[2..2 + |t|] == t
      && (p.message.qos == AtMostOnce ==> body[2 + |t|..] == p.message.message)
      && (p.message.qos != AtMostOnce ==>
            var payload := body[2 + |t|..];
            |payload| >= 2 && FromBigEndian16(payload[0], payload[1]) == p.messageID && payload[2..] == p.message.message)
  {
    var m := p.message;
    var body := Body(p);
    var t := m.topic;
    var vh := VariableHeader(p);
    assert body[..|vh|] == vh;
    assert body[0] == vh[0] && body[1] == vh[1];
    assert body[2..2 + |t|] == t;
    var payload := body[2 + |t|..];
    if m.qos != AtMostOnce {
      assert payload[..2] == BigEndian16(p.messageID);
      assert payload[2..] == m.message;
    } else {
      assert payload == m.message;
    }
  }

  /**
   * Parsing the body of an encoded packet under a raw level that is not one,
   * or is one that agrees on whether an identifier is present.
   */
  lemma ParseEncodedBody(p: PublishPacket, header: FixedHeader, qosRaw: Byte, retain: bool)
    requires |p.message.topic| < 0x1_0000 && ValidUtf8(p.message.topic)
    requires QoSFromRawValue(qosRaw).Some? ==>
      (QoSFromRawValue(qosRaw).value == AtMostOnce) == (p.message.qos == AtMostOnce)
    ensures ParseBody(header, Body(p), qosRaw, retain) ==
      var m := p.message;
      match QoSFromRawValue(qosRaw)
      case None => Failure(InvalidQoS(qosRaw))
      case Some(q) =>
        Success(PublishPacket(header, if q == AtMostOnce then 0 else p.messageID, PubMsg(m.topic, m.message, retain, q)))
  {
    BodyLayout(p);
  }

  /**
   * At QoS 0 the topic and the message come back exactly and the identifier is
   * 0; retain does not come back, since it is written at 0x08 and read at 0x01.
   */
  lemma RoundTripAtMostOnce(messageID: UInt16, m: PubMsg)
    requires m.qos == AtMostOnce && |m.topic| < 0x1_0000 && ValidUtf8(m.topic)
    ensures var p := NewPublishPacket(messageID, m);
      Decode(p.header, Body(p)) == Success(PublishPacket(p.header, 0, PubMsg(m.topic, m.message, false, AtMostOnce)))
  {
    var p := NewPublishPacket(messageID, m);
    ParseEncodedBody(p, p.header, And(p.header.flags, 0x06), false);
  }

  /** The decoder's missing shift turns an at-least-once message into an exactly-once one. */
  lemma AtLeastOnceComesBackExactlyOnce(messageID: UInt16, m: PubMsg)
    requires m.qos == AtLeastOnce && |m.topic| < 0x1_0000 && ValidUtf8(m.topic)
    ensures var p := NewPublishPacket(messageID, m);
      Decode(p.header, Body(p)) == Success(PublishPacket(p.header, messageID, PubMsg(m.topic, m.message, false, ExactlyOnce)))
  {
    var p := NewPublishPacket(messageID, m);
    ParseEncodedBody(p, p.header, And(p.header.flags, 0x06), false);
  }

  /** An exactly-once message cannot be decoded: `flags & 0x06` is 4, which is no raw level. */
  lemma ExactlyOnceIsRefused(messageID: UInt16, m: PubMsg)
    requires m.qos == ExactlyOnce && |m.topic| < 0x1_0000 && ValidUtf8(m.topic)
    ensures var p := NewPublishPacket(messageID, m);
      Decode(p.header, Body(p)) == Failure(InvalidQoS(4))
  {
    var p := NewPublishPacket(messageID, m);
    assert And(p.header.flags, 0x06) == 4;
    ParseEncodedBody(p, p.header, 4, false);
  }

  /** With the corrected flags and decoder every message comes back whole, its identifier too unless QoS is 0. */
  lemma RoundTripStd(messageID: UInt16, m: PubMsg)
    requires |m.topic| < 0x1_0000 && ValidUtf8(m.topic)
    ensures var p := NewPublishPacketStd(messageID, m);
      DecodeStd(p.header, Body(p)) == Success(PublishPacket(p.header, if m.qos == AtMostOnce then 0 else messageID, m))
  {
    var p := NewPublishPacketStd(messageID, m);
    var raw := And(p.header.flags, 0x06) / 2;
    assert raw == RawValue(m.qos);
    ParseEncodedBody(p, p.header, raw, m.retain);
  }
}
