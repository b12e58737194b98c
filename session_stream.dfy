/**
 * `MQTTSessionStream`: the object that owns the input and output streams of
 * the connection, reads one frame per "bytes available" event, hands it to its
 * delegate, and writes outbound packets.
 *
 * The input stream is the sequence of bytes the peer has delivered so far
 * with a read cursor; its output stream is the sequence of bytes it accepted.
 * The delegate is the trace of calls made on it.
 */
module SessionStream {
  import opened Wrappers
  import opened Bytes
  import opened Packet
  import RemainingLength
  import Publish

  /** `Stream.Event`, as the `switch` of `stream(_:handle:)` tells its values apart. */
  datatype StreamEvent =
    | NoEvent
    | OpenCompleted
    | HasBytesAvailable
    | ErrorOccurred
    | EndEncountered
    | HasSpaceAvailable
    | Unrecognized

  /** The stream an event comes from: this object's input stream, its output stream, or another one. */
  datatype StreamRef = InputStream | OutputStream | OtherStream

  /** A call on the delegate (`MQTTSessionStreamDelegate`). */
  datatype DelegateCall =
    | StreamErrorOccurred
    | ReceivedData(data: seq<Byte>, header: FixedHeader)

  /** What one pass of the reader makes of the bytes it finds. */
  datatype ReadOutcome =
    | NoHeader                                      // no header byte could be read
    | LengthOverflow(header: FixedHeader)           // the length guard fired; the frame is dropped
    | Frame(header: FixedHeader, body: seq<Byte>)   // handed to the delegate

  datatype ReadStep = ReadStep(outcome: ReadOutcome, next: nat)

  /** The frame body after a decoded length: as many of the `n` bytes as there are, none when `n` is 0. */
  function FrameAfterLength(data: seq<Byte>, pos: nat, header: FixedHeader, d: RemainingLength.Decoded): (r: ReadStep)
    requires pos + 1 + d.consumed <= |data|
    ensures pos + 1 + d.consumed <= r.next <= |data|
  {
    match d
    case Overflow(c) => ReadStep(LengthOverflow(header), pos + 1 + c)
    case Length(n, c) =>
      var bodyStart := pos + 1 + c;
      var bodyEnd := if n == 0 then bodyStart else Min(bodyStart + n, |data|);
      ReadStep(Frame(header, data[bodyStart..bodyEnd]), bodyEnd)
  }

  /**
   * One pass of `receiveDataOnStream` over the readable bytes `data` starting at
   * `pos`: the header byte, the Remaining Length as the code decodes it, and the
   * body bytes that are there. `next` is where the cursor ends up.
   */
  function ReadFrame(data: seq<Byte>, pos: nat): (r: ReadStep)
    requires pos <= |data|
    ensures pos <= r.next <= |data|
    ensures r.outcome.NoHeader? <==> pos == |data|
    ensures r.outcome.NoHeader? ==> r.next == pos
    ensures !r.outcome.NoHeader? ==> r.outcome.header == FromNetworkByte(data[pos])
  {
    if pos == |data| then ReadStep(NoHeader, pos)
    else
      var s := data[pos + 1..];
      RemainingLength.DecodeReadsAtMostFour(s);
      FrameAfterLength(data, pos, FromNetworkByte(data[pos]), RemainingLength.Decode(s))
  }

  /** The reader with the corrected length loop of `RemainingLength.DecodeStd`. */
  function ReadFrameStd(data: seq<Byte>, pos: nat): (r: ReadStep)
    requires pos <= |data|
    ensures pos <= r.next <= |data|
    ensures r.outcome.NoHeader? <==> pos == |data|
  {
    if pos == |data| then ReadStep(NoHeader, pos)
    else
      var s := data[pos + 1..];
      RemainingLength.DecodeStdReadsAtMostFour(s);
      FrameAfterLength(data, pos, FromNetworkByte(data[pos]), RemainingLength.DecodeStd(s))
  }

  /** The step after a decoded length of `n` over `c` length bytes. */
  lemma FrameAfterLengthIs(data: seq<Byte>, pos: nat, header: FixedHeader, n: nat, c: nat)
    requires pos + 1 + c <= |data|
    ensures var bodyStart := pos + 1 + c;
      var bodyEnd := if n == 0 then bodyStart else Min(bodyStart + n, |data|);
      FrameAfterLength(data, pos, header, RemainingLength.Length(n, c)) == ReadStep(Frame(header, data[bodyStart..bodyEnd]), bodyEnd)
  {
  }

  /** `ReadFrame` after a header byte, in terms of the decoded length. */
  lemma ReadFrameAfterHeader(data: seq<Byte>, pos: nat)
    requires pos < |data|
    ensures var d := RemainingLength.Decode(data[pos + 1..]);
      var header := FromNetworkByte(data[pos]);
      var bodyStart := pos + 1 + d.consumed;
      && bodyStart <= |data|
      && (d.Overflow? ==> ReadFrame(data, pos) == ReadStep(LengthOverflow(header), bodyStart))
      && (d.Length? ==>
            var bodyEnd := if d.value == 0 then bodyStart else Min(bodyStart + d.value, |data|);
            ReadFrame(data, pos) == ReadStep(Frame(header, data[bodyStart..bodyEnd]), bodyEnd))
  {
    RemainingLength.DecodeReadsAtMostFour(data[pos + 1..]);
  }

  /** The delegate calls one reader pass makes: one `receivedData` for a frame, when there is a delegate. */
  function Notified(hasDelegate: bool, o: ReadOutcome): seq<DelegateCall>
  {
    if hasDelegate && o.Frame? then [ReceivedData(o.body, o.header)] else []
  }

  /**
   * The body handed on is exactly the bytes after the length that were there,
   * at most the decoded length of them: empty for a length of 0, shorter than
   * the length when the data runs out.
   */
  lemma FrameBody(data: seq<Byte>, pos: nat)
    requires pos < |data|
    requires RemainingLength.Decode(data[pos + 1..]).Length?
    ensures var d := RemainingLength.Decode(data[pos + 1..]);
      var r := ReadFrame(data, pos);
      var bodyStart := pos + 1 + d.consumed;
      && r.outcome.Frame?
      && bodyStart <= r.next
      && r.outcome.body == data[bodyStart..r.next]
      && |r.outcome.body| <= d.value
      && (d.value == 0 ==> r.outcome.body == [])
      && (|r.outcome.body| == d.value <==> bodyStart + d.value <= |data|)
  {
    RemainingLength.DecodeReadsAtMostFour(data[pos + 1..]);
  }

  /** `ReadFrameStd` when the length after the header byte decodes to `n` over `c` bytes. */
  lemma ReadFrameStdOfLength(data: seq<Byte>, pos: nat, n: nat, c: nat)
    requires pos < |data| && RemainingLength.DecodeStd(data[pos + 1..]) == RemainingLength.Length(n, c)
    ensures pos + 1 + c <= |data|
    ensures var bodyEnd := if n == 0 then pos + 1 + c else Min(pos + 1 + c + n, |data|);
      ReadFrameStd(data, pos) == ReadStep(Frame(FromNetworkByte(data[pos]), data[pos + 1 + c..bodyEnd]), bodyEnd)
  {
    RemainingLength.DecodeStdReadsAtMostFour(data[pos + 1..]);
    FrameAfterLengthIs(data, pos, FromNetworkByte(data[pos]), n, c);
  }

  /**
   * The reader on a header byte `b`, length bytes `e`, a body and whatever
   * follows: the frame is the body when the length bytes decode to its size
   * and are that many, and dropped when they overflow.
   */
  lemma ReadFrameOfParts(data: seq<Byte>, b: Byte, e: seq<Byte>, body: seq<Byte>, rest: seq<Byte>)
    requires data == [b] + e + body + rest
    ensures var d := RemainingLength.Decode(e + body + rest);
      && (d == RemainingLength.Length(|body|, |e|) ==>
            ReadFrame(data, 0) == ReadStep(Frame(FromNetworkByte(b), body), 1 + |e| + |body|))
      && (d.Overflow? ==> ReadFrame(data, 0) == ReadStep(LengthOverflow(FromNetworkByte(b)), 1 + d.consumed))
  {
    assert data[1..] == e + body + rest;
    ReadFrameAfterHeader(data, 0);
    assert data[1 + |e|..1 + |e| + |body|] == body;
  }

  /** `ReadFrameOfParts` for the corrected reader. */
  lemma ReadFrameStdOfParts(data: seq<Byte>, b: Byte, e: seq<Byte>, body: seq<Byte>, rest: seq<Byte>)
    requires data == [b] + e + body + rest
    requires RemainingLength.DecodeStd(e + body + rest) == RemainingLength.Length(|body|, |e|)
    ensures ReadFrameStd(data, 0) == ReadStep(Frame(FromNetworkByte(b), body), 1 + |e| + |body|)
  {
    assert data[1..] == e + body + rest;
    ReadFrameStdOfLength(data, 0, |body|, |e|);
    assert data[1 + |e|..1 + |e| + |body|] == body;
  }

  /** The frame `finalPacket` builds, as its header byte, its length bytes and its body. */
  lemma FinalPacketParts(h: FixedHeader, variableHeader: seq<Byte>, payload: seq<Byte>, rest: seq<Byte>)
    ensures var body := variableHeader + payload;
      && FinalPacket(h, variableHeader, payload) + rest == [NetworkByte(h)] + RemainingLength.Encode(|body|) + body + rest
      && |FinalPacket(h, variableHeader, payload)| == 1 + |RemainingLength.Encode(|body|)| + |body|
      && FromNetworkByte(NetworkByte(h)) == h
  {
    NetworkByteRoundTrip(h);
  }

  /** A frame whose Remaining Length fits three bytes is read back whole, header and body, and nothing after it. */
  lemma ReadFrameOfFinalPacket(h: FixedHeader, variableHeader: seq<Byte>, payload: seq<Byte>, rest: seq<Byte>)
    requires |variableHeader| + |payload| < RemainingLength.Pow128(3)
    ensures var frame := FinalPacket(h, variableHeader, payload);
      ReadFrame(frame + rest, 0) == ReadStep(Frame(h, variableHeader + payload), |frame|)
  {
    var body := variableHeader + payload;
    var e := RemainingLength.Encode(|body|);
    FinalPacketParts(h, variableHeader, payload, rest);
    RemainingLength.DecodeEncode(|body|, body + rest);
    assert e + (body + rest) == e + body + rest;
    ReadFrameOfParts(FinalPacket(h, variableHeader, payload) + rest, NetworkByte(h), e, body, rest);
  }

  /**
   * A frame whose Remaining Length needs four bytes (2,097,152 or more) is
   * dropped after its length bytes, with no delegate call; its body is left
   * unread in the stream.
   */
  lemma ReadFrameDropsFourByteLengths(h: FixedHeader, variableHeader: seq<Byte>, payload: seq<Byte>, rest: seq<Byte>)
    requires RemainingLength.Pow128(3) <= |variableHeader| + |payload| < RemainingLength.Pow128(4)
    ensures var frame := FinalPacket(h, variableHeader, payload);
      ReadFrame(frame + rest, 0) == ReadStep(LengthOverflow(h), 5)
  {
    var body := variableHeader + payload;
    var e := RemainingLength.Encode(|body|);
    FinalPacketParts(h, variableHeader, payload, rest);
    RemainingLength.DecodeRefusesFourByteLengths(|body|, body + rest);
    assert e + (body + rest) == e + body + rest;
    ReadFrameOfParts(FinalPacket(h, variableHeader, payload) + rest, NetworkByte(h), e, body, rest);
  }

  /** With the corrected length loop every frame of the standard's size range is read back whole. */
  lemma ReadFrameStdOfFinalPacket(h: FixedHeader, variableHeader: seq<Byte>, payload: seq<Byte>, rest: seq<Byte>)
    requires |variableHeader| + |payload| < RemainingLength.Pow128(4)
    ensures var frame := FinalPacket(h, variableHeader, payload);
      ReadFrameStd(frame + rest, 0) == ReadStep(Frame(h, variableHeader + payload), |frame|)
  {
    var body := variableHeader + payload;
    var e := RemainingLength.Encode(|body|);
    FinalPacketParts(h, variableHeader, payload, rest);
    RemainingLength.DecodeStdEncode(|body|, body + rest);
    assert e + (body + rest) == e + body + rest;
    ReadFrameStdOfParts(FinalPacket(h, variableHeader, payload) + rest, NetworkByte(h), e, body, rest);
  }

  /** A pass at `pos` sees only `data[pos..]`: it is the pass at 0 over those bytes, moved by `pos`. */
  lemma ReadFrameShift(data: seq<Byte>, pos: nat)
    requires pos <= |data|
    ensures var here := ReadFrame(data, pos);
      var there := ReadFrame(data[pos..], 0);
      here.outcome == there.outcome && here.next == pos + there.next
  {
    var t := data[pos..];
    if pos < |data| {
      assert t[1..] == data[pos + 1..] && t[0] == data[pos];
      var d := RemainingLength.Decode(data[pos + 1..]);
      var header := FromNetworkByte(data[pos]);
      assert ReadFrame(data, pos) == FrameAfterLength(data, pos, header, d);
      assert ReadFrame(t, 0) == FrameAfterLength(t, 0, header, d);
      FrameAfterLengthShift(data, pos, header, d);
    }
  }

  /** `FrameAfterLength` at `pos` is `FrameAfterLength` at 0 over `data[pos..]`, moved by `pos`. */
  lemma FrameAfterLengthShift(data: seq<Byte>, pos: nat, header: FixedHeader, d: RemainingLength.Decoded)
    requires pos + 1 + d.consumed <= |data|
    ensures var here := FrameAfterLength(data, pos, header, d);
      var there := FrameAfterLength(data[pos..], 0, header, d);
      here.outcome == there.outcome && here.next == pos + there.next
  {
    if d.Length? {
      var t := data[pos..];
      var bodyStart := pos + 1 + d.consumed;
      var bodyEnd := if d.value == 0 then bodyStart else Min(bodyStart + d.value, |data|);
      assert t[1 + d.consumed..bodyEnd - pos] == data[bodyStart..bodyEnd];
    }
  }

  /**
   * Two frames written back to back are read in order: the first pass yields
   * the first frame and stops at its end, the next pass yields the second.
   */
  lemma ReadFramesInOrder(h1: FixedHeader, vh1: seq<Byte>, p1: seq<Byte>, h2: FixedHeader, vh2: seq<Byte>, p2: seq<Byte>, rest: seq<Byte>)
    requires |vh1| + |p1| < RemainingLength.Pow128(3) && |vh2| + |p2| < RemainingLength.Pow128(3)
    ensures var f1 := FinalPacket(h1, vh1, p1);
      var f2 := FinalPacket(h2, vh2, p2);
      var data := f1 + f2 + rest;
      && ReadFrame(data, 0) == ReadStep(Frame(h1, vh1 + p1), |f1|)
      && ReadFrame(data, |f1|) == ReadStep(Frame(h2, vh2 + p2), |f1| + |f2|)
  {
    var f1 := FinalPacket(h1, vh1, p1);
    var f2 := FinalPacket(h2, vh2, p2);
    var data := f1 + f2 + rest;
    assert data == f1 + (f2 + rest);
    ReadFrameOfFinalPacket(h1, vh1, p1, f2 + rest);
    assert data[|f1|..] == f2 + rest;
    ReadFrameShift(data, |f1|);
    ReadFrameOfFinalPacket(h2, vh2, p2, rest);
  }

  /**
   * A QoS 0 PUBLISH sent by `networkPacket` and read by the reader reaches the
   * delegate as its own header and body, and decodes to its topic and message
   * with identifier 0 (and retain false, whatever was sent).
   */
  lemma PublishThroughReader(messageID: UInt16, m: Publish.PubMsg, rest: seq<Byte>)
    requires m.qos == Publish.AtMostOnce && |m.topic| < 0x1_0000 && ValidUtf8(m.topic)
    requires |Publish.Body(Publish.NewPublishPacket(messageID, m))| < RemainingLength.Pow128(3)
    ensures var p := Publish.NewPublishPacket(messageID, m);
      var step := ReadFrame(Publish.NetworkPacket(p) + rest, 0);
      && step == ReadStep(Frame(p.header, Publish.Body(p)), |Publish.NetworkPacket(p)|)
      && Publish.Decode(step.outcome.header, step.outcome.body)
         == Success(Publish.PublishPacket(p.header, 0, Publish.PubMsg(m.topic, m.message, false, Publish.AtMostOnce)))
  {
    var p := Publish.NewPublishPacket(messageID, m);
    ReadFrameOfFinalPacket(p.header, Publish.VariableHeader(p), m.message, rest);
    Publish.RoundTripAtMostOnce(messageID, m);
  }

  class MqttSessionStream {
    const host: string
    const port: UInt16
    const ssl: bool

    var hasInputStream: bool     // `inputStream != nil`
    var hasOutputStream: bool    // `outputStream != nil`
    var inputOpen: bool
    var outputOpen: bool
    var incoming: seq<Byte>      // every byte the peer has delivered to the input stream
    var cursor: nat              // how many of them have been read
    var outgoing: seq<Byte>      // every byte the output stream has accepted
    var hasDelegate: bool        // `delegate != nil`
    var calls: seq<DelegateCall> // the calls made on the delegate, oldest first

    ghost predicate Valid()
      reads this
    {
      && cursor <= |incoming|
      && (inputOpen ==> hasInputStream)
      && (outputOpen ==> hasOutputStream)
    }

    /** The bytes a read can reach: all delivered bytes while the input stream is open, none past the cursor otherwise. */
    ghost function Readable(): (data: seq<Byte>)
      reads this
      requires Valid()
      ensures cursor <= |data|
    {
      if inputOpen then incoming else incoming[..cursor]
    }

    /** `init(host:port:ssl:)`: no streams and no delegate yet. */
    constructor (host: string, port: UInt16, ssl: bool)
      ensures Valid()
      ensures this.host == host && this.port == port && this.ssl == ssl
      ensures !hasInputStream && !hasOutputStream && !inputOpen && !outputOpen && !hasDelegate
      ensures incoming == [] && cursor == 0 && outgoing == [] && calls == []
    {
      this.host, this.port, this.ssl := host, port, ssl;
      hasInputStream, hasOutputStream := false, false;
      inputOpen, outputOpen := false, false;
      incoming, cursor, outgoing := [], 0, [];
      hasDelegate, calls := false, [];
    }

    /**
     * What `createStreamConnection` leaves behind: the streams the system
     * handed back, fresh and opened.
     */
    method CreateStreamConnection(gotInput: bool, gotOutput: bool)
      modifies this`hasInputStream, this`hasOutputStream, this`inputOpen, this`outputOpen, this`incoming, this`cursor, this`outgoing
      ensures Valid()
      ensures hasInputStream == inputOpen == gotInput && hasOutputStream == outputOpen == gotOutput
      ensures incoming == [] && cursor == 0 && outgoing == []
    {
      hasInputStream, inputOpen := gotInput, gotInput;
      hasOutputStream, outputOpen := gotOutput, gotOutput;
      incoming, cursor, outgoing := [], 0, [];
    }

    /** The peer's bytes arriving on the input stream. */
    method Deliver(bytes: seq<Byte>)
      requires Valid()
      modifies this`incoming
      ensures Valid() && incoming == old(incoming) + bytes
    {
      incoming := incoming + bytes;
    }

    /**
     * `inputStream?.read(&buffer, maxLength:)`: the next bytes available, at
     * most `maxLength` of them; none at the end of the data, on a closed stream
     * or without a stream.
     */
    method Read(maxLength: nat) returns (chunk: seq<Byte>)
      requires Valid()
      modifies this`cursor
      ensures Valid() && Readable() == old(Readable())
      ensures chunk == old(Readable())[old(cursor)..Min(old(cursor) + maxLength, |old(Readable())|)]
      ensures cursor == old(cursor) + |chunk|
    {
      if !inputOpen {
        chunk := [];
        return;
      }
      var end := Min(cursor + maxLength, |incoming|);
      chunk := incoming[cursor..end];
      cursor := end;
    }

    /** `closeStreams()`: both streams closed (and taken off the run loop); closing again changes nothing. */
    method CloseStreams()
      requires Valid()
      modifies this`inputOpen, this`outputOpen
      ensures Valid()
      ensures !inputOpen && !outputOpen
    {
      inputOpen := false;
      outputOpen := false;
    }

    /**
     * The Remaining Length loop of `receiveDataOnStream` (a `repeat`-`while`
     * over one-byte reads): `overflow` is when the code returns from the
     * guard, otherwise `value` is the decoded length. The result of each read is
     * not looked at, so a byte that is not there counts as 0x00.
     */
    method ReadRemainingLength() returns (value: nat, overflow: bool)
      requires Valid()
      modifies this`cursor
      ensures Valid() && Readable() == old(Readable())
      ensures var d := RemainingLength.Decode(old(Readable())[old(cursor)..]);
        && cursor == old(cursor) + d.consumed
        && overflow == d.Overflow?
        && (d.Length? ==> value == d.value)
    {
      ghost var data := Readable();
      ghost var pos := cursor;
      ghost var s := data[pos..];
      var multiplier := 1;
      value := 0;
      var encodedByte: Byte := 0;
      ghost var digits: seq<Byte> := [];
      while true
        invariant Valid() && Readable() == data
        invariant |digits| <= 3 && |digits| <= |s|
        invariant cursor == pos + |digits|
        invariant digits == s[..|digits|]
        invariant forall i :: 0 <= i < |digits| ==> RemainingLength.Continues(digits[i])
        invariant multiplier == RemainingLength.Pow128(|digits|)
        invariant value == RemainingLength.Value(digits)
        decreases 3 - |digits|
      {
        var readByte := Read(1);
        encodedByte := if |readByte| == 1 then readByte[0] else 0;
        RemainingLength.LengthByte(s, digits, encodedByte);
        value := value + And(encodedByte, 127) * multiplier;
        multiplier := multiplier * 128;
        if multiplier > 128 * 128 * 128 {
          return value, true;
        }
        digits := digits + [encodedByte];
        if And(encodedByte, 128) == 0 {
          break;
        }
      }
      overflow := false;
    }

    /**
     * The end of `receiveDataOnStream`: the body is read in one call when the
     * length is not 0, and handed to the delegate together with the header.
     */
    method ReadBody(ghost data: seq<Byte>, header: FixedHeader, totalLength: nat)
      requires Valid() && Readable() == data
      modifies this`cursor, this`calls
      ensures Valid() && Readable() == data
      ensures var bodyEnd := if totalLength == 0 then old(cursor) else Min(old(cursor) + totalLength, |data|);
        && cursor == bodyEnd
        && calls == old(calls) + Notified(hasDelegate, Frame(header, data[old(cursor)..bodyEnd]))
    {
      ghost var bodyStart := cursor;
      var responseData: seq<Byte> := [];
      if totalLength > 0 {
        responseData := Read(totalLength);
      }
      assert responseData == data[bodyStart..cursor];
      if hasDelegate {
        calls := calls + [ReceivedData(responseData, header)];
      }
    }

    /**
     * The rest of `receiveDataOnStream` after the header byte at `pos` was
     * read: the length loop, then the body unless the guard fired.
     */
    method ReadLengthAndBody(ghost data: seq<Byte>, ghost pos: nat, header: FixedHeader)
      requires Valid() && Readable() == data
      requires pos < |data| && cursor == pos + 1 && header == FromNetworkByte(data[pos])
      modifies this`cursor, this`calls
      ensures Valid() && Readable() == data
      ensures var step := ReadFrame(data, pos);
        cursor == step.next && calls == old(calls) + Notified(hasDelegate, step.outcome)
    {
      var totalLength, overflow := ReadRemainingLength();
      ReadFrameAfterHeader(data, pos);
      if overflow {
        return;
      }
      ReadBody(data, header, totalLength);
    }

    /**
     * `receiveDataOnStream`: one pass of `ReadFrame` over the readable bytes.
     * The cursor moves past what was read, and the delegate receives the frame,
     * if there was one, exactly once.
     */
    method ReceiveDataOnStream()
      requires Valid()
      modifies this`cursor, this`calls
      ensures Valid()
      ensures var step := ReadFrame(old(Readable()), old(cursor));
        cursor == step.next && calls == old(calls) + Notified(hasDelegate, step.outcome)
    {
      ghost var data := Readable();
      ghost var pos := cursor;
      var headerByte := Read(1);
      if |headerByte| == 0 {
        return;
      }
      ReadLengthAndBody(data, pos, FromNetworkByte(headerByte[0]));
    }

    /**
     * `stream(_:handle:)`: bytes available on the input stream are read as one
     * frame; an error closes both streams and then tells the delegate; the end
     * of the stream closes both streams; every other event changes nothing.
     */
    method Handle(source: StreamRef, event: StreamEvent)
      requires Valid()
      modifies this`cursor, this`calls, this`inputOpen, this`outputOpen
      ensures Valid()
      ensures event == HasBytesAvailable && source == InputStream && hasInputStream ==>
        var step := ReadFrame(old(Readable()), old(cursor));
        && cursor == step.next && calls == old(calls) + Notified(hasDelegate, step.outcome)
        && inputOpen == old(inputOpen) && outputOpen == old(outputOpen)
      ensures event == ErrorOccurred ==>
        && !inputOpen && !outputOpen && cursor == old(cursor)
        && calls == old(calls) + (if hasDelegate then [StreamErrorOccurred] else [])
      ensures event == EndEncountered ==>
        !inputOpen && !outputOpen && cursor == old(cursor) && calls == old(calls)
      ensures (event != ErrorOccurred && event != EndEncountered
               && !(event == HasBytesAvailable && source == InputStream && hasInputStream)) ==> unchanged(this)
    {
      match event
      case NoEvent =>
      case OpenCompleted =>
      case HasBytesAvailable =>
        if source == InputStream && hasInputStream {
          ReceiveDataOnStream();
        }
      case ErrorOccurred =>
        CloseStreams();
        if hasDelegate {
          calls := calls + [StreamErrorOccurred];
        }
      case EndEncountered =>
        CloseStreams();
      case HasSpaceAvailable =>
      case Unrecognized =>
    }

    /**
     * `sendPacket`: the frame of the packet goes to the output stream in one
     * write and its result is returned. `accepted` is what the stream makes of
     * the write: the count it takes now (at most the frame), or -1 when the
     * write fails. The result is -1 when there is no output stream or it is
     * closed, and nothing is written then or on a failure.
     */
    method SendPacket(packet: Publish.PublishPacket, accepted: int) returns (written: int)
      requires Valid() && |packet.message.topic| < 0x1_0000 && accepted >= -1
      modifies this`outgoing
      ensures Valid()
      ensures var bytes := Publish.NetworkPacket(packet);
        if hasOutputStream && outputOpen && accepted >= 0 then
          written == Min(|bytes|, accepted) && outgoing == old(outgoing) + bytes[..written]
        else
          written == -1 && outgoing == old(outgoing)
    {
      var bytes := Publish.NetworkPacket(packet);
      if !hasOutputStream {
        return -1;
      }
      if !outputOpen || accepted < 0 {
        written := -1;
      } else {
        written := Min(|bytes|, accepted);
        outgoing := outgoing + bytes[..written];
      }
    }
  }
}
