# SwiftMQTT frame reader and PUBLISH codec, in Dafny

This project models two parts of the SwiftMQTT client library and proves
properties about them.

- **`MQTTSessionStream`** owns the connection's input and output streams.
  - When bytes are available, `receiveDataOnStream` reads one MQTT control-packet frame:
    1. the fixed-header byte;
    2. the "Remaining Length" variable-length integer (section 2.2.3 of MQTT 3.1.1);
    3. up to that many body bytes.
  - It hands the header and the body to its delegate.
  - `stream(_:handle:)` dispatches stream events: read, close, or report an error to the delegate.
  - `sendPacket` writes a packet's frame to the output stream.
- **`MQTTPublishPacket`** is the PUBLISH packet codec. It covers:
  - the fixed-header flags;
  - the variable header (a length-prefixed topic, then a packet identifier unless QoS is 0);
  - the frame built around the variable header and the payload;
  - the decoder of a received frame body.

## Modules

| module | file | contents |
|---|---|---|
| `Wrappers` | `wrappers.dfy` | `Option` and `Result` |
| `Bytes` | `bytes.dfy` | `UInt8`/`UInt16` as subset types, byte `&`/`\|`/`<<` through `bv8`, big-endian 16-bit values, UTF-8 well-formedness |
| `RemainingLength` | `remaining_length.dfy` | the Remaining Length encoding, and the reader's length loop as a function (as written, and corrected) |
| `Packet` | `packet.dfy` | `MQTTPacketFixedHeader`, its header byte, `finalPacket` |
| `Publish` | `publish_packet.dfy` | `MQTTQoS`, `MQTTPubMsg`, `MQTTPublishPacket` and its encoder and decoder |
| `SessionStream` | `session_stream.dfy` | one reader pass as a function `ReadFrame`, and the class `MqttSessionStream`, whose methods are proved against it |

### How the stream object is modelled

- **Input stream.** It is modelled as the bytes the peer has delivered (`incoming`) plus a read cursor.
  - A read returns the next bytes up to `maxLength`.
  - It returns nothing at the end of the data, once the stream is closed, or when there is no stream.
- **Output stream.** It is modelled as the bytes it has accepted (`outgoing`).
- **Delegate.** It is modelled as the trace of calls made on it (`calls`).

`ReceiveDataOnStream` keeps the code's structure:
1. a one-byte header read;
2. the `repeat`-`while` length loop over one-byte reads, in `ReadRemainingLength`;
3. one body read, in `ReadBody`.

Steps 2 and 3 together are `ReadLengthAndBody`.

Each method's postcondition ties the new cursor and the new call trace to the pure function `ReadFrame`. The properties of the reader itself are then proved about that function.

### Behaviour kept as the code has it

- **Length-byte reads.** The result of each one-byte read in the length loop is ignored. If the byte is missing, the buffer keeps its initial 0, and that 0 ends the loop (`RemainingLength.At`, `Padded`, `MissingByteEndsLength`).
- **Overflow guard.** The guard `multiplier > 128*128*128` fires right after the **fourth** length byte is read. The reader therefore refuses every length of 2,097,152 or more, although its own comment announces 268,435,455.
  - The frame is dropped without a delegate call.
  - Its body bytes stay in the input stream.
- **Body read.** The body is read in one call, so the delegate receives the bytes that were there: possibly fewer than the length, and none when the length is 0.
- **Flag layout mismatch.** The encoder puts retain at 0x08 and shifts QoS left by one. The decoder reads retain at 0x01 and takes `flags & 0x06` as the raw QoS value without shifting it back. Under the code as written:
  - retain never survives a round trip;
  - QoS 1 comes back as QoS 2;
  - QoS 2 cannot be decoded.
- **Decoder traps.** Every point at which the decoder traps is modelled as an explicit `DecodeError`:
  - a `subdata` past the end of the data (lines 48 and 58). The two-byte reads before them, at lines 46 and 57, go through an `UnsafePointer` and read past the end without trapping; the trap comes from the `subdata` after them;
  - the force-unwrap of the UTF-8 string;
  - the force-unwrap of `MQTTQoS(rawValue:)`.

The code's comment promises a maximum length of 268,435,455, but the code does not deliver it. The model follows the code. The standard's behaviour is given alongside as `RemainingLength.DecodeStd` and `SessionStream.ReadFrameStd`. For the flags, the corrected layout of section 3.3.1 of MQTT 3.1.1 is given alongside as `Publish.FixedHeaderFlagsStd` and `Publish.DecodeStd`. Round trips are proved for each corrected definition; see "## Findings".

## Model

| member | source | states |
|---|---|---|
| SessionStream.MqttSessionStream.ReceiveDataOnStream | SwiftMQTT/SwiftMQTT/MQTTSessionStreamDelegate.swift:82-112 | one pass moves the cursor to where `ReadFrame` of the readable bytes ends and appends exactly the delegate calls of its outcome: one `receivedData` with the header and the body for a frame, none otherwise |
| SessionStream.MqttSessionStream.ReadRemainingLength | SwiftMQTT/SwiftMQTT/MQTTSessionStreamDelegate.swift:89-101 | the loop consumes exactly the length bytes `RemainingLength.Decode` says it reads, returns through the guard exactly when `Decode` overflows, and otherwise returns the decoded value; its invariant is `value` = Σ (b_i & 127)·128^i and `multiplier` = 128^k after k bytes |
| SessionStream.MqttSessionStream.ReadLengthAndBody | SwiftMQTT/SwiftMQTT/MQTTSessionStreamDelegate.swift:89-111 | after the header byte, the cursor and the delegate trace end as `ReadFrame` of the pass says: dropped after the length bytes on overflow, otherwise one `receivedData` with the body |
| SessionStream.MqttSessionStream.ReadBody | SwiftMQTT/SwiftMQTT/MQTTSessionStreamDelegate.swift:103-111 | the body read takes min(length, available) bytes, none when the length is 0, and the delegate, if any, receives exactly those bytes with the header |
| SessionStream.MqttSessionStream.Read | SwiftMQTT/SwiftMQTT/MQTTSessionStreamDelegate.swift:85 | a read returns the next bytes up to `maxLength` and advances the cursor by their number; nothing when the stream is closed or at the end |
| SessionStream.MqttSessionStream.Handle | SwiftMQTT/SwiftMQTT/MQTTSessionStreamDelegate.swift:63-80 | bytes available on the input stream run one reader pass; an error closes both streams and then calls `streamErrorOccurred` once (when there is a delegate); end of stream closes both streams with no call; every other event, and bytes available on another stream, leave the object unchanged |
| SessionStream.MqttSessionStream.CloseStreams | SwiftMQTT/SwiftMQTT/MQTTSessionStreamDelegate.swift:48-53 | both streams end up closed, whatever their state before |
| SessionStream.MqttSessionStream.SendPacket | SwiftMQTT/SwiftMQTT/MQTTSessionStreamDelegate.swift:55-61 | the packet's `networkPacket` bytes are written in one call; on an open output stream the result is the count the stream took, and exactly those leading bytes are appended to the output, or -1 when the write fails; with no output stream, or a closed one, the result is -1; nothing is written when the result is -1 |
| SessionStream.MqttSessionStream.constructor | SwiftMQTT/SwiftMQTT/MQTTSessionStreamDelegate.swift:27-31 | host, port and ssl are stored; there are no streams, no delegate and no data yet |
| SessionStream.MqttSessionStream.CreateStreamConnection | SwiftMQTT/SwiftMQTT/MQTTSessionStreamDelegate.swift:33-46 | the streams the system hands back are present and open, with no data yet |
| SessionStream.ReadFrame | SwiftMQTT/SwiftMQTT/MQTTSessionStreamDelegate.swift:84-111 | a pass never moves the cursor backwards or past the data; it finds no header exactly when no byte is left, and then consumes nothing; otherwise the header is the one the first byte stands for |
| SessionStream.ReadFrameAfterHeader | SwiftMQTT/SwiftMQTT/MQTTSessionStreamDelegate.swift:86-111 | after a header byte, an overflowing length drops the frame just after the length bytes, and a decoded length n yields the next min(n, available) bytes as the body, none for n = 0 |
| SessionStream.FrameBody | SwiftMQTT/SwiftMQTT/MQTTSessionStreamDelegate.swift:103-110 | the body handed on is the bytes after the length, at most the decoded length of them; it is empty for length 0, and it is the full length exactly when that many bytes are there |
| SessionStream.ReadFrameOfFinalPacket | SwiftMQTT/SwiftMQTT/MQTTSessionStreamDelegate.swift:84-111 | a frame built by `finalPacket` whose body is below 2,097,152 bytes is read back as its own header and body, and the cursor stops at its end, whatever follows |
| SessionStream.ReadFrameDropsFourByteLengths | SwiftMQTT/SwiftMQTT/MQTTSessionStreamDelegate.swift:96-100 | a frame whose body needs a four-byte Remaining Length is dropped after its five header and length bytes, without a delegate call |
| SessionStream.ReadFrameStdOfFinalPacket | SwiftMQTT/SwiftMQTT/MQTTSessionStreamDelegate.swift:88-111 | with the corrected length loop, every frame up to the standard's 268,435,455-byte body is read back whole |
| SessionStream.ReadFrameStd | SwiftMQTT/SwiftMQTT/MQTTSessionStreamDelegate.swift:84-111 | the corrected reader pass stays within the data and finds no header exactly when no byte is left |
| SessionStream.ReadFrameOfParts | SwiftMQTT/SwiftMQTT/MQTTSessionStreamDelegate.swift:84-111 | on a header byte, length bytes and a body, the pass yields that body when the length bytes decode to its size, and drops the frame when they overflow |
| SessionStream.ReadFrameShift | SwiftMQTT/SwiftMQTT/MQTTSessionStreamDelegate.swift:82-111 | a pass at any position depends only on the bytes from there on: it is the pass over those bytes, with the cursor moved by the position |
| SessionStream.ReadFramesInOrder | SwiftMQTT/SwiftMQTT/MQTTSessionStreamDelegate.swift:82-111 | two frames written back to back by `finalPacket` are read in order, one per pass, each ending where its frame ends |
| SessionStream.PublishThroughReader | SwiftMQTT/SwiftMQTT/MQTTSessionStreamDelegate.swift:82-111 | a QoS 0 PUBLISH sent by `networkPacket` reaches the delegate as its header and body, and that body decodes to the same topic and message, with identifier 0 and retain false |
| RemainingLength.LengthByte | SwiftMQTT/SwiftMQTT/MQTTSessionStreamDelegate.swift:93-101 | one loop turn adds (b & 127)·128^k to the value and multiplies the multiplier by 128; the guard fires exactly on the fourth byte; the turn that stops the loop leaves the value `Decode` gives |
| RemainingLength.Decode | SwiftMQTT/SwiftMQTT/MQTTSessionStreamDelegate.swift:89-101 | the length loop as written consumes no byte beyond the data, and every length it accepts is below 128^3 = 2,097,152; its reads, its refusals and its value are pinned down by `LengthByte`, `DecodeReadsAtMostFour`, `MissingByteEndsLength`, `DecodeEncode` and `DecodeRefusesFourByteLengths` |
| RemainingLength.LengthByteDecodes | SwiftMQTT/SwiftMQTT/MQTTSessionStreamDelegate.swift:96-101 | the loop turn that reads the fourth byte ends in the overflow `Decode` gives, a continuing byte extends the digits read, and the byte that stops the loop leaves the value `Decode` gives |
| RemainingLength.DecodeStd | SwiftMQTT/SwiftMQTT/MQTTSessionStreamDelegate.swift:88 | the corrected loop accepts only lengths below 128^4 = 268,435,456 and then consumes no byte beyond the data; `DecodeStdEncode` and `DecodeStdReadsAtMostFour` pin it down |
| RemainingLength.DecodeReadsAtMostFour | SwiftMQTT/SwiftMQTT/MQTTSessionStreamDelegate.swift:92-101 | the loop reads at most four length bytes, and gives up exactly when the first three all carry the continuation bit |
| RemainingLength.MissingByteEndsLength | SwiftMQTT/SwiftMQTT/MQTTSessionStreamDelegate.swift:93-95 | when the data runs out inside the length, the missing byte counts as 0x00 and ends the loop with the value of the bytes that were there, and nothing past the end is consumed |
| RemainingLength.DecodeEncode | SwiftMQTT/SwiftMQTT/MQTTSessionStreamDelegate.swift:89-101 | every length below 2,097,152, encoded as `finalPacket` writes it, is decoded back exactly, consuming exactly its bytes |
| RemainingLength.DecodeRefusesFourByteLengths | SwiftMQTT/SwiftMQTT/MQTTSessionStreamDelegate.swift:98-100 | every length in [2,097,152, 268,435,455] is encoded in four bytes, and the loop gives up after reading those four |
| RemainingLength.DecodeStdEncode | SwiftMQTT/SwiftMQTT/MQTTSessionStreamDelegate.swift:88 | the corrected loop decodes back every length the standard allows (below 128^4 = 268,435,456), consuming exactly its bytes; that the loop as written does so only below 128^3 is `DecodeRefusesFourByteLengths` |
| RemainingLength.DecodeStdReadsAtMostFour | SwiftMQTT/SwiftMQTT/MQTTSessionStreamDelegate.swift:88 | the corrected loop never reads a fifth byte and refuses exactly when four bytes all continue |
| RemainingLength.Encode | SwiftMQTT/SwiftMQTT/Models/MQTTPublishPacket.swift:40 | the Remaining Length `finalPacket` writes is the shortest group sequence whose value is n, with the continuation bit on every byte but the last |
| RemainingLength.ValueSnoc | SwiftMQTT/SwiftMQTT/MQTTSessionStreamDelegate.swift:96-97 | one more length byte adds its seven bits at weight 128^k |
| RemainingLength.GuardFiresOnFourthByte | SwiftMQTT/SwiftMQTT/MQTTSessionStreamDelegate.swift:97-98 | of the first four length bytes, only the fourth takes `multiplier` past 128^3 |
| Bytes.MaskLow7High1 | SwiftMQTT/SwiftMQTT/MQTTSessionStreamDelegate.swift:96-101 | byte masks with 0x7F and 0x80 agree with `% 128` and `>= 128` |
| Bytes.BitsValue | SwiftMQTT/SwiftMQTT/Models/MQTTPublishPacket.swift:22-27 | the bit pattern the byte operations work on is the byte's own binary value |
| Bytes.BigEndian16 | SwiftMQTT/SwiftMQTT/Models/MQTTPublishPacket.swift:35 | `mqtt_append(UInt16)` writes two bytes that read back, high byte first, as the value |
| Packet.FromNetworkByte | SwiftMQTT/SwiftMQTT/MQTTSessionStreamDelegate.swift:86 | the header a received first byte stands for is written back as that same byte |
| Packet.NetworkByte | SwiftMQTT/SwiftMQTT/MQTTSessionStreamDelegate.swift:86 | the header byte holds the packet type in its high four bits and the flags in its low four |
| Packet.FinalPacket | SwiftMQTT/SwiftMQTT/Models/MQTTPublishPacket.swift:40 | the frame is the header byte, then length bytes whose value is the size of the variable header and the payload, then those two verbatim |
| Packet.NetworkByteRoundTrip | SwiftMQTT/SwiftMQTT/MQTTSessionStreamDelegate.swift:86 | reading a header byte back gives the packet type and flags that were written |
| Publish.QoSFromRawValue | SwiftMQTT/SwiftMQTT/Models/MQTTPublishPacket.swift:53 | `MQTTQoS(rawValue:)` yields a level exactly for the raw values 0, 1 and 2 |
| Publish.RawValue | SwiftMQTT/SwiftMQTT/Models/MQTTPublishPacket.swift:26 | a level's raw value is at most 2 and maps back to the level |
| Publish.FlagLayouts | SwiftMQTT/SwiftMQTT/Models/MQTTPublishPacket.swift:21-28 | for both flag layouts, the flags fit a nibble, the retain bit is set exactly for retain, and bits 2-1 hold the raw level shifted left by one |
| Publish.FixedHeaderFlags | SwiftMQTT/SwiftMQTT/Models/MQTTPublishPacket.swift:21-28 | the flags fit a nibble; bit 0x08 is set exactly when retain is; `flags & 0x06` is the raw level times 2; bit 0 is always clear |
| Publish.FixedHeaderFlagsStd | SwiftMQTT/SwiftMQTT/Models/MQTTPublishPacket.swift:21-28 | the corrected flags have RETAIN in bit 0, the level in bits 2-1, and DUP (0x08) clear |
| Publish.NewPublishPacket | SwiftMQTT/SwiftMQTT/Models/MQTTPublishPacket.swift:15-19 | the outbound packet has a PUBLISH header whose flags are `fixedHeaderFlags` of the message, and it keeps the identifier and the message unchanged |
| Publish.NewPublishPacketStd | SwiftMQTT/SwiftMQTT/Models/MQTTPublishPacket.swift:15-19 | the same over the corrected flags |
| Publish.VariableHeader | SwiftMQTT/SwiftMQTT/Models/MQTTPublishPacket.swift:30-37 | the variable header is the topic's big-endian byte count and then the topic, followed by the big-endian identifier exactly when QoS is not 0; its size is 2 + \|topic\|, plus 2 when QoS is not 0 |
| Publish.AppendString | SwiftMQTT/SwiftMQTT/Models/MQTTPublishPacket.swift:33 | `mqtt_append(String)` keeps what was there and adds the byte count, big-endian in two bytes, then the bytes of the string |
| Publish.AppendUInt16 | SwiftMQTT/SwiftMQTT/Models/MQTTPublishPacket.swift:35 | `mqtt_append(UInt16)` keeps what was there and adds the value, big-endian in two bytes |
| Publish.Body | SwiftMQTT/SwiftMQTT/Models/MQTTPublishPacket.swift:38-40 | the frame body is the variable header followed by the message verbatim |
| Publish.NetworkPacket | SwiftMQTT/SwiftMQTT/Models/MQTTPublishPacket.swift:30-41 | the frame starts with the packet's header byte, continues with length bytes whose value is the size of the body, and ends with the body |
| Publish.VariableHeaderBytes | SwiftMQTT/SwiftMQTT/Models/MQTTPublishPacket.swift:30-41 | the frame body is, byte for byte, the topic's two-byte length, the topic, the two identifier bytes unless QoS is 0, and the message |
| Publish.BodyLayout | SwiftMQTT/SwiftMQTT/Models/MQTTPublishPacket.swift:30-41 | in the frame body, the first two bytes give the topic length, the topic follows, then the identifier when QoS is not 0, then the message verbatim |
| Publish.ParseBody | SwiftMQTT/SwiftMQTT/Models/MQTTPublishPacket.swift:43-69 | a packet the decoder builds keeps the received header, has a UTF-8 topic, carries the retain flag and level it was given, has identifier 0 at QoS 0, and encodes back to exactly the received body |
| Publish.ParsedBodyReencodes | SwiftMQTT/SwiftMQTT/Models/MQTTPublishPacket.swift:46-62 | a packet made of the body's parts, sliced the decoder's way, encodes back to the body |
| Publish.Decode | SwiftMQTT/SwiftMQTT/Models/MQTTPublishPacket.swift:43-69 | a decoded packet keeps the received header, re-encodes to exactly the body it came from, has retain equal to `flags & 0x01 == 0x01` and the level `MQTTQoS(rawValue: flags & 0x06)`; an invalid level is reported with the raw value `flags & 0x06`, which is above 2 |
| Publish.DecodeStd | SwiftMQTT/SwiftMQTT/Models/MQTTPublishPacket.swift:43-69 | the corrected decoder: the same, with the level read from `(flags & 0x06) >> 1` |
| Publish.DecodeSucceedsIff | SwiftMQTT/SwiftMQTT/Models/MQTTPublishPacket.swift:45-58 | decoding succeeds exactly when there are two length bytes, the whole topic is there and is UTF-8, `flags & 0x06` is a raw level, and two identifier bytes follow when that level is not 0 |
| Publish.DecodedFields | SwiftMQTT/SwiftMQTT/Models/MQTTPublishPacket.swift:46-62 | a decoded packet has the topic `b[2..2+len)` with len = 256·b[0] + b[1]; at QoS 0 the identifier is 0 and the message is the whole rest; otherwise the identifier is the next two bytes, big-endian, and the message is what follows them |
| Publish.ParseEncodedBody | SwiftMQTT/SwiftMQTT/Models/MQTTPublishPacket.swift:43-69 | the body of an encoded packet decodes to its topic and message under any level that agrees about the identifier, and fails with `InvalidQoS` under a raw value that is no level |
| Publish.RoundTripAtMostOnce | SwiftMQTT/SwiftMQTT/Models/MQTTPublishPacket.swift:24-64 | at QoS 0, decoding what was encoded gives back the topic and the message with identifier 0, and retain false whatever was sent |
| Publish.AtLeastOnceComesBackExactlyOnce | SwiftMQTT/SwiftMQTT/Models/MQTTPublishPacket.swift:26-53 | a QoS 1 message is decoded as QoS 2 with its identifier, topic and message intact |
| Publish.ExactlyOnceIsRefused | SwiftMQTT/SwiftMQTT/Models/MQTTPublishPacket.swift:26-53 | a QoS 2 message cannot be decoded, because `flags & 0x06` is 4, which is no raw level |
| Publish.RoundTripStd | SwiftMQTT/SwiftMQTT/Models/MQTTPublishPacket.swift:21-69 | with the corrected flags and decoder, every message comes back whole, retain and level included, and so does the identifier unless QoS is 0 |

## Left out

- `createStreamConnection` is reduced to its outcome: which streams the system handed back, opened. Host resolution, socket creation, run-loop scheduling and the SSL property are Foundation I/O, and they are left out.
- The Foundation stream objects and the run loop are left out. The input is the bytes delivered so far plus a cursor. The output is the bytes it accepted, and the caller chooses how many it accepts (`accepted`).
- A read returns everything available up to the requested count. Foundation may return fewer bytes; that chunking is not modelled.
- `print("unknown")` for an unrecognised event is left out, because it is logging only.
- Raw pointer binding (`bindMemory`, `UnsafePointer`) is modelled as sequence indexing. The decoder's reads past the end, which are undefined in Swift, are modelled as decode errors.
- `String(data:encoding: .utf8)` is replaced by UTF-8 well-formedness as defined in RFC 3629 (`Bytes.ValidUtf8`). The topic is kept as its bytes.
- `mqtt_append`, `finalPacket`, `MQTTPacketFixedHeader` and `MQTTQoS` are not part of the source shown. They are modelled minimally, after MQTT 3.1.1:
  - a two-byte big-endian length before a string;
  - big-endian 16-bit integers;
  - the header byte split as type = byte / 16 and flags = byte % 16;
  - the raw QoS values 0, 1 and 2.
- The other packet types, the `MQTTPacket` base class and the session layer are not part of this model. `SendPacket` therefore takes a PUBLISH packet.
- Publish.AppendString: requires the topic to be shorter than 65,536 bytes, as the two-byte length prefix requires. The Swift code does not check this.
- SessionStream.MqttSessionStream.SendPacket: the count a write to an open stream returns is taken to be -1 or at most the frame's size. A write to a closed stream returns -1.
- SessionStream.MqttSessionStream.Read, SessionStream.MqttSessionStream.ReadBody, SessionStream.MqttSessionStream.ReceiveDataOnStream: a read on an open input stream never fails. The -1 result of a failed read is not modelled, and neither is the trap that `readLength!` with a count of -1 causes when the body is read at line 109. A failed header read would end the pass like an empty one, and the length loop ignores read results anyway.
- SessionStream.MqttSessionStream.Handle: `delegate` is fixed during the call, and the delegate's callbacks do not call back into the object.

## Findings

| source | as written | input that shows it | evidently intended | confidence | as-written member | corrected member |
|---|---|---|---|---|---|---|
| SwiftMQTT/SwiftMQTT/MQTTSessionStreamDelegate.swift:98 | `multiplier > 128*128*128` is tested after the fourth length byte is read, so a four-byte Remaining Length is refused | a frame whose body is 2,097,152 bytes; its length bytes are 80 80 80 01 | accept up to four length bytes, 268,435,455 at most, as the comment at line 88 and section 2.2.3 of MQTT 3.1.1 say | not executed | RemainingLength.DecodeRefusesFourByteLengths, SessionStream.ReadFrameDropsFourByteLengths | RemainingLength.DecodeStdEncode, SessionStream.ReadFrameStdOfFinalPacket |
| SwiftMQTT/SwiftMQTT/Models/MQTTPublishPacket.swift:24-64 | the encoder sets retain as 0x08, which is the DUP bit of section 3.3.1 of MQTT 3.1.1; the decoder reads retain from 0x01 | a message with retain = true at QoS 0: it is decoded with retain = false | RETAIN is bit 0 on both sides | not executed | Publish.RoundTripAtMostOnce | Publish.RoundTripStd |
| SwiftMQTT/SwiftMQTT/Models/MQTTPublishPacket.swift:26-53 | the encoder shifts the raw QoS value left by one, but the decoder uses `flags & 0x06` unshifted | QoS 1 is sent with flags 0x02 and decoded as QoS 2; QoS 2 is sent with flags 0x04, and `MQTTQoS(rawValue: 4)` is nil, so the force-unwrap traps | the decoder takes `(flags & 0x06) >> 1` | not executed | Publish.AtLeastOnceComesBackExactlyOnce, Publish.ExactlyOnceIsRefused | Publish.RoundTripStd |
