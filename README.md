# DotPacket core, modelled in Dafny

DotPacket is a C# packet-radio library with three parts:

- **The KISS codec** (DotPacket.Kiss). It frames bytes between a host and a terminal node controller (TNC):
  - every frame is delimited by `FEND` (0xC0);
  - a data byte `FEND` or `FESC` (0xDB) is sent as `FESC` followed by `TFEND` (0xDC) or `TFESC` (0xDD);
  - the first byte of a frame holds the port (high nibble) and the KISS command (low nibble).
- **The AX.25 header decoder** (DotPacket.Ax25/FrameCodec.cs). It reads the chain of 7-byte address fields (destination, source, digipeaters) and the modulo-8 control byte.
- **The virtual TNC** (DotPacket.Kiss.VirtualTnc). It is a relay that makes every TCP client hear the data frames of every other client, as if all were radios on one frequency.

The model has one module per source file:

| file | module | source | form |
|---|---|---|---|
| common.dfy | `Wrappers`, `Bytes` | | `Option`/`Result`, `byte` |
| kiss_constants.dfy | `KissConstants` | DotPacket.Kiss/KissConstants.cs | constants |
| kiss_frame.dfy | `KissFrames` | DotPacket.Kiss/KissFrame.cs | datatype and functions |
| kiss_encoder.dfy | `KissEncoding` | DotPacket.Kiss/KissEncoder.cs | `KissEscape` loop over an `array`; class `KissEncoder` |
| kiss_decoder.dfy | `KissDecoding` | DotPacket.Kiss/KissDecoder.cs | step function; class `KissDecoder` with a `Process` loop |
| kiss_consumer.dfy | `KissConsuming` | DotPacket.Kiss/KissConsumer.cs | step function; class `KissConsumer` with a `Process` loop |
| ax25_parts.dfy | `Ax25Parts` | DotPacket.Ax25/FrameParts/*.cs | datatypes, constructor as a function |
| ax25_codec.dfy | `Ax25Codec` | DotPacket.Ax25/FrameCodec.cs | decoders as methods and functions, encoders as reference definitions |
| virtual_tnc_connection.dfy | `VirtualTncConnections` | DotPacket.Kiss.VirtualTnc/VirtualTncConnection.cs | connection value |
| virtual_tnc.dfy | `VirtualTnc` | DotPacket.Kiss.VirtualTnc/Program.cs | class `VirtualChannel` holding the connection list |

Conventions:

- **Bytes:** a byte is an `int` between 0 and 255. Shifts and masks are written with `/` and `%`, which agree with C#'s `>>` and `&` on non-negative values. The header byte `(byte)((Address << 4) + Command)` keeps the low eight bits: `(address * 16 + command) % 256`.
- **Exceptions:** they become `Result` failures. The failure names the exception and, for `FrameFormatException`, its message.
- **The clock:** `DateTime.UtcNow` is an input. The decoders take one clock reading per input byte.
- **Two decoders:** the KISS decoder and the KISS consumer are separate implementations in the source and stay separate here. The consumer reads one `int` at a time, where -1 means no byte.
- **Relay connections:** a connection is a value with:
  - an `id`, standing for object identity;
  - a `connected` flag, standing for `TcpClient.Connected`;
  - the consumer's queue of received frames (`inbox`);
  - the producer's queue of encoded frames (`outbox`).

## Model

| member | source | states |
|---|---|---|
| KissFrames.NewKissFrame | DotPacket.Kiss/KissFrame.cs:10-16 | fails exactly on an empty raw frame; otherwise both nibbles are in 0..15, the timestamp is kept and the header byte followed by the data gives back the raw frame |
| KissFrames.SplitJoin | DotPacket.Kiss/KissFrame.cs:10-16 | a frame with nibbles in range is recovered from its header byte and data |
| KissEncoding.EscapeLength | DotPacket.Kiss/KissEncoder.cs:80 | the escaped length is the data length plus one per `FEND`/`FESC` byte, the size the source allocates |
| KissEncoding.EscapeAppend | DotPacket.Kiss/KissEncoder.cs:85-105 | escaping works byte by byte: escaping a concatenation concatenates the escapes |
| KissEncoding.EscapeIsWellEscaped | DotPacket.Kiss/KissEncoder.cs:89-104 | escaped data never contains `FEND`, and every `FESC` in it is followed by `TFEND` or `TFESC` |
| KissEncoding.EscapePrefixStep | DotPacket.Kiss/KissEncoder.cs:85-105 | each loop step appends one byte's escape and stays within the allocated length |
| KissEncoding.KissEscape | DotPacket.Kiss/KissEncoder.cs:78-108 | the array filled in place equals the escape of the input |
| KissEncoding.EncodeFrame | DotPacket.Kiss/KissEncoder.cs:42-55 | the wire frame starts and ends with `FEND`, carries the header byte second, and its payload is well escaped and has the escaped length |
| KissEncoding.KissEncoder.constructor | DotPacket.Kiss/KissEncoder.cs:12-17 | the outgoing queue starts empty |
| KissEncoding.KissEncoder.QueueFrame | DotPacket.Kiss/KissEncoder.cs:42-55 | the frame's encoding joins the end of the queue; nothing else changes |
| KissEncoding.KissEncoder.QueueRawFrame | DotPacket.Kiss/KissEncoder.cs:57-62 | as written: accepted exactly when the queue is non-empty, and then appended; a refused frame leaves the queue unchanged |
| KissEncoding.KissEncoder.QueueRawFrameChecked | DotPacket.Kiss/KissEncoder.cs:57-62 | corrected: accepted exactly when the argument is non-null and non-empty |
| KissEncoding.KissEncoder.ProcessAsync | DotPacket.Kiss/KissEncoder.cs:64-76 | after n iterations the first n queued frames (or all of them) are dequeued, and the non-null ones are written in queue order |
| KissEncoding.RawFrameRefusedByIdleEncoder | DotPacket.Kiss/KissEncoder.cs:57-62 | a fresh encoder refuses a non-empty raw frame |
| KissEncoding.RawFrameAcceptedWhenCheckingArgument | DotPacket.Kiss/KissEncoder.cs:57-62 | the corrected check accepts that same frame |
| KissDecoding.DecodeByte | DotPacket.Kiss/KissDecoder.cs:76-168 | at most one frame per byte. A frame is only produced on `FEND` inside an open buffer, closes the buffer and is stamped with that byte's time; its raw bytes are the buffer, plus a pending `FESC` if escape mode was on. Escape mode is only ever on inside a frame |
| KissDecoding.OutsideFrameDiscarded | DotPacket.Kiss/KissDecoder.cs:113-168 | outside a frame every byte except `FEND` is dropped and changes nothing |
| KissDecoding.FendCases | DotPacket.Kiss/KissDecoder.cs:80-100 | `FEND` opens a buffer when none is open, is ignored on an empty buffer, and otherwise emits the buffered frame and closes the buffer |
| KissDecoding.EscapedTransposeDecoded | DotPacket.Kiss/KissDecoder.cs:126-154 | in escape mode `TFEND`/`TFESC` append `FEND`/`FESC` and leave escape mode |
| KissDecoding.UnescapedByteIsData | DotPacket.Kiss/KissDecoder.cs:126-168 | outside escape mode every byte but `FEND` and `FESC` is appended as data, including `TFEND` and `TFESC` |
| KissDecoding.BrokenEscapeKeptAsData | DotPacket.Kiss/KissDecoder.cs:80-168 | a `FESC` not followed by `TFEND`/`TFESC` is kept as a data byte, and the decoder recovers |
| KissDecoding.Decode | DotPacket.Kiss/KissDecoder.cs:70-171 | over a byte stream, escape mode stays inside frames and at most one frame comes out per byte |
| KissDecoding.DecodeAppend | DotPacket.Kiss/KissDecoder.cs:70-171 | decoding two chunks in turn equals decoding their concatenation, so read boundaries do not matter |
| KissDecoding.LeadingBytesDiscarded | DotPacket.Kiss/KissDecoder.cs:113-168 | bytes before the first `FEND` never produce a frame and never open one |
| KissDecoding.FendRunEmitsNothing | DotPacket.Kiss/KissDecoder.cs:88-95 | any run of `FEND`s, including `[FEND, FEND]`, yields no frame and leaves an empty open buffer |
| KissDecoding.DecodeEscapedByte | DotPacket.Kiss/KissDecoder.cs:113-168 | inside a frame, the escape of one byte appends exactly that byte |
| KissDecoding.DecodeEscapedPayload | DotPacket.Kiss/KissDecoder.cs:113-168 | inside a frame, escaped data appends exactly the original data and emits nothing |
| KissDecoding.UnescapeLaw | DotPacket.Kiss/KissDecoder.cs:80-168 | `FEND`, a header byte, escaped data `d` and `FEND` decode to exactly one frame whose data is `d` (escape round trip for all `d`) |
| KissDecoding.EncodeThenDecode | DotPacket.Kiss/KissDecoder.cs:80-168 | decoding an encoded frame returns that frame, stamped with the time of its closing `FEND`, whenever its header byte is not `FEND` or `FESC` |
| KissDecoding.HeaderFendIsSwallowed | DotPacket.Kiss/KissDecoder.cs:88-95 | a frame whose header byte is `FEND` loses that byte: the decoder treats it as a repeated delimiter |
| KissDecoding.PlainFrameExample | DotPacket.Kiss/KissDecoder.cs:80-168 | `[FEND,0x00,0x41,0x42,FEND]` yields one frame: port 0, command 0, data `[0x41,0x42]` |
| KissDecoding.EscapedFendExample | DotPacket.Kiss/KissDecoder.cs:113-135 | `[FEND,0x00,FESC,TFEND,FEND]` yields one frame with data `[FEND]` |
| KissDecoding.KissDecoder.constructor | DotPacket.Kiss/KissDecoder.cs:18-23 | the frame queue starts empty |
| KissDecoding.KissDecoder.Process | DotPacket.Kiss/KissDecoder.cs:64-172 | the loop appends to the queue exactly the frames `Decode` gives for the input, in order |
| KissDecoding.KissDecoder.PeekNextFrame | DotPacket.Kiss/KissDecoder.cs:61 | null exactly on an empty queue, otherwise the oldest frame; nothing is removed |
| KissDecoding.KissDecoder.TakeNextFrame | DotPacket.Kiss/KissDecoder.cs:62 | null exactly on an empty queue, otherwise removes and returns the oldest frame |
| KissDecoding.KissDecoder.OutstandingFrames | DotPacket.Kiss/KissDecoder.cs:8 | a snapshot of the whole queue in arrival order |
| KissConsuming.ConsumeByte | DotPacket.Kiss/KissConsumer.cs:71-163 | at most one frame per read. A frame is only produced on `FEND` inside an open buffer, closes the buffer and is stamped with that read's time. Escape mode is only on inside a frame |
| KissConsuming.EndOfStreamIgnored | DotPacket.Kiss/KissConsumer.cs:75 | a read of -1 changes nothing |
| KissConsuming.OutsideFrameDiscarded | DotPacket.Kiss/KissConsumer.cs:109-163 | outside a frame every read except `FEND` is dropped |
| KissConsuming.FendCases | DotPacket.Kiss/KissConsumer.cs:77-107 | `FEND` opens, ignores or emits and closes, as in the decoder |
| KissConsuming.EscapedTransposeKeepsEscape | DotPacket.Kiss/KissConsumer.cs:123-149 | as written: in escape mode `TFEND`/`TFESC` append `FEND`/`FESC` but escape mode stays on |
| KissConsuming.EscapeLeftOnlyByFendOrData | DotPacket.Kiss/KissConsumer.cs:77-163 | inside a frame escape mode is left exactly on `FEND` or an ordinary byte; a second `FESC` is kept as data |
| KissConsuming.Consume | DotPacket.Kiss/KissConsumer.cs:64-166 | over a stream of reads, escape mode stays inside frames and at most one frame comes out per read |
| KissConsuming.ConsumeQuiet | DotPacket.Kiss/KissConsumer.cs:69-165 | a read that emits nothing only changes the state the rest is consumed from |
| KissConsuming.EscapedFendExample | DotPacket.Kiss/KissConsumer.cs:109-135 | as written, `[FEND,0x00,FESC,TFEND,FEND]` yields data `[FEND, FESC]`, where the decoder yields `[FEND]` |
| KissConsuming.SameFramingWithoutEscapes | DotPacket.Kiss/KissConsumer.cs:64-166 | on streams without `FESC` the consumer and the decoder produce the same frames and the same state |
| KissConsuming.KissConsumer.constructor | DotPacket.Kiss/KissConsumer.cs:18-23 | the frame queue starts empty |
| KissConsuming.KissConsumer.Process | DotPacket.Kiss/KissConsumer.cs:64-166 | the loop appends to the queue exactly the frames `Consume` gives for the reads, in order |
| KissConsuming.KissConsumer.PeekNextFrame | DotPacket.Kiss/KissConsumer.cs:61 | null exactly on an empty queue, otherwise the oldest frame; nothing is removed |
| KissConsuming.KissConsumer.TakeNextFrame | DotPacket.Kiss/KissConsumer.cs:62 | null exactly on an empty queue, otherwise removes and returns the oldest frame |
| KissConsuming.KissConsumer.OutstandingFrames | DotPacket.Kiss/KissConsumer.cs:8 | a snapshot of the whole queue in arrival order |
| Ax25Parts.SupervisoryCode | DotPacket.Ax25/FrameParts/SupervisoryFrameType.cs:3-9 | each supervisory kind has an enum value in 0..3 |
| Ax25Parts.SupervisoryFrameTypeOf | DotPacket.Ax25/FrameParts/SupervisoryFrameType.cs:3-9 | the cast of a two-bit value is the kind with that enum value |
| Ax25Parts.NewAddressFramePart | DotPacket.Ax25/FrameParts/AddressFramePart.cs:11-21 | throws `ArgumentNullException` exactly for a blank callsign and `ArgumentException` exactly for a longer-than-six one; otherwise stores its arguments |
| Ax25Codec.ValidCallsignNotBlank | DotPacket.Ax25/FrameCodec.cs:155 | a callsign that passes the check is not blank |
| Ax25Codec.AsWrittenAgreesWithoutLineFeed | DotPacket.Ax25/FrameCodec.cs:155 | without a line feed, the regular expression as written and the intended callsign check agree |
| Ax25Codec.AsWrittenAcceptsTrailingLineFeed | DotPacket.Ax25/FrameCodec.cs:155 | as written, `"N0CAL\n"` passes, because `$` also matches before a final line feed |
| Ax25Codec.TrimEndMeaning | DotPacket.Ax25/FrameCodec.cs:152 | `TrimEnd(' ')` gives the longest prefix that does not end in a space, and only spaces were removed |
| Ax25Codec.TrimPadding | DotPacket.Ax25/FrameCodec.cs:152 | trimming a valid callsign padded with spaces gives the callsign back |
| Ax25Codec.AsciiString | DotPacket.Ax25/FrameCodec.cs:152 | ASCII decoding keeps the length |
| Ax25Codec.CallsignBytes | DotPacket.Ax25/FrameCodec.cs:131-149 | six 7-bit bytes: each present field byte shifted right by one, zero where the field is short |
| Ax25Codec.FirstInteriorExtensionMeaning | DotPacket.Ax25/FrameCodec.cs:133-146 | the check finds the first non-last byte with bit 0 set, and finds none exactly when there is none |
| Ax25Codec.AddressFieldMeaning | DotPacket.Ax25/FrameCodec.cs:123-171 | success exactly for a field of at least 7 bytes with no interior extension bit and a valid callsign. Short fields fail with a format error, and the constructor never throws. On success: callsign, SSID (bits 4-1), reserved bits 5 and 6, command bit (bit 7) and the last byte's extension bit are read from the field. Uses the corrected callsign test |
| Ax25Codec.DecodeAddressField | DotPacket.Ax25/FrameCodec.cs:123-171 | the method's loop and checks compute `AddressFieldSpec`, which applies the corrected callsign test |
| Ax25Codec.AddressFieldDecodersAgree | DotPacket.Ax25/FrameCodec.cs:123-171 | the decoder with the callsign test as written and the corrected one agree on every field whose callsign holds no line feed |
| Ax25Codec.ShortFieldRejected | DotPacket.Ax25/FrameCodec.cs:157-168 | a field shorter than 7 bytes always fails, as malformed once it passes the earlier checks |
| Ax25Codec.SsidByteDecomposes | DotPacket.Ax25/FrameCodec.cs:158-161 | the SSID byte's bits 4-1, 7, 6, 5 and 0 carry SSID, command, reserved6, reserved5 and the last flag |
| Ax25Codec.AddressFieldRoundTrip | DotPacket.Ax25/FrameCodec.cs:123-171 | decoding the encoding of an encodable address returns it with its extension flag |
| Ax25Codec.N0CallFieldExample | DotPacket.Ax25/FrameCodec.cs:123-171 | the field for N0CALL, SSID 1, extension bit clear decodes to that address and continues the chain |
| Ax25Codec.LineFeedCallsignField | DotPacket.Ax25/FrameCodec.cs:148-155 | a field whose callsign reads `"N0CAL\n"` is rejected by the corrected check, but decodes as written to the address `"N0CAL\n"` with SSID 0 |
| Ax25Codec.AddressesAfter | DotPacket.Ax25/FrameCodec.cs:24-40 | a successful chain has at least one address and stays within the offset bound |
| Ax25Codec.AddressChainSpec | DotPacket.Ax25/FrameCodec.cs:10-45 | a decoded chain never has more digipeaters than the bound |
| Ax25Codec.DestinationExtensionRejected | DotPacket.Ax25/FrameCodec.cs:13-15 | a destination field with its extension bit set is rejected with `DestinationExtensionBitSet` |
| Ax25Codec.DecodeFrameAddressesSpec | DotPacket.Ax25/FrameCodec.cs:10-45 | the corrected chain decoder (7-byte fields, configurable bound) never exceeds its digipeater bound |
| Ax25Codec.ChainLoopStep | DotPacket.Ax25/FrameCodec.cs:30-39 | a good field is appended as source or digipeater, and the loop ends exactly on its extension bit |
| Ax25Codec.DecodeFrameAddresses | DotPacket.Ax25/FrameCodec.cs:10-45 | the method computes `AddressChainSpec` for any field length and bound |
| Ax25Codec.DecodeAddressesAfter | DotPacket.Ax25/FrameCodec.cs:18-44 | the address loop computes the chain spec from offset 7 |
| Ax25Codec.AddressChainAsWrittenFails | DotPacket.Ax25/FrameCodec.cs:10-45 | as written (6-byte slices, bound 21) no frame decodes |
| Ax25Codec.EncodedFieldAt | DotPacket.Ax25/FrameCodec.cs:30 | an encoded address decodes in place inside a larger frame |
| Ax25Codec.EncodedHeadStep | DotPacket.Ax25/FrameCodec.cs:24-40 | one loop turn over an encoded chain reads its next address |
| Ax25Codec.AddressesAfterEncoded | DotPacket.Ax25/FrameCodec.cs:24-40 | the loop returns exactly the encoded addresses, or `TooManyAddresses` past the bound |
| Ax25Codec.AddressChainRoundTrip | DotPacket.Ax25/FrameCodec.cs:10-45 | decoding an encoded chain followed by any bytes returns the chain, or `TooManyAddresses` when it has more digipeaters than the bound |
| Ax25Codec.TwoDigipeatersPassBound | DotPacket.Ax25/FrameCodec.cs:28 | offset bound 21 admits two digipeaters although the source's comment allows three fields, i.e. one digipeater |
| Ax25Codec.DecodeControlFieldAsWritten | DotPacket.Ax25/FrameCodec.cs:173-223 | fails exactly on type bits `10`; poll/final is bit 4; information frames get only even N(S) |
| Ax25Codec.DecodeControlField | DotPacket.Ax25/FrameCodec.cs:173-223 | corrected: every byte decodes; information exactly when bit 0 is clear, unnumbered exactly on `11`, poll/final bit 4 |
| Ax25Codec.ControlDecodersAgree | DotPacket.Ax25/FrameCodec.cs:176-212 | the decoders agree except on type bits `10`, which are information frames with odd N(S) |
| Ax25Codec.OddSendSequenceExample | DotPacket.Ax25/FrameCodec.cs:176-212 | 0x02 (N(S) 1) is refused as written and decoded when corrected |
| Ax25Codec.ControlFieldRoundTrip | DotPacket.Ax25/FrameCodec.cs:173-223 | decoding the reference byte of any control part gives it back |
| Ax25Codec.ControlFieldByteRecovered | DotPacket.Ax25/FrameCodec.cs:173-223 | re-encoding a decoded byte gives the byte back, except the unnumbered modifier bits, which are not decoded |
| Ax25Codec.ReceiveNotReadyExample | DotPacket.Ax25/FrameCodec.cs:197-203 | 0x05 decodes as supervisory Receive Not Ready, N(R) 0, poll/final clear |
| Ax25Codec.DecodeFrameRemainderAsWritten | DotPacket.Ax25/FrameCodec.cs:47-88 | as written: malformed exactly when the frame is no longer than the addresses plus one control byte (two in extended mode). Otherwise the byte one past the control byte is decoded, and extended mode fails with `NotImplemented` |
| Ax25Codec.DecodeFrameRemainder | DotPacket.Ax25/FrameCodec.cs:47-88 | corrected: malformed exactly when the control byte(s) are missing; extended mode otherwise reports not implemented |
| Ax25Codec.ControlIndexOffByOne | DotPacket.Ax25/FrameCodec.cs:50 | a header ending with its control byte is malformed as written and decodes when corrected |
| Ax25Codec.HeaderRoundTrip | DotPacket.Ax25/FrameCodec.cs:10-66 | an encoded address chain and control byte, followed by anything, decode to that chain and control part |
| VirtualTncConnections.NewConnection | DotPacket.Kiss.VirtualTnc/VirtualTncConnection.cs:14-22 | a new connection has empty queues |
| VirtualTncConnections.QueueFrame | DotPacket.Kiss.VirtualTnc/VirtualTncConnection.cs:32 | the frame's KISS encoding joins the outgoing queue; nothing else changes |
| VirtualTncConnections.TakeNextFrame | DotPacket.Kiss.VirtualTnc/VirtualTncConnection.cs:33 | null exactly on an empty inbox, otherwise the oldest frame is removed; nothing else changes |
| VirtualTncConnections.TakeOutstandingFrames | DotPacket.Kiss.VirtualTnc/VirtualTncConnection.cs:34-46 | the loop returns the whole inbox in order and leaves it empty |
| VirtualTnc.UniqueIdsCons | DotPacket.Kiss.VirtualTnc/Program.cs:87 | adding a connection with a fresh identity keeps identities distinct |
| VirtualTnc.Live | DotPacket.Kiss.VirtualTnc/Program.cs:48 | the live connections are exactly the connected ones |
| VirtualTnc.Dead | DotPacket.Kiss.VirtualTnc/Program.cs:28 | the dead connections are exactly the disconnected ones |
| VirtualTnc.WithoutIds | DotPacket.Kiss.VirtualTnc/Program.cs:30-44 | removing identities keeps exactly the connections with other identities |
| VirtualTnc.WithoutIdsUnique | DotPacket.Kiss.VirtualTnc/Program.cs:30-44 | removal keeps identities distinct |
| VirtualTnc.RemoveFirstUnique | DotPacket.Kiss.VirtualTnc/Program.cs:41 | with distinct identities, `List.Remove` removes exactly that connection |
| VirtualTnc.RemoveOneMore | DotPacket.Kiss.VirtualTnc/Program.cs:30-44 | each loop turn removes one more dead connection |
| VirtualTnc.AllDeadRemoved | DotPacket.Kiss.VirtualTnc/Program.cs:27-44 | removing every dead connection leaves exactly the live ones, in order |
| VirtualTnc.Tag | DotPacket.Kiss.VirtualTnc/Program.cs:49 | each frame is paired with its connection |
| VirtualTnc.Collected | DotPacket.Kiss.VirtualTnc/Program.cs:47-50 | every collected frame came from the inbox of a connected connection with that identity |
| VirtualTnc.CollectedAppend | DotPacket.Kiss.VirtualTnc/Program.cs:47-50 | frames are collected in registry order: an earlier connection's frames come first |
| VirtualTnc.CollectedOne | DotPacket.Kiss.VirtualTnc/Program.cs:47-50 | a connected connection contributes its whole inbox in queue order; a disconnected one contributes nothing |
| VirtualTnc.CollectedComplete | DotPacket.Kiss.VirtualTnc/Program.cs:47-50 | every frame in a connected connection's inbox is collected |
| VirtualTnc.DataFrames | DotPacket.Kiss.VirtualTnc/Program.cs:56 | keeps exactly the frames with command 0 |
| VirtualTnc.SortByCreated | DotPacket.Kiss.VirtualTnc/Program.cs:59 | sorting is a permutation |
| VirtualTnc.InsertSorted | DotPacket.Kiss.VirtualTnc/Program.cs:59 | insertion keeps the order by creation time |
| VirtualTnc.SortSorted | DotPacket.Kiss.VirtualTnc/Program.cs:59 | the result is ordered by creation time |
| VirtualTnc.SortStable | DotPacket.Kiss.VirtualTnc/Program.cs:59 | frames with equal timestamps keep their order, as `OrderBy` is stable |
| VirtualTnc.RelayedFrames | DotPacket.Kiss.VirtualTnc/Program.cs:56-59 | the relayed frames are a permutation of the data frames, sorted by time, stable |
| VirtualTnc.ForTarget | DotPacket.Kiss.VirtualTnc/Program.cs:62-73 | a target receives exactly the frames that did not come from it |
| VirtualTnc.DeliverAllOutboxes | DotPacket.Kiss.VirtualTnc/Program.cs:62-73 | each connected connection's outbox grows by the encodings of the frames of the others, in relay order; disconnected ones are untouched |
| VirtualTnc.CycleOutboxes | DotPacket.Kiss.VirtualTnc/Program.cs:27-73 | after a cycle exactly the live connections remain, inboxes drained, each outbox extended by the others' data frames in time order |
| VirtualTnc.DeliverAllKeepsIds | DotPacket.Kiss.VirtualTnc/Program.cs:62-73 | broadcasting keeps every connection in its place |
| VirtualTnc.CycleKeepsIdsDistinct | DotPacket.Kiss.VirtualTnc/Program.cs:23-74 | a cycle keeps identities distinct |
| VirtualTnc.NothingCollectedNothingQueued | DotPacket.Kiss.VirtualTnc/Program.cs:52-53 | a cycle without frames sends nothing |
| VirtualTnc.ForTargetAppend | DotPacket.Kiss.VirtualTnc/Program.cs:62-73 | each connection receives the frames of a batch in relay order |
| VirtualTnc.NeverEchoed | DotPacket.Kiss.VirtualTnc/Program.cs:66-67 | a frame from a station, wherever it is among the relayed frames, adds nothing to what that station receives |
| VirtualTnc.ThreePeerScenario | DotPacket.Kiss.VirtualTnc/Program.cs:23-74 | with peers A, B and C, A's data frame reaches B and C but not A, and A's command frame reaches nobody |
| VirtualTnc.VirtualChannel.constructor | DotPacket.Kiss.VirtualTnc/Program.cs:16 | the registry starts empty |
| VirtualTnc.VirtualChannel.Accept | DotPacket.Kiss.VirtualTnc/Program.cs:83-90 | the new connection joins the end of the registry, which keeps distinct identities |
| VirtualTnc.VirtualChannel.RemoveDeadConnections | DotPacket.Kiss.VirtualTnc/Program.cs:27-44 | exactly the live connections remain, in order |
| VirtualTnc.VirtualChannel.CollectFrames | DotPacket.Kiss.VirtualTnc/Program.cs:46-50 | every connected connection's inbox is returned, tagged, and drained |
| VirtualTnc.VirtualChannel.Broadcast | DotPacket.Kiss.VirtualTnc/Program.cs:61-73 | each frame in turn is queued on every connected connection except its origin |
| VirtualTnc.VirtualChannel.RelayCycle | DotPacket.Kiss.VirtualTnc/Program.cs:23-74 | one pass of the coordinator loop gives `CycleResult`, which `CycleOutboxes` characterises, and keeps identities distinct |

## Left out

- **Lifecycle:** `Start`, `StopAsync` and `IsRunning` of the decoder, consumer and encoder (cancellation tokens, background tasks, captured exceptions) are not modelled. `Process` and `ProcessAsync` are modelled as a run over a finite input, or a fixed number of iterations, instead of a loop until cancellation.
- **Stream I/O:** reading in 1024-byte chunks is not modelled. Chunking does not matter, which `KissDecoding.DecodeAppend` states. Writing to the output stream is the sequence of frames returned.
- **`FrameReceived` callbacks:** not modelled. Their exceptions are swallowed and cannot change the decoder state.
- **`DateTime.UtcNow`:** modelled as a clock parameter with one reading per input byte.
- **Concurrency:** not modelled. This covers the concurrent queues, the accept loop running beside the coordinator loop, and the connection list mutated by both. Each operation is modelled as atomic.
- **Outside effects:** TCP, console output, `Environment.Exit` and the port prompt are not modelled. Nor is `DisposeAsync`; a disposed connection only leaves the registry.
- **KissProducer:** VirtualTncConnection.cs uses `KissProducer`, which is not part of this model. Its `QueueFrame` is taken to behave as `KissEncoder.QueueFrame`.
- **The logger programs:** DotPacket.Kiss.FrameLogger and DotPacket.Kiss.TcpFrameLogger are callers, not core, and are not part of this model.
- **Frame assembly:** FrameCodec.cs:68-81 are commented out, and 91-120 do not compile: they use undeclared variables and frame types, and an `if` has no result. So the frame-assembly step (`InformationFrame`, `SupervisoryFrame`, `UnnumberedFrame`) is modelled only up to the decoded control part.
- **Extended (modulo-128) control fields:** FrameCodec.cs:225 is a stub that only throws, so extended mode is modelled as the `NotImplemented` failure.
- **Unnumbered frames:** the modifier (M) bits are not decoded, as in the source.
- **Callsign checks:** the null callsign case of `AddressFramePart` cannot arise from decoding and is not modelled. `Regex.IsMatch` and `Encoding.ASCII` are modelled as predicates over the characters concerned.
- **Object identity:** connection identity (`Equals` on a reference type) is modelled as a distinct `id` per connection.
- **`ProtocolIdentifier` and `Frames/*`:** these records carry no behaviour and are not modelled.
- Ax25Codec.DecodeAddressField: it applies the corrected callsign test, `IsValidCallsign`, not the regular expression of FrameCodec.cs:155 as written. `Ax25Codec.AddressFieldAsWritten` gives the as-written decoding; the two differ only on callsigns that hold a line feed (see Findings).
- Ax25Codec.DecodeFrameAddresses: its `while` loop is modelled in the separate method `Ax25Codec.DecodeAddressesAfter`, which it calls.

## Notes on the code

- **Control byte `0b00000001`:** it decodes as `ReceiveReady`, because the subtype is bits 3-2. The byte that decodes as `ReceiveNotReady` is `0x05`, which `Ax25Codec.ReceiveNotReadyExample` shows.
- **The KISS header byte:** it is `(Address << 4) + Command` truncated to a byte, not a bitwise or. The two agree whenever both nibbles are in range.

## Findings

| source | as written | input that shows it | evidently intended | confidence | as-written member | corrected member |
|---|---|---|---|---|---|---|
| DotPacket.Ax25/FrameCodec.cs:13,30 | address fields are sliced as 6 bytes (`[..6]`, `[o..o+6]`), so the SSID byte `field[6]` is always out of range | any frame, e.g. a correct N0CALL/N0CALL header | 7-byte address fields | not executed; high | Ax25Codec.AddressChainAsWrittenFails | Ax25Codec.AddressChainRoundTrip |
| DotPacket.Ax25/FrameCodec.cs:28 | the offset bound `7 * 3` lets offsets 7, 14 and 21 through: source plus two digipeaters | a chain with two digipeaters decodes, although the comment says one repeater | a configurable digipeater bound (one, per the comment) | not executed; high | Ax25Codec.TwoDigipeatersPassBound | Ax25Codec.DecodeFrameAddressesSpec |
| DotPacket.Ax25/FrameCodec.cs:50 | the control byte index is `14 + 7n + 1`, one past the control byte | a header of two addresses and one control byte is reported malformed | index `14 + 7n`, the byte after the last address field | not executed; high | Ax25Codec.ControlIndexOffByOne | Ax25Codec.HeaderRoundTrip |
| DotPacket.Ax25/FrameCodec.cs:155 | `^[0-9A-Z]*$` in .NET matches before a final line feed | field `9C 60 86 82 98 14 60`, whose callsign reads `"N0CAL\n"` | callsigns of uppercase letters and digits only | not executed; medium | Ax25Codec.LineFeedCallsignField | Ax25Codec.AddressFieldMeaning |
| DotPacket.Kiss/KissConsumer.cs:126-131,140-145 | escape mode is not cleared after `TFEND`/`TFESC` | `[FEND,0x00,FESC,TFEND,FEND]` yields data `[FEND, FESC]` | data `[FEND]`, as KissDecoder.cs:132,147 do | not executed; high | KissConsuming.EscapedFendExample | KissDecoding.EncodeThenDecode |
| DotPacket.Kiss/KissEncoder.cs:57-62 | `QueueRawFrame` tests whether the queue is empty, not the frame | a fresh encoder refuses a non-empty raw frame | refuse an empty frame, as the message says | not executed; high | KissEncoding.RawFrameRefusedByIdleEncoder | KissEncoding.KissEncoder.QueueRawFrameChecked |
| DotPacket.Ax25/FrameCodec.cs:176,187-212 | the frame type is `field & 0x03`, so type bits `10` are refused | 0x02, an information frame with N(S) 1 | information frame whenever bit 0 is clear (section 4.2 of the AX.25 v2.2 specification) | not executed; high | Ax25Codec.OddSendSequenceExample | Ax25Codec.ControlFieldRoundTrip |
