# adsbus and adsb-ws, modelled and verified

adsbus is a hub for aircraft transponder packets. It reads packet streams in several formats, detects the
format of each connection, and writes every packet to every sink in the sink's own format. adsb-ws relays one
such stream to any number of websocket clients. This project models the code that can go subtly wrong and
proves what it keeps over whole streams, whole runs and all interleavings.

The main theorems, and where to start reading:

* **Chunk independence** (`Receiving.Receive.Read`, `Receiving.Drain`). The receiver reads into a 256-byte
  sliding window, retries every parser on a growing prefix, and lets failed attempts scribble on the packet and on
  the MLAT state. For every stream and every way of cutting it into reads it delivers exactly what the pure
  recursive `Decoder.Decode` makes of the whole stream, until end of file or overrun; and when it drops a
  connection for overrun, nothing more could ever have been delivered.
* **Failed attempts are unobservable** (`Receiving.WrapperMatchesTake`, `Airspy.DeadMisses`). An attempt that
  changes the state and then fails leaves a head that no further bytes can make parse, except that raw, which
  reads no state, may still read it.
* **Decidedness and detection** (`Decoder.FortyNineDecide`, `Decoder.DeadUnderEveryExtension`,
  `Decoder.Unambiguous`). 49 bytes decide airspy, beast and raw; no two modelled formats accept the same bytes.
* **The formats as documented** (`TextFormats.RawHitIff`, `TextFormats.AirspyHitIff`, `BinaryFormats.HitIff`). The
  documents' line and frame formats, written down without the code: the parsers read exactly those, for what they
  say and to their last byte, streams of them are delivered whole, and the serializers write such lines and frames.
* **Translation preserves meaning** (`Translation.TranslationPreservesMeaning`, `Sending.Relay`). Decode any
  stream, write the packets out as airspy, beast or raw, decode that elsewhere: same types and payloads in the same
  order, nothing left over, the right format detected; through a socket that fills up, a prefix of it.
* **Sinks without gaps** (`Sinks.GaplessIff`). Whatever the kernel takes of each write, a sink shows a prefix of
  what was written, whatever the frames contain, if and only if it is a socket or takes nothing after a short write.
* **Exact relaying** (`BeastRelay.RelayedBytesIff`). From beast to beast the bytes themselves are reproduced if and only
  if no frame has level zero or the largest timestamp.
* **Proto sessions** (`ProtoStream.SessionsDecode`, `ProtoStream.ReadAt`). Any number of sessions, a header and packets
  each, are delivered in order with nothing left over: sources, hops, levels, and times that are one run of the
  counter at the scales of the packet's own header.
* **One clock** (`Mlat.ReadingIsTime`, `Mlat.SameInstant`, `BinaryFormats.BeastToAirspy`). A time read at one rate and
  sent at another is the same instant, rounded down, exact on the hub's 120 MHz if and only if the rate divides it.
* **Timelines** (`Mlat.TimelineLoss`, `Mlat.TimelineExact`, `Translation.TimelineThroughFormat`). What a
  wrapping counter loses is stated exactly, and recovery up to rounding and one constant holds if and only if
  fewer than one counter period passes between packets.
* **Hop limits** (`Hops.FloodingEnds`, `Flooding.EndlessIff`). In any network of json and proto links, cyclic or not,
  with limits below 65536, flooding ends. In any network at all, of one-way and two-way connections in any formats
  and from any packets, it is endless if and only if for every length some packet survives a walk of that many links:
  never back by the connection it came in by, and within every limit, counting from the last link that lost the count.
  Between two hubs: two one-way json or proto connections flood if and only if one limit is at least 65536 and the other
  at least 65535 (`Flooding.PairFloodsIff`), two one-way beast, airspy or raw connections whenever both hubs let a packet
  through at all (`Flooding.UncountedPairFloodsIff`), one two-way connection never (`Flooding.TwoWayEnds`).
* **Lifecycle** (`Lifecycle.Lifetime`). Any sequence of connects, closes, wakeups and signals, then cleanup:
  reference counts always exact, never below zero, everything freed exactly once.
* **The websocket hub** (`WsHub.HubIsSafe`, `WsHub.KeepingUpMissesNothing`). In all interleavings no channel is closed
  twice or sent on after its close, each client sees the greeting and then consecutive broadcasts, and one that never
  has 256 lines queued when it is offered another is never dropped and misses none.
* **The random pool** (`RandPool.FreshIff`, `RandPool.EighteenthIdentifier`). When bytes are reissued, exactly.

## How the model is laid out

Code that works in place is in classes and methods over arrays and fields (`Buffer.Buf`, `Packets.PacketBuf`,
`Mlat.MlatState`, `Receiving.Receive`, `Lists.ListHead`, `Sending.Serializer`, `RandPool.Rand`,
`Lifecycle.Bus`, and the parsers and serializers of each format). Each such method is proved equal to a function on values,
and the theorems are about those functions. C integer widths are explicit (`TWO16`, `TWO32`, `TWO64`). Bytes are
numbers below 256.

| module | source |
|---|---|
| Bytes, Arith | bytes, widths, and the little arithmetic the proofs need |
| Hex | adsbus/hex.c |
| Mlat, Packets | adsbus/packet.c |
| Buffer | adsbus/buf.c |
| TextFrames, Airspy, Raw | adsbus/airspy_adsb.c, adsbus/raw.c |
| Beast | adsbus/beast.c |
| Proto | adsbus/proto.c |
| Decoder, Receiving, ProtoStream | adsbus/receive.c, and adsbus/proto.c read through it |
| TextFormats, BinaryFormats | protocols/raw.md, protocols/airspy_adsb.md, protocols/beast.md, protocols/proto.md against the parsers and serializers |
| Lists, Sinks, Sending | adsbus/list.c, adsbus/list.h, adsbus/send.c |
| Translation, BeastRelay, Hops, Flooding | receive.c and send.c joined: one hub feeding another, and networks of hubs |
| Lifecycle | adsbus/flow.c, send_receive.c, file.c, peer.c, the new/del halves of receive.c and send.c |
| RandPool, Uuid | adsbus/rand.c, adsbus/uuid.c |
| WsHub | sinks/adsb-ws/hub.go, sinks/adsb-ws/stream.go |

What comes from outside is a parameter: what `read()` finds and how much of it the kernel hands over, whether a
write fits, whether a file opens, which goroutine moves next, which protobuf message a body unpacks to.

## Where the code differs from what one would expect

The model follows the code. These are proved, not only noted.

* The wrap of a counter adds its largest value, not its period: a source that really counts 0..2^48-1 falls one
  tick behind at every wrap (`Mlat.FullRangeCounterLags`), and a timestamp equal to that largest value is relayed
  as zero (`Mlat.RelayKeepsWire`).
* A period in which no packet arrives is lost altogether (`Mlat.TimelineLoss`).
* Hop counts read from a proto or json link keep 16 bits, so on a cycle of such links a configured limit of
  65536 or more, which adsbus/receive.c:171-181 accepts, limits nothing (`Hops.LoopForever`); on a cycle it makes its
  neighbour's 65535 useless as well (`Flooding.PairFloodsIff`).
* Beast, airspy and raw links carry no hop count, so no limit of 1 or more stops a packet on a cycle of them
  (`Flooding.UncountedPairFloodsIff`).
* A short write is followed by shutdown(), whose error is ignored (adsbus/send.c:193-197). A file or a standard output
  that is no socket goes on being written to, so a full disk that gets room again leaves a gap (`Sinks.GaplessIff`), and
  whole packets can be skipped (`Sending.FileSkipsPacket`).
* A random pool that is drained exactly is marked full again without being refilled, and its old bytes are handed
  out once more (`RandPool.FreshIff`); with 16-byte identifiers alone the eighteenth repeats the first
  (`RandPool.EighteenthIdentifier`).
* An airspy precision or level that is no number is accepted (`Airspy.JunkIsAccepted`, `Airspy.JunkNumbers`): the
  precision reads as 65534, the level as nearly the highest. The timestamp is lost for good if and only if the
  precision is above the hub's 120 MHz, as 65534 is (`Airspy.TimeLostIff`).
* The documents of raw and airspy_adsb ask for upper-case digits; both parsers read either case (`TextFormats.RawHitIff`).
* Whether a file is reopened is up to its descriptor alone: the flags test at adsbus/file.c:46, which would always reopen
  files that are written, never holds, so a regular file is gone when its connection closes, whatever it was opened for
  (`Lifecycle.OneWayFileCloses`).
* Beast writes level 255 for an unknown level, so that one comes back as the largest (`Translation.LevelOverBeast`).

## Model

| member | source | states |
|---|---|---|
| Hex.InitTable | adsbus/hex.c:13-26 | the table built in place gives each of the 256 bytes its digit value, or invalid |
| Hex.ToBin | adsbus/hex.c:28-37 | succeeds exactly on hexadecimal text, then writes the bytes it denotes, and nothing past them |
| Hex.ToInt | adsbus/hex.c:39-55 | the 64-bit shift-and-or loop gives the number the text denotes, or -1 if it is not hexadecimal or over INT64_MAX |
| Hex.FromBin | adsbus/hex.c:57-62 | writes the text of the bytes at its place and changes nothing else |
| Hex.FromInt | adsbus/hex.c:64-71 | written from the last digit back, the fixed-width text of the number |
| Hex.TextRoundTrip | adsbus/hex.c:28-62 | reading back the text of any bytes, in either case, gives the bytes |
| Hex.IntTextRoundTrip | adsbus/hex.c:39-71 | the text of a number in n digits denotes it modulo 16^n |
| Hex.IntOfShort | adsbus/hex.c:39-55 | fields of at most 8 digits never wrap: what is read is the number written |
| Hex.IntOfLonger | adsbus/hex.c:39-55 | 16 digits are read up to 2^63 - 1 and refused above; of more digits the leading ones are lost |
| Mlat.MlatState.ScaleWidthIn | adsbus/packet.c:29-37 | updates last reading and generation in place, with uint64 wrap-around |
| Mlat.MlatState.TimestampIn | adsbus/packet.c:24-51 | width, then rate, then the modulus, and the new state |
| Mlat.UnwrappedRises | adsbus/packet.c:29-37 | generation plus timestamp never decreases over any run |
| Mlat.GenerationIsMultiple | adsbus/packet.c:29-37 | after any run within range the generation is max times the number of drops seen |
| Mlat.GenerationModulo | adsbus/packet.c:29-37 | over any run at all, in range or not, the generation is max times the drops, modulo 2^64 |
| Mlat.ReadingModulo | adsbus/packet.c:24-51 | every reading is the unwrapped counter times the factor, modulo 2^64 and then modulo INT64_MAX |
| Mlat.ReadingIsUnwrapped | adsbus/packet.c:24-51 | over any run the machine result is the unbounded unwrapped one while that fits INT64_MAX |
| Mlat.RelayKeepsWire | adsbus/packet.c:24-55 | reading and resending at the same rate and width gives back every timestamp bit for bit, except max, which becomes 0 |
| Mlat.LargestFactor | adsbus/packet.c:24-27 | the factor between the rates is the largest whole one: f * mhz <= 120 < (f + 1) * mhz |
| Mlat.FirstReading | adsbus/packet.c:24-51 | at a rate with k * mhz = 120 the first time of a connection is k times its timestamp if and only if that is below INT64_MAX; what it is just above, and past 2^64 |
| Mlat.ReadingIsTime | adsbus/packet.c:24-51 | over any run in range a reading is the time on a 120 MHz clock, rounded down, and exactly so if and only if the rate divides 120 |
| Mlat.SameInstant | adsbus/packet.c:24-55 | read at one rate that divides 120 and sent at another: the same instant, rounded down to a tick and wrapped |
| Mlat.PeriodsAccountedFor | adsbus/packet.c:29-37 | each period of a rising counter is either seen as one drop or lost |
| Mlat.UnwrappedTruth | adsbus/packet.c:29-37 | the unwrapped value against the true one, for every period and every amount added per wrap |
| Mlat.FullRangeCounterLags | adsbus/packet.c:29-37 | a counter of period max+1 lags by exactly the number of wraps |
| Mlat.TimelineLoss | adsbus/packet.c:24-55 | times sent out and read back by a fresh state: rounded, shifted by a constant, and short of each silent period |
| Mlat.TimelineExact | adsbus/packet.c:24-55 | the shift is one constant for the run if and only if all gaps are below max ticks |
| Mlat.RssiRounds | adsbus/packet.c:57-65 | a level scaled out and in again is rounded down to the step, never wrapped |
| Mlat.RssiSurvives | adsbus/packet.c:57-65 | a level of the narrower scale survives in and out |
| Mlat.LevelIsShare | adsbus/packet.c:57-60 | a level read is the same share of full scale, short of it by less than one step in all |
| Packets.ValidateId | adsbus/packet.c:74-88 | true exactly for printable characters ended by a zero within 37 bytes |
| Packets.PacketBuf.CopyFrom | adsbus/receive.c:89-102 | saving and restoring the packet copies every field |
| Buffer.Buf.Compact | adsbus/buf.c:13-17 | the window's contents survive the move to the front |
| Buffer.Buf.Fill | adsbus/buf.c:12-26 | the bytes read join the end of the window; zero means end of file or a failed read, never lack of room |
| Buffer.Buf.Receive | adsbus/buf.c:19-24 | bytes stored after the window extend it by exactly them |
| Buffer.Buf.Consume | adsbus/buf.c:28-37 | removes the first bytes of the window, with start reset when it empties |
| TextFrames.ReadPayload | adsbus/airspy_adsb.c:54 | the payload text is read if and only if it is hexadecimal |
| TextFrames.SemicolonEndsHex | adsbus/raw.c:21-29 | no longer payload can run over the semicolon of a shorter one |
| Airspy.IsFrame | adsbus/airspy_adsb.c:34-42 | the shape test: delimiters and either line ending, within the window |
| Airspy.ReadNumbers | adsbus/airspy_adsb.c:43-50 | the numeric fields, the 16-bit truncation of the rate, and when they stop the parse |
| Airspy.TakeNumbers | adsbus/airspy_adsb.c:51-53 | timestamp, level and type written, and the state moved, as functions of the state before |
| Airspy.ReadRest | adsbus/airspy_adsb.c:51-58 | the state moves before the payload is checked; packet, window and state afterwards, on both outcomes |
| Airspy.ParsePacket | adsbus/airspy_adsb.c:28-59 | one payload length tried: the in-place parse is the attempt on values, state included |
| Airspy.ParseFrame | adsbus/airspy_adsb.c:66-73 | three lengths in turn, each from the state the one before left |
| Airspy.Serialize | adsbus/airspy_adsb.c:75-92 | the overlay written field by field is the frame of the packet |
| Airspy.WriteNumbers | adsbus/airspy_adsb.c:85-90 | the three number fields, with delimiters and payload untouched |
| Airspy.AttemptExtends | adsbus/airspy_adsb.c:34-56 | once the shape is complete, or enough bytes are there to rule it out, later bytes change nothing |
| Airspy.FortyNineDecide | adsbus/airspy_adsb.c:28-73 | 49 bytes fix result, bytes taken and state, whatever follows |
| Airspy.JunkNumbers | adsbus/airspy_adsb.c:43-52 | an accepted frame's rate is 65534 exactly when its precision is no number, its level 0xFFFEFFFF exactly when that is none |
| Airspy.TimeLostIff | adsbus/airspy_adsb.c:43-51 | from every state the timestamp comes out as 0 if and only if the rate is above 120 MHz |
| Airspy.JunkIsAccepted | adsbus/airspy_adsb.c:43-58 | the input that shows it: a frame whose precision and level are letters is delivered |
| Airspy.OneLength | adsbus/airspy_adsb.c:66-73 | at most one payload length accepts a given buffer |
| Airspy.ParseByType | adsbus/airspy_adsb.c:66-73 | the chain of three accepts exactly when one length does, and then equals that attempt from the original state; a miss that moved the state is a dead head |
| Airspy.HitExtends | adsbus/airspy_adsb.c:66-73 | success is stable under appending bytes |
| Airspy.DeadMisses | adsbus/airspy_adsb.c:43-56 | a head whose parse moved the state and failed never parses, whatever bytes follow and from any state |
| TextFormats.AirspyHitIff | protocols/airspy_adsb.md:13-23 | the parser reads a head of u bytes if and only if they are a line as documented, but that precision and level need not be numbers, only not a precision of zero |
| TextFormats.AirspyLineReads | adsbus/airspy_adsb.c:28-73 | a documented line, whatever follows, gives its bytes, its counter at twice its precision, its level over 65535 and a moved clock, and is consumed whole with either ending |
| TextFormats.AirspyStreamDecodes | adsbus/receive.c:116-147 | any concatenation of them, endings and precisions mixed, is detected and delivered with nothing left over |
| TextFormats.AirspyWrites | adsbus/airspy_adsb.c:75-92 | what is written is such a line, upper case and CR LF, whose numbers are the time in ticks of 20 MHz, 10, and the level in 65535ths |
| TextFormats.AirspyExample | protocols/airspy_adsb.md:38-57 | the document's first example, counter 3493550667, level 31475 |
| TextFormats.IntIsNumber | adsbus/hex.c:39-55 | hex_to_int of up to 8 digits is the number they spell, the first digit weighing most |
| TextFormats.BinIsSpelled | adsbus/hex.c:28-37 | hex_to_bin gives the bytes spelled two digits each, the high one first |
| Raw.IsFrame | adsbus/raw.c:21-26 | the shape test of a raw line |
| Raw.ParsePacket | adsbus/raw.c:15-33 | one length tried in place; a failure leaves only payload bytes behind |
| Raw.ParseFrame | adsbus/raw.c:39-44 | the three lengths in turn |
| Raw.Serialize | adsbus/raw.c:46-56 | the line written is the frame of the packet |
| Raw.AttemptExtends | adsbus/raw.c:21-29 | a complete shape, or one ruled out, stays so |
| Raw.ThirtyTwoDecide | adsbus/raw.c:15-44 | 32 bytes decide, whatever follows |
| Raw.OneLength | adsbus/raw.c:39-44 | at most one payload length accepts a given buffer |
| Raw.ParseByType | adsbus/raw.c:39-44 | the chain accepts exactly when one length does and equals that attempt; the state is never touched |
| Raw.HitExtends | adsbus/raw.c:39-44 | success is stable under appending bytes |
| TextFormats.RawHitIff | protocols/raw.md:15-19 | the parser reads a head of u bytes if and only if they are a line as documented: star, 4, 14 or 28 digits in either case, semicolon, LF or CR LF |
| TextFormats.RawLineReads | adsbus/raw.c:15-44 | any such line, whatever follows, gives the bytes its digits spell and is consumed whole, line ending included |
| TextFormats.RawStreamDecodes | adsbus/receive.c:116-147 | any concatenation of them, endings mixed, is detected and delivered with nothing left over |
| TextFormats.RawWrites | adsbus/raw.c:46-56 | what is written is such a line, upper case and LF, that spells the payload |
| TextFormats.RawExample | protocols/raw.md:30-35 | the document's second example, byte by byte |
| Beast.UnescapeInto | adsbus/beast.c:42-58 | the two-index loop returns what the recursive unescape returns, and -1 exactly when that fails |
| Beast.EscapeInto | adsbus/beast.c:60-67 | the loop writes the escaped text; index 0 is never doubled |
| Beast.EscapeRoundTrip | adsbus/beast.c:42-67 | unescaping an escaped text with anything after it gives the text and consumes exactly its escape |
| Beast.UnescapeIff | adsbus/beast.c:42-67 | unescape succeeds with x after u bytes if and only if the first u bytes are the escape of x: a bijection onto the image |
| Beast.EscapeInjective | adsbus/beast.c:60-67 | different texts of one length never escape alike, even with more bytes after |
| Beast.UnescapeTailDecided | adsbus/beast.c:42-58 | with twice the bytes asked for, a failed unescape fails under every extension |
| Beast.MlatRoundTrip | adsbus/beast.c:23-40 | the six timestamp bytes give back every 48-bit value |
| Beast.TakeOverlay | adsbus/beast.c:76-81 | the fields of an unescaped frame written to the packet, and the state moved |
| Beast.ParsePacket | adsbus/beast.c:69-84 | packet, state and window after the in-place parse, and nothing changed if it fails |
| Beast.ParseFrame | adsbus/beast.c:112-135 | the header test and dispatch on the type byte |
| Beast.AppendUnit | adsbus/beast.c:61-66 | one turn of the escaping loop |
| Beast.Serialize | adsbus/beast.c:86-154 | the overlay and payload, escaped into the buffer, are the frame of the packet |
| Beast.WireReads | adsbus/beast.c:69-135 | any frame on the wire, level 0 and largest timestamp included, is read for what it says whatever follows |
| Beast.WireInjective | adsbus/beast.c:60-105 | frames of one type are told apart, and where one ends, by their bytes alone |
| Beast.HitExtends | adsbus/beast.c:112-135 | success is stable under appending bytes |
| Beast.FortyFiveDecide | adsbus/beast.c:112-135 | 45 bytes decide, whatever follows |
| BinaryFormats.FrameIs | protocols/beast.md:20-44 | the frames of the codec are those documented: 0x1a, the type character, and then big-endian counter, level and data with every 0x1a doubled |
| BinaryFormats.HitIff | protocols/beast.md:9-35 | the parser reads a head of u bytes if and only if they are such a frame |
| BinaryFormats.FrameReads | adsbus/beast.c:69-135 | such a frame, whatever follows, gives its data, its counter at 12 MHz, its level over 255, and is consumed whole |
| BinaryFormats.StreamDecodes | adsbus/receive.c:116-147 | a stream of them is delivered frame by frame, times as readings of one 12 MHz counter |
| BinaryFormats.Writes | adsbus/beast.c:86-154 | what is written is such a frame: the time in ticks of 12 MHz, the level in 255ths, an unknown one as 255 |
| BinaryFormats.FrameExample | protocols/beast.md:59-69 | the document's example, byte by byte, both escapes undone |
| BinaryFormats.BeastToAirspy | adsbus/send.c:174-200 | every frame of a beast stream sent on as airspy: same data, the level times 257, and the same instant on the 20 MHz counter |
| Proto.ParseVarint | adsbus/proto.c:83-102 | the shift-and-or loop, on any start index, is the four-group varint reader |
| Proto.VarintRoundTrip | adsbus/proto.c:83-102 | reads back every base-128 number below 128^n in n groups and refuses every larger one |
| Proto.RecordRoundTrip | adsbus/proto.c:104-130 | a length-prefixed record comes back whole whatever follows, exactly when its length is below 2^28 |
| BinaryFormats.RecordPrefix | protocols/proto.md:16-18 | the bytes of the prefix: 0x0a and the length in groups of seven bits, the low ones first |
| Proto.CutRecord | adsbus/proto.c:104-123 | no record cut short is a record |
| Proto.StreamRoundTrip | adsbus/proto.c:37-130 | the framing alone: a concatenation of records decodes to the bodies in order; `ProtoStream.SessionsDecode` is the receiver's version |
| Proto.UnwrapRecord | adsbus/proto.c:104-130 | field tag, length, bounds and unpacking, in that order |
| Proto.ParseHeader | adsbus/proto.c:132-155 | when a header is accepted, by its fields, and that a rejected one may already have changed the scales |
| Proto.HeaderAcceptedIff | adsbus/proto.c:132-155 | accepted if and only if the magic is aDsB, the rate is in 1..65535, both maxima are above zero and the identifier is another server's; then those scales are kept |
| Proto.ParseMessage | adsbus/proto.c:157-187 | packet fields, 16-bit hops and MLAT state; nothing written when refused |
| Proto.ParseFrame | adsbus/proto.c:210-257 | header or packet, by the message's one kind, and what is consumed |
| Proto.UnwrapExtends | adsbus/proto.c:104-130 | a complete record is the same record whatever follows |
| Proto.HitExtends | adsbus/proto.c:210-257 | an attempt on a complete record is stable under appending bytes, state included |
| Proto.DeadMisses | adsbus/proto.c:132-155 | a rejected header never parses, whatever follows and from any state |
| Proto.SpoilingIsDead | adsbus/proto.c:132-155 | a miss that changed the state is such a dead head |
| Decoder.HitProgress | adsbus/receive.c:124-140 | every accepted frame consumes at least one byte and no more than there are, so the loop ends |
| Decoder.HitExtends | adsbus/receive.c:52-76 | every parser of the table is stable under appending bytes |
| Decoder.Unambiguous | adsbus/receive.c:52-105 | no two parsers accept the same buffer, from any states: detection does not depend on table order |
| Decoder.TextFormatsDiffer | adsbus/receive.c:52-76 | airspy and raw never accept the same buffer, whatever lengths |
| Decoder.TakeExtends | adsbus/receive.c:81-105 | what is read off the head, detection included, is stable under appending bytes |
| Decoder.DecodeAppend | adsbus/receive.c:116-147 | decoding is incremental: stop anywhere, keep the undecoded rest, go on when more is there |
| Decoder.FortyNineDecide | adsbus/receive.c:142-146 | 49 bytes decide airspy, beast and raw, state included |
| Decoder.WindowSuffices | adsbus/receive.c:142-146 | for these the 256-byte window never changes what is read |
| Decoder.WindowNeverMatters | adsbus/receive.c:119-146 | over whole streams, decoding through the 256-byte window is decoding without one, unless proto is chosen |
| Decoder.DeadUnderEveryExtension | adsbus/receive.c:142-146 | a head of 49 bytes that is refused is refused under every extension and from every state |
| Decoder.HitIsSane | adsbus/packet.c:67-72 | every parser's packet satisfies packet_sanity_check's conditions, with hops below 65536 |
| Decoder.DecodedAreDeliverable | adsbus/receive.c:132-139 | every packet handed to send_write is sane, is no header, and has 1..limit hops |
| Decoder.EveryPacket | adsbus/packet.c:67-88 | spelled out: 2, 7 or 14 bytes by type, a time below 2^63, 1 to limit hops, a printable identifier |
| Decoder.NothingOnEmpty | adsbus/receive.c:124 | an empty window yields nothing, so the loop's guard and the decoder agree |
| Receiving.Missed | adsbus/airspy_adsb.c:43-56 | a parser that misses leaves the state alone unless the head is dead |
| Receiving.DeadHead | adsbus/receive.c:85-105 | a dead head is dead for every parser from every state, raw alone excepted |
| Receiving.WrapperMatchesTake | adsbus/receive.c:81-105 | started from a state marked by failed attempts, the machine takes exactly the frames of the clean decoder |
| Receiving.AutodetectMatches | adsbus/receive.c:85-105 | the same from any entry of the table on, parsers marking the state one after the other |
| Receiving.Turn | adsbus/receive.c:124-140 | one frame read keeps the relation between window, state and the decode of all bytes received |
| Receiving.Arrival | adsbus/receive.c:119-122 | so does the arrival of bytes |
| Receiving.Settled | adsbus/receive.c:129-131 | when the head does not parse, sent packets, connection and window are the decode of all bytes received |
| Receiving.FullWindowIsFinal | adsbus/receive.c:142-146 | a full window that does not parse means no continuation of the stream delivers anything more |
| Receiving.Receive.constructor | adsbus/receive.c:149-169 | a new connection: empty window, cleared state, detecting |
| Receiving.Receive.CallParser | adsbus/receive.c:52-76 | each table entry does in place what its function on values says |
| Receiving.Receive.TryEntry | adsbus/receive.c:93-103 | a failed entry leaves window and packet as they were (but for the last, whose scribbles stay) and may mark the state |
| Receiving.Receive.AutodetectParse | adsbus/receive.c:85-105 | the loop over the table, with the parser chosen |
| Receiving.Receive.Parse | adsbus/receive.c:81-105 | detection or the chosen parser |
| Receiving.Receive.Dispatch | adsbus/receive.c:132-139 | headers and packets over the hop limit are dropped, others sent with one more hop |
| Receiving.Receive.Step | adsbus/receive.c:124-140 | one turn keeps the books and consumes; it stops only when the head does not parse |
| Receiving.Receive.ParseLoop | adsbus/receive.c:124-140 | the loop ends, with nothing left that parses |
| Receiving.Receive.Read | adsbus/receive.c:116-147 | buf_fill always has room, so zero is end of file; sent packets stay the decode of the bytes taken; an overrun drops only what can deliver nothing more |
| Receiving.Drain | adsbus/receive.c:116-147 | chunk independence: any cutting of any stream delivers the decode of the whole stream |
| Translation.RawReads | adsbus/raw.c:15-56 | a raw frame followed by anything is read back as its packet, consuming exactly the frame |
| Translation.BeastReads | adsbus/beast.c:69-154 | the same for beast, with escaping, level and timestamp |
| Translation.AirspyReads | adsbus/airspy_adsb.c:28-92 | the same for airspy, all three numbers |
| Translation.LevelOverBeast | adsbus/beast.c:80-101 | a beast level comes back rounded to a 255th, and 0 comes back as the largest |
| Translation.FrameTaken | adsbus/receive.c:81-105 | a frame is detected for what it is, or read by the parser already chosen |
| Translation.FramesDecode | adsbus/receive.c:85-145 | decoding a concatenation of frames gives the packets one by one and leaves nothing over |
| Translation.FramesThenRest | adsbus/receive.c:85-145 | the same with any bytes after the frames, which are then decoded from the state the frames left |
| Translation.RelayedOneForOne | adsbus/send.c:174-200 | with hop limit at least 1, one packet for each, same type and payload, 1 hop, the level its format keeps |
| Translation.TranslationPreservesMeaning | adsbus/receive.c:85-145 | from any stream, through either format, to the same types and payloads |
| Translation.RelayedTimes | adsbus/packet.c:24-55 | the timestamps of a relayed stream are a run of the format's counter |
| Translation.TimelineThroughFormat | adsbus/packet.c:24-55 | a relayed timeline is the hub's, rounded and shifted once, if and only if no gap exceeds the format's counter |
| BeastRelay.StreamDecodes | adsbus/beast.c:69-135 | a stream of arbitrary beast frames is delivered frame by frame with nothing left over |
| BeastRelay.DeliveredBack | adsbus/beast.c:86-105 | those packets are written as frames again |
| BeastRelay.BackAt | adsbus/packet.c:24-65 | the timestamp and level of each, as a run of the 48-bit counter |
| BeastRelay.LevelBack | adsbus/beast.c:97-101 | a level byte goes through unchanged unless it is 0, which is written as 255 |
| BeastRelay.StreamInjective | adsbus/beast.c:60-105 | streams of frames with the same types are the same bytes only if all frames say the same |
| BeastRelay.RelayedBytesIff | adsbus/send.c:174-200 | beast in, beast out: the same bytes if and only if no level is 0 and no timestamp is the largest |
| ProtoStream.RecordTaken | adsbus/proto.c:104-130 | a record that fits the window is detected or read, whatever follows it |
| ProtoStream.HeaderAttempt | adsbus/proto.c:132-155 | an acceptable header, first or later, is a hit that forwards nothing, announces its scales and keeps the clock |
| ProtoStream.RecordHitIff | adsbus/proto.c:210-257 | a record is read if and only if it holds an acceptable header or, after one, a packet of its type's length with a printable source |
| ProtoStream.RefusedHeaderEnds | adsbus/proto.c:147-150 | a refused header, this server's own above all, is a head from which nothing is ever delivered, at any point of a connection and whatever follows |
| ProtoStream.OverlongRecordEnds | adsbus/receive.c:142-146 | so is a record of more than 256 bytes, whatever it holds |
| ProtoStream.PacketAttempt | adsbus/proto.c:157-187 | after it every acceptable packet is read whole: payload, source, 16-bit hops, time, level, and the clock moved |
| ProtoStream.PacketsDecode | adsbus/receive.c:124-140 | any sequence of such records is delivered in order, less those over the hop limit, with nothing left over and the clock at its end |
| ProtoStream.ReadAt | adsbus/proto.c:174-184 | the times are the readings of the session's stamps in one counter run at its header's scales; levels are scaled by it |
| ProtoStream.ClockAtEndIs | adsbus/packet.c:29-37 | the clock a session leaves is the one after all its stamps |
| ProtoStream.SessionDecodes | adsbus/proto.c:210-257 | a whole session, at the start of a connection, detection included, or later in it |
| ProtoStream.SessionsDecode | adsbus/file.c:98-105 | any number of sessions one after the other, as a file holds that was opened again and again |
| Lists.HeadInit | adsbus/list.c:3-5 | a circle of the head alone |
| Lists.IsEmpty | adsbus/list.c:7-9 | true exactly when the circle holds only its head |
| Lists.Add | adsbus/list.c:11-16 | four pointer writes append to the sequence and keep the circle |
| Lists.Del | adsbus/list.c:18-22 | takes out that element wherever it stands and nothing else, and clears its pointers |
| Lists.FirstOfRest | adsbus/list.h:29-33 | next and its next, fetched before the body, are the elements that follow |
| Lists.KeptAppend | adsbus/list.h:29-33 | what survives a traversal survives piece by piece |
| Lists.Turn | adsbus/list.h:29-33 | one turn of the traversal, the current element deleted or not |
| Lists.ForEachSafe | adsbus/list.h:29-33 | every element visited once in order although the body deletes some; what is left is the rest, still a circle |
| Sending.Serializer.constructor | adsbus/send.c:142-147 | each format starts with an empty circle |
| Sending.Serializer.New | adsbus/send.c:105-125 | the sink joins the end of its format's list |
| Sending.Serializer.Del | adsbus/send.c:92-99 | that sink and no other leaves it |
| Sending.Serializer.WriteAll | adsbus/send.c:187-198 | walking the pointers, one copy to every sink but those on the source's own device and inode; a short write shuts that sink if it is a socket |
| Sending.WriteFormat | adsbus/send.c:176-198 | nothing is written for an empty list or an empty serialization |
| Sending.SendWrite | adsbus/send.c:174-200 | over the whole table every sink gets its format's frame once, and no list changes |
| Sending.SendAll | adsbus/send.c:174-200 | a run of send_write: every sink on another file is written exactly its format's frames in order, and one on the same device and inode nothing |
| Sending.Relay | adsbus/receive.c:116-147 | receiving in any pieces and sending: behind every such sink that was just opened, a socket or quiet, another hub gets the same types and payloads, the right format detected, or a prefix |
| Sinks.NothingMore | adsbus/send.c:193-197 | a socket that was shut, or a sink that takes nothing, shows nothing more |
| Sinks.SinkGetsPrefix | adsbus/send.c:193-197 | a socket, or a sink that stays quiet after a short write, shows a prefix of its stream, all of it unless a write was short; a socket is shut exactly then |
| Sinks.GapShows | adsbus/send.c:193-197 | the counterexample: a file that takes something after a short write shows a frame after a gap |
| Sinks.GaplessIff | adsbus/send.c:187-198 | no gap, whatever the frames contain, if and only if the sink is a socket or takes nothing after a short write |
| Sending.EndToEnd | adsbus/send.c:174-200 | hub to sink to hub, under that condition: all types and payloads in order, or a prefix of them if a write was short |
| Sending.FileSkipsPacket | adsbus/send.c:193-197 | without it: a file on a disk that is full once holds the second of two packets alone, which is no prefix unless both say the same |
| Hops.RelayIsForward | adsbus/proto.c:157-187 | the hop step used for networks is what a connection does with a proto packet |
| Hops.RelayWithoutCount | adsbus/receive.c:125-138 | and, counting from zero, with an airspy, beast or raw frame |
| Hops.FitsStep | adsbus/receive.c:135-138 | a chain of limits is met exactly if the first is and the rest are |
| Hops.ChainSurvives | adsbus/receive.c:135-138 | a packet passes a chain of hubs exactly if its 16-bit count stays within each limit |
| Hops.ChainBounded | adsbus/receive.c:135-138 | with limits below 65536 no chain of counting links is longer than the largest, whatever count the packet arrives with |
| Hops.LoopForever | adsbus/proto.c:171 | along counting links hubs of equal limit relay for ever if and only if it is 65536 or more |
| Hops.ArrivalLowers | adsbus/receive.c:135-139 | every arrival of a packet whose copies rank lower, in any order, strictly lowers the flooding measure |
| Hops.CopiesWeighLess | adsbus/send.c:182-192 | the copies a hub makes, one to each link but the file the packet came from, weigh less than the packet |
| Hops.RunEnds | adsbus/receive.c:135-139 | so a run has at most as many steps as the measure it starts with |
| Hops.FloodingEnds | adsbus/receive.c:135-139 | in any finite network whose links all carry the count, cyclic or not, with limits below 65536, every run has at most so many steps |
| Hops.RelaysBounded | adsbus/receive.c:135-139 | in such a network no copy is relayed more often than the largest limit, in every run |
| Flooding.WalkStep | adsbus/receive.c:125-138 | a walk is survived exactly if the first hub relays the packet on its first link and the copy survives the rest |
| Flooding.FollowWalk | adsbus/send.c:182-192 | a packet can be followed along a walk that it survives, whatever else is in flight |
| Flooding.MortalFades | adsbus/receive.c:135-139 | if no walk of n links is survived, relaying shortens every walk that is |
| Flooding.MortalEnds | adsbus/receive.c:135-139 | then every run ends, within a number of steps computed from the network |
| Flooding.EndlessIff | adsbus/send.c:182-192 | in any network, echo suppression and formats without a count included, and from any packets, flooding is endless if and only if walks of every length are survived |
| Flooding.PairFloodsIff | adsbus/receive.c:171-181 | two hubs, two one-way json or proto connections, for all limits and counts: endless if and only if the limit that meets odd counts is 65536 or more and the other at least 65535 |
| Flooding.UncountedPairFloodsIff | adsbus/receive.c:125-138 | two hubs, two one-way connections without a count: endless if and only if the first lets this packet through and the second lets anything through |
| Flooding.TwoWayEnds | adsbus/send_receive.c:55-58 | two hubs on one two-way connection: never endless, whatever limits, formats and packets |
| RandPool.Rand.Fill | adsbus/rand.c:28-51 | pool and bytes handed out, for the copy and for the scattered refill, and how far the source was read |
| RandPool.Rand.constructor | adsbus/rand.c:17-22 | a full pool of the first 256 bytes |
| RandPool.IssueBooks | adsbus/rand.c:28-51 | over any run, fresh so far stays fresh exactly until a request is served from a stale pool |
| RandPool.FreshIff | adsbus/rand.c:28-51 | no source byte is handed out twice if and only if no request follows an exact drain through the false refill |
| RandPool.FreshWithoutExactDrain | adsbus/rand.c:28-51 | runs without an exact drain hand out disjoint positions of the source |
| RandPool.InOrder | adsbus/rand.c:28-33 | the first 256 bytes are handed out in the source's order, however they are asked for |
| RandPool.EveryByteAccountedFor | adsbus/rand.c:28-51 | without an exact drain no byte is lost: those read are those handed out and those in the window |
| RandPool.EighteenthIdentifier | adsbus/rand.c:45-50 | asked for 16 bytes at a time, the eighteenth answer is the first again |
| Uuid.Gen | adsbus/uuid.c:6-19 | the in-place writes give the identifier's text, terminator included |
| Uuid.TextSpells | adsbus/uuid.c:9-18 | dashes, terminator, and lower-case digits that spell the random bytes but for the six fixed bits |
| Uuid.TextIsValidId | adsbus/uuid.c:6-19 | every identifier passes packet_validate_id |
| Uuid.SameTextIff | adsbus/uuid.c:6-19 | two identifiers agree exactly when the random bytes agree in all but the high four bits of byte 6 and the high two of byte 8 |
| Uuid.VersionAndVariant | adsbus/uuid.c:9-10 | version 4 and variant 1, as section 4.1 of RFC 4122 lays them out |
| WsHub.StepKeeps | sinks/adsb-ws/hub.go:18-46 | every channel operation of every goroutine keeps the invariant |
| WsHub.PlayKeeps | sinks/adsb-ws/hub.go:18-46 | so does every interleaving |
| WsHub.HubIsSafe | sinks/adsb-ws/stream.go:23-50 | no send after close, no double close, one close per finished client; written is a prefix of greeting and consecutive broadcasts |
| WsHub.HubNeverBlocks | sinks/adsb-ws/hub.go:21-44 | outside select the hub always has a step of its own, in select it takes any message, and a pump with something queued or a closed channel waits for nobody |
| WsHub.BackInSelect | sinks/adsb-ws/hub.go:32-43 | from any reachable state the hub is back in select after as many steps of its own as it has clients left to serve, and one |
| WsHub.ListedIsUpToDate | sinks/adsb-ws/hub.go:32-43 | a client still listed when the hub is idle was sent every broadcast since its registration |
| WsHub.OfferServes | sinks/adsb-ws/hub.go:36-42 | an offered client with fewer than 256 lines queued gets the line and stays, one with 256 is closed and delisted, nobody else is touched |
| WsHub.GreetingServes | sinks/adsb-ws/hub.go:22-24 | a registered client is first sent the greeting line, with no broadcast before or behind it |
| WsHub.KeepingUpMissesNothing | sinks/adsb-ws/hub.go:18-46 | in every interleaving a client below 256 lines at each offer stays listed and open until it unregisters, is sent every broadcast since its registration, and what its pump took it wrote |
| WsHub.RunIsRemembered | sinks/adsb-ws/stream.go:23-50 | the log is the lines broadcast, in order, and every client is as far as its own actions and the hub's have brought it |
| Lifecycle.Bus.FlowRefInc | adsbus/flow.c:51-53 | the one counter of that flow goes up |
| Lifecycle.Bus.FlowRefDec | adsbus/flow.c:55-57 | it goes down, which every caller proves does not underflow |
| Lifecycle.Bus.ReceiveNew | adsbus/receive.c:149-169 | one more receiver, allocated, linked and counted |
| Lifecycle.Bus.SendNew | adsbus/send.c:105-125 | one more sender, allocated, linked and counted |
| Lifecycle.Bus.PairNew | adsbus/send_receive.c:46-53 | a two-way connection with two references |
| Lifecycle.Bus.SendReceiveNew | adsbus/send_receive.c:45-59 | both halves report to it |
| Lifecycle.Bus.FileDel | adsbus/file.c:64-69 | gives the reference back, unlinks and frees, once |
| Lifecycle.Bus.FileRetry | adsbus/file.c:71-76 | the file waits for its wakeup, idle |
| Lifecycle.Bus.FileHandleClose | adsbus/file.c:78-87 | waits again if worth it, else gives up its reference |
| Lifecycle.Bus.PeerCall | adsbus/peer.c:94-99 | after shutdown nobody is called; before, what a close makes of the whole chain of owners |
| Lifecycle.Bus.DropRef | adsbus/send_receive.c:40 | one reference less, never below zero |
| Lifecycle.Bus.SendReceiveOnClose | adsbus/send_receive.c:37-43 | the first half to close frees nothing, the second frees the connection |
| Lifecycle.Bus.SendReceiveDel | adsbus/send_receive.c:31-35 | unlinked, its owner told, freed once |
| Lifecycle.Bus.ReceiveDel | adsbus/receive.c:107-114 | that receiver goes, its owners are told, and whatever else is freed is freed once |
| Lifecycle.Bus.SendDel | adsbus/send.c:92-99 | the same for a sender |
| Lifecycle.Bus.FlowNew | adsbus/flow.c:31-33 | the whole new state for each of the three flows, who reports to whom, and what was allocated |
| Lifecycle.Bus.Accept | adsbus/flow.c:31-42 | a connection without an owner |
| Lifecycle.Bus.FileConnect | adsbus/file.c:98-101 | the file's connection reports to the file, and nothing else changes |
| Lifecycle.Bus.FileOpen | adsbus/file.c:89-106 | for each outcome of open, heuristic and greeting, the whole new state |
| Lifecycle.Bus.TransportNew | adsbus/file.c:113-127 | a transport holds a counted reference of its flow |
| Lifecycle.Bus.FileNew | adsbus/file.c:113-130 | then tries to open at once, and the whole new state |
| Lifecycle.Bus.Wakeup | adsbus/peer.c:94-99 | a wakeup reopens the file, unless shutting down, and the whole new state |
| Lifecycle.Bus.PeerLoopDone | adsbus/peer.c:101-111 | the exit test on the counters means no receiver, two-way link or transport could still bring input, or none output |
| Lifecycle.Bus.ReceiveCleanup | adsbus/receive.c:183-188 | every receiver freed |
| Lifecycle.Bus.SendCleanup | adsbus/send.c:149-156 | every sender freed |
| Lifecycle.Bus.SendReceiveCleanup | adsbus/send_receive.c:61-66 | every two-way connection freed, though no close was passed on to it |
| Lifecycle.Bus.TransportCleanup | adsbus/file.c:175-180 | every transport freed, its reference given back |
| Lifecycle.Bus.Cleanup | adsbus/adsbus.c:70-78 | from any reachable state all counters zero and every allocation freed |
| Lifecycle.ReceiveGone | adsbus/receive.c:107-114 | the links hold with the owner owed one notice |
| Lifecycle.SendGone | adsbus/send.c:92-99 | the same for a sender |
| Lifecycle.PairJoins | adsbus/send_receive.c:45-59 | a new pair keeps the reference counts equal to the live halves |
| Lifecycle.HalfClosed | adsbus/send_receive.c:37-43 | one reference less, exactly one half left |
| Lifecycle.BothClosed | adsbus/send_receive.c:37-43 | at zero no half is left, and its owner is owed one notice |
| Lifecycle.OwnerToldOnce | adsbus/send_receive.c:31-43 | the owner of a two-way connection hears nothing of the first half to close and is told once, at the second |
| Lifecycle.FileIdle | adsbus/file.c:71-87 | a closed file that waits has no connection |
| Lifecycle.FileGone | adsbus/file.c:64-87 | a file that gives up leaves nobody reporting to it |
| Lifecycle.FileOwed | adsbus/file.c:89-106 | a file being opened has none yet |
| Lifecycle.OneWayFileCloses | adsbus/file.c:44-87 | when the connection of an opened file closes, the file waits to be opened again if the descriptor was worth it, and is gone otherwise; all else is as before it was opened |
| Lifecycle.TwoWayFileCloses | adsbus/file.c:44-87 | the same for a file both read and written, at the second close |
| Lifecycle.ClosesThenFree | adsbus/send_receive.c:31-35 | what is freed after its owner was told was not freed by that telling |
| Lifecycle.Handle | adsbus/peer.c:101-134 | what each event does, the whole new state for every event, owners included, and that all keep counters and links exact |
| Lifecycle.Lifetime | adsbus/adsbus.c:68-78 | any run, then shutdown and cleanup: counters zero, everything freed exactly once |

## Left out

- adsbus/json.c: parsing and printing are jansson's, and json is not in the model's parser table. A json text begins with neither `*` nor 0x1a, so no airspy, beast or raw stream is read by it; white space may be a line feed, the byte a proto record begins with.
- Decoder.HitExtends: says nothing of the json entry of the table, for that reason.
- Decoder.Unambiguous: says nothing of the json entry.
- Receiving.AutodetectMatches: walks the table without the json entry.
- Receiving.Receive.CallParser: covers the table without the json entry.
- Receiving.Receive.AutodetectParse: walks the table without the json entry.
- Protobuf packing and unpacking (adsbus/adsb.pb-c.c): which message a body unpacks to is a parameter; only the record framing, the header and packet gates and their effects are modelled.
- Translation.TranslationPreservesMeaning: covers sinks of format airspy_adsb, beast and raw only, because what a json or proto sink writes is a library's output. The stream decoded first may be of any modelled format, proto included.
- Sinks.SinkGetsPrefix: takes from the kernel that a socket whose writing side was shut takes nothing more.
- Sending.Relay: sends after all has been received, while the code sends each packet as it is read; the sinks see the same writes in the same order.
- Sending.SendWrite: what json, proto and stats serialize is a parameter.
- Proto.StreamRoundTrip: says nothing of the 256-byte buffer or the receive loop, which ProtoStream adds.
- Proto.ParseFrame: does not model that the last message parsed is kept allocated for the packet that points into it (`proto_prev`); packets own their identifiers here.
- Sockets, epoll and the always-trigger list, signals, fork and exec, getaddrinfo, the wakeup delays: replaced by what they may answer, in any order.
- Lifecycle.Bus.TransportNew: incoming, outgoing and exec transports are modelled only as holders of a flow reference until cleanup; their reconnecting is not.
- Lifecycle.Bus.FlowRefInc: the counters are unbounded, so 2^32 references are not modelled.
- Lifecycle.Lifetime: structures are kept in maps by identity, not in the lists that Lists models; the order in which a cleanup visits them is left open.
- WsHub.StepKeeps: goroutines and channels are a state machine whose steps are single channel operations, not classes, so that all interleavings can be quantified over; the websocket writes and the adsbus side of the pipe are reduced to succeeding or failing.
- Flooding.EndlessIff: a network's copies in flight are values, and links do not come or go during a run; lost copies and failed sinks are covered by letting a hub leave out any of its links.
- adsbus/opts.c, log.c, server.c, stats.c, stdinout.c and the floating-point rates of sourcestats.py: plumbing, or only easy members.
