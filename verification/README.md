# The packet tunnel, modelled and proved

A model, in Dafny, of the data path of a layer 2 tunnel: ethernet frames go in at one end, are packed
into UDP packets of bounded size, split where they do not fit, optionally compressed as a stream, and
come out at the other end of a network that may lose, repeat or reorder packets. The model covers the
packet encoder and decoder with the buffers and pools they work on, the threads that drive them, the
sizes a tunnel is configured with, and the Internet checksum. `dafny verify dfyconfig.toml` checks it.

## How it is built

There are two levels, joined by contracts.

**Transitions on values.** `Bytes` and `Wire` give the octets of headers and records; `EncoderSpec` and
`DecoderSpec` give each step of the two ends as a function from a state and an input to a state and an
output. `Compression` sees a codec as a pair of functions of a history (the frames since the last reset)
and an input. On these functions stand the main theorems:

- `Reassembly`: the loop over the octets of a packet does what a fold over its records does, whatever the
  buffer holds after the packet; what every reachable decoder state satisfies whatever octets arrive.
- `Turns`: the record loop read turn by turn, with its 16-bit position; when exactly it comes back.
- `Provenance`: for any octets whatever, what a frame that is handed up is made of.
- `Inspection`: the checks of the decoder and each turn of its loop in octets and plain numbers: which packets
  and records are refused, what that does to the state, and what is taken.
- `Sending`: what one call of the encoder sends, in which records, and when a packet goes out.
- `Packing`, `Layout`, `Splitting`: what the encoder keeps between calls, what every packet it emits
  looks like, where the parts of a frame lie, and how a frame is cut.
- `RoundTrip`, `Runs`: encoder and in-order decoder stay in step, at every iteration of the split loop,
  every call and every flush; whole runs give back exactly the frames that were accepted.
- `SequenceNumbers`: packet numbers over runs of any length, and when the decoder gives a frame up.
- `LossyNetwork`, `Delivery`: exactly which frames come up under any deliveries, with any codec: where no
  frame is open at the end of a packet, the decompressors know nothing either, so a packet met after a
  loss is read as it is in order.

**Code on objects.** `Buffers`, `Compressors`, `Encoder` and `Decoder` hold the classes, with the fields,
loops, branches and early returns of the original. Each method is proved to take the abstract state
(`View`) and what has been handed on (`delivered`) where the transition on values takes them; so the
theorems hold of the classes. Each method also says what became of the buffers: `Ownership` states that
no buffer is ever in two places and that the multiset of buffers held (two pools, the in-flight list and
the single slots) grows by the buffer taken in and by what other threads put in while a call waited, and
by nothing else. `RemoteNode` has the two threads, from the construction of their encoder and decoder on,
over the buffers of their pools and under any pattern of wake-ups.

`Configuration` shows that the sizes the theorems ask for (`Sized`) follow from the checks the packet
switch makes. `Checksum` relates the deferred-carry sum to one's complement arithmetic (RFC 1071).

## What was found

- A gap in the packet numbers that straddles their wrap goes unnoticed: the decoder takes any number far
  enough below the last one for the next (`SequenceNumbers.ClearsExactlyWhen`, with the example
  `SequenceNumbers.GapAcrossWrapUnnoticed`), and can make up one frame from parts of two
  (`Provenance.GapMixesFrames`). The result on lossy networks holds for deliveries of which each and the
  next are told apart by their numbers; `SequenceNumbers.ToldApartExactlyWhen` says exactly which are, and
  `SequenceNumbers.WindowToldApart` that all within half the number range are.
- The record loop need not come back. The check of record types looks at the first record only and lets
  type 0 through, and the loop stands still at such a record (`Turns.TypeZeroStalls`); behind other records
  it does so at any even type but 2, if it takes those before and the size is within the MTU
  (`Turns.UnknownTypeStalls`). And the length of a part that is skipped is not checked before it is added to
  the 16-bit position: with the length 0xfff8, part 0 at the start of a packet is skipped onto itself for
  ever, in every state (`Turns.SkippedOntoItself`).
  `Turns.ComesBackExactlyWhen` shows that the verdict Stalled of the model is given exactly where the
  loop of the code, given any number of turns, does not end; `Turns.StalledAtRecord` what records it
  takes, and `Turns.TiledComesBack` that none of the records an encoder writes is one.
- The loop can read a header past the data: of all packets and states, just for those where some number of
  turns leads to less than a record header before the end (`Turns.UnframedExactlyWhen`). There are two ways
  to come there. Fewer octets may follow the records of a packet than a header has, and then a header is
  read past the data if and only if all these records are taken (`Turns.ReadsPastExactlyWhen`; one stray
  octet after a whole frame does it, `Turns.StrayOctet`). Or the length of a part that is skipped takes the
  16-bit position round to the end (`Turns.SkippedToTheEnd`; with the length 0xffff a packet of 16 octets
  does it in every state, `Turns.WrapToTheEnd`). A packet in which neither lies ahead, as can be told from
  its octets alone, is safe in every state (`Turns.ReadsPastAtRecord`). What is read there are octets earlier
  packets left in the buffer. The model has them, and `Turns.PastTheData` shows that nothing is handed up for
  them; only where the buffer itself ends does the model stop, with the verdict Unframed.
- A packet shorter than its header empties the buffer under reassembly but leaves the part number. So an
  empty buffer does not mean a part number of zero, and the next part completes a frame from which the
  parts before are missing, if its size happens to fit (`Provenance.ShortPacketLosesPart`). A frame has
  all octets of its parts if and only if those before the last short packet had none
  (`Provenance.WholeExactlyWhen`).
- For data of an odd length the checksum counts the last octet as a low-order one. The standard makes it
  a high-order one, and the two agree if and only if that octet is zero (`Checksum.OddLength`). For the
  same reason sums over chunks with an odd one among them may differ from the sum over the whole; they
  agree if and only if what is out of place cancels out (`Checksum.ChunksComposeExactlyWhen`,
  `Checksum.TwoChunks`), as it does where only the last chunk is odd.
- The accumulator of the checksum is exact for up to 0x20002 octets; beyond that
  `Checksum.ChecksumIsStandard` says exactly when its overflow does no harm.

## Model

| member | source | states |
|---|---|---|
| `Runs.RoundTripOfRun` | src/encoder.cpp:194-395 | for every list of frames, with flushes anywhere and one at the end, from any packet number and in any format: a fresh decoder that gets the packets in order hands up exactly the frames not over the layer 2 MTU, in order and octet for octet; nothing stays pending on either side |
| `Runs.EveryPrefixRefines` | src/encoder.cpp:26-395 | at every point of a run: decoding what was emitted and then what is pending gives exactly the frames accepted so far, and compressor and decompressor have the same history |
| `Runs.RunInStep` | src/encoder.cpp:194-395 | the two ends stay in step over any run from any state in which they are |
| `Runs.RunAppend` | src/encoder.cpp:194-395 | a run can be cut anywhere without changing what goes out |
| `Runs.FlushAtEnd` | src/encoder.cpp:391-395 | one flush after any run brings every accepted frame across |
| `Runs.PacketsOfRun` | src/encoder.cpp:26-385 | every packet of every run, in octets: 16 of them up to the layer 4 MTU, version 1 and one option, and records of types 1 to 3 that tile it |
| `Runs.TunnelGivesBack` | src/encoder.cpp:194-395 | the same in plain numbers, for every MTU and TX sizes that are let through (1200 <= TX size <= MTU <= 9218, also with two TX sizes), IPv4 or not, each of the three formats, and the states in which the two ends begin |
| `RoundTrip.EncodeInStep` | src/encoder.cpp:194-385 | one call keeps decoder and encoder in step and adds the frame, unless it is over the MTU; covers compressed, uncompressed and failed compression |
| `RoundTrip.PlaceInStep` | src/encoder.cpp:254-366 | a frame placed whole or in parts arrives, or will when the pending packet is sent |
| `RoundTrip.FlushInStep` | src/encoder.cpp:391-395 | a flush brings all pending frames across and resets both histories together |
| `RoundTrip.FormatChangeInStep` | src/encoder.cpp:402-420 | a change of format with nothing in flight leaves the two ends in step |
| `RoundTrip.CompressedCarries` | src/encoder.cpp:216-251 | under equal histories what is sent for a frame decompresses to it, and the histories are equal again afterwards |
| `RoundTrip.SplitStepArrives` | src/encoder.cpp:256-319 | each iteration of the split loop: emitted and pending octets reassemble to the frames before and the prefix of the frame sent so far, or to the frame when that was its last part |
| `RoundTrip.SplitArrives` | src/encoder.cpp:254-327 | the whole split loop: the frame arrives once, and nothing of it is left behind |
| `RoundTrip.PartArrives` | src/decoder.cpp:409-582 | a part in its turn is appended; the last one yields exactly the frame and an empty state |
| `RoundTrip.CompleteArrives` | src/decoder.cpp:304-406 | a whole frame in one record is handed up as it was |
| `RoundTrip.FlushArrives` | src/encoder.cpp:26-56 | the packet sent takes an in-order decoder to where the pending records would |
| `RoundTrip.SequenceReadyKeepsFrame` | src/decoder.cpp:170-202 | the number of the next packet, also the 1 after UINT32_MAX - 1, leaves a half received frame alone |
| `Delivery.LossyDelivery` | src/decoder.cpp:122-591 | for packets of any run, with any codec, delivered in any order, any number of times, each and the next told apart by their numbers: with each delivery come up the whole frames of the packet and the split frame it completes exactly when the deliveries just before were the packets with its other parts, in order; nothing else |
| `Delivery.AnyDeliveries` | src/decoder.cpp:122-591 | so for the first 2^31 - 1 packets of a tunnel, whatever is delivered of them, in any order and any number of times; and every frame that comes up was accepted |
| `Delivery.DeliveriesWithin` | src/util.cpp:117-121 | deliveries are told apart where those of one and the next are within half the number range, in positions and numbers |
| `Delivery.OnlyAccepted` | src/decoder.cpp:122-591 | whatever such a network does, every frame handed up is one the encoder accepted |
| `Delivery.PartsLieInARow` | src/encoder.cpp:254-320 | parts 1 .. n - 1 of a frame are the last records of the n - 1 packets before the one with part n |
| `Delivery.RunFrames` | src/encoder.cpp:194-395 | the frames the packets of a flushed run hold, packet after packet, are the frames accepted |
| `Delivery.StreamFrames` | src/decoder.cpp:286-583 | in order, each packet gives the one frame it completes, if it starts with a last part, and one whole frame for each complete record |
| `Delivery.InOrderFrames` | src/decoder.cpp:286-583 | the same for one packet |
| `Delivery.RunIsStream` | src/encoder.cpp:194-395 | what any run emits meets the conditions of the results on networks |
| `LossyNetwork.OneDelivery` | src/decoder.cpp:122-591 | one delivery in any state a lossy network can lead to |
| `LossyNetwork.PacketBothWays` | src/decoder.cpp:286-590 | a packet met with the parts before it and without them: the frame it completes comes up in the first case only, its whole frames in both, and the states after are equal, histories included, unless it holds a middle part |
| `LossyNetwork.StreakMeaning` | src/decoder.cpp:173-202 | counting deliveries in a row is the same as their being consecutive packets |
| `LossyNetwork.InOrderHolds` | src/decoder.cpp:170-202 | in order, a decoder holds the open frame between packets, and nothing at all, no history either, where none is open |
| `SequenceNumbers.RunNumbered` | src/encoder.cpp:26-45 | over any run the packets are numbered 1 .. UINT32_MAX - 1 cyclically without a gap; 0 and UINT32_MAX are never used |
| `SequenceNumbers.InOrderNeverClears` | src/decoder.cpp:170-202 | in order, across any number of wraps and from any packet, no number makes the decoder clear its state |
| `SequenceNumbers.ClearsExactlyWhen` | src/decoder.cpp:173-202 | exactly which packet numbers make the decoder give up a half received frame |
| `SequenceNumbers.GapAcrossWrapUnnoticed` | src/util.cpp:117-121 | an example of five lost packets across the wrap that go unnoticed |
| `SequenceNumbers.WindowClears` | src/util.cpp:117-121 | within half the number range the decoder keeps its state for the next packet and for no other |
| `SequenceNumbers.ToldApartExactlyWhen` | src/decoder.cpp:173-202 | exactly for which two packets of a stream the decoder tells whether the second is the next |
| `SequenceNumbers.WindowToldApart` | src/util.cpp:117-121 | so it does for all within half the number range |
| `Reassembly.LoopIsFeed` | src/decoder.cpp:286-583 | on octets written from records the record loop does what a fold over the records does, whatever lies after them in the buffer: parser and printer agree |
| `Reassembly.LoopFeeds` | src/decoder.cpp:286-583 | with more octets after the records, it goes on after the last with what the fold leaves |
| `Reassembly.DecodeIsDecodeRecords` | src/decoder.cpp:122-591 | a packet as an encoder writes it passes all checks and is decoded record by record, in any buffer |
| `Reassembly.DecodeIgnoresPast` | src/decoder.cpp:286-583 | what a buffer holds after the data matters only to a loop that reads past the data |
| `Reassembly.InBuffers` | src/decoder.cpp:122-591 | so what is proved of packets of data holds of them in buffers with any contents after them |
| `Reassembly.RecordStepKeeps` | src/decoder.cpp:287-583 | a record keeps the state consistent, hands up at most one frame, of the size it declares and only if it completes one; and the loop stands still at it exactly if its type is even and not COMPLETE and its size within the MTU |
| `Reassembly.DecodeKeeps` | src/decoder.cpp:122-591 | whatever octets arrive in whatever buffer, also after the position wrapped: part number 0 means an empty buffer, a pending uncompressed frame is never longer than declared, and every frame handed up is within the layer 2 MTU and of a size declared by a record that completes a frame |
| `Reassembly.DecodeAllKeeps` | src/decoder.cpp:122-591 | the same over any sequence of packets |
| `Reassembly.LastRecordFlushes` | src/decoder.cpp:284-590 | the decompressors are reset at the end of a packet just when its last record is a complete one |
| `Reassembly.FeedAppend` | src/decoder.cpp:286-583 | records can be taken in two goes |
| `Reassembly.DecodeAllAppend` | src/decoder.cpp:122-591 | packets can be taken in two goes, also where some are dropped |
| `Turns.ComesBackExactlyWhen` | src/decoder.cpp:286-583 | the record loop of the code, with its 16-bit position, does not end in any number of turns exactly where the model says Stalled; and where it ends, it has done what the model says |
| `Turns.StalledAtRecord` | src/decoder.cpp:304-582 | the loop comes back, in every state, unless following the lengths there is a record of a type neither partial nor complete, or a part whose length takes the position round |
| `Turns.TiledComesBack` | src/decoder.cpp:286-583 | the record loop ends for every packet that records of types 1 to 3 tile, in every state |
| `Turns.WrittenIsTiled` | src/codec.hpp:75-116 | the records an encoder writes tile their packet |
| `Turns.TiledCannotStall` | src/decoder.cpp:286-583 | in such a packet there is nothing that could keep the loop |
| `Turns.TypeZeroStalls` | src/codec.hpp:81-84 | every accepted packet whose first record has type 0 stops the decoder, in every state, if and only if the record declares a size within the MTU |
| `Turns.SkippedOntoItself` | src/decoder.cpp:461-582 | an accepted packet whose first record is a part of length 0xfff8 stops the decoder if and only if that part is within the MTU, is not part 1, and is skipped in the state it meets; part 0 is in every state |
| `Turns.UnknownTypeStalls` | src/decoder.cpp:232-583 | behind other records, a record of any even type but COMPLETE stops the decoder if and only if the records before it are taken and its size is within the MTU, or they stop it themselves |
| `Turns.UnframedExactlyWhen` | src/decoder.cpp:286-583 | for all packets and states: a header is read outside the octets there are if and only if the loop of the code comes, after some turns, to less than a header before their end |
| `Turns.ReadsPastAtRecord` | src/decoder.cpp:287-582 | for all packets, in every state: where a header is read past the data, there is, following the lengths, less than a header left, or a part within the MTU whose length takes the position round |
| `Turns.WrittenIsSafe` | src/decoder.cpp:287-582 | nothing of that kind lies ahead in the records an encoder writes |
| `Turns.ReadsPastExactlyWhen` | src/decoder.cpp:287-293 | of packets that are records and fewer octets after them than a header has: a header is read past the data if and only if all the records are taken |
| `Turns.SkippedToTheEnd` | src/decoder.cpp:461-582 | of accepted packets whose first record is a part whose length takes the position round to less than a header before the end: a header is read past the data if and only if that part is within the MTU and is skipped in the state it meets; part 0 is in every state |
| `Turns.WrapToTheEnd` | src/decoder.cpp:579-581 | an example in 16 octets: the length 0xffff, in every state |
| `Turns.PastTheData` | src/decoder.cpp:287-582 | what is read past the data leads to no frame, and leaves nothing under reassembly |
| `Turns.StrayOctet` | src/decoder.cpp:287-293 | an example: a whole frame and one octet more |
| `Provenance.EveryFrameIsTraced` | src/decoder.cpp:122-591 | whatever octets arrive in whatever buffers: a frame handed up was one record, or its parts are the last records seen, numbered 1 to n with nothing between them and all declaring its size and format; it is what their octets read as, of those that came after the last short packet, when the decompressors know the last frames handed up before |
| `Provenance.DecodeTraced` | src/decoder.cpp:122-591 | one packet, of any octets, keeps the frame under reassembly made of the last records seen |
| `Provenance.LoopTraced` | src/decoder.cpp:286-583 | the same for the record loop, through skipped, cut-off and dropped records and where its position wraps |
| `Provenance.StepTraced` | src/decoder.cpp:304-582 | the same for one record: a part out of turn or at odds with those before never gets into a frame |
| `Provenance.KeptAllExactlyWhen` | src/decoder.cpp:126-131 | the last records have all their octets kept if and only if those before the last short packet have none |
| `Provenance.WholeExactlyWhen` | src/decoder.cpp:126-131 | a frame handed up in parts was read from all their octets, and uncompressed is all of them, if and only if no octet of a part came before the last short packet |
| `Provenance.GapMixesFrames` | src/util.cpp:117-121 | an example of a gap across the wrap after which parts of two frames come up as one |
| `Provenance.ShortPacketLosesPart` | src/decoder.cpp:126-131 | an example of a short packet that costs a frame its first part without being noticed |
| `Wire.HeaderInverts` | src/codec.hpp:42-62 | the header of a packet reads back as it was written |
| `Wire.RecordInverts` | src/codec.hpp:109-116 | a record at the start of a body reads back, header and payload, and the rest of the body follows it |
| `Wire.ReadOptionInverts` | src/codec.hpp:109-116 | the fields of a record header read back as they were written, wherever it lies |
| `Wire.BodyBytesSize` | src/codec.hpp:109-116 | the octets written for records are as many as the size computed for them |
| `Wire.RecordLaidOut` | src/codec.hpp:109-116 | each octet of a record: type, size of the frame in two octets, format, length of the payload in two, part, 0, then the payload |
| `Wire.OptionLaidOut` | src/codec.hpp:109-116 | which octets each field of a record header is read from, for any octets |
| `Wire.PacketLaidOut` | src/codec.hpp:42-62 | each octet of a packet header: version 1, one option if there are records, no flags, format 1, channel 0, the number with its high octet first; then the records |
| `Wire.RecordLiesAt` | src/codec.hpp:109-116 | each record of a packet begins right behind those before it, and the last ends the packet |
| `Wire.TypesAndFormats` | src/codec.hpp:75-107 | the numbers of the types and formats, and which bits make a type a part, complete, or unknown |
| `Sending.EncodeSends` | src/encoder.cpp:211-384 | a frame within the MTU: it goes out as what the codec makes of it, or as it is where the format is NONE or the codec fails; whole if it fits the pending packet, else in at least two numbered parts; a packet goes out if and only if less than 88 octets of room would be left, none that goes out has as much room, and all but the last are full; the compressor keeps its history, the frame added if it was compressed, if and only if nothing went out |
| `Sending.TooBigNotSent` | src/encoder.cpp:204-209 | a frame over the MTU changes nothing |
| `Sending.FlushSends` | src/encoder.cpp:26-56 | a flush sends all that is pending in one packet, or nothing if nothing is, and the compressor begins anew |
| `Inspection.ShortPacketRefused` | src/decoder.cpp:126-131 | less than 8 octets: the buffer is emptied, all else stays, also the part number |
| `Inspection.HeaderRefused` | src/decoder.cpp:138-168 | a version above 1, a reserved bit, a format but 1 or a channel: nothing comes up, the state is cleared, and the number of the packet is not looked at |
| `Inspection.HeaderTaken` | src/decoder.cpp:170-202 | with any other header the last number is that of the packet, whatever follows |
| `Inspection.OptionsRefused` | src/decoder.cpp:204-281 | an option count but 1, an option cut off, with its reserved octet set or of a type above 3: nothing comes up and the state is cleared |
| `Inspection.OptionsTaken` | src/decoder.cpp:283-590 | every other packet goes through the record loop from octet 8 on, after which the decompressors are reset if the loop says so |
| `Inspection.TooBigRefused` | src/decoder.cpp:295-301 | a record of a frame over the layer 2 MTU: the rest of the packet is given up and the state cleared |
| `Inspection.WholeFrameTurn` | src/decoder.cpp:304-406 | a whole frame, in octets: exactly when it is handed up, how its format is read, what the decompressors know then, and where the next record is looked for |
| `Inspection.PartOutOfTurn` | src/decoder.cpp:420-463 | a part that is not the next one, or of another size or format: skipped by its length modulo 2^16, and what was under reassembly is forgotten |
| `Inspection.PartInTurn` | src/decoder.cpp:464-577 | a part in its turn, in octets: exactly when it is taken, when it completes the frame, and when the frame is handed up |
| `Inspection.OtherTypeStays` | src/decoder.cpp:304-582 | a record of any other type leaves the loop where it is |
| `Packing.EncodePacks` | src/encoder.cpp:194-385 | between calls the pending packet has room for 88 octets of payload and, when empty, a fresh compressor; every packet emitted holds at least one record, is announced by one option header and is within the layer 4 MTU |
| `Packing.PlacePacks` | src/encoder.cpp:254-366 | a frame placed whole or in parts leaves a pending packet within the layer 4 MTU, and packets that may go out |
| `Packing.FlushPacks` | src/encoder.cpp:391-395 | the same after a flush |
| `Packing.SplitPacks` | src/encoder.cpp:254-320 | every packet the split loop emits is filled to exactly the layer 4 MTU |
| `Splitting.SplitIntoParts` | src/encoder.cpp:254-320 | the parts of a frame are numbered without a gap, only the last carries the COMPLETE bit, their payloads make up the frame, the packets emitted are full, and there are no more parts than can be needed |
| `Layout.RunOrderly` | src/encoder.cpp:194-395 | in every run the packets are laid out so that each part of a frame but the first starts its packet, and each but the last ends it |
| `Layout.SplitOrderly` | src/encoder.cpp:254-320 | the split loop leaves the parts in that order, and no frame open |
| `Layout.EncodeOrderly` | src/encoder.cpp:194-385 | one call keeps that order |
| `EncoderSpec.SplitStepRoom` | src/encoder.cpp:256-319 | an iteration of the split loop takes at least one octet, and unless it takes the last it sends the packet |
| `Configuration.ConfiguredExactlyWhen` | src/packet_switch.cpp:31-76 | just the sizes with 1200 <= TX size <= MTU <= 9218 are let through; for the others, exactly which of the five errors is given; and the sizes that follow |
| `Configuration.ConfiguredMatches` | src/packet_switch.cpp:31-76 | two ends with the same MTU meet what the results on both ends ask for, with any TX sizes, formats and codecs that can be undone |
| `Configuration.ConfiguredIsSized` | src/packet_switch.cpp:31-76 | for 1200 <= TX size <= MTU <= 9218 the layer 4 MTU is below the buffer size, and no write of the encoder can go over the end of a buffer |
| `Configuration.TenPartsSuffice` | src/packet_switch.cpp:31-76 | no frame, compressed or not, needs more than ten parts, wherever the pending packet stands; so the 8-bit part number never wraps |
| `Configuration.L4Mtu` | src/remote_node.cpp:34-43 | the octets left of the TX size below the IP and UDP headers, in 16 bits |
| `Encoder.PacketEncoder.constructor` | src/encoder.cpp:155-177 | an encoder with the codecs passed in, ready for a frame: a buffer for the compressor and one for its first packet, numbered 1, both from the pool or just arrived there |
| `Encoder.PacketEncoder.Encode` | src/encoder.cpp:194-385 | state and packets sent are those of the transition on values; the invariant holds; the buffers held grow by exactly the one taken |
| `Encoder.PacketEncoder.Flush` | src/encoder.cpp:391-395 | state and packets are those of the transition; nothing is pending and no buffer in flight; no buffer is gained or lost |
| `Encoder.PacketEncoder.FlushPending` | src/encoder.cpp:26-56 | the pending packet, if it holds a record, goes out under its number, and a new one begins |
| `Encoder.PacketEncoder.WriteHeader` | src/encoder.cpp:31-45 | the packet reads as header and records, with the number UINT32_MAX replaced by 1 |
| `Encoder.PacketEncoder.GetTxBuffer` | src/encoder.cpp:62-72 | a packet begins as a blank header with both counters 0, in the first buffer available |
| `Encoder.PacketEncoder.GetMaxPayloadSize` | src/encoder.cpp:80-104 | the room left for the payload of one more record, 0 when there is none |
| `Encoder.PacketEncoder.FlushInflight` | src/encoder.cpp:110-134 | the in-flight buffers go back in order and the compressor is reset; with none in flight it has no history anyway |
| `Encoder.PacketEncoder.PutRecord` | src/encoder.cpp:272-298 | one record more in the pending packet, octets and counters in agreement; neither setDataSize nor append throws |
| `Encoder.PacketEncoder.MarkLast` | src/encoder.cpp:303-309 | sets the COMPLETE bit of the record written last and nothing else |
| `Encoder.PacketEncoder.PutPart` | src/encoder.cpp:262-320 | one iteration of the split loop does what its transition says |
| `Encoder.PacketEncoder.PutParts` | src/encoder.cpp:254-320 | the split loop does what the recursive transition says |
| `Encoder.PacketEncoder.Prepare` | src/encoder.cpp:211-251 | if the format asks for it and the codec succeeds, what it gives is left in hand, in the buffer of the compressor, and the raw buffer joins those in flight; else the raw buffer is sent as it is, as NONE |
| `Encoder.PacketEncoder.TakeCompressed` | src/encoder.cpp:218-234 | the history of the compressor is that of the raw buffers in flight |
| `Encoder.PacketEncoder.PutFrame` | src/encoder.cpp:254-366 | whole if it fits, else in parts, after which the in-flight buffers go back |
| `Encoder.PacketEncoder.FlushIfFull` | src/encoder.cpp:368-376 | packet and in-flight buffers go if and only if less than 88 octets of room are left; else nothing changes |
| `Encoder.PacketEncoder.PutAway` | src/encoder.cpp:378-384 | the buffer in hand ends in exactly one place: with the compressor or in the pool |
| `Encoder.PacketEncoder.Refuse` | src/encoder.cpp:204-209 | the buffer of a frame over the MTU goes straight back |
| `Encoder.PacketEncoder.SetPacketFormat` | src/encoder.cpp:402-420 | makes a new compressor of the format, with no history, and fails for a format it does not know; where nothing is in flight the invariant is kept |
| `Encoder.PacketEncoder.SetSequence` | src/encoder.hpp:85-88 | sets the number of the next packet and nothing else |
| `Encoder.PacketEncoder.Enqueue` | src/encoder.cpp:31-52 | the pending packet goes to the socket pool, at its end, with its header filled in |
| `Encoder.PacketEncoder.FlushAll` | src/encoder.cpp:391-395 | packet out, in-flight buffers back, compressor reset |
| `Encoder.PacketEncoder.WritePart` | src/encoder.cpp:262-309 | the next part, as long as the room allows, marked complete if it is the last |
| `Encoder.PacketEncoder.SendInHand` | src/encoder.cpp:254-376 | the frame in hand is placed, and the packet sent if that left little room |
| `Encoder.PacketEncoder.Accept` | src/encoder.cpp:211-384 | all of a call but the check of the size |
| `Decoder.PacketDecoder.constructor` | src/decoder.cpp:87-106 | a fresh decoder with the codecs passed in, a buffer to decompress into and one for its first frame, both from the pool or just arrived there |
| `Decoder.PacketDecoder.Decode` | src/decoder.cpp:122-591 | for any octets, and any after them in the buffer: verdict, state and frames handed up are those of the transition on values; the invariant holds; the buffers held grow by exactly the one taken; the packet is kept in flight, last, unless nothing is, and as long as a decompressor has seen anything, packets are |
| `Decoder.PacketDecoder.DecodeBody` | src/decoder.cpp:170-591 | number, options and records, after a header that is accepted |
| `Decoder.PacketDecoder.DecodeRecords` | src/decoder.cpp:283-590 | the records, and then the packet is kept in flight or let go of with those kept before, as the last record says |
| `Decoder.PacketDecoder.RunRecords` | src/decoder.cpp:284-583 | the record loop does what the recursive transition says, also where its position wraps and where it reads past the data |
| `Decoder.PacketDecoder.DecodeRecord` | src/decoder.cpp:287-583 | one turn of the loop |
| `Decoder.PacketDecoder.TakeWhole` | src/decoder.cpp:339-403 | a whole frame is read and, if it is as long as declared, handed up; else the packet is given up |
| `Decoder.PacketDecoder.CompleteRecord` | src/decoder.cpp:304-406 | a whole frame in one record: all error branches, the reset of a half received frame, the hand-over |
| `Decoder.PacketDecoder.PartialRecord` | src/decoder.cpp:409-582 | a part of a frame: the four reasons to skip it, the three to drop the packet, the append and the last part |
| `Decoder.PacketDecoder.FinishFrame` | src/decoder.cpp:504-569 | the last part: handed up if it decompresses to the declared size, and no buffer stays in flight |
| `Decoder.PacketDecoder.SwapIn` | src/decoder.cpp:541-546 | the two buffers change roles, and none is lost or doubled |
| `Decoder.PacketDecoder.FollowSequence` | src/decoder.cpp:181-202 | what the packet number does to the frame under reassembly |
| `Decoder.PacketDecoder.ScanOptions` | src/decoder.cpp:204-281 | the loop over option headers accepts exactly one header, complete, unreserved and of a known type |
| `Decoder.PacketDecoder.EndPacket` | src/decoder.cpp:585-590 | the packet joins those in flight, which go back if nothing needs them |
| `Decoder.PacketDecoder.HandUp` | src/decoder.cpp:397-403 | the frame goes to the pool above, its buffer with it, and an empty one takes its place |
| `Decoder.PacketDecoder.Refuse` | src/decoder.cpp:126-131 | a packet too short for a header goes back; the buffer is emptied, the part number stays |
| `Decoder.PacketDecoder.ClearState` | src/decoder.cpp:22-29 | forgets the frame under reassembly, leaving the decompressors alone |
| `Decoder.PacketDecoder.GetTxBuffer` | src/decoder.cpp:35-39 | the first buffer available, emptied |
| `Decoder.PacketDecoder.FlushInflight` | src/decoder.cpp:45-59 | the in-flight buffers go back and both decompressors are reset |
| `Decoder.PacketDecoder.PushInflight` | src/decoder.cpp:66-70 | the packet joins those in flight |
| `Decoder.PacketDecoder.ClearStateAndFlushInflight` | src/decoder.cpp:72-78 | after an error: an empty state, nothing in flight, the packet back in the pool |
| `Decoder.PacketDecoder.SetLastSequence` | src/decoder.hpp:73-76 | sets the number received last and nothing else |
| `Decoder.PacketDecoder.ClearAndFlush` | src/decoder.cpp:181-202 | in the middle of a packet: an empty state and nothing in flight, the packet still in hand |
| `Decoder.PacketDecoder.CheckSequence` | src/decoder.cpp:170-202 | number of the first packet and of every other: the state after is that of the transition |
| `Decoder.PacketDecoder.Decompress` | src/decoder.cpp:346-372 | uses the decompressor of the format, under its own history |
| `Decoder.PacketDecoder.LoadComplete` | src/decoder.cpp:339-385 | the payload of a complete record, decompressed if its format asks for it, is in the buffer, or cannot be read |
| `Decoder.PacketDecoder.LoadWhole` | src/decoder.cpp:506-546 | what was put together from parts, decompressed if its format asks for it, is in the buffer, or cannot be read |
| `Decoder.PacketDecoder.AppendTx` | src/decoder.cpp:498-501 | adds to the frame under reassembly; append does not throw |
| `Decoder.PacketDecoder.Discard` | src/decoder.cpp:296-301 | gives up the rest of the packet |
| `Buffers.Buffer.Append` | src/libaccl/buffer.hpp:79-87 | adds at the end if there is room, else changes nothing and fails |
| `Buffers.Buffer.SetDataSize` | src/libaccl/buffer.hpp:115-121 | fails beyond the size of the buffer |
| `Buffers.Buffer.Clear` | src/libaccl/buffer.hpp:127-127 | no data |
| `Buffers.BufferPool.Filled` | src/libaccl/buffer_pool.hpp:66-72 | a pool of that many new, distinct, empty buffers of one size |
| `Buffers.BufferPool.PopCount` | src/libaccl/buffer_pool.hpp:81-105 | takes the first buffers, up to a count or all, and leaves the rest in order; first in, first out |
| `Buffers.BufferPool.Pop` | src/libaccl/buffer_pool.hpp:113-121 | takes the first buffer, or fails when there is none |
| `Buffers.BufferPool.PopWait` | src/libaccl/buffer_pool.hpp:140-148 | takes the first buffer, of the pool or of what arrives |
| `Buffers.BufferPool.Push` | src/libaccl/buffer_pool.hpp:156-167 | puts a buffer of the right size at the end, else changes nothing and fails; first in, first out |
| `Buffers.BufferPool.PushAll` | src/libaccl/buffer_pool.hpp:175-192 | puts all buffers in at the end in their order, or none of them when one is of the wrong size |
| `Buffers.BufferPool.WaitFor` | src/libaccl/buffer_pool.hpp:240-263 | takes all there is or comes, and reports a timeout only for a wait with a limit |
| `Compressors.StreamCompressor.Compress` | src/libaccl/stream_compressor_lz4.cpp:36-40 | a result of the codec under the history so far, to which the frame is added; a failure leaves it as it was |
| `Compressors.StreamCompressor.Decompress` | src/libaccl/stream_compressor_lz4.cpp:42-46 | the same for the other direction |
| `RemoteNode.NothingStranded` | src/remote_node.cpp:113-184 | where the encoder thread has ended as EncoderThread says and waits without limit, a decoder thread that got what was sent, in order and in any buffers, comes back from every packet and has handed up every frame accepted, and nothing else |
| `RemoteNode.EncoderThread` | src/remote_node.cpp:144-184 | from the construction of the encoder on, in any format: what went out is that of a run from the initial state over the frames that were waiting, those that came and the timeouts; it goes through the script up to where two waits in a row time out, as only the first of the two has a limit; whenever it waits without limit nothing is pending and nothing in flight; and over the whole run the buffers held are those of the two pools and those that came, none lost or doubled |
| `RemoteNode.AllFramesTaken` | src/remote_node.cpp:157-184 | the frames such a run accepts are those that were waiting and those that came, in order, but for those over the layer 2 MTU |
| `RemoteNode.NewEncoder` | src/remote_node.cpp:147-151 | a ready encoder in the format of the tunnel, for every format it knows |
| `RemoteNode.EncoderHandler` | src/remote_node.cpp:157-184 | the same for an encoder in any state, over the buffers of its pool and under any pattern of wake-ups |
| `RemoteNode.WaitAndEncode` | src/remote_node.cpp:165-183 | one wait on the pool: what is in stock, or comes, is encoded and the next wait is for 1 ms; a timeout is a flush, and the next wait is without limit |
| `RemoteNode.AfterWait` | src/remote_node.cpp:166-183 | what follows a wait, and which wait is next |
| `RemoteNode.TakeFrames` | src/remote_node.cpp:176-180 | the buffers of one wake-up are encoded in order, and all are held afterwards |
| `RemoteNode.TakeFrame` | src/remote_node.cpp:176-178 | one buffer, encoded; other buffers stay out of it |
| `RemoteNode.FlushOnTimeout` | src/remote_node.cpp:166-168 | after a timeout nothing is pending and nothing in flight; no buffer is gained or lost |
| `RemoteNode.DecoderThread` | src/remote_node.cpp:113-134 | from the construction of the decoder on: what it hands up is what a new decoder gives for the packets one after the other, through dropped ones; it goes through all unless the record loop does not come back for one; and over the whole run the buffers held are those of the two pools and those it took, none lost or doubled |
| `RemoteNode.DecoderHandler` | src/remote_node.cpp:120-134 | the same for a decoder in any state, over the buffers of its pool |
| `RemoteNode.WaitAndDecode` | src/remote_node.cpp:126-133 | one wait on the pool, and the packets it brings |
| `RemoteNode.TakePackets` | src/remote_node.cpp:130-132 | the packets of one wake-up, in order, unless the decoder does not come back from one |
| `RemoteNode.TakePacket` | src/remote_node.cpp:130-132 | one buffer, decoded; other buffers stay out of it |
| `Checksum.ComputePartial` | src/libsethnetkit/checksum.cpp:10-23 | the accumulator is the sum of the big-endian words, the trailing octet and the start value, modulo 2^32 |
| `Checksum.ComputeFinalize` | src/libsethnetkit/checksum.cpp:25-31 | the fold ends, and gives the complement of the number up to 0xffff congruent to the sum, 0 only for 0 |
| `Checksum.Compute` | src/libsethnetkit/checksum.cpp:33-36 | the checksum of the first octets of a buffer |
| `Checksum.ChecksumIsStandard` | src/libsethnetkit/checksum.cpp:10-36 | the result is the complement of the sum with end-around carry at every step, if and only if the overflow of the accumulator leaves no trace |
| `Checksum.ChecksumOfExample` | src/libsethnetkit/checksum.cpp:10-36 | the example of section 3 of RFC 1071 |
| `Checksum.ChecksumOfSmall` | src/libsethnetkit/checksum.cpp:33-36 | so it is for up to 0x20002 octets |
| `Checksum.OnesSumIsFold` | src/libsethnetkit/checksum.cpp:25-31 | adding the carries in at the end is the same as adding them at every step |
| `Checksum.ChunksComposeExactlyWhen` | src/libsethnetkit/checksum.cpp:10-23 | sums handed on over chunks of any lengths equal the sum over the whole if and only if what the odd chunks put out of place cancels out modulo 2^32 |
| `Checksum.ChunksCompose` | src/libsethnetkit/checksum.cpp:10-23 | so they do where all chunks but the last are of even length |
| `Checksum.TwoChunks` | src/libsethnetkit/checksum.cpp:10-23 | for an odd chunk and one after it: if and only if the alternating sum of the octets from the last of the first on is 0 modulo 2^32 |
| `Checksum.WordSumSlips` | src/libsethnetkit/checksum.cpp:10-23 | by how much the sum over a chunk and the rest differs from the two sums |
| `Checksum.OddChunkDoesNotCompose` | src/libsethnetkit/checksum.cpp:18-20 | an example of an odd chunk that does not |
| `Checksum.OddChunkComposes` | src/libsethnetkit/checksum.cpp:18-20 | and of one that does |
| `Checksum.OddLength` | src/libsethnetkit/checksum.cpp:18-20 | for odd lengths the code agrees with the standard if and only if the last octet is zero |
| `Checksum.SelfCheck` | src/libsethnetkit/checksum.cpp:33-36 | data of any length whose checksum is stored in a field that was zero, at an even offset, has checksum 0 |
| `Checksum.ChangedWord` | src/libsethnetkit/checksum.cpp:33-36 | of data of any length with checksum 0, exactly which changes of one word leave it 0: one zero for the other, but for two values of the accumulator |

## Left out

- Encoder.PacketEncoder.SetPacketFormat: with buffers in flight the invariant is not promised, because the history of the new compressor is then not that of the buffers kept, and the decoder has another. The program sets the format once, right after construction.
- Buffers.BufferPool.PopWait: the wait ends with a buffer in the pool. That another thread has put one in is modelled by a new buffer of the pool's size (recorded in `arrived`); spurious wake-ups, on which the original takes the front of an empty pool, and that a wait ever ends, are not modelled.
- Buffers.BufferPool.Push: the notification of waiting threads and the locks; each call is one atomic step.
- RemoteNode.EncoderHandler: what other threads do is a list of wake-ups of any length, and each buffer comes in once: one that goes round through the pools and comes in again is a new buffer here. Buffers put in while the thread is at work count as coming with its next wake-up. The stop flag and the start of a thread are not modelled: the thread ends where the list does, or where it waits without limit and nothing more comes.
- RemoteNode.DecoderHandler: the same; and it ends where the original would not come back from its record loop, or would read outside the buffer.
- Decoder.PacketDecoder.Decode: the source address that goes up with a frame; and what the original reads outside the buffer, which only a packet that fills its buffer up to less than a record header can lead to (verdict Unframed).
- Turns.ComesBackExactlyWhen: for data of up to 0xfff7 octets. The buffers of every configuration are smaller (Configuration.ConfiguredIsSized); in larger ones the position of a payload would wrap, too.
- Decoder.PacketDecoder.constructor: the last packet number, which the original leaves uninitialised, is 0; nothing depends on it before the first packet.
- Delivery.LossyDelivery: nothing is said of deliveries after one that the packet numbers do not tell from the next of the one before.
- Configuration.L4Mtu: whether the address of the other end is an IPv4 one is a parameter.
- Checksum.Compute: a negative count.
- Buffers.Buffer.Append: the content, a vector in the original, is a sequence in a field; the copy and the data pointer are modelled by replacing part of it.
- Wire.HeaderInverts: which nibble of the first octet holds the version. The macros that decide it are not part of this model; writer and reader use the same layout and nothing depends on which it is.
- LZ4 and ZSTD themselves: the codec is any pair of functions with bounded results (`Bounded`) and, for the round trips, with decompression undoing compression under the same history (`Inverse`). A failed compression (result 0) leaves the history as it was; error results of ZSTD, which are not 0, are not modelled. LZ4's dependence on the raw buffers staying in place is the invariant that the history is that of the buffers in flight.
- Statistics, logging, assertions for unit tests, hex dumps: no effect on the data path.
- Sockets, the TAP device, threads and their priorities, signals, parsing of the configuration, address conversion: input and output.
- The forwarding table and the switching loops of the packet switch: a plain map with shallow rules.
- The builders for IP, ICMP, TCP and UDP packets: setters and serializers without parsers, so no round trip; only the checksum they share is modelled.
