# Verified models of the RTP-to-FLV capture library

This project models, in Dafny, the parts of the capture library that carry media bytes, and proves what they keep:

- **MPEG-TS** (`Ts*.dfy`). `TsWire`, `TsPsi` and `TsRun` say what `SrsTsContext::encode` writes: packets of 188 bytes with
  stuffing, counters, PES headers, 33-bit times and CRC-protected PAT and PMT. `TsParse` and `TsDemux` say what `decode`
  makes of any bytes. `TsReassembly` and `TsRun` prove that every run of the muxer, decoded packet by packet, gives back
  what was sent; `TsPacking` and `TsCounters` count packets and counters; `TsRouting` says which PID carries which codec
  and what announces it; `TsLoss` what becomes of a message when packets are lost; `TsStrict` reads the written bytes
  strictly, and says which bytes of any muxer are accepted. `TsMuxer`, `TsReaders` and `TsContext` hold the classes and
  methods, each proved equal to these functions. `Crc32` proves the table-driven CRC.
- **AMF0** (`Amf0.dfy`, `Amf0Lenient.dfy`, `Amf0Stream.dfy`). The value tree, its writer, its size predictor and its
  reader with the object-end look-ahead at value positions; exactly which values round-trip; what it makes of bytes it
  never writes; the property table and the stream methods.
- **RTP to FLV** (`RtpClock.dfy`, `RtpDump.dfy`, `RtpDumpFile.dfy`, `RtpFits.dfy`, `RtpPlayer.dfy`, `Flv.dfy`,
  `FlvFile.dfy`, `FlvAggregate.dfy`). Camera detection, FU-A reassembly, frame aggregation, timestamp rebasing, the fixed
  buffers over whole runs, FLV tags, the batched writer with its caches, reading the file back as a player does, and
  splitting an RTMP aggregate.
- **H.264 framing** (`RawAvc.dfy`, `AnnexB.dfy`, `Ibmf.dfy`, `Emulation.dfy`, `RawFrames.dfy`). The AVC sequence header, start
  codes, length prefixes and the format guess, emulation-byte removal, and the SPS/PPS state machine of the publisher.
- **Buffers** (`Bytes.dfy`, `KernelStream.dfy`, `FastBuffer.dfy`, `Base64.dfy`). The byte cursor under all codecs, the receive
  buffer against a byte queue, and base64.
- **Hand-off** (`HandOff.dfy`, `HandOffAlone.dfy`). Receiving threads, the capture thread, additions and deletions as
  interleaved steps over the locks, the lists and the block pool. A push may be under way when a deletion of its session
  starts, and may start while the deletion runs; what is left to the caller is that no push gets the list of a session
  that has left the vector. `HandOffAlone` says what each operation does when it runs undisturbed.

Code that updates fields or moves cursors is a class or a method with loops, proved against a function; what the program
is for is proved about that function. `SrsStream::require` and the other assertions of the source are preconditions.
A byte is an `int` from 0 to 255; `Signed16`, `Signed32` and explicit masks stand for the widths of the source.

Where the proofs found that a promise does not hold for all inputs, the exact condition is proved:

- AMF0: a value round-trips if and only if no text or key is longer than 32767 bytes and no number starts with the bytes 00 09
  (`Amf0.RoundTripsExactlyWhenRepresentable`).
- A message of unannounced length that lost packets is still delivered, with a hole of 16, 32, ... packets, exactly when the
  counter behind the gap follows or reads as old; packets that read as old are dropped until one follows, and so is the start
  of the next message when it is among them (`TsLoss.OneGapExactly`; for any losses `TsLoss.HolesAreSixteens`). A held
  counter of 15 makes none read as old, so a duplicate of such a packet throws its message away (`TsLoss.CounterDecides`).
- The CRC of a PAT or PMT is checked after the table is entered, so a section with a wrong CRC is an error that has already
  changed the PIDs (`TsStrict.BadCrcStillApplies`).
- The composition time of a published frame leads back to its presentation time exactly when the difference fits 24 signed
  bits, or 24 unsigned bits for a reader that takes it as unsigned (`RawAvc.CompositionTimeExactly`).
- The dump's sequence header has the PPS exactly when it has at most 50 bytes, otherwise its first four, and is readable
  exactly when a positive int16_t holds the size of the SPS (`RtpPlayer.PlayerSeesTheVideo`).
- Emulation removal looks at the bytes it has put out and needs three of them first, so it fails exactly when the data
  starts with two zeros and a third byte of at most 3 (or nothing), has a 3 behind an odd number (three or more) of zeros,
  or ends in a single zero (`Emulation.RemovalIsExact`).
- The RTP clock takes a base of 0 for "not started" and keeps media time in 32 signed bits. On every run of 32-bit RTP times,
  whatever their steps, timestamps grow as they should if and only if no packet meets a base of 0 after a timestamp above 0
  was given, media time without jumps stays below 2^31 ticks (2^32 at one tick per millisecond), and a step of 2^31 ticks or
  more, which the clock reads as going back, stays in its millisecond (`RtpClock.RunsGrowExactlyWhenSmooth`). Times that do
  not wrap and span less than 2^31 ticks always do (`RtpClock.SteadyRunsGrow`); a wrap-around need not
  (`RtpClock.CrossingZeroGoesBack`).
- A camera that sends payload type 96 is known as RTSP exactly when its first packet is an SPS or PPS with the highest
  importance and no 0 in its second or 1 in its third byte, or a fragment of a unit whose second byte is not 1
  (`RtpDump.DetectedExactly`). Of any other camera no payload of type 96 is unpacked (`RtpDump.CameraSettlesOnce`).
- The payload format guess is right exactly when the first NAL unit is neither of length 1 nor of a length from 256 to 511
  (`Ibmf.GuessedRunRoundTripsExactly`).
- An aggregate's tags get one common shift exactly when its time is not before the first tag's and no shifted time reaches
  2^31, or all tags have one time (`FlvAggregate.CommonDeltaExactly`). Tags at 0 and 2^31 - 1 in an aggregate at time 1 have
  none (`FlvAggregate.ShiftedTimeWraps`).
- `srs_h264_write_raw_frames` trips the assertion of `mux_sequence_header` exactly when a coded frame comes after a parameter
  set while there is no SPS of four bytes (`RawFrames.AssertionFreeExactly`). Without a PPS the header is sent with an
  empty one.
- Both parameter sets come back from the sequence header exactly when they have fewer than 32768 bytes and the PPS is not
  empty (`RawAvc.SequenceHeaderRoundTrip`).

## Model

| member | source | states |
|---|---|---|
| Bytes.BigEndianRoundTrip | 3rd-party/librtmp/src/kernel/srs_kernel_stream.cpp:187-237 | n bytes written big-endian and read back give the value modulo 256^n, for every integer |
| Bytes.UnsignedRoundTrip | 3rd-party/librtmp/src/kernel/srs_kernel_stream.cpp:102-164 | writing the value of n bytes gives the same n bytes |
| Bytes.Signed32RoundTrip | 3rd-party/librtmp/src/kernel/srs_kernel_stream.cpp:134-146 | four written bytes, read as int32_t, give back every int32_t |
| KernelStream.SrsStream.Initialize | 3rd-party/librtmp/src/kernel/srs_kernel_stream.cpp:45-66 | refuses no buffer or a size that is not positive and then changes nothing; otherwise starts at byte 0 |
| KernelStream.SrsStream.Write | 3rd-party/librtmp/src/kernel/srs_kernel_stream.cpp:187-253 | replaces exactly the bytes at the cursor and moves behind them |
| KernelStream.SrsStream.ReadBytes | 3rd-party/librtmp/src/kernel/srs_kernel_stream.cpp:178-185 | gives the next n bytes, moves behind them, leaves the buffer |
| Crc32.TableIsDivision | 3rd-party/librtmp/src/kernel/srs_kernel_utility.cpp:451-496 | every one of the 256 table entries is eight steps of dividing by 0x04c11db7 |
| Crc32.ByteStepIsSerial | 3rd-party/librtmp/src/kernel/srs_kernel_utility.cpp:498-507 | one table step equals feeding the byte bit by bit, for every register and byte |
| Crc32.MpegtsCrc32 | 3rd-party/librtmp/src/kernel/srs_kernel_utility.cpp:498-507 | the loop computes the bit-serial CRC of every byte string |
| Crc32.AppendedCrcLeavesZero | 3rd-party/librtmp/src/kernel/srs_kernel_utility.cpp:498-507 | a string with its CRC appended big-endian leaves remainder 0 (Annex A of ISO/IEC 13818-1) |
| Crc32.CrcOnTheWire | 3rd-party/librtmp/src/kernel/srs_kernel_ts.cpp:2219-2230 | the four CRC bytes in a section are the register, most significant byte first |
| TsWire.PlanFillsPacket | 3rd-party/librtmp/src/kernel/srs_kernel_ts.cpp:457-504 | for every rest of a payload, header + adaptation field + payload = 188 bytes and at least one byte is sent |
| TsWire.AdaptationFieldFits | 3rd-party/librtmp/src/kernel/srs_kernel_ts.cpp:690-716 | the adaptation field's length byte is at most 182 |
| TsPacking.LeastPacketsIsLeast | 3rd-party/librtmp/src/kernel/srs_kernel_ts.cpp:457-521 | no way to cut the payload into chunks that packets can carry has fewer packets |
| TsPacking.LeastPacketsIsReached | 3rd-party/librtmp/src/kernel/srs_kernel_ts.cpp:457-521 | for every length there is a cut into that many chunks |
| TsPacking.MessagePacketCount | 3rd-party/librtmp/src/kernel/srs_kernel_ts.cpp:457-521 | a message takes the least number of packets, plus one exactly when a packet without adaptation field would be one byte short |
| TsPacking.MessageCounters | 3rd-party/librtmp/src/kernel/srs_kernel_ts.cpp:462-476 | packet i of a message has counter cc + i modulo 16, the message's PID, and the unit start exactly when i = 0 |
| TsCounters.CountersNeverJump | 3rd-party/librtmp/src/kernel/srs_kernel_ts.cpp:437-521 | over every run of messages, codec changes and resets the counters on each media PID are 0, 1, 2, ... modulo 16 |
| TsCounters.EveryPidReceivesWhatWasSent | 3rd-party/librtmp/src/kernel/srs_kernel_ts.cpp:264-292 | for every run and PID, the delivered messages followed by the held one are those that the muxer sends there (which these are: `TsRouting.EveryCodecOnItsPid`), in order, times modulo 2^33 |
| TsRouting.EveryCodecOnItsPid | 3rd-party/librtmp/src/kernel/srs_kernel_ts.cpp:294-369 | for every run, PID 0x101 receives exactly the non-empty audio messages sent with AAC, 0x102 those with MP3, 0x100 the others sent with AVC, in order, and no other PID anything |
| TsRouting.EveryPacketIsAnnounced | 3rd-party/librtmp/src/kernel/srs_kernel_ts.cpp:371-435 | for every run, the last PMT before each media packet announces its PID with the stream type of its codec (0x1b, 0x0f, 0x04) and names the PID of the clock |
| TsRouting.TablesExactly | 3rd-party/librtmp/src/kernel/srs_kernel_ts.cpp:294-369 | behind every run, a call writes PAT and PMT, first, exactly when its codecs are not those of the last message since the last reset; everything else is the message |
| TsRouting.TablesReadBack | 3rd-party/librtmp/src/kernel/srs_kernel_ts.cpp:371-435 | a separate reader gets program 1 on 0x1001 from the PAT, and the enabled streams and the clock PID from the PMT |
| TsRouting.ClocksExactly | 3rd-party/librtmp/src/kernel/srs_kernel_ts.cpp:457-475 | in any state, exactly the first packet of a message that asks for one (or of audio without video) carries a clock, its decoding time, and only there a discontinuity |
| TsLoss.CounterDecides | 3rd-party/librtmp/src/kernel/srs_kernel_ts.cpp:1362-1416 | for all bytes, counters and held messages: exactly when a held message is kept unchanged and when it is thrown away undelivered |
| TsLoss.InLineAdds | 3rd-party/librtmp/src/kernel/srs_kernel_ts.cpp:1406-1430 | what a packet that follows adds: its bytes up to the announced length, and when the message is delivered |
| TsLoss.GrowsOnlyInLine | 3rd-party/librtmp/src/kernel/srs_kernel_ts.cpp:1376-1416 | a held message grows or is delivered only when the counter is the held one plus 1 modulo 16 |
| TsLoss.LossExactly | 3rd-party/librtmp/src/kernel/srs_kernel_ts.cpp:1328-1430 | whichever packets behind the first are lost, exactly what is delivered of the message and whether the next one is seen |
| TsLoss.HolesAreSixteens | 3rd-party/librtmp/src/kernel/srs_kernel_ts.cpp:1376-1404 | a message delivered in spite of losses lacks packets only in holes of multiples of 16 |
| TsLoss.OneGapExactly | 3rd-party/librtmp/src/kernel/srs_kernel_ts.cpp:1376-1404 | one gap of any length at any place: the exact condition for the message to be delivered, with which bytes, and for the next one to be missed |
| TsLoss.FirstPacketLost | 3rd-party/librtmp/src/kernel/srs_kernel_ts.cpp:1340-1361 | without its first packet nothing of a message is delivered |
| TsStrict.MessageIsStandard | 3rd-party/librtmp/src/kernel/srs_kernel_ts.cpp:641-716 | read by the tables of ISO/IEC 13818-1 (sections 2.4.3.2 to 2.4.3.7), the packets have standard headers, fields and a PES header with id, length and times, and carry exactly the payload |
| TsStrict.EveryRunIsStrict | 3rd-party/librtmp/src/kernel/srs_kernel_ts.cpp:294-369 | every packet of every run has a standard header and adaptation field |
| TsStrict.AcceptedPacket | 3rd-party/librtmp/src/kernel/srs_kernel_ts.cpp:548-600 | a packet is accepted only in sync, with a whole header and a possible adaptation field length |
| TsStrict.AcceptedSection | 3rd-party/librtmp/src/kernel/srs_kernel_ts.cpp:2062-2169 | a section with content is accepted only when the bit-serial CRC over it matches |
| TsStrict.BadCrcStillApplies | 3rd-party/librtmp/src/kernel/srs_kernel_ts.cpp:2112-2135 | a wrong CRC is an error, but the table has been entered before it is checked |
| TsStrict.PayloadBehindHeader | 3rd-party/librtmp/src/kernel/srs_kernel_ts.cpp:1452-1695 | a PES header is passed over by its announced length, whatever its optional parts |
| TsStrict.AnyFieldDecodes | 3rd-party/librtmp/src/kernel/srs_kernel_ts.cpp:916-1117 | an adaptation field of any muxer, with any parts that fit into it (OPCR, splicing, private data, extension), is passed over by its length and gives its clock |
| TsStrict.AnyUnitStarts | 3rd-party/librtmp/src/kernel/srs_kernel_ts.cpp:1425-1695 | a unit of any muxer with times, whatever its flags, other fields and stuffing, starts the message with its id, times and the bytes behind its header up to the announced length |
| TsStrict.HeaderlessUnit | 3rd-party/librtmp/src/kernel/srs_kernel_ts.cpp:1697-1722 | units of the seven stream ids without optional header are taken whole from behind the length, padding is dropped |
| TsStrict.AnyPmtDecodes | 3rd-party/librtmp/src/kernel/srs_kernel_ts.cpp:2516-2608 | the program map of any muxer, with descriptors and any streams, enters exactly its streams when its CRC is right |
| TsStrict.AnyPatDecodes | 3rd-party/librtmp/src/kernel/srs_kernel_ts.cpp:2302-2362 | the program association of any muxer enters exactly its programs when its CRC is right |
| TsRun.EveryRunRoundTrips | 3rd-party/librtmp/src/kernel/srs_kernel_ts.cpp:264-369 | for every run of a fresh muxer, decoding its packets one by one succeeds, ends with the same PID table, and delivers what a reference says: announced messages at once, others at the next unit start of their PID |
| TsRun.ReferenceKeepsOrder | 3rd-party/librtmp/src/kernel/srs_kernel_ts.cpp:1328-1740 | in the reference, each PID's output followed by what waits is what was sent, in order |
| TsRun.StepInStep | 3rd-party/librtmp/src/kernel/srs_kernel_ts.cpp:294-369 | the invariant of every call: valid muxer table, demuxer in step, output as the reference |
| TsReassembly.MessageDecodes | 3rd-party/librtmp/src/kernel/srs_kernel_ts.cpp:1328-1740 | the packets of one message deliver what was pending and, when the PES length says so, the message itself |
| TsReassembly.UnitStartReapsPending | 3rd-party/librtmp/src/kernel/srs_kernel_ts.cpp:1406-1416 | a unit start delivers a pending message of length 0, goes back over the packet, and reads it again |
| TsReassembly.FirstPacketDecodes | 3rd-party/librtmp/src/kernel/srs_kernel_ts.cpp:1328-1740 | the first packet of a message, with its header, clock and stuffing, starts exactly that message |
| TsReassembly.NextPacketDecodes | 3rd-party/librtmp/src/kernel/srs_kernel_ts.cpp:110-138 | a continuation packet appends exactly its payload bytes |
| TsReassembly.Time33RoundTrip | 3rd-party/librtmp/src/kernel/srs_kernel_ts.cpp:1960-2048 | pts and dts come back modulo 2^33, with their marker bits |
| TsReassembly.PcrRecovered | 3rd-party/librtmp/src/kernel/srs_kernel_ts.cpp:1188-1200 | a decoded clock reference is the base modulo 2^33 rounded down to a multiple of 512 |
| TsReassembly.AfSkipped | 3rd-party/librtmp/src/kernel/srs_kernel_ts.cpp:916-1117 | a written adaptation field is read to exactly its end |
| TsReassembly.PesOptionalRead | 3rd-party/librtmp/src/kernel/srs_kernel_ts.cpp:1452-1695 | the optional PES header of every message gives back its times and its length |
| TsPsi.EncodedPatDecodes | 3rd-party/librtmp/src/kernel/srs_kernel_ts.cpp:2302-2404 | the written PAT passes the CRC check and leaves the encoder's PID table |
| TsPsi.EncodedPmtDecodes | 3rd-party/librtmp/src/kernel/srs_kernel_ts.cpp:2516-2684 | the written PMT passes the CRC check and leaves the encoder's apply and stream of every PID |
| TsDemux.PacketProgress | 3rd-party/librtmp/src/kernel/srs_kernel_ts.cpp:264-292 | on every byte string a successful packet moves on, or takes a held message away: decoding terminates |
| TsDemux.DecodeRunAppend | 3rd-party/librtmp/src/kernel/srs_kernel_ts.cpp:264-292 | decoding packets in two parts is decoding them in one |
| TsMuxer.AdaptationField.Encode | 3rd-party/librtmp/src/kernel/srs_kernel_ts.cpp:1136-1298 | writes the adaptation field bytes for its fields |
| TsMuxer.PesPayload.Size | 3rd-party/librtmp/src/kernel/srs_kernel_ts.cpp:1742-1797 | predicts the header size and stores the header length that Encode uses |
| TsMuxer.PesPayload.Encode | 3rd-party/librtmp/src/kernel/srs_kernel_ts.cpp:1799-1958 | writes the PES header, provided Size has run |
| TsMuxer.TsPacket.Padding | 3rd-party/librtmp/src/kernel/srs_kernel_ts.cpp:690-716 | adds an adaptation field or stuffing so that the packet is full |
| TsMuxer.TsPacket.Encode | 3rd-party/librtmp/src/kernel/srs_kernel_ts.cpp:641-688 | writes header, adaptation field and PES header in front of the payload |
| TsReaders.ReadAf | 3rd-party/librtmp/src/kernel/srs_kernel_ts.cpp:916-1117 | on every byte string reads the adaptation field as the decoder function does, errors included |
| TsReaders.ReadPes | 3rd-party/librtmp/src/kernel/srs_kernel_ts.cpp:1328-1740 | on every byte string reads a PES payload as the decoder function does |
| TsReaders.ReadTime33 | 3rd-party/librtmp/src/kernel/srs_kernel_ts.cpp:1960-2019 | on every byte string reads a 33-bit time, checks its marker bits, and fails with fewer than five bytes left |
| TsContexts.TsContext.Encode | 3rd-party/librtmp/src/kernel/srs_kernel_ts.cpp:294-369 | writes exactly the packets of the run model and leaves its table |
| TsContexts.TsContext.EncodePes | 3rd-party/librtmp/src/kernel/srs_kernel_ts.cpp:437-524 | the packet loop ends and writes the message's packets |
| TsContexts.TsContext.EncodePatPmt | 3rd-party/librtmp/src/kernel/srs_kernel_ts.cpp:371-435 | refuses without any stream; otherwise writes both tables and updates the PIDs |
| TsContexts.TsContext.ReadPacket | 3rd-party/librtmp/src/kernel/srs_kernel_ts.cpp:548-629 | decodes one packet of any bytes as the packet function does |
| TsContexts.TsContext.ReadPsi | 3rd-party/librtmp/src/kernel/srs_kernel_ts.cpp:2062-2155 | decodes a PSI section of any bytes, with every error and the CRC check |
| TsContexts.TsContext.Decode | 3rd-party/librtmp/src/kernel/srs_kernel_ts.cpp:264-292 | ends on every byte string and delivers what the decoding function says, in order |
| Amf0.WritesTotalSize | 3rd-party/librtmp/src/protocol/srs_rtmp_amf0.cpp:624-639 | every value is written in exactly total_size bytes |
| Amf0.ReadsBack | 3rd-party/librtmp/src/protocol/srs_rtmp_amf0.cpp:1498-1516 | a representable value written anywhere in a stream is read back and nothing more is consumed |
| Amf0.OnlyRepresentableRead | 3rd-party/librtmp/src/protocol/srs_rtmp_amf0.cpp:334-401 | whatever the bytes, only representable values are read |
| Amf0.RoundTripsExactlyWhenRepresentable | 3rd-party/librtmp/src/protocol/srs_rtmp_amf0.cpp:1767-1854 | a value round-trips with every suffix if and only if its strings have at most 32767 bytes and no number starts 00 09 |
| Amf0.ReadAny | 3rd-party/librtmp/src/protocol/srs_rtmp_amf0.cpp:1498-1516 | total on every byte string; a success consumes at least one byte and stays inside |
| Amf0Lenient.LastOneWins | 3rd-party/librtmp/src/protocol/srs_rtmp_amf0.cpp:449-468 | of properties set one after the other, each key keeps the last value |
| Amf0Lenient.ObjectReads | 3rd-party/librtmp/src/protocol/srs_rtmp_amf0.cpp:641-694 | an object with repeated keys, ended by its marker or by the end of the stream, reads as its keys with their last values |
| Amf0Lenient.ElemsRead | 3rd-party/librtmp/src/protocol/srs_rtmp_amf0.cpp:1019-1064 | a strict array that announces more elements than come reads as those that came |
| Amf0Lenient.AnyByteIsBoolean | 3rd-party/librtmp/src/protocol/srs_rtmp_amf0.cpp:1558-1589 | every byte but 0 is true |
| Amf0Lenient.NegativeLengthIsEmpty | 3rd-party/librtmp/src/protocol/srs_rtmp_amf0.cpp:1767-1810 | a text length with its sign bit set reads as the empty text and consumes nothing behind it |
| Amf0Lenient.UnknownMarkerFails | 3rd-party/librtmp/src/protocol/srs_rtmp_amf0.cpp:334-401 | an unknown marker, and the end of the stream, is an error |
| Amf0Lenient.CutScalarFails | 3rd-party/librtmp/src/protocol/srs_rtmp_amf0.cpp:1498-1516 | a scalar cut anywhere is an error |
| Amf0Stream.UnsortedHashtable.Set | 3rd-party/librtmp/src/protocol/srs_rtmp_amf0.cpp:449-468 | removes the old property of a key and appends the new one, if there is a value |
| Amf0Stream.SetChangesOneKey | 3rd-party/librtmp/src/protocol/srs_rtmp_amf0.cpp:449-468 | afterwards exactly that key is changed: it has the new value or none, and every other property is one from before |
| Amf0Stream.SetKeepsUnique | 3rd-party/librtmp/src/protocol/srs_rtmp_amf0.cpp:449-468 | keys stay unique |
| Amf0Stream.UnsortedHashtable.GetProperty | 3rd-party/librtmp/src/protocol/srs_rtmp_amf0.cpp:470-484 | finds the value of a key if and only if there is one |
| Amf0Stream.ReadValue | 3rd-party/librtmp/src/protocol/srs_rtmp_amf0.cpp:334-401 | on every byte string reads what the reader function says, never past the end |
| Amf0Stream.ReadProperties | 3rd-party/librtmp/src/protocol/srs_rtmp_amf0.cpp:641-694 | the property loop ends, and duplicates replace earlier properties |
| Amf0Stream.ReadElements | 3rd-party/librtmp/src/protocol/srs_rtmp_amf0.cpp:1019-1064 | the element loop ends and stops at the count or the end of the stream |
| Amf0Stream.WriteValue | 3rd-party/librtmp/src/protocol/srs_rtmp_amf0.cpp:696-736 | succeeds exactly when the value's bytes fit, and then writes exactly them |
| RtpClock.SteadyRunsGrow | src/RTPDump.cpp:187-203 | for RTP times that do not go back or wrap and span less than 2^31 ticks, timestamps start at 0, never go back, grow by at most 1000 ms per packet and not at all over a longer jump |
| RtpClock.SteadyStampsExactly | src/RTPDump.cpp:187-203 | on such runs each timestamp is exactly the sum of the steps of at most a second, in milliseconds rounded down |
| RtpClock.RunsGrowExactlyWhenSmooth | src/RTPDump.cpp:187-203 | for every run of 32-bit times, wrap-around and steps of any size included, timestamps start at 0 and grow so if and only if every step is a good one |
| RtpClock.StepExact | src/RTPDump.cpp:152-167 | one step of the clock grows so if and only if it is a good one, and then keeps the media time in range |
| RtpClock.CrossingZeroGoesBack | src/RTPDump.cpp:189-202 | four packets around a wrap-around whose timestamps go back |
| RtpDump.WrittenNalsAreReceivedSlices | src/RTPDump.cpp:64-269 | for every packetisation in payload types 98 and 96 whose camera is not taken for a PS camera, with audio and foreign packets between, the NAL units in the coded-frame tags are exactly the slices after the second parameter set up to the last marker, in order; the rest waits |
| RtpDump.DeliveriesGiveUnits | src/RTPDump.cpp:127-147 | single NAL packets and FU-A fragments (section 5.8 of RFC 6184) give exactly the units sent, whatever the buffer held |
| RtpDump.CameraSettlesOnce | src/RTPDump.cpp:88-114 | over every run the first payload of type 96 settles the camera, and either all payloads of type 96 are in the raw file, in order, or none |
| RtpDump.DetectedExactly | src/RTPDump.cpp:91-107 | for every first delivery, exactly which units make the camera known as RTSP |
| RtpDump.RtpPacketRead | src/RTPDump.cpp:64-88 | the handler reads version, marker, payload type and time where section 5.1 of RFC 3550 puts them, and takes types 0, 8, 96 and 98 of version 2 |
| RtpDump.OnlyVideoPacketsMatter | src/RTPDump.cpp:76-121 | audio and foreign packets do not change the units |
| RtpDump.RunGoesOnExactly | src/RTPDump.cpp:206-236 | a run goes on exactly as long as its first two parameter sets are an SPS of at least four bytes and a PPS |
| RtpDump.RunIsUnits | src/RTPDump.cpp:64-148 | a run's video tags are those of its videoHandler calls |
| RtpDump.VideoTagTimesNeverGoBack | src/RTPDump.cpp:187-203 | RTP times that do not wrap and span less than 2^31 ticks give video tags whose times never go back |
| FlvFile.FileHoldsReceivedSlices | src/RTPDump.cpp:64-269 | the same through the file: reading the written tags one by one gives exactly these NAL units |
| RtpFits.PacketisationsFit | src/RTPDump.cpp:127-269 | when units have at most 256K, SPS 128 bytes and frames 512K, every packet of every packetisation fits the fixed buffers |
| RtpFits.FittingFileHoldsReceivedSlices | src/RTPDump.cpp:64-269 | for these, from packets to file: the tags' sizes fit 24 bits, and reading them gives exactly the slices received |
| RtpPlayer.PlayerSeesTheVideo | src/RTPDump.cpp:185-269 | for every run that goes on, a player reads from the video tags one configuration (profile, level, SPS, PPS) before all pictures, and each picture with its time, key flag and NAL units, if and only if the SPS fits int16_t |
| RtpPlayer.PlayerReadsTheFile | src/RTPDump.cpp:185-269 | the same from packets to the bytes of the file, for packets that fit the fixed buffers |
| RtpPlayer.PlayerHearsTheAudio | src/RTPDump.cpp:150-183 | for every run, the audio tags are one for each audio packet behind the first video unit and more than a millisecond behind the start, with time, A-law for type 8 and mu-law for type 0, and exactly its payload |
| RtpPlayer.AudioTimesNeverGoBack | src/RTPDump.cpp:156-171 | audio times that do not wrap give tags whose times never go back and are at least 2 ms |
| RtpPlayer.PlayerHearsTheFile | src/RTPDump.cpp:150-183 | the same audio through the bytes of the file |
| FlvFile.ReadsWrittenTags | 3rd-party/librtmp/src/kernel/srs_kernel_flv.cpp:744-818 | every list of tags with 24-bit sizes is read back from its file, types in five bits and times in 31 |
| FlvFile.ReadsWrittenTagsBack | 3rd-party/librtmp/src/kernel/srs_kernel_flv.cpp:543-555 | read from the end, by the previous tag sizes, the file gives the same tags |
| RtpDumpFile.RTPDump.RtpHandler | src/RTPDump.cpp:64-148 | one packet is one step of the model, and the file holds the header and the model's tags |
| RtpDumpFile.RTPDump.VideoHandler | src/RTPDump.cpp:185-269 | the fixed buffers hold the model's parameter sets and waiting units |
| RtpDumpFile.RTPDump.AudioHandler | src/RTPDump.cpp:150-183 | writes the payload behind one codec byte, placed over the last header byte, when more than a millisecond has passed |
| RtpDumpFile.RTPDump.AddFragment | src/RTPDump.cpp:129-138 | a start bit begins a NAL unit, every fragment appends its bytes |
| RtpDumpFile.RTPDump.DetectCamera | src/RTPDump.cpp:88-114 | the first packet of payload type 96 settles the camera type |
| RtpDumpFile.RTPDump.InitFlvHeader | src/RTPDump.cpp:21-53 | opens the file with the 9-byte header and a zero size |
| RtpDumpFile.WholeFileReads | src/RTPDump.cpp:21-53 | the whole file reads as an FLV file of version 1 with audio and video and exactly its tags |
| Flv.SrsFlvEncoder.WriteTags | 3rd-party/librtmp/src/kernel/srs_kernel_flv.cpp:484-563 | a batch writes the concatenation of the messages' tags for every list and prior cache state |
| Flv.SrsFlvEncoder.WriteAudio | 3rd-party/librtmp/src/kernel/srs_kernel_flv.cpp:439-457 | writes one audio tag |
| Flv.SrsFlvEncoder.WriteVideo | 3rd-party/librtmp/src/kernel/srs_kernel_flv.cpp:459-475 | writes one video tag |
| Flv.SrsFlvEncoder.WriteMetadata | 3rd-party/librtmp/src/kernel/srs_kernel_flv.cpp:419-437 | writes one tag of the given type with time 0 |
| Flv.SrsFlvEncoder.ListMessage | 3rd-party/librtmp/src/kernel/srs_kernel_flv.cpp:521-554 | caches header and size of message k and lists its buffers without touching earlier entries |
| Flv.SrsFlvEncoder.Reserve | 3rd-party/librtmp/src/kernel/srs_kernel_flv.cpp:488-515 | caches are large enough and never shrink |
| Flv.ListedGather | 3rd-party/librtmp/src/kernel/srs_kernel_flv.cpp:543-555 | gathering the listed buffers gives the tags one after the other |
| Flv.TagHeaderRoundTrip | 3rd-party/librtmp/src/kernel/srs_kernel_flv.cpp:744-784 | read_tag_header on a written tag gives its type in five bits, its size modulo 2^24 and its time modulo 2^31 |
| FlvAggregate.OnAggregate | 3rd-party/librtmp/src/libs/srs_librtmp.cpp:826-929 | splits every byte string, keeping what was found before an error |
| FlvAggregate.SplitsAnyTags | 3rd-party/librtmp/src/libs/srs_librtmp.cpp:826-929 | tags of any writer, whatever their stream ids, times and previous sizes, come back with type, stream id and body |
| FlvAggregate.RefusedExactly | 3rd-party/librtmp/src/libs/srs_librtmp.cpp:838-905 | a tag is refused exactly when its header, body or previous size is cut |
| FlvAggregate.AggregateOfWrittenTags | 3rd-party/librtmp/src/libs/srs_librtmp.cpp:826-929 | written tags come back with types and bodies in order; those before the first tag not after the aggregate's time get that time, the others one shift |
| FlvAggregate.CommonDeltaExactly | 3rd-party/librtmp/src/libs/srs_librtmp.cpp:877-881 | for all tags: one shift if and only if the aggregate is not before the first tag and no shifted time reaches 2^31, or all tags have one time |
| FlvAggregate.ShiftedTimeWraps | 3rd-party/librtmp/src/libs/srs_librtmp.cpp:877-881 | two tags and an aggregate not before the first, whose second message wraps to -2^31 |
| RawAvc.MuxSequenceHeader | 3rd-party/librtmp/src/protocol/srs_raw_avc.cpp:141-227 | writes the configuration record with both parameter sets |
| RawAvc.SequenceHeaderRoundTrip | 3rd-party/librtmp/src/kernel/srs_kernel_codec.cpp:755-858 | the reader gets back profile, level, four-byte lengths and both parameter sets if and only if they have fewer than 32768 bytes and the PPS is not empty |
| RawAvc.LongSpsIsRefused | 3rd-party/librtmp/src/kernel/srs_kernel_codec.cpp:817-822 | an SPS whose size modulo 65536 is 0 or at least 32768 makes the whole header unreadable |
| RawAvc.MuxIpbFrame | 3rd-party/librtmp/src/protocol/srs_raw_avc.cpp:229-262 | writes the frame behind its four-byte length |
| RawAvc.VideoBodyReads | 3rd-party/librtmp/src/protocol/srs_raw_avc.cpp:264-305 | the body of a video packet reads back as frame type, AVC, packet type, signed composition time and data |
| RawAvc.CompositionTimeExactly | 3rd-party/librtmp/src/protocol/srs_raw_avc.cpp:286-294 | dts plus the composition time is pts if and only if the difference fits 24 signed bits (unsigned: 24 unsigned bits) |
| RawAvc.PrefixedRoundTrip | 3rd-party/librtmp/src/protocol/srs_raw_avc.cpp:229-262 | concatenated length-prefixed units are taken apart into the same units |
| AnnexB.FindsStartCode | 3rd-party/librtmp/src/kernel/srs_kernel_utility.cpp:386-413 | every N[00] 00 00 01 is found with its length |
| AnnexB.StartsWithAnnexB | 3rd-party/librtmp/src/kernel/srs_kernel_utility.cpp:386-413 | the scan loop ends and gives the start code's length or 0 |
| AnnexB.AnnexbDemux | 3rd-party/librtmp/src/protocol/srs_raw_avc.cpp:44-76 | gives the next piece of the split, fails exactly without a start code, and moves on |
| AnnexB.SplitIsLossless | 3rd-party/librtmp/src/protocol/srs_raw_avc.cpp:44-76 | start codes and frames joined are the input |
| AnnexB.SplitIsClean | 3rd-party/librtmp/src/protocol/srs_raw_avc.cpp:60-66 | no frame has a start code at any position |
| AnnexB.SplitsBackExactlyWhenClean | 3rd-party/librtmp/src/protocol/srs_raw_avc.cpp:44-76 | joined pieces are split into the same pieces if and only if no frame holds a start code and no frame but the last ends in zero |
| AnnexB.AvcDemuxAnnexbFormat | 3rd-party/librtmp/src/kernel/srs_kernel_codec.cpp:1110-1161 | the units are the non-empty frames of the split, up to 128 in the sample, and an error exactly beyond |
| Ibmf.AvcDemuxIbmfFormat | 3rd-party/librtmp/src/kernel/srs_kernel_codec.cpp:1163-1218 | reads length-prefixed units of any bytes with every error and the limit of the sample |
| Ibmf.IbmfRoundTrip | 3rd-party/librtmp/src/kernel/srs_kernel_codec.cpp:1163-1218 | with four-byte lengths, up to 128 written frames come back; of more, the first 128 and an error |
| Ibmf.AcceptsOnlyPrefixed | 3rd-party/librtmp/src/kernel/srs_kernel_codec.cpp:1163-1218 | bytes are accepted only when they are non-empty units behind their lengths |
| Ibmf.LooksLikeAnnexB | 3rd-party/librtmp/src/kernel/srs_kernel_codec.cpp:690-708 | written frames start like Annex B exactly when the first has length 1 or from 256 to 511 |
| Ibmf.GuessIsRightExactly | 3rd-party/librtmp/src/kernel/srs_kernel_codec.cpp:690-744 | from every format, written frames settle ibmf and come back exactly when they do not look like Annex B or ibmf was settled |
| Ibmf.GuessedRunRoundTripsExactly | 3rd-party/librtmp/src/kernel/srs_kernel_codec.cpp:690-744 | from the first guess, every picture of a run comes back if and only if the first frame does not look like Annex B |
| Ibmf.IbmfIsPermanent | 3rd-party/librtmp/src/kernel/srs_kernel_codec.cpp:716-721 | once ibmf, always ibmf |
| Ibmf.SrsAvcAacCodec.DemuxNalus | 3rd-party/librtmp/src/kernel/srs_kernel_codec.cpp:683-744 | the format field and the sample follow the model |
| Emulation.RemoveEmulation | 3rd-party/librtmp/src/kernel/srs_kernel_codec.cpp:912-932 | the loop computes the removal function on every byte string, inside its buffer |
| Emulation.RemovalIsExact | 3rd-party/librtmp/src/kernel/srs_kernel_codec.cpp:912-932 | the loop undoes emulation prevention (sections 7.3.1 and 7.4.1 of ITU-T H.264) if and only if the data is removable |
| Emulation.RemovalOfOrdinaryData | 3rd-party/librtmp/src/kernel/srs_kernel_codec.cpp:912-932 | in particular for data that does not start 00 00, has no 00 00 00 03 and does not end in a single zero |
| Emulation.NalUnitIsClean | 3rd-party/librtmp/src/protocol/srs_raw_avc.cpp:60-66 | an escaped NAL unit is a frame that the Annex B splitter keeps whole |
| RawFrames.CodedFramesFollowTheirSets | 3rd-party/librtmp/src/libs/srs_librtmp.cpp:1410-1580 | in every assertion-free run no coded frame is before a header, the frames written are those that had an SPS, in order, and the last header before each has the latest SPS and PPS |
| RawFrames.AssertionFreeExactly | 3rd-party/librtmp/src/libs/srs_librtmp.cpp:1452-1468 | a run is assertion-free if and only if no coded frame comes after a parameter set while there is no SPS |
| RawFrames.SendsExactly | 3rd-party/librtmp/src/libs/srs_librtmp.cpp:1410-1580 | in every assertion-free run exactly the coded frames that had an SPS go out, a header in front exactly when a parameter set changed since the last one, and the result is the last error |
| RawFrames.RunAppend | 3rd-party/librtmp/src/libs/srs_librtmp.cpp:1538-1580 | several calls are one run over all their frames |
| RawFrames.EveryPacketPlays | 3rd-party/librtmp/src/libs/srs_librtmp.cpp:1410-1580 | over every run of calls, each packet read as a player does has the times of its call, is a key frame exactly for a header or an IDR unit, type 0 exactly for a header, and holds its parameter sets or its unit |
| RawFrames.RtmpContext.WriteRawFrame | 3rd-party/librtmp/src/libs/srs_librtmp.cpp:1489-1533 | keeps or sends as the model's step, with its error |
| RawFrames.RtmpContext.WriteRawFrames | 3rd-party/librtmp/src/libs/srs_librtmp.cpp:1538-1580 | the loop sends what the run over the non-empty Annex B frames sends; known errors do not stop it and the last is returned |
| FastBuffer.SrsFastBuffer.Grow | 3rd-party/librtmp/src/protocol/srs_protocol_buffer.cpp:134-205 | success exactly when the required bytes are held, failure only when the reader is dry, overflow is reported exactly when held and required bytes do not fit together, taken bytes stay, and received bytes are what the reader gave |
| FastBuffer.SrsFastBuffer.ReadMore | 3rd-party/librtmp/src/protocol/srs_protocol_buffer.cpp:178-202 | each reader call has positive free space |
| FastBuffer.SrsFastBuffer.SetBuffer | 3rd-party/librtmp/src/protocol/srs_protocol_buffer.cpp:83-107 | only enlarges, to at most 256K, and keeps bytes and positions |
| FastBuffer.SrsFastBuffer.ReadSlice | 3rd-party/librtmp/src/protocol/srs_protocol_buffer.cpp:115-125 | gives the next bytes of all those received |
| FastBuffer.SrsFastBuffer.Skip | 3rd-party/librtmp/src/protocol/srs_protocol_buffer.cpp:127-132 | moves forwards or back over received bytes |
| FastBuffer.RunOps | 3rd-party/librtmp/src/protocol/srs_protocol_buffer.cpp:83-205 | over every run of grow, read_slice and set_buffer, and however the reader delivers, the slices taken, the held bytes and the reader's rest are the reader's bytes in order; it stops only where the next slice is not held and the reader is dry or the buffer too small |
| Base64.RoundTrip | 3rd-party/librtmp/src/kernel/srs_kernel_utility.cpp:633-728 | decoding the encoding (section 4 of RFC 4648) of every byte string gives it back, whatever lies behind its terminator |
| Base64.DecodesExactly | 3rd-party/librtmp/src/kernel/srs_kernel_utility.cpp:633-684 | any terminated string is valid exactly when its first byte that is no letter is a pad or the end, and gives as many bytes as its letters hold |
| Base64.EncodeThenDecode | 3rd-party/librtmp/src/kernel/srs_kernel_utility.cpp:633-728 | through buffers of any size that is large enough, the decoder gives back the encoder's input |
| Base64.AvBase64Encode | 3rd-party/librtmp/src/kernel/srs_kernel_utility.cpp:692-728 | refuses exactly too long inputs and too small buffers; otherwise writes the encoding and a terminator and nothing else |
| Base64.AvBase64Decode | 3rd-party/librtmp/src/kernel/srs_kernel_utility.cpp:633-684 | for every terminated string whose bytes fit: bytes, count or -1, and no write behind the buffer |
| HandOff.RunInv | src/CaptureCenter.cpp:22-89 | every interleaving keeps locks, blocks, sessions and order |
| HandOff.BlocksArePartitioned | src/ReceiverCenter.cpp:21-48 | every block is free, in one hand or at one place of one list, and came back as often as it was given out or once less |
| HandOff.PacketsAreHandledInOrder | src/CaptureCenter.cpp:60-82 | each session's packets reach the handler in push order, only a deletion drops any, and when it has taken the session out every packet pushed was handled or dropped |
| HandOff.NoUseAfterDeletion | src/CaptureCenter.cpp:31-58 | a deleted session is out of the vector, its list empty and in nobody's hands, and no list is in two threads' hands |
| HandOff.NoDeadlock | src/RTPHandler.cpp:27-57 | whoever is at work and not behind a deletion can move, or waits, over at most two locks, for a thread that can |
| HandOffAlone.PassHandlesEverything | src/CaptureCenter.cpp:60-82 | undisturbed, a pass of the capture thread ends and hands every waiting packet of every session to the handler, in order |
| HandOffAlone.DataAlone | src/ReceiverCenter.cpp:21-48 | undisturbed, a packet for a known session is put at the end of its list, in one block |
| HandOffAlone.DataRefused | src/ReceiverCenter.cpp:21-48 | a packet for an unknown session, too long, or without a free block changes nothing |
| HandOffAlone.SocketAlone | src/RTPHandler.cpp:27-57 | undisturbed, a packet from a socket is put at the end of its session's list |
| HandOffAlone.AddAlone | src/CaptureCenter.cpp:22-29 | an addition enters the session in the map and at the end of the vector |
| HandOffAlone.DeleteAlone | src/CaptureCenter.cpp:31-58 | a deletion drops what waits, gives all its blocks back and takes the session out of the vector |

## Left out

- The PES extension: a PES packet with its extension flag set ends in a status of its own; private data and OPCR are skipped as the source does.
- TsMuxer.AdaptationField.Encode: the other optional fields, which no caller sets.
- TsMuxer.PesPayload.Size: stream ids without an optional header, for which the source writes none.
- TsMuxer.PesPayload.Encode: stream ids without an optional header, and header flags that no caller sets.
- TsMuxer.TsPacket.Encode: the priority, error and scrambling bits, which no caller sets.
- TsContexts.TsContext.Encode: stream ids without an optional header.
- TsContexts.TsContext.EncodePes: stream ids without an optional header.
- TsLoss.LossExactly: reading on behind a packet in error is the caller's choice; here every packet is read.
- RawAvc.VideoBodyReads: `video_avc_demux` takes the composition time as unsigned; the signed reading is that of the FLV format.
- TsReaders.ReadPes: the PES extension ends in a status of its own.
- TsContexts.TsContext.ReadPacket: as `TsReaders.ReadPes`.
- TsContexts.TsContext.Decode: as `TsReaders.ReadPes`.
- FlvAggregate.CommonDeltaExactly: aggregate times have 31 bits, as a message read from the network has after its mask.
- Transport stream packets keep their other flags at 0, and AC3 and DTS streams are never matched, because the source reads stream types as signed bytes.
- `on_pmt_parsed` and its pure-audio flag; channel and packet back pointers, which are values in a map here.
- RtpDump.Readable: a packet holds the bytes that the handler looks at; the source may look at bytes behind a payload of fewer than three bytes.
- RtpDumpFile.RTPDump.RtpHandler: units, frames and SPS fit the fixed buffers of 256K, 512K and 128 bytes (`RtpFits.PacketisationsFit`); behind them the source has no defined behaviour.
- Two SPS in a row also count as two parameter sets in the dump; the header would then use a PPS that was never set, so the run has no next state.
- Opening and writing files succeed; the PS camera's raw file is the list of its payloads.
- The one-second test of the clocks compares integers where the source divides floats.
- Video clocks below 1000 ticks per second, by which the source would divide as 0.
- Base64.AvBase64Decode: the decoded bytes fit the buffer.
- FastBuffer.RunOps: no slice is larger than the buffer at that point; a larger one is an error of `FastBuffer.SrsFastBuffer.Grow`.
- HandOff.RunInv: no push takes the list of a session that has left the vector, because nothing takes a deleted session out of the session map; a step is one lock operation or one effect under locks, the pool's own lock is part of its steps, and the threads' stop flag is not there.
- Exp-Golomb codes, the SPS fields behind the removal loop, and the sequence-header branch of `video_avc_demux` beyond its two parameter sets.
- The bit stream reader, ADTS and AAC framing, MP3, HTTP, RTMP handshake and chunking, sockets, logging and the memory pool's allocation.
