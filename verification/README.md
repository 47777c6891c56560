# Aethon in Dafny

A verified model of the core of Aethon, a telemetry stack for radio sensors: how packets are framed,
checked and found again in a byte stream; how commands, tasks and packets move through the runtime;
and how archives and sweeps are planned.  Where the C++ code updates state step by step, the model is
a class or a method with the same fields, branches and loops, proved to make exactly the transition
of a function on values; the theorems are then about those functions, over every input, every run or
every reachable state.  The files named `Wire`, `Reports` and `Decisions` say in bytes, fields, times and
counts what those functions are, without naming their parts.

| files | component | main theorems |
|---|---|---|
| `Crc`, `CrcDivision`, `Codec`, `Packets`, `PacketCodec`, `PacketTheorems`, `NormalForm` | checksum, byte cursor, packet codec | the checksum is a unique remainder over GF(2); exact round trip; rejection of short bursts |
| `WireLayout`, `WireFrames`, `WireWriting` | the bytes on the wire | exactly which frames the encoder writes and the decoder accepts, in numbers and offsets |
| `Stream`, `StreamReports`, `Repair`, `RepairReports`, `Reassembler` | resynchronising parser, archive repair scan, fragment reassembly | chunking invariance, exact reports for every byte sequence, sound and complete salvage, reassembly of any packets of a stream |
| `Limiter`, `LimiterDecisions`, `LimiterTheorems`, `LimiterLeases`, `DeviceLimiter` | token buckets and leases | conformance over whole runs, exact grants and retry times, exclusion and conservation of leases |
| `Scheduler`, `SchedulerDecisions`, `SchedulerTheorems`, `SchedulerChoice`, `RuntimeScheduler` | task scheduler | fate of every task, exact running counts, exactly when the chosen task outranks all others |
| `Ingest`, `IngestDecisions`, `IngestTheorems`, `IngestQueue` | ingest queue | exact admission, draining is a stable sort, longest prefix within a budget, conservation of packets |
| `Batching`, `BatchingDecisions`, `BatchingTheorems`, `BatchingPolicy` | batching policy | batches are the offered packets in order, each well made and closed for its exact reason |
| `Journal`, `JournalDecisions`, `JournalTheorems`, `JournalSpacing`, `CommandJournal` | command journal | fate of every command, conservation of commands, spacing of retries |
| `Rotation`, `RotationDecisions`, `RotationTheorems` | archive rotation | lossless plans that validate, fewest shards within the limits, exact reasons |
| `RangeSet`, `Sweep`, `SweepDecisions`, `SurveyTheorems`, `SweepTheorems` | time ranges, sweep planner | set semantics and canonical form, exact tiling and coverage |
| `Collection`, `CollectionDecisions`, `CollectionTheorems`, `Sorting` | archive collection | the index finds what a scan finds, field by field |
| `Rle` | run-length compression | exact format, round trip, shortest encoding |
| `Words`, `Wrappers`, `OrderedMaps` | shared | word types, results, maps in key order |

Check everything with `dafny verify --resource-limit 2000000 --verification-time-limit 0 dfyconfig.toml`
(the resource limit makes the result independent of the speed of the machine).

## Conventions

- `uint8` to `uint64` are ranges of integers.  Where the C++ code adds or multiplies in 32 or 64 bits
  and the result can leave the range, the model writes the wrap-around out (`Wrap32`, `Wrap64`).
  Statistics counters, record counts and container sizes are unbounded naturals.
- The checksum works on words as sequences of 32 bits, least significant first.  With its default seed
  the C++ function starts the register at zero, because it inverts the seed; the polynomial is that of
  section 12.1 of RFC 3720 (`CrcDivision`), but the check values published there do not apply.
- An `aethon::Error` becomes a `Result` with its code.  The scheduler's `std::runtime_error` at
  capacity is the outcome `Throws`.  Messages are not modelled.
- A `std::map` is a Dafny map visited by taking the least key left each time.  A `std::stable_sort` is
  the stable sort of `Sorting`; a `std::sort` may leave equal keys in any order, and results that
  follow it hold for every such order.
- The parser's handler is a log of the events it was given.  `Link` pairs the size limit with the
  decoder, so that the stream and repair theorems hold for any decoder and are then used with the
  packet codec.
- The command journal's retry multiplier is an exact fraction; the field `label` is called `name`.
- Paths in rotation are given by their rank in the order the code compares them in.  A receiver's
  usable span, after its usable fraction has been applied and rounded down, is a natural number.

## What the code does differently from what one might expect

- A section of unknown kind with a non-empty body is refused even in relaxed mode: the final check
  that a section has been used up rejects it (src/protocol/packet.cpp:23, `NormalForm.UnknownSection`).
- The encoder does not check fragment coordinates, band names over 64 bytes or the total frame size.
  `PacketTheorems.RoundTripExact` says exactly which packets survive.
- The limiter takes a last refill at time zero for "never refilled", and an empty bucket then fills up
  again at time zero: `LimiterTheorems.ConformsExactly` says exactly which states stay within their rate.
- The product of elapsed time and refill rate wraps at 2^64, so that a wait that is over need not help
  (`LimiterTheorems.RetryExact`, `LimiterTheorems.WaitInVain`).
- Task and command identifiers given explicitly can reach 2^64 - 1, after which the next identifier
  wraps; the invariants state exactly the operation that breaks them (`SchedulerTheorems.CountedExactly`,
  `JournalTheorems.AccountedExactly`, `JournalTheorems.IdsBelowExactly`), and `ClobberIsReachable` in both
  modules gives a run that leads there.
- With nothing due, the scheduler's comparison can run in a circle on tasks that mix deadlines with none,
  and then no task outranks all others (`SchedulerChoice.ChoiceWinsExactly`,
  `SchedulerChoice.CircleIsReachable`).
- A busy acknowledgement dated before the last send can shorten the wait for the next one
  (`JournalSpacing.EarlyExactly`, `JournalSpacing.EarlyIsReachable`).
- A time range that ends at 2^64 - 1 is not merged with later ones it overlaps, because `end + 1`
  wraps (`RangeSet.CanonicalExactly`, `RangeSet.OverlapIsReachable`); membership is right all the same.
- A survey segment can exceed the effective span by up to one bin, because its end is aligned upwards
  (`SurveyTheorems.WithinSpanExactly`, `SurveyTheorems.SurveyExceedsSpan`).  The survey need not reach the
  end of the range with a span of zero, or if aligning wraps above the largest multiple of the bin width
  (`SurveyTheorems.TilesExactly`, `SurveyTheorems.SurveyStops`).

## Model

| member | source | states |
|---|---|---|
| Crc.ComputeCrc32c | src/codec/crc.cpp:17-26 | The byte and bit loops compute `Crc32c`, the register form on 32-bit words; with the default seed the register starts at zero. |
| Crc.ComputeChecksum | src/codec/crc.cpp:17-26 | The checksum as the number written on the wire. |
| Crc.SeedComposition | src/codec/crc.cpp:17-26 | The checksum of `a + b` is the checksum of `b` seeded with that of `a`. |
| Crc.TurnBijective | src/codec/crc.cpp:21-23 | One bit step is a bijection on words: `TurnBack` undoes it on both sides. |
| Crc.RegisterInjective | src/codec/crc.cpp:17-26 | Whatever data is fed, different register values stay different. |
| Crc.BurstChangesChecksum | src/codec/crc.cpp:17-26 | Two inputs that differ only inside one window of at most four bytes have different checksums. |
| CrcDivision.ConstantIsGenerator | src/codec/crc.cpp:22 | The constant 0x82f63b78 is the generator with exponents 32, 28, 27, 26, 25, 23, 22, 20, 19, 18, 14, 13, 11, 10, 9, 8, 6 and 0, its bits reversed. |
| CrcDivision.RemainderIsUnique | src/codec/crc.cpp:17-26 | No two polynomials of degree below 32 differ by a multiple of that generator over GF(2). |
| CrcDivision.RegisterIsRemainder | src/codec/crc.cpp:17-26 | Fed any bytes from any start the register is the remainder, on division by the generator, of the message shifted up by 32 plus the start shifted up by the bits of the message: a quotient exists. |
| CrcDivision.ChecksumIsRemainder | src/codec/crc.cpp:17-26 | A word is the checksum of data under a seed if and only if its inverse is that remainder from the inverted seed. |
| CrcDivision.WireChecksumIsRemainder | src/codec/crc.cpp:17-26 | A number is the checksum on the wire if and only if its inverted bits are the remainder of the message shifted up by 32. |
| Codec.BinaryReader.U8 | src/codec/binary_reader.cpp:11-20 | Reads one byte off the rest of the data, or fails with end of input and leaves the cursor. |
| Codec.BinaryReader.Word | src/codec/binary_reader.cpp:22-48 | The little-endian loops: value and rest are those of `ReadWord`, failure moves nothing. |
| Codec.BinaryReader.ReadBytes | src/codec/binary_reader.cpp:50-56 | Takes `n` bytes off the rest, or fails and moves nothing. |
| Codec.BinaryReader.String | src/codec/binary_reader.cpp:58-67 | A length-prefixed string within the limit; the length above the limit is malformed. |
| Codec.BinaryWriter.Word | src/codec/binary_writer.cpp:8-23 | The append loops add exactly the little-endian bytes of the value. |
| Codec.BinaryWriter.String | src/codec/binary_writer.cpp:29-35 | A string over 65535 bytes is refused and nothing is written. |
| Codec.ReadBackU16 | src/codec/binary_writer.cpp:8-11 | Reading a written 16-bit field gives the value modulo 2^16 and the bytes after it. |
| Codec.ReadBackU32 | src/codec/binary_writer.cpp:13-17 | The same for 32 bits. |
| Codec.ReadBackU64 | src/codec/binary_writer.cpp:19-23 | The same for 64 bits. |
| Codec.ReadBackString | src/codec/binary_writer.cpp:29-35 | A written string reads back exactly when it is within the reader's limit, and is malformed otherwise. |
| Codec.BytesOfValue | src/codec/binary_reader.cpp:30-48 | A word of bytes is determined by its little-endian value. |
| PacketCodec.EncodePayloadSections | src/protocol/packet.cpp:22 | The writer calls produce `PutSections`, or its error when a section is too long. |
| PacketCodec.EncodePacket | src/protocol/packet.cpp:24 | The writer calls produce `Encode`, with lengths narrowed to 32 bits as the code narrows them. |
| PacketCodec.DecodeSection | src/protocol/packet.cpp:23 | What one section does to the packet: known kinds are read to their last byte, unknown ones are refused when strict or non-empty. |
| PacketCodec.DecodePayloadSections | src/protocol/packet.cpp:23 | The section loop equals `GetSections`: sections in any order up to a terminator that must be the last byte. |
| PacketCodec.OpenEnvelope | src/protocol/packet.cpp:25 | Size, magic, length and checksum tests in the code's order; the first failure decides the error. |
| PacketCodec.DecodePacket | src/protocol/packet.cpp:25 | The reader calls compute `Decode`, errors included. |
| PacketCodec.WriteFragment | src/protocol/packet.cpp:13 | Appends the bytes of the fragment section. |
| PacketCodec.ReadFragment | src/protocol/packet.cpp:14 | Reads a fragment section and refuses impossible coordinates. |
| PacketCodec.WriteRoute | src/protocol/packet.cpp:15 | Appends the route, or fails on more than 32 hops. |
| PacketCodec.ReadRoute | src/protocol/packet.cpp:16 | Reads the route with its hop loop; more than 32 hops are malformed. |
| PacketCodec.WriteCapabilities | src/protocol/packet.cpp:17 | Appends flags, limits and the band names. |
| PacketCodec.ReadCapabilities | src/protocol/packet.cpp:18 | Reads flags, limits and band names of at most 64 bytes. |
| PacketCodec.WriteSection | src/protocol/packet.cpp:19 | Appends identifier, length and body, or fails on a body over 65535 bytes. |
| Packets.LengthTest | src/protocol/packet.cpp:25 | The wrapping 32-bit test `body_len + 12 != size` agrees with the exact one for frames under 2^32 bytes. |
| PacketTheorems.RoundTripExact | src/protocol/packet.cpp:22-25 | Decoding an encoded packet gives the packet back if and only if its coordinates and band names are wire-well-formed and the frame fits the limit and the length field; otherwise it is malformed, never another packet. |
| PacketTheorems.FrameBack | src/protocol/packet.cpp:24-25 | A frame built around any body is accepted up to its body exactly when it fits. |
| PacketTheorems.BodyBack | src/protocol/packet.cpp:22-25 | Header, sections and payload of a written body read back as the packet, or as malformed when it is not wire-well-formed. |
| PacketTheorems.SectionsBack | src/protocol/packet.cpp:22-23 | The section loop over the encoder's sections restores every part. |
| NormalForm.AcceptedHasNormalForm | src/protocol/packet.cpp:22-25 | Every accepted frame, in any section order and with repeats, decodes to a packet that encodes again, no longer than the frame, and decodes to itself. |
| NormalForm.BurstRejected | src/protocol/packet.cpp:25 | Damage to an accepted frame inside one window of at most four bytes, wherever in the frame, trailer included, is always rejected. |
| NormalForm.StrictExactly | src/protocol/packet.cpp:23-25 | Strict decoding accepts exactly the frames that relaxed decoding accepts and that hold no section of unknown kind, with the same packet. |
| NormalForm.UnknownSection | src/protocol/packet.cpp:23 | A section of unknown kind is passed over in relaxed mode if and only if its body is empty, and never in strict mode. |
| WireWriting.WritesExactly | src/protocol/packet.cpp:10-24 | A frame is the encoding of a packet if and only if magic, length, version at 8, kind at 9, device at 10, timestamp at 18, sequence at 26, modes at 30 and 31, section length at 32, sections 1, 2, 3 and 4 in that order with every field at its offset, a zero, payload length, payload and checksum are the numbers at their places. |
| WireWriting.EncodesExactly | src/protocol/packet.cpp:13-24 | A packet can be encoded if and only if it has at most 32 hops and 16 bands and no section over 65535 bytes; otherwise the argument is invalid. |
| WireWriting.RouteWritten | src/protocol/packet.cpp:15 | The bytes of a route are region, collector, priority, hop count and hops at their offsets, and no other bytes are. |
| WireWriting.CapsWritten | src/protocol/packet.cpp:17 | The bytes of the capabilities are three flag bits, maximal payload, band count and length-prefixed names at their offsets, and no other bytes are. |
| WireFrames.DecodesExactly | src/protocol/packet.cpp:10-25 | A frame decodes to a packet if and only if it is within the limit and the length field, every header field, the payload and the checksum are the numbers at their places, and its sections, read by their numbers in any order, build the rest of the packet. |
| WireFrames.EnvelopeExactly | src/protocol/packet.cpp:25 | The error of a frame by its size, first four bytes, declared length and checksum, in this order. |
| WireFrames.UnknownNumbers | src/protocol/packet.cpp:11-12 | In a sound envelope a version byte outside 1 to 3 is unsupported, and a kind byte outside 1 to 5 malformed. |
| WireLayout.AddsExactly | src/protocol/packet.cpp:23 | What a section does by its number: 1 a fragment with possible coordinates, 2 a route, 3 capabilities with names of at most 64 bytes, 4 an extension, any other nothing if empty and relaxed; each only if the body is exactly its fields. |
| WireLayout.CapsExactly | src/protocol/packet.cpp:18 | Capabilities are read from exactly the bytes that hold them at their offsets, whatever the five unused flag bits. |
| Stream.StreamParser.Push | src/stream/stream_parser.cpp:4 | A push emits the events of `Run` over old residue plus new data and keeps its residue. |
| Stream.StreamParser.TryExtractOne | src/stream/stream_parser.cpp:7 | One step of the machine; every true step shortens the buffer, and after a false one nothing can be extracted. |
| Stream.StreamParser.DiscardUntilMagic | src/stream/stream_parser.cpp:6 | Dropping bytes before the magic word changes no later event. |
| Stream.ChunkingInvariance | src/stream/stream_parser.cpp:4-7 | For every byte sequence and every split into pushes, events and residue are those of one single push. |
| Stream.ResidueWaits | src/stream/stream_parser.cpp:4-7 | The residue is under 8 bytes or a magic-led prefix shorter than its declared frame, below the size limit, and yields nothing by itself. |
| Stream.RunConcat | src/stream/stream_parser.cpp:4-7 | Running over `a + b` is running over `a`, then over its residue followed by `b`. |
| Stream.NoStraddling | src/stream/stream_parser.cpp:6 | No magic word starts inside quiet noise and ends in the frame after it. |
| Stream.FramesGetThrough | src/stream/stream_parser.cpp:4-7 | Receivable frames behind quiet noise come out in order, without an error, and leave an empty buffer, under any chunking. |
| Stream.EndToEnd | src/stream/stream_parser.cpp:4-7 | Encoded packets behind any quiet noise and under any chunking come out as exactly those packets, in order. |
| Stream.NothingInvented | src/stream/stream_parser.cpp:7 | Every delivered packet is the decoding of a frame that stands in the data, at disjoint places in order. |
| StreamReports.FrameReported | src/stream/stream_parser.cpp:7 | Every whole frame within the limit is answered by exactly one call, whatever follows it: the packet if it decodes, and the decoder's own error if not. |
| StreamReports.OversizedReported | src/stream/stream_parser.cpp:7 | A header that declares a frame over the limit costs one malformed-packet call and one byte. |
| StreamReports.StrayMagic | src/stream/stream_parser.cpp:4-7 | A frame right behind a stray magic word gets through behind one error, if the limit is below the length that the second magic word spells. |
| StreamReports.ChunksReport | src/stream/stream_parser.cpp:4-7 | Any wire of noise, good and damaged frames, oversized headers and a frame begun, in any chunking: the exact list of calls and the exact bytes left. |
| StreamReports.EveryWire | src/stream/stream_parser.cpp:4-7 | Every byte sequence is such a wire, so calls and residue are exactly these for all input. |
| Repair.ScanBytes | src/storage/repair.cpp:62-94 | The scan loop equals `Scan` on every input. |
| Repair.InferCaptureTime | src/storage/repair.cpp:38-50 | The time in front of the frame, trusted only if the recorded length matches. |
| Repair.CandidatesAccounted | src/storage/repair.cpp:62-94 | Candidates are those rejected and those salvaged. |
| Repair.SalvageIsSound | src/storage/repair.cpp:62-94 | Salvaged packets decode from their places, which are ascending and disjoint. |
| Repair.SalvageIsComplete | src/storage/repair.cpp:62-94 | Every place from which a packet decodes is salvaged, or lies inside a salvaged frame. |
| Repair.ArchiveRecovered | src/storage/repair.cpp:62-94 | Scanning an archive image recovers every record with its capture time, and nothing else, if and only if no place outside the stored frames decodes. |
| RepairReports.SalvagedExactly | src/storage/repair.cpp:38-94 | A salvaged packet comes from a magic word with a whole decodable frame behind it, and its time is the eight bytes twelve before it if the four behind those hold the frame's size, and zero otherwise. |
| RepairReports.NoneMissed | src/storage/repair.cpp:62-94 | Wherever such a frame stands it is salvaged, or begins inside a salvaged one. |
| RepairReports.RejectedExactly | src/storage/repair.cpp:69-90 | The candidates rejected are exactly the magic words with room for a header that begin no decodable frame and lie in no salvaged one. |
| RepairReports.RecordLaid | src/storage/archive.cpp:12 | A record is time, frame length, frame and checksum at their offsets. |
| Reassembler.FragmentReassembler.Push | src/protocol/reassembler.cpp:12-68 | Result, streams under assembly and all counters after one push; redundant counters stay those of the stored fragments and the total within the limit. |
| Reassembler.FragmentReassembler.Store | src/protocol/reassembler.cpp:41-68 | Storing a fragment: over the limit, still incomplete, or complete. |
| Reassembler.FragmentReassembler.Clear | src/protocol/reassembler.cpp:70-73 | Drops one stream and no other. |
| Reassembler.JoinFragments | src/protocol/reassembler.cpp:57-62 | The assembly loop concatenates the fragments in sequence order. |
| Reassembler.PushGathers | src/protocol/reassembler.cpp:12-68 | Among any packets of a stream those with the count of its first count; a push keeps their first-arrived copies and answers with the message, a refusal or nothing. |
| Reassembler.RunGathers | src/protocol/reassembler.cpp:12-68 | Over any pushes, interleaved with other streams, duplicates, misfits and packets without fragment, a stream that is incomplete and within the limit holds exactly the first-arrived copies of the fragments that share its first count. |
| Reassembler.Reassembly | src/protocol/reassembler.cpp:12-68 | For any packets of the stream, agreeing on the count or not: the message comes out exactly at the push that supplies the last missing fragment of those with its first count, as their sequence-ordered first copies; the push that takes them over the limit is refused and drops the stream. |
| Reassembler.OrderInsensitive | src/protocol/reassembler.cpp:12-68 | The gathered copies depend only on which fragments arrived, not on their order or number. |
| Reassembler.WholePacketPasses | src/protocol/reassembler.cpp:14-16 | A packet without a fragment comes back unchanged and changes no stream. |
| Reassembler.MisfitRefused | src/protocol/reassembler.cpp:18-36 | Impossible coordinates, or a count other than that of its stream, are refused and change no stream. |
| Reassembler.OthersUntouched | src/protocol/reassembler.cpp:12-68 | A push leaves every stream but its own as it was. |
| Reassembler.JoinedAt | src/protocol/reassembler.cpp:59-63 | Fragment `i` of the joined payload stands behind the lengths of those before it. |
| DeviceLimiterClass.DeviceLimiter.constructor | src/control/device_limiter.cpp:30-33 | A new limiter is empty and holds the normalised default limit. |
| DeviceLimiterClass.DeviceLimiter.RegisterDevice | src/control/device_limiter.cpp:57-64 | Sets the normalised limit and fills the bucket. |
| DeviceLimiterClass.DeviceLimiter.SetLimit | src/control/device_limiter.cpp:70-74 | Sets the normalised limit and cuts the tokens to its burst. |
| DeviceLimiterClass.DeviceLimiter.AcquireLease | src/control/device_limiter.cpp:76-104 | Expires dead leases everywhere, then grants a lease unless one conflicts. |
| DeviceLimiterClass.DeviceLimiter.ReleaseLease | src/control/device_limiter.cpp:106-117 | Finds the holder in key order and erases the lease. |
| DeviceLimiterClass.DeviceLimiter.Expire | src/control/device_limiter.cpp:119-133 | The sweep drops exactly the leases that have run out and counts them. |
| LimiterTheorems.RefillReaches | src/control/device_limiter.cpp:226-258 | A bucket short of a cost can pay it after a refill if and only if the cost is within the burst, the clock has started, the advertised wait is over and the token arithmetic does not wrap. |
| LimiterTheorems.WaitDecides | src/control/device_limiter.cpp:238-258 | While time times rate stays below 2^64 and tokens plus burst below 2^32, a cost within the burst can be paid if and only if the advertised wait is over. |
| LimiterTheorems.WaitInVain | src/control/device_limiter.cpp:238-258 | A run from a new limiter after which the product of time and rate is 2^64, so that a check fails though its wait is long over. |
| DeviceLimiterClass.DeviceLimiter.CheckDevice | src/control/device_limiter.cpp:135-170 | Decision, retry time, refill and counters of a check. |
| DeviceLimiterClass.DeviceLimiter.ConsumeTokens | src/control/device_limiter.cpp:172-190 | A check that takes the effective cost when allowed. |
| LimiterTheorems.SafeStep | src/control/device_limiter.cpp:76-190 | No operation ever puts an exclusive lease beside another lease of its device, or a bucket above its burst. |
| LimiterTheorems.SafeRun | src/control/device_limiter.cpp:76-190 | The same over whole runs. |
| LimiterTheorems.RefillBound | src/control/device_limiter.cpp:238-258 | A refill credits at most what the elapsed time allows, even when its product wraps. |
| LimiterTheorems.Conformance | src/control/device_limiter.cpp:135-190 | Token-bucket conformance over any run at any timestamps: tokens held plus tokens granted exceed the burst by no more than the rate yields between the two refill times, from any state whose last refill is positive or whose tokens lie between zero and the least cost. |
| LimiterTheorems.ConformsExactly | src/control/device_limiter.cpp:135-190 | For every state, a device conforms over all runs if and only if its last refill has a positive time or its tokens lie strictly between zero and the least cost; otherwise two grants at time zero break the bound. |
| LimiterTheorems.RetryExact | src/control/device_limiter.cpp:158-166 | The advertised wait is the fewest nanoseconds in which the rate yields the missing tokens.  After any operations that leave the device's tokens alone, a check of the same cost is allowed if and only if no lease with a later expiry is exclusive, the cost is within the burst, the clock has started, the wait is over and the token arithmetic does not wrap. |
| LimiterTheorems.NeverAboveBurst | src/control/device_limiter.cpp:155-170 | A cost above the burst is never granted. |
| LimiterTheorems.ConsumeNeverClamps | src/control/device_limiter.cpp:172-190 | An allowed consume takes exactly its effective cost: the clamp at zero is unreachable. |
| LimiterDecisions.GrantedExactly | src/control/device_limiter.cpp:76-104 | For every state a lease is granted if and only if the device is served and its leases with a later expiry are none, or the request and all of them are shared. |
| LimiterDecisions.GrantedLease | src/control/device_limiter.cpp:92-103 | A granted lease carries device, mode, time and owner of its request under the next identifier and ends at the time plus the given or default time to live, modulo 2^64; the leases that have not run out stay beside it. |
| LimiterDecisions.AnsweredExactly | src/control/device_limiter.cpp:135-170 | For every state: unknown if not served, locked if and only if a lease with a later expiry is exclusive, and otherwise allowed if and only if the tokens after the refill cover the cost and the least cost. |
| LimiterDecisions.CheckedExactly | src/control/device_limiter.cpp:135-170 | What a check leaves of every bucket: the tokens and clock of its own by the refill written out, the tokens of others as they were, and everywhere exactly the leases that have not run out; and how long a locked device is told to wait. |
| LimiterDecisions.ConsumedExactly | src/control/device_limiter.cpp:172-190 | An allowed consumption takes the cost, or the least cost if that is more; any other takes nothing. |
| LimiterDecisions.RegisteredExactly | src/control/device_limiter.cpp:57-64 | Registration fills the bucket to a limit whose zeros are ones and whose least cost is held to the burst, and touches no other device. |
| LimiterDecisions.LimitSetExactly | src/control/device_limiter.cpp:70-74 | A new limit is cut to sense, the tokens to its burst; a device seen for the first time starts empty. |
| LimiterDecisions.SweptExactly | src/control/device_limiter.cpp:119-133 | A sweep keeps exactly the leases that have not run out, and everything else. |
| LimiterDecisions.ReleaseFails | src/control/device_limiter.cpp:106-117 | A release fails if and only if no device holds the lease, and then changes nothing. |
| LimiterDecisions.ReleasedFromFirst | src/control/device_limiter.cpp:106-117 | Otherwise the first device that holds one loses its leases of that identifier, and no other anything. |
| LimiterDecisions.AnswersCounted | src/control/device_limiter.cpp:135-190 | Every answer is counted as what it is, an unknown device as locked. |
| LimiterDecisions.GrantsCounted | src/control/device_limiter.cpp:76-104 | A granted lease is counted and moves the identifier on, one that meets a conflict counts as locked, and one for a device that is not served not at all. |
| LimiterLeases.LeasesBalancedExactly | src/control/device_limiter.cpp:57-133 | Granted = released + expired + held is kept by every operation except exactly unregistering a device that holds leases and releasing an ambiguous identifier. |
| LimiterLeases.ReachableBalanced | src/control/device_limiter.cpp:57-133 | From a new limiter on the account of leases balances; identifiers stay distinct, so every release removes one lease. |
| RuntimeSchedulerClass.RuntimeScheduler.EnqueueTask | src/runtime/scheduler.cpp:69-93 | Capacity, duplicate label and duplicate identifier tests, then the identifier and the record. |
| RuntimeSchedulerClass.RuntimeScheduler.HasDuplicateLabel | src/runtime/scheduler.cpp:202-218 | The search finds an active task of the same device and label exactly if there is one. |
| RuntimeSchedulerClass.RuntimeScheduler.SelectTask | src/runtime/scheduler.cpp:220-271 | The selection loop over the tasks in identifier order. |
| RuntimeSchedulerClass.RuntimeScheduler.LeaseNextTask | src/runtime/scheduler.cpp:95-108 | Leases the selected task, counts it and raises its device's running count. |
| RuntimeSchedulerClass.RuntimeScheduler.LeaseManyTasks | src/runtime/scheduler.cpp:110-121 | Repeats until nothing is eligible or the maximum is reached. |
| SchedulerTheorems.ReleasedCount | src/runtime/scheduler.cpp:302-312 | Releasing the device of a task that stops running keeps every running count equal to the real number. |
| RuntimeSchedulerClass.RuntimeScheduler.CompleteTask | src/runtime/scheduler.cpp:123-144 | Completion, failure or a retry; only a running task can complete. |
| RuntimeSchedulerClass.RuntimeScheduler.CancelTask | src/runtime/scheduler.cpp:146-162 | Cancels a task that is not terminal and releases its device if it ran. |
| RuntimeSchedulerClass.RuntimeScheduler.ExpireTasks | src/runtime/scheduler.cpp:164-179 | Expires queued tasks past their deadline, in identifier order. |
| RuntimeSchedulerClass.RuntimeScheduler.ClearCompletedTasks | src/runtime/scheduler.cpp:181-189 | Removes exactly the terminal tasks. |
| SchedulerTheorems.CountedExactly | src/runtime/scheduler.cpp:69-312 | Per-device counters equal to the real number of running tasks, and within max(1, burst), are kept by every operation except exactly an enqueue handed the identifier of a running task. |
| SchedulerTheorems.ClobberIsReachable | src/runtime/scheduler.cpp:69-93 | A run from a new scheduler with room for five tasks that leads to such an enqueue. |
| SchedulerTheorems.ReachableCounted | src/runtime/scheduler.cpp:69-312 | In every state reachable without exhausting identifiers the counters are exact and within the burst. |
| SchedulerTheorems.EndingsCounted | src/runtime/scheduler.cpp:69-189 | The counter of each terminal state grows by exactly the number of tasks that came to it. |
| SchedulerChoice.SelectFindsWinner | src/runtime/scheduler.cpp:220-271 | For every state, a task is chosen exactly if one is eligible, and whenever an eligible task outranks every other, that is the one. |
| SchedulerChoice.ChoiceWinsExactly | src/runtime/scheduler.cpp:220-271 | For every state, the chosen task outranks every other eligible one if and only if it is not the case that nothing is due and, by priority, attempts, enqueue time and identifier, the first task without a deadline lies strictly between the first task with one and the task with the earliest one. |
| SchedulerChoice.CircleIsReachable | src/runtime/scheduler.cpp:220-271 | Three tasks enqueued in a new scheduler are in that case as long as none is due. |
| SchedulerTheorems.RunKeys | src/runtime/scheduler.cpp:69-189 | Over any run, even after identifiers have wrapped, every record stands under its own identifier. |
| SchedulerChoice.LeaseIsDueFirst | src/runtime/scheduler.cpp:95-108 | For every state: if an eligible task is due, the lease goes to the due one of earliest deadline, then by rank, and the state records exactly that. |
| SchedulerDecisions.LeasedExactly | src/runtime/scheduler.cpp:95-108 | For every state: nothing is leased if and only if no task is queued, ready and on a device below the burst; otherwise one such task is, with its reason, and only its state, attempts, lease time and device count change. |
| SchedulerDecisions.LeasesUntilNone | src/runtime/scheduler.cpp:110-121 | Leasing many stops early only when no task may run. |
| SchedulerDecisions.OutranksExactly | src/runtime/scheduler.cpp:220-271 | The scan prefers what is due soon, then the earlier deadline where both have one, and otherwise priority, attempts, enqueue time and identifier. |
| SchedulerDecisions.TaskFate | src/runtime/scheduler.cpp:69-189 | For every state, operation and task: exactly when it completes, is cancelled, expires, is queued again with the retry time, or is started at or after its ready time; and that nothing else about it changes. |
| SchedulerDecisions.NotBeforeReady | src/runtime/scheduler.cpp:95-144 | Over any run without a lease at or after its ready time a queued task is not started. |
| SchedulerDecisions.FailedRunWaits | src/runtime/scheduler.cpp:123-144 | So a failed task is not tried again before the time given with the failure. |
| SchedulerDecisions.EnqueuedExactly | src/runtime/scheduler.cpp:69-93 | For every state: when enqueueing throws, when it refuses a twin or a known identifier, and otherwise the record, the identifier and the next one. |
| SchedulerDecisions.ExpiredExactly | src/runtime/scheduler.cpp:164-179 | The tasks returned are exactly the queued ones past their deadline. |
| SchedulerDecisions.EndingAnswered | src/runtime/scheduler.cpp:123-162 | Completion and cancellation say yes if and only if they change their task, and count it as completed, retried or cancelled. |
| SchedulerDecisions.DeviceReleased | src/runtime/scheduler.cpp:302-312 | Releasing takes one from the device's count, if it has one, and nothing from any other. |
| IngestQueueClass.IngestQueue.PushEnvelope | src/runtime/ingest_queue.cpp:103-152 | Admission: closed, expired, too large, over capacity under each overflow policy, eviction of one victim, insertion. |
| IngestQueueClass.IngestQueue.SelectOverflowVictim | src/runtime/ingest_queue.cpp:242-273 | The victim the policy names, or none. |
| IngestQueueClass.IngestQueue.SelectNext | src/runtime/ingest_queue.cpp:275-301 | The first least packet by the drain mode. |
| IngestQueueClass.IngestQueue.SelectLowestPriority | src/runtime/ingest_queue.cpp:252-258 | The packet of lowest priority, the oldest of them, the first of those. |
| IngestQueueClass.IngestQueue.SelectOldestOf | src/runtime/ingest_queue.cpp:259-270 | The oldest packet of the device, if it has one. |
| IngestTheorems.EvictedBalanced | src/runtime/ingest_queue.cpp:341-354 | Removing any one packet keeps cached bytes equal to the payload queued and the account of packets balanced. |
| IngestTheorems.RemovedFilter | src/runtime/ingest_queue.cpp:341-354 | Removing the first packet of a key takes it off the front of that key's packets and leaves the order of all others. |
| IngestTheorems.InsertedBalanced | src/runtime/ingest_queue.cpp:331-339 | Inserting an admissible packet keeps size, cached bytes and the account of packets. |
| IngestQueueClass.IngestQueue.PopEnvelope | src/runtime/ingest_queue.cpp:165-178 | Removes and returns the next packet. |
| IngestQueueClass.IngestQueue.DrainPackets | src/runtime/ingest_queue.cpp:180-193 | Pops up to the maximum. |
| IngestQueueClass.IngestQueue.DrainPayloadBudget | src/runtime/ingest_queue.cpp:195-220 | Pops while the payload stays within the budget. |
| IngestTheorems.PreferredIsLess | src/runtime/ingest_queue.cpp:275-301 | The comparisons of the three drain modes are one order on keys: arrival; priority, then arrival; deadline with zero as infinity, then arrival. |
| IngestTheorems.DrainOrderIsSort | src/runtime/ingest_queue.cpp:180-193 | Draining the whole queue is the stable sort by the drain-mode key. |
| IngestTheorems.DrainIsPrefix | src/runtime/ingest_queue.cpp:180-193 | Draining `count` packets returns the beginning of that sort and leaves the rest. |
| IngestTheorems.BudgetIsLongestPrefix | src/runtime/ingest_queue.cpp:195-220 | A budget drain returns the longest prefix of that sort whose payload fits. |
| IngestTheorems.ReachableBalanced | src/runtime/ingest_queue.cpp:103-354 | In every reachable state: at most the maximum number of packets, cached bytes equal to the payload queued, and accepted = queued + drained + evicted + cleared. |
| IngestTheorems.EvictionPolicy | src/runtime/ingest_queue.cpp:242-273 | A packet is evicted only over capacity, it is the one the policy names, and the newcomer stands at the end. |
| IngestDecisions.TurnedAwayExactly | src/runtime/ingest_queue.cpp:103-118 | A packet is turned away as closed, empty or too large, in this order, with nothing changed but that rejection counted. |
| IngestDecisions.TakenExactly | src/runtime/ingest_queue.cpp:120-152 | Otherwise, if it fits, it goes ranked to the end of the queue and is counted with the high-water marks. |
| IngestDecisions.ReplacesExactly | src/runtime/ingest_queue.cpp:126-152 | If it does not fit it goes to the end for the packet that the policy names, which is the first of its kind. |
| IngestDecisions.RejectedFullExactly | src/runtime/ingest_queue.cpp:126-132 | It is rejected as full if and only if it does not fit and the policy names none. |
| IngestDecisions.RankedExactly | src/runtime/ingest_queue.cpp:430-449 | A packet of normal priority is ranked by its route from 200 and from 128, and otherwise by its kind. |
| IngestDecisions.PoppedExactly | src/runtime/ingest_queue.cpp:165-178 | The packet that leaves is the first before which none is to leave by priority or deadline and arrival; the others stay as they stand. |
| IngestDecisions.DrainedInOrder | src/runtime/ingest_queue.cpp:180-193 | What is drained is in that order, and nothing that stays was to leave before it. |
| IngestDecisions.OrderExactly | src/runtime/ingest_queue.cpp:275-301 | The order of each drain mode in priorities, deadlines and arrivals is that of the sort key. |
| BatchingPolicyClass.BatchingPolicy.OfferPacket | src/runtime/batching_policy.cpp:55-85 | One offer: tick, refusal, isolation, append, tick. |
| BatchingPolicyClass.BatchingPolicy.TickAt | src/runtime/batching_policy.cpp:105-111 | Closes the open batch exactly when it has a reason to close now. |
| BatchingPolicyClass.BatchingPolicy.FlushOpen | src/runtime/batching_policy.cpp:96-103 | Closes a non-empty open batch. |
| BatchingTheorems.ExtendedWellMade | src/runtime/batching_policy.cpp:118-177 | A batch that gives no reason to refuse a packet is still well made with it. |
| BatchingTheorems.AppendedGood | src/runtime/batching_policy.cpp:202-213 | Appending after the refusal and isolation tests keeps the open batch well made and puts the packet at its end. |
| BatchingTheorems.ClosingKeeps | src/runtime/batching_policy.cpp:215-246 | Closing moves the open packets to the output unchanged, leaves nothing open and counts one closing. |
| BatchingPolicyClass.ConflictsWithDeviceOrder | src/runtime/batching_policy.cpp:187-200 | The search for a later sequence number of the device. |
| BatchingTheorems.OfferKeeps | src/runtime/batching_policy.cpp:55-85 | One offer: emitted batches are well made, nothing is lost or reordered, and what stays open has no reason to close. |
| BatchingTheorems.TickSettles | src/runtime/batching_policy.cpp:105-111 | After a tick the open batch has no reason to close at that time. |
| BatchingTheorems.RunKeeps | src/runtime/batching_policy.cpp:55-111 | Over any run of offers, ticks and flushes the emitted batches and then the open one hold exactly the packets offered, in order; each is non-empty, within the packet and payload limits unless a singleton, ordered per device and isolated as configured. |
| BatchingDecisions.OfferExactly | src/runtime/batching_policy.cpp:55-85 | An offer on lists of packets: those that wait leave first, as one batch, if they must now or would with the newcomer break a limit, an order or the isolation of control packets; then the newcomer leaves with what still waits, or waits. |
| BatchingDecisions.TickExactly | src/runtime/batching_policy.cpp:105-111 | A tick lets the packets that wait leave exactly for the first reason that count, bytes, age since the first arrival, least deadline with slack, or highest priority gives. |
| BatchingDecisions.FlushExactly | src/runtime/batching_policy.cpp:96-103 | A flush lets all that wait leave. |
| BatchingDecisions.OffersCounted | src/runtime/batching_policy.cpp:55-57 | Every offer is counted as one, and as no flush. |
| BatchingDecisions.RunCounts | src/runtime/batching_policy.cpp:55-246 | Over any run every batch is exactly what its packets make it, and each reason's counter counts the batches closed for it. |
| CommandJournalClass.CommandJournal.SaturatingMultiply | src/control/command_journal.cpp:30-39 | One growth step of the delay, held at the limit and at least one. |
| CommandJournalClass.CommandJournal.DelayFor | src/control/command_journal.cpp:293-302 | The retry-delay loop. |
| CommandJournalClass.CommandJournal.HasDuplicateActive | src/control/command_journal.cpp:266-277 | Finds an active command with the same intent exactly if there is one. |
| CommandJournalClass.CommandJournal.AppendCommand | src/control/command_journal.cpp:91-122 | Capacity, duplicate intent, duplicate identifier, then identifier, expiry and entry. |
| CommandJournalClass.CommandJournal.DueCommands | src/control/command_journal.cpp:124-164 | The dispatch loop in identifier order, with expiry, exhaustion and the early stop. |
| CommandJournalClass.CommandJournal.AcknowledgeCommand | src/control/command_journal.cpp:166-199 | What each acknowledgement does to its entry and the counters. |
| CommandJournalClass.CommandJournal.CancelCommand | src/control/command_journal.cpp:202-215 | Cancels an active entry. |
| CommandJournalClass.CommandJournal.ExpireCommands | src/control/command_journal.cpp:217-232 | Expires and returns the active entries past their expiry. |
| CommandJournalClass.CommandJournal.CompactCompleted | src/control/command_journal.cpp:234-254 | Drops terminal entries, smallest identifiers first, until few enough remain. |
| JournalTheorems.AccountedExactly | src/control/command_journal.cpp:91-254 | Appended = active + acknowledged + failed + expired + cancelled is kept by every operation except exactly an append handed the identifier of an active command. |
| JournalTheorems.ClobberIsReachable | src/control/command_journal.cpp:91-122 | A run from a new journal with room for five commands that leads to such an append. |
| JournalTheorems.EndingsCounted | src/control/command_journal.cpp:91-254 | The counter of each terminal state grows by exactly the number of commands that came to it, by whichever operation. |
| JournalTheorems.IdsBelowExactly | src/control/command_journal.cpp:103-107 | Every identifier stays below the next one except exactly when 2^64 - 1 is handed out. |
| JournalTheorems.RunSound | src/control/command_journal.cpp:91-277 | Every run from a new journal: the account balances, identifiers are below the next one and equal their keys, no two active commands share an intent, attempts stay within the limit. |
| JournalTheorems.TerminalIsFinal | src/control/command_journal.cpp:91-254 | A terminal entry stays as it is over any run that does not reuse its identifier, or is compacted away. |
| JournalTheorems.DueSendsFirst | src/control/command_journal.cpp:124-164 | One call sends, ascending and once each, exactly the first entries that are active, unexpired, due and below the attempt limit, as many as there is room for. |
| JournalTheorems.NothingSentLate | src/control/command_journal.cpp:133-152 | Nothing is sent at or after its expiry or beyond the attempt limit. |
| JournalSpacing.DelayMonotone | src/control/command_journal.cpp:293-302 | With a multiplier of at least one the retry delay never shrinks from attempt to attempt and never exceeds the maximum. |
| JournalSpacing.DelaysGrowExactly | src/control/command_journal.cpp:30-39 | The delays never shrink if and only if the multiplier is at least one, or the initial delay is at most one nanosecond or already at the limit. |
| JournalSpacing.SendsAreSpaced | src/control/command_journal.cpp:149-190 | In every run in which neither a sum that wraps nor a busy acknowledgement shortens a wait, the `k`-th and next dispatch of a command are at least the `k`-th retry delay apart. |
| JournalSpacing.DatedSendsAreSpaced | src/control/command_journal.cpp:149-190 | In particular with a multiplier of at least one, sums that fit and busy acknowledgements not dated before the last send. |
| JournalSpacing.EarlyExactly | src/control/command_journal.cpp:186-190 | A busy acknowledgement lets a command be sent before its delay is over if and only if it shortens the wait. |
| JournalSpacing.EarlyIsReachable | src/control/command_journal.cpp:91-199 | A run from a new journal in which a busy acknowledgement dated before the last send makes the next one follow at once, against a delay of 100. |
| JournalDecisions.CommandFate | src/control/command_journal.cpp:91-232 | For every state, operation and command: exactly when it is acknowledged, fails, expires, is cancelled, is sent or waits again and until when, and that nothing else about it changes; a call for due commands reaches it if and only if fewer than the maximum before it may be sent. |
| JournalDecisions.AppendedExactly | src/control/command_journal.cpp:91-122 | For every state: when a command is not taken, and otherwise its entry, expiry and identifier. |
| JournalDecisions.AnsweredExactly | src/control/command_journal.cpp:166-199 | What the answer to an acknowledgement says of the match and the state. |
| JournalDecisions.CompactedExactly | src/control/command_journal.cpp:234-254 | Compaction removes a command if and only if it has ended and fewer ended ones have smaller identifiers than there are commands too many. |
| JournalDecisions.CancelAnswered | src/control/command_journal.cpp:202-215 | A cancellation says yes if and only if the command is active, and counts it. |
| JournalDecisions.DispatchesCounted | src/control/command_journal.cpp:124-164 | Every dispatch is counted. |
| JournalDecisions.ExpiredExactly | src/control/command_journal.cpp:217-232 | The entries returned by a sweep are exactly those that expire, as they then are. |
| JournalDecisions.DelayLaw | src/control/command_journal.cpp:30-39 | Each retry delay is the one before it times the multiplier, rounded down, at least one and held to the limit. |
| JournalDecisions.DelayIsExponential | src/control/command_journal.cpp:293-302 | With a whole multiplier the delay before attempt `k + 1` is the initial one times the multiplier to the power `k - 1`, held to the limit. |
| Rotation.PlanArchiveRotation | src/storage/archive_rotation.cpp:275-317 | The planning loop, from the sorted inputs to shards and steps, and the refusal of empty names. |
| Rotation.CollectInputs | src/storage/archive_rotation.cpp:150-169 | Concatenates the inputs and sorts them stably by time, path and offset. |
| RotationTheorems.ExtendedDescribes | src/storage/archive_rotation.cpp:101-114 | After appending, a shard's counters are those of its records, the sums modulo 2^64, and its times the first and last. |
| Rotation.ValidateRotationPlan | src/storage/archive_rotation.cpp:359-389 | The validation loop with its set of seen paths. |
| RotationTheorems.ShardWarningsExactly | src/storage/archive_rotation.cpp:363-380 | A shard draws no warning exactly if its path is new and not empty, its count right, its emptiness allowed and its times in order. |
| RotationTheorems.BoundaryExactly | src/storage/archive_rotation.cpp:71-99 | A new shard is started exactly when adding the record would fail a test, whatever the sums. |
| RotationTheorems.TestsExactly | src/storage/archive_rotation.cpp:71-99 | The tests pass records that break a limit if and only if a tested sum has reached 2^64 and every test passes on the wrapped values. |
| RotationTheorems.RealPayloadsFit | src/storage/archive_rotation.cpp:258-273 | Payloads that come out of frames of at most 2^20 bytes make no sum reach 2^64 below 2^43 records. |
| RotationTheorems.PlanPartitions | src/storage/archive_rotation.cpp:275-317 | For all inputs the shards are consecutive non-empty stretches of the sorted records, losing none, each passing the tests; without records there is at most one empty shard. |
| RotationTheorems.PlanMeetsLimitsExactly | src/storage/archive_rotation.cpp:275-317 | Every shard is within every enabled limit if and only if no shard of two or more records in the plan made has a tested sum of 2^64 or more; what a caller can check beforehand is the condition of `PlanMeetsLimits`. |
| RotationTheorems.PlanMeetsLimits | src/storage/archive_rotation.cpp:275-317 | Every shard is within every enabled limit if the tested sums over all input records stay below 2^64, which a caller can check beforehand. |
| RotationTheorems.PlanIsSmallest | src/storage/archive_rotation.cpp:275-317 | For all inputs, wrapped sums or not: no partition into consecutive shards within the limits has fewer shards than the plan. |
| RotationTheorems.UnlimitedIsOneShard | src/storage/archive_rotation.cpp:250-256 | Without limits there is one shard. |
| RotationTheorems.GreedyStaysAhead | src/storage/archive_rotation.cpp:297-314 | From inside or behind the first segment of any other partition the greedy one needs no more segments. |
| RotationTheorems.WarningsExactly | src/storage/archive_rotation.cpp:359-389 | Validation is silent exactly about consistent plans. |
| RotationTheorems.PlanValidates | src/storage/archive_rotation.cpp:359-389 | Every plan made passes its own validation, for all inputs. |
| RotationTheorems.ShardNamesDiffer | src/storage/archive_rotation.cpp:21-26 | Different shard numbers have different names. |
| RotationTheorems.StepsWriteShards | src/storage/archive_rotation.cpp:116-148 | The steps start each archive, copy its records in order and close it, shard by shard. |
| RotationDecisions.ReasonsExactly | src/storage/archive_rotation.cpp:71-148 | Every shard but the last carries the first limit that the next shard's first record would break, with 36 bytes for the header and 16 for each record, and the last carries none; name, counters and times are those of its records. |
| RotationDecisions.CollectedExactly | src/storage/archive_rotation.cpp:150-169 | The records are in the order of time, path and offset. |
| RotationDecisions.CollectedAll | src/storage/archive_rotation.cpp:150-169 | They are those of the inputs, each as often. |
| RotationDecisions.RefusedExactly | src/storage/archive_rotation.cpp:275-286 | Planning is refused if and only if prefix or extension is empty. |
| RotationDecisions.NamedExactly | src/storage/archive_rotation.cpp:21-26 | A name is the prefix, an underscore, the number in at least six decimal digits and the extension. |
| RotationDecisions.PlanCounts | src/storage/archive_rotation.cpp:275-317 | A plan counts its inputs and its records, all of them written and none skipped. |
| RotationDecisions.ShardWarnedExactly | src/storage/archive_rotation.cpp:363-380 | Each warning about a shard stands for its own fault. |
| RotationDecisions.PlanWarnedExactly | src/storage/archive_rotation.cpp:381-388 | And each about the totals for its own. |
| RangeSet.TimeRangeSet.Add | src/storage/range_set.cpp:8-14 | Adds the range, either way round, and merges some sorted arrangement of the ranges. |
| RangeSet.TimeRangeSet.Normalize | src/storage/range_set.cpp:44-61 | Sorts, in any order of equal starts, and merges. |
| RangeSet.TimeRangeSet.Contains | src/storage/range_set.cpp:16-23 | True exactly if some range covers the time. |
| RangeSet.TimeRangeSet.Overlaps | src/storage/range_set.cpp:25-35 | True exactly if some time lies both in the set and in the range. |
| RangeSet.MergedCovers | src/storage/range_set.cpp:52-60 | Merging changes nothing about which times are covered, even when the sum wraps. |
| RangeSet.CanonicalExactly | src/storage/range_set.cpp:52-60 | The merged ranges are ascending with gaps except exactly when a range ending at 2^64 - 1 is followed by one that starts after zero. |
| RangeSet.OverlapIsReachable | src/storage/range_set.cpp:8-14 | Adding a range that ends at 2^64 - 1 and then any that starts later leaves both, overlapping. |
| RangeSet.CanonicalUnique | src/storage/range_set.cpp:44-61 | Two canonical sets with the same members hold the same ranges. |
| RangeSet.RunCovers | src/storage/range_set.cpp:8-23 | After any additions a time is in the set just when it lies in one of the added ranges. |
| RangeSet.RunCanonical | src/storage/range_set.cpp:8-61 | After any additions of ranges ending below 2^64 - 1 the set is canonical. |
| RangeSet.OrderIrrelevant | src/storage/range_set.cpp:8-61 | The order of additions, and repeats among them, leave no trace. |
| Sweep.SegmentRange | src/rf/sweep_planner.cpp:226-252 | The survey loop makes one segment between each two neighbouring cuts; it always ends. |
| Sweep.OccupiedWidth | src/rf/sweep_planner.cpp:102-132 | The tally over some arrangement of the ranges by lower end. |
| Sweep.MergeSegments | src/rf/sweep_planner.cpp:296-306 | The merging loop. |
| Sweep.EstimatePlanDuration | src/rf/sweep_planner.cpp:324-330 | The saturating sum of durations. |
| Sweep.OptimizeSweepPlan | src/rf/sweep_planner.cpp:288-318 | Sorts, merges, and reports duration and coverage. |
| SurveyTheorems.TilesExactly | src/rf/sweep_planner.cpp:226-252 | For every range, positive span and bin width the survey tiles the range if and only if one segment is enough or no end is lost to an alignment that wraps, computed from the last place a segment starts; with a span of zero, if and only if the first aligned frequency reaches the end. |
| SurveyTheorems.AlignableTiles | src/rf/sweep_planner.cpp:226-252 | With a positive span it does whenever no frequency of the range lies above the largest multiple of the bin width. |
| SurveyTheorems.SurveyStops | src/rf/sweep_planner.cpp:226-252 | A receiver and a resolution for which aligning wraps and the survey is over after an empty segment. |
| SurveyTheorems.CutsAligned | src/rf/sweep_planner.cpp:240-243 | For every input a survey segment is at most one bin wider than the effective span, and every inner end is a multiple of the bin width or the one frequency at which a wrapped alignment ends. |
| SurveyTheorems.WithinSpanExactly | src/rf/sweep_planner.cpp:226-252 | For every range, span and bin width: every survey segment is within the effective span if and only if one segment reaches the end or the last frequency that can be aligned, or the first ends on a multiple of the bin width and a second reaches it or the span is a multiple too. |
| SurveyTheorems.SurveyExceedsSpan | src/rf/sweep_planner.cpp:226-252 | A receiver and a resolution for which the first segment is wider than the span. |
| SweepTheorems.WidthCountsFrequencies | src/rf/sweep_planner.cpp:102-132 | The occupied width is the number of different frequencies covered, and its sum never saturates. |
| SweepTheorems.OptimizeKeepsFrequencies | src/rf/sweep_planner.cpp:288-307 | Optimising loses no frequency and adds only ones between two segments of one priority and intent that are at most two bins apart. |
| SweepTheorems.OptimizeWithinSpan | src/rf/sweep_planner.cpp:43-57 | Every resulting segment is one of the given ones or within the effective span. |
| SweepTheorems.OptimizeCountsFrequencies | src/rf/sweep_planner.cpp:309 | The reported coverage is the number of frequencies in the plan. |
| SweepTheorems.PassIsIdempotent | src/rf/sweep_planner.cpp:296-307 | No neighbours are left to merge, so a second pass changes nothing. |
| SweepDecisions.ClippedExactly | src/rf/sweep_planner.cpp:12-17 | Clipping leaves exactly the frequencies that the receiver can tune. |
| SweepDecisions.MergesExactly | src/rf/sweep_planner.cpp:43-57 | Two segments merge if and only if priority and intent agree, their allocations do not differ, the gap is at most two bins and both together are within the span. |
| SweepDecisions.MergedExactly | src/rf/sweep_planner.cpp:59-71 | The merged segment spans both, dwells the longer time, joins the reasons and keeps the rest of the first. |
| SweepDecisions.OrderedExactly | src/rf/sweep_planner.cpp:288-295 | Segments are merged from urgent to low and from low to high frequencies. |
| SweepDecisions.DurationExactly | src/rf/sweep_planner.cpp:324-330 | The duration is the sum of dwell and settling times, or the largest number if that is less. |
| CollectionTheorems.AddedIndexed | src/storage/archive_collection.cpp:66-77 | Adding a record keeps every index entry equal to the list restricted to its device. |
| CollectionTheorems.AddedSummarised | src/storage/archive_collection.cpp:66-77 | Adding a record keeps the summary that of the records. |
| Collection.ArchiveCollection.SortCollection | src/storage/archive_collection.cpp:79-94 | Sorts the list and every index entry stably by time, archive and offset. |
| Collection.ArchiveCollection.Build | src/storage/archive_collection.cpp:134-145 | Gathers every archive's index entries and sorts. |
| Collection.ArchiveCollection.FilterCollectionRefs | src/storage/archive_collection.cpp:147-168 | The first matches, up to the limit, among the device's records or all. |
| Collection.ArchiveCollection.SearchArchiveCollection | src/storage/archive_collection.cpp:170-212 | The same with a test of the loaded kind; the counters count what became of each record scanned. |
| Collection.ArchiveCollection.RecordAtOrAfter | src/storage/archive_collection.cpp:231-244 | The first record at or after a time, or none. |
| CollectionTheorems.BuiltIsIndexed | src/storage/archive_collection.cpp:134-145 | The list is the stable sort of all records, each index entry is the list restricted to its device, and the summary spans the records. |
| CollectionTheorems.IndexFindsWhatAScanFinds | src/storage/archive_collection.cpp:147-168 | A query through the index finds what a scan of every record finds, in order and with the same cut-off. |
| CollectionTheorems.ResultsAlreadySorted | src/storage/archive_collection.cpp:214-227 | The search's final sort of its references by time never moves anything. |
| CollectionTheorems.CountersAddUp | src/storage/archive_collection.cpp:26-64 | The counters count the records of each verdict and add up to those scanned. |
| CollectionDecisions.HeldExactly | src/storage/archive_collection.cpp:134-145 | A record is in the collection if and only if some archive indexes it, field by field. |
| CollectionDecisions.InOrderExactly | src/storage/archive_collection.cpp:79-94 | The records are in the order of time, archive and offset. |
| CollectionDecisions.JudgedExactly | src/storage/archive_collection.cpp:26-64 | A record matches when it is within every bound of the query, and is otherwise counted against the first of time, device and payload that it misses. |
| CollectionDecisions.FoundExactly | src/storage/archive_collection.cpp:170-212 | The search finds, in order, exactly the matching records of the queried kind, as many as the limit allows. |
| Sorting.SortCommutesWithFilter | src/storage/archive_collection.cpp:89-93 | Stable sorting commutes with filtering. |
| Sorting.StableSortUnique | src/storage/archive_collection.cpp:89 | A sequence has only one stable sort by a key. |
| Rle.Compress | src/compression/compressor.cpp:5 | The nested run loops. |
| Rle.Decompress | src/compression/compressor.cpp:5 | Accepts exactly streams of whole pairs whose expansion fits the limit. |
| Rle.RoundTrip | src/compression/compressor.cpp:5 | Expanding a compressed input gives it back. |
| Rle.CompressedIsShortest | src/compression/compressor.cpp:5 | No stream that stands for the same bytes is shorter than the compressed one. |
| Rle.ExpandedExactly | src/compression/compressor.cpp:5 | Bytes are the expansion of a stream if and only if every pair, a count at an even place and a value behind it, tells the stretch behind those of the pairs before it, and they tell all. |

## Left out

- Sweep.SegmentRange: the effective span is given as a number; the floating-point product that yields it is not modelled.
- CommandJournal: notes, stored acknowledgements and the packet built for a dispatch are left out; a dispatch records identifier, attempt and times.
- Ingest queue: the cached per-device state (`devices_`) and the byte capacity as an invariant, neither of which the code keeps; high-water marks and published events.
- Batching: an offer's second priority test (src/runtime/batching_policy.cpp:80-82) cannot be reached once the close reason has been inferred, and is not modelled.
- Reassembler: exactly-once delivery across completions, since a late duplicate opens a new stream; the pending-stream statistic is the size of the map.
- crc16, envelope encryption, TLV, protocol negotiation, and the file layout around archive records other than the record itself.
- Reading and writing files, paths, streams and their errors; executing a rotation plan; loading records other than their kind in a collection search.
- Acknowledgement tracker, retention, band plan, latency histogram and service-level windows: their properties are simpler than those proved here.
- Callbacks that throw or call back into the parser, and replay timing.
- Names, tables, JSON and CSV rendering, query and configuration parsing, and the command-line tools.
- Floating-point signal processing, duty cycles and ratios.
