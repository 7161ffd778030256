# Hexapod host protocol: a Dafny model

The host side of a hexapod robot talks to its firmware over a framed serial link, keeps the
robot's configuration, watches hardware-in-the-loop captures, and supervises motion. This
project models that logic and proves what it promises.

- **Link.** `Struct` (fixed-width little-endian fields), `Offsets` (the same by byte position),
  `Nibbles` and `Crc16` (CRC-16/CCITT-FALSE), `Cobs`, `Framing` (the 14-byte header and the
  frame body), `Extractor` (the incremental frame splitter), `Session` (the raw log and its
  replay).
- **HIL trace.** `HilFragments` (the envelope and the reassembler), `HilAssembler` (the
  ordering rules over whole captures), `HilCapture` (a capture on the wire), `HilTrace` (the
  objects and the decoder over retained frames).
- **Configuration.** `RobotConfigs` (records, profiles, validation), `Tables` and
  `ConfigCodec` (the 485-byte payload and six older schemas), `ConfigFields` (every field of
  every schema by byte position), `ConfigTransfer` (block reads and writes), `JournalScan` and
  `Journal` (the OpenLog file).
- **Concurrency and supervision.** `Requests` (sequence-matched requests in every
  interleaving), `StreamLeases` (max-rate arbitration), `MotionWatchdog` (the motion time limit
  above the heartbeat gate).
- **Arithmetic and geometry.** `ServoMath`, `ServoFit`, `PoseModel`, `UrdfTree`.

Code that computes by loops, cursors or fields is modelled by methods and classes that are
proved equal to specification functions; the laws are about those functions. Protocols with
several threads are state machines over their steps. Where a law does not depend on a
component (a checksum, a frame decoder, the parser of a record body, a matrix product), that
component is a parameter and the law holds for every one that meets the stated condition; a
lemma shows that the program's own component does.

What turned out to be false of the code, with the exact condition under which it holds:

- A change of two neighbouring bytes of a frame is not always rejected: exactly the pair of
  changes 0x89 and 0xA1 on the last payload byte and the first checksum byte passes
  (`Framing.AdjacentPairAccepted`).
- A young response is not enough for a request to get its own answer: a request that waits
  through 65535 allocations takes the answer to a command that was sent and forgotten
  (`Requests.OldWaiterMisled`). With both bounds the property holds (`Requests.RunIsRight`),
  and neither can be relaxed by one: runs from the start show it for the response
  (`Requests.StaleRun`) and for the request (`Requests.OldWaiterRun`).
- A validated configuration does not always come back from encode and decode: only if its
  name holds no NUL (`ConfigCodec.ConfigRoundTrip`, `ConfigCodec.NulNameIsLost`), and encoding
  refuses some (`ConfigCodec.EncodesIff`, `ConfigCodec.DutyIsRefused`). A decoded payload is not always a fixed point: only if its name
  field is terminated and ASCII (`ConfigCodec.DecodedIsFixedPoint`,
  `ConfigCodec.UnterminatedNameIsCut`).
- A Jetson bridge whose `close` has been called can still let a setter through until that call
  returns: a start looks at the closed flag, lets go of its lock, and sets the started flag
  without looking again (`MotionWatchdog.CloseDuringStart`). It can exactly when a start was
  under way as the flags were set and the link is not shut yet (`MotionWatchdog.CanPassIff`), and
  it does exactly when such a start has finished since (`MotionWatchdog.JetsonBridge.Forwarded`).
  Once `close` has shut the link nothing is accepted, in any interleaving
  (`MotionWatchdog.NothingAfterShut`).
- How the stream is cut into reads does not matter to a caller that takes every frame. An inline
  request leaves in the middle of a chunk once it has its response, and the rest of that chunk is
  never read (`Extractor.FrameExtractor.PushUntil`); that goes unnoticed, whatever comes later,
  exactly when the rest completes no frame and ends where a frame may begin
  (`Extractor.RestIsLostUnless`).
- The foot of a leg that exists can be judged out of reach when it is folded behind the coxa
  axis (`PoseModel.FootIsJudged`, `PoseModel.FoldedFootRejected`).

Where the code and its own description differ, the code is modelled: `activate_config_record`
is described as appending an exact copy of a record, but it validates and re-encodes the
record's configuration, so a record of an older schema is appended in the current one and an
invalid one is refused (companion/src/data/openlog_config.py:189-202). `log_raw_frame` is
described as writing a 32-bit time; it writes 64 bits
(companion/src/data/session_logger.py:85-90).

## Model

| member | source | states |
|---|---|---|
| Struct.UnpackOfPack | protocol/python/hexapod_protocol/framing.py:55-91 | unpacking what was packed gives the same values, for every format |
| Struct.PackOfUnpack | protocol/python/hexapod_protocol/framing.py:55-91 | packing what was unpacked gives the same bytes, and every unpacked value fits its field |
| Offsets.FieldIn | protocol/python/hexapod_protocol/framing.py:55-91 | every field of an unpacked record is the value of the bytes at its own offset, lowest first, in two's complement where it is signed |
| Crc16.ShiftsAreEightShifts | protocol/python/hexapod_protocol/crc16.py:11-16 | the eight conditional shifts of the bit loop, done four at a time, are the same register map |
| Crc16.StepInjective | protocol/python/hexapod_protocol/crc16.py:8-17 | the byte step is injective in the register for each byte and in the byte for each register |
| Crc16.StepSurjective | protocol/python/hexapod_protocol/crc16.py:8-17 | and every register is reached, so the byte step permutes the registers |
| Crc16.BurstDetected | protocol/python/hexapod_protocol/crc16.py:8-17 | two different strings that differ only within two neighbouring bytes have different checksums |
| Crc16.LastByteKernel | protocol/python/hexapod_protocol/crc16.py:8-17 | changing the last byte leaves the high checksum byte alone exactly for a change of 0x89, and then changes the low one by 0xA1 |
| Crc16.FeedByte | protocol/python/hexapod_protocol/crc16.py:9-16 | the bit loop on the 16-bit integer computes the register step |
| Crc16.ComputeCrc16 | protocol/python/hexapod_protocol/crc16.py:8-17 | the nested loops compute the register run over all bytes, from any starting word |
| Cobs.DecodeEncode | protocol/python/hexapod_protocol/cobs.py:10-58 | decoding inverts encoding for every byte string |
| Cobs.DecodesIff | protocol/python/hexapod_protocol/cobs.py:36-58 | decoding accepts exactly the strings made of length-prefixed blocks, and gives the blocks with a zero after each that is not full or last |
| Cobs.EncodeHasNoZero | protocol/python/hexapod_protocol/cobs.py:10-34 | no encoding holds a zero byte |
| Cobs.EncodeLength | protocol/python/hexapod_protocol/cobs.py:10-34 | the encoding is the length plus one plus the number of full 254-byte blocks |
| Cobs.CobsEncode | protocol/python/hexapod_protocol/cobs.py:10-34 | the back-patching loop computes the encoding |
| Cobs.CobsDecode | protocol/python/hexapod_protocol/cobs.py:36-58 | the cursor loop computes the decoding, errors included |
| Framing.DecodeOfBody | protocol/python/hexapod_protocol/framing.py:94-132 | a body built from a header and payload decodes to them, or is refused for its magic byte |
| Framing.BodyOfDecode | protocol/python/hexapod_protocol/framing.py:104-132 | every accepted body is the body of the message it decodes to |
| Framing.AcceptedIff | protocol/python/hexapod_protocol/framing.py:104-132 | a body is accepted exactly when it has the magic byte, the length in bytes 12 and 13, at most 256, and the checksum at its end; the other fields are those at their bytes |
| Framing.BurstRejected | protocol/python/hexapod_protocol/framing.py:109-129 | any change within two neighbouring bytes of header and payload is rejected |
| Framing.OneByteRejected | protocol/python/hexapod_protocol/framing.py:109-129 | any change of one byte anywhere in a valid body is rejected |
| Framing.StraddleAccepted | protocol/python/hexapod_protocol/framing.py:109-129 | which changes of the last payload byte and first checksum byte pass, exactly |
| Framing.AdjacentPairAccepted | protocol/python/hexapod_protocol/framing.py:109-129 | which changes of two neighbouring bytes anywhere pass, exactly |
| Framing.FrameRoundTrip | protocol/python/hexapod_protocol/framing.py:94-132 | an encoded frame is two delimiters around 1 to 274 nonzero bytes that decode to the message |
| Framing.EncodesIff | protocol/python/hexapod_protocol/framing.py:94-101 | a frame is made exactly when the payload has at most 256 bytes and every header field fits its width |
| Framing.EncodeFrameInto | protocol/python/hexapod_protocol/framing.py:94-101 | the frame, and the payload length left behind in the caller's header |
| Extractor.RunBounded | companion/src/transport/__init__.py:45-65 | the retained buffer never exceeds the maximum and never holds a delimiter |
| Extractor.EmittedFrames | companion/src/transport/__init__.py:45-65 | every emitted frame is delimited by zeros, holds none inside, and is not longer than the maximum |
| Extractor.ChunkingIrrelevant | companion/src/transport/__init__.py:45-65 | state and frames depend only on the concatenated bytes |
| Extractor.RunFrame | companion/src/transport/__init__.py:45-65 | from any state a delimited frame of nonzero bytes comes out whole, whatever came before |
| Extractor.FramesAreRuns | companion/src/transport/__init__.py:45-65 | from the start the frames of any stream are exactly its runs between delimiters, without the empty and the too long ones, in order |
| Extractor.EndToEnd | companion/src/transport/__init__.py:45-65 | messages sent with arbitrary noise between them are decoded in order, each exactly, with nothing between but what the noise alone holds |
| Extractor.NothingButTheMessages | companion/src/transport/__init__.py:45-65 | in arbitrary chunks, and when the noise holds no valid frame, exactly the messages come out |
| Extractor.SendingCarries | protocol/python/hexapod_protocol/framing.py:94-132 | every frame the encoder produces is such a message, so no legal frame is discarded as too long |
| Extractor.DelimitedDecodes | companion/src/transport/protocol_client.py:861-880 | a frame gives a message exactly when it has both delimiters and holds the stuffing of an accepted body |
| Extractor.SentMessagesArrive | companion/src/transport/__init__.py:45-65 | messages framed by the encoder, with noise between them and in arbitrary chunks, are decoded exactly, in order and nothing else, if and only if the noise spells no valid frame |
| Extractor.FrameExtractor.Push | companion/src/transport/__init__.py:45-65 | for a caller that takes every frame, the byte loop over the object's fields is the state machine |
| Extractor.FrameExtractor.PushUntil | companion/src/transport/__init__.py:45-65 | for a caller that leaves after some frames, how much of the chunk was read, that the object is idle there and the rest is not read |
| Extractor.RestIsLostUnless | companion/src/transport/protocol_client.py:287-290 | leaving the rest of a chunk unread changes no later frame exactly when the rest completes no frame and leaves the extractor idle |
| Extractor.FrameExtractor.Reset | companion/src/transport/__init__.py:67-70 | the object is as new |
| Session.ReadLogOf | companion/src/data/session_logger.py:85-90 | reading a log gives the entries written |
| Session.EntryLayout | companion/src/data/session_logger.py:85-90 | an entry is eight bytes of time, two of length and the frame |
| Session.ReadTruncated | companion/src/data/session_logger.py:140-150 | reading a log cut at any byte gives exactly the entries that are complete |
| Session.ReplayFaithful | companion/src/data/session_replay.py:84-98 | replay yields the headers and payloads the live decoder yields on the same frames |
| Session.ReplayAt | companion/src/data/session_replay.py:84-98 | every decoded message is replayed in its place with the host time of its own entry |
| Session.TruncatedReplay | companion/src/data/session_replay.py:84-98 | replay of a truncated log yields a prefix of that |
| Session.LiveReader.HandleFrame | companion/src/transport/protocol_client.py:861-891 | one frame, dropped if it is not delimited: what is logged, what is delivered, and which counter moves |
| Session.LiveReader.ReadChunk | companion/src/transport/protocol_client.py:855-891 | the reader's loop logs the frames of a chunk in order, each with its own clock reading, and keeps log and deliveries in step |
| Session.IterRawFrames | companion/src/data/session_logger.py:140-150 | the read loop computes the entries |
| Session.IterDecodedFrames | companion/src/data/session_replay.py:84-98 | the generator loop computes the replay |
| HilFragments.DecodedIsValid | protocol/python/hexapod_protocol/hil.py:1039-1088 | a decoded fragment has a valid header and exactly the data length its place requires |
| HilFragments.DecodedIff | protocol/python/hexapod_protocol/hil.py:1039-1088 | a payload is decoded exactly when schema, identifiers, type, fragment number, count, length and data length are right, to the fields at their bytes |
| HilFragments.DecodeEventPayload | protocol/python/hexapod_protocol/hil.py:1039-1088 | every valid fragment whose header fits its fields survives the wire |
| HilFragments.AcceptReachable | protocol/python/hexapod_protocol/hil.py:1111-1156 | decoded fragments keep the reassembler's invariant, the "exceeds length" and "truncated" errors cannot happen, and it is idle after every completion or error |
| HilFragments.RunExplained | protocol/python/hexapod_protocol/hil.py:1091-1156 | over every run, what the reassembler holds is the numbered fragments at the end of the run |
| HilFragments.RecordIsItsFragments | protocol/python/hexapod_protocol/hil.py:1091-1156 | a returned record is the in-order concatenation of all its fragments, which are the last ones fed, with the right length and checksum |
| HilFragments.CutRecordComesBack | protocol/python/hexapod_protocol/hil.py:611-624 | a record of 1 to 960 bytes cut into 235-byte fragments comes back exactly on the last one and not before |
| HilFragments.TraceReassembler.Accept | protocol/python/hexapod_protocol/hil.py:1111-1156 | the object's step is the specification's |
| HilAssembler.AcceptKeepsConsistent | protocol/python/hexapod_protocol/hil.py:489-564 | a record is taken exactly when the capture so far admits it, a refused one changes only the expected number, and every field stays a view of the record list |
| HilAssembler.ParsedIff | protocol/python/hexapod_protocol/hil.py:941-1036 | a record parses exactly when its checksum is right, its body reads, its type and Begin's session and capture are the envelope's, Begin asks for 1 to 32 steps and End records no more than asked for; and then to that body |
| HilAssembler.RunSound | protocol/python/hexapod_protocol/hil.py:438-564 | over every sequence of events and resets, raising ones included, the accepted records form a well-formed capture |
| HilAssembler.RunInSession | protocol/python/hexapod_protocol/hil.py:438-500 | over every sequence of events and resets only captures of the expected session are begun |
| HilAssembler.NothingAfterEnd | protocol/python/hexapod_protocol/hil.py:472-473 | no event after End changes anything |
| HilAssembler.WrongEventRaises | protocol/python/hexapod_protocol/hil.py:466-487 | an event with an unknown identifier, an undecodable payload or the other kind's identifier raises and changes nothing |
| HilAssembler.WellFormedIsCapture | protocol/python/hexapod_protocol/hil.py:489-564 | record by record admission gives the position-by-position definition of a complete capture |
| HilAssembler.CaptureIsWellFormed | protocol/python/hexapod_protocol/hil.py:489-564 | and the other way round |
| HilAssembler.MarkedStepExists | protocol/python/hexapod_protocol/hil.py:549-551 | the number a marker carries is that of a step recorded before it |
| HilAssembler.FinalizedIsCapture | protocol/python/hexapod_protocol/hil.py:465-579 | a trace that is returned, after any history, has one Begin first, one matching Config before all steps, steps numbered 1..n within the requested count, markers on recorded steps, and End counters that match |
| HilAssembler.FinalizedIffEnded | protocol/python/hexapod_protocol/hil.py:566-579 | finalizing succeeds exactly when End was accepted |
| HilCapture.TraceIsCapture | protocol/python/hexapod_protocol/hil.py:581-608 | a returned trace is a complete capture, and its fragment counter with End's own fragments accounts for every HIL event there was |
| HilCapture.UnrelatedFramesIgnored | protocol/python/hexapod_protocol/hil.py:593-604 | frames that hold no HIL event, undecodable ones included, change nothing wherever they stand |
| HilCapture.EventFrame | protocol/python/hexapod_protocol/hil.py:593-605 | the frame of an event decodes to that event |
| HilCapture.CaptureComesBack | protocol/python/hexapod_protocol/hil.py:465-608 | every complete capture sent fragment by fragment among other traffic comes back as exactly its records; of a record only its body and its ties to the envelope are assumed, not that it is accepted |
| HilCapture.DecodeReadsBack | protocol/python/hexapod_protocol/hil.py:1039-1088 | the fragment decoder reads back every fragment of a record whose header fits |
| HilTrace.TraceAssembler.AcceptFollowing | protocol/python/hexapod_protocol/hil.py:510-564 | the object's handling of a record after Begin is the specification's |
| HilTrace.TraceAssembler.TakeRecord | protocol/python/hexapod_protocol/hil.py:489-508 | so is its handling of any record |
| HilTrace.TraceAssembler.TakeEvent | protocol/python/hexapod_protocol/hil.py:465-487 | and of any event |
| HilTrace.TraceAssembler.Reset | protocol/python/hexapod_protocol/hil.py:450-459 | everything is cleared but the reassembler's partial record |
| HilTrace.TraceAssembler.Finish | protocol/python/hexapod_protocol/hil.py:566-579 | the trace, or the refusal |
| HilTrace.DecodeTraceFrames | protocol/python/hexapod_protocol/hil.py:581-608 | the loop over frames gives the trace in their HIL events, stopping at the first error |
| HilTrace.SentCaptureComesBack | protocol/python/hexapod_protocol/hil.py:581-608 | with the program's checksum, fragment decoder, framing and assembler, a complete capture cut into fragments, framed and sent among any other traffic is what decoding the frames returns; of a record only its body and its ties to the envelope are assumed |
| HilTrace.DecodedTraceIsCapture | protocol/python/hexapod_protocol/hil.py:581-608 | with the program's own parts, any trace that decoding returns is a complete capture whose counters account for every event |
| HilTrace.DecodedTraceIsOfSession | protocol/python/hexapod_protocol/hil.py:581-608 | when a session is asked for, any returned trace is of that session |
| HilTrace.EventInIff | protocol/python/hexapod_protocol/hil.py:592-604 | a frame counts as a HIL event exactly when it decodes to an event message with one of the two identifiers |
| HilTrace.NothingIsRefused | protocol/python/hexapod_protocol/hil.py:605-607 | frames without a HIL event are refused |
| RobotConfigs.CheckServos | protocol/python/hexapod_protocol/config.py:749-783 | the loop with its sets counts exactly the servo violations: ranges, repeated identifiers and slots, and joints not covered |
| RobotConfigs.CheckChannels | protocol/python/hexapod_protocol/config.py:675-722 | likewise for the channels and their sources |
| RobotConfigs.CheckFeet | protocol/python/hexapod_protocol/config.py:785-803 | likewise for the foot sensors |
| RobotConfigs.Validate | protocol/python/hexapod_protocol/config.py:592-803 | the checks, made one by one, count exactly the violations, and there is none exactly when the configuration is valid |
| RobotConfigs.NoViolations | protocol/python/hexapod_protocol/config.py:592-803 | no violation is counted exactly when every record is in range, identifiers, slots and sources are distinct, and every joint and source is covered |
| RobotConfigs.DefaultIsValid | protocol/python/hexapod_protocol/config.py:510-582 | the compiled defaults are valid |
| Tables.DecodeOfEncodeTable | protocol/python/hexapod_protocol/config.py:404-498 | sections of rows read back as written when the counts are the layout's |
| Tables.EncodeOfDecodeTable | protocol/python/hexapod_protocol/config.py:261-377 | and write back as read |
| ConfigCodec.LayoutSizes | protocol/python/hexapod_protocol/config.py:63-99 | the three layouts have 485, 457 and 337 bytes |
| ConfigCodec.DecodeOfEncode | protocol/python/hexapod_protocol/config.py:261-498 | decoding inverts encoding up to what the name field cannot hold |
| ConfigCodec.ConfigRoundTrip | protocol/python/hexapod_protocol/config.py:261-498 | a validated configuration that encodes comes back unchanged, in 485 bytes, exactly when its name holds no NUL |
| ConfigCodec.EncodesIff | protocol/python/hexapod_protocol/config.py:404-498 | a validated configuration encodes exactly when its name is ASCII and duty, speed, raw limits and enable bytes fit |
| ConfigCodec.DecodedIsFixedPoint | protocol/python/hexapod_protocol/config.py:261-401 | the configuration of any accepted payload of schema 3 to 9 is a fixed point of encode-then-decode exactly when its name field is terminated and ASCII |
| ConfigCodec.UnterminatedNameIsCut | protocol/python/hexapod_protocol/config.py:257-258 | an accepted payload whose configuration is not a fixed point |
| ConfigCodec.NulNameIsLost | protocol/python/hexapod_protocol/config.py:404-413 | a valid configuration that encodes and does not come back |
| ConfigCodec.DutyIsRefused | protocol/python/hexapod_protocol/config.py:442-451 | a valid configuration that encoding refuses |
| ConfigCodec.ServosKeptOrReplaced | protocol/python/hexapod_protocol/config.py:395-401 | servo records come from bytes 78 to 258 in schemas 3, 4, 5, 8, 9 and from the profile in 6 and 7 |
| ConfigCodec.CanonicalBytes | protocol/python/hexapod_protocol/config.py:404-498 | a current payload with an ASCII, NUL-padded name is reproduced byte for byte |
| ConfigCodec.EncodeRobotConfig | protocol/python/hexapod_protocol/config.py:404-498 | the packing loops compute the encoding, refusals included |
| ConfigCodec.DecodeRobotConfig | protocol/python/hexapod_protocol/config.py:261-401 | the cursor loops compute the decoding, migrations and refusals included |
| ConfigFields.DecodesIff | protocol/python/hexapod_protocol/config.py:267-309 | a payload is read exactly when it has the length of the schema in its first two bytes |
| ConfigFields.KinematicsByPosition | protocol/python/hexapod_protocol/config.py:261-401 | links, geometry, legs and gait are those at their bytes in schema 9 and the built-in ones in 3 to 8 |
| ConfigFields.ServosByPosition | protocol/python/hexapod_protocol/config.py:261-401 | servo records are those at their bytes except in schemas 6 and 7, which take the built-in ones |
| ConfigFields.ChannelsByPosition | protocol/python/hexapod_protocol/config.py:261-401 | input channels are those at their bytes except in schema 3, which takes the defaults |
| ConfigFields.BodyByPosition | protocol/python/hexapod_protocol/config.py:261-401 | body limits are those at their bytes except in schemas 3 and 4, which take the defaults |
| ConfigFields.NameByPosition | protocol/python/hexapod_protocol/config.py:261-401 | the name is the payload's and the version the current one in every schema |
| ConfigFields.FeetByPosition | protocol/python/hexapod_protocol/config.py:261-401 | foot sensors and feature flags are those at their bytes in every schema |
| ConfigTransfer.FilledIffCovered | protocol/python/hexapod_protocol/config.py:849-886 | a position is filled exactly when some block covered it, and holds what the last such block brought |
| ConfigTransfer.ReadIsCovered | companion/src/transport/protocol_client.py:659-684 | against any device, a configuration that is returned decodes a payload every byte of which was covered by an answer to the window asked for at that point |
| ConfigTransfer.HonestRead | companion/src/transport/protocol_client.py:659-684 | an honest device is read right whatever the block size and however short its blocks |
| ConfigTransfer.HonestReadIs | companion/src/transport/protocol_client.py:659-684 | reading an honest device gives what its memory decodes to, and raises when it does not decode |
| ConfigTransfer.ReadStops | companion/src/transport/protocol_client.py:659-684 | after any good answers a missing or empty one gives no configuration and one out of range raises |
| ConfigTransfer.WritesIff | companion/src/transport/protocol_client.py:686-701 | a write succeeds exactly when every block is acknowledged with its own length, and then the memory is the payload; a failed one has stored exactly the blocks before the first that was not |
| ConfigTransfer.WriteThenRead | companion/src/transport/protocol_client.py:659-699 | a write whose three blocks are acknowledged in full succeeds, and a read after it gives the same configuration |
| ConfigTransfer.ConfigBlockAssembler.AddBlock | protocol/python/hexapod_protocol/config.py:861-869 | a block in range is laid over the buffer and marked, one out of range changes nothing |
| ConfigTransfer.ConfigBlockAssembler.Complete | protocol/python/hexapod_protocol/config.py:876-878 | complete exactly when every byte is marked |
| ConfigTransfer.ReadConfigLoop | companion/src/transport/protocol_client.py:659-684 | the window loop terminates and computes the read |
| ConfigTransfer.WriteConfigLoop | companion/src/transport/protocol_client.py:686-701 | the write loop computes the stored memory and the verdict |
| JournalScan.ScanConcat | companion/src/data/openlog_config.py:125-139 | scanning a concatenation is scanning its parts exactly when no record straddles them |
| JournalScan.EntriesBefore | companion/src/data/openlog_config.py:125-139 | the entries before an entry are those of the bytes before it |
| JournalScan.AppendedScan | companion/src/data/openlog_config.py:178-186 | an append adds exactly one entry exactly when nothing straddles the old end |
| JournalScan.TruncatedScan | companion/src/data/openlog_config.py:125-139 | an append that stops part way keeps every earlier entry in place |
| JournalScan.DeletedScan | companion/src/data/openlog_config.py:205-224 | a deletion leaves the other entries, the later ones moved down, exactly when nothing straddles the junction |
| JournalScan.ScanFile | companion/src/data/openlog_config.py:125-139 | the offset loop computes the scan |
| Journal.UnhexOfHex | companion/src/data/openlog_config.py:70-87 | hexadecimal text decodes to the bytes it was written from |
| Journal.NibbleIs | companion/src/data/openlog_config.py:70-75 | the sixteen upper-case digits stand for their values and every other character for zero |
| Journal.RecognizeIsLocal | companion/src/data/openlog_config.py:90-122 | whether a record is there, and which, depends on its own bytes only |
| Journal.RecognizedIff | companion/src/data/openlog_config.py:90-122 | a record is recognized exactly when both magic numbers, the version, both sequence numbers, both checksums and the length are right at their bytes and the payload decodes |
| Journal.WrittenRecord | companion/src/data/openlog_config.py:152-175 | an encoded record is recognized as exactly itself |
| Journal.NewestIsMaximum | companion/src/data/openlog_config.py:54-62 | no record has a number above the newest |
| Journal.AppendThenParse | companion/src/data/openlog_config.py:178-186 | after an append the old text is in front, and parsing gives the old records and one new, unique newest record with that configuration, exactly when nothing straddles the old end |
| Journal.AppendsIff | companion/src/data/openlog_config.py:178-186 | an append to a parsed journal succeeds exactly when the configuration is valid and encodable and the numbers have not run out |
| Journal.ActivateThenParse | companion/src/data/openlog_config.py:189-202 | after activating any record of a parsed journal the old text is in front, and parsing gives the old records and one new, unique newest record that carries that record's configuration, exactly when nothing straddles the old end |
| Journal.ActivatesIff | companion/src/data/openlog_config.py:189-202 | an activation succeeds exactly when the journal has the record, its configuration is valid with an ASCII name and the numbers have not run out |
| Journal.TruncatedAppend | companion/src/data/openlog_config.py:178-186 | an append cut at any whole byte still parses with every old record in place |
| Journal.DeleteThenParse | companion/src/data/openlog_config.py:205-224 | a deletion succeeds and leaves exactly the other records exactly when nothing straddles the junction |
| Journal.DeleteRefuses | companion/src/data/openlog_config.py:205-224 | the only record, or one the journal does not have, is never deleted |
| Journal.ProgramKit | companion/src/data/openlog_config.py:152-175 | with the program's checksum and codec an appended configuration reads back as itself exactly when its name holds no NUL |
| Journal.DecodeHex | companion/src/data/openlog_config.py:78-87 | the loop decodes the text and refuses an odd length |
| Journal.ParseFile | companion/src/data/openlog_config.py:125-139 | parsing computes the journal and refuses a file without records |
| Journal.WriteRecord | companion/src/data/openlog_config.py:152-175 | packing with a zero checksum and patching it in gives the record |
| Requests.SameSeq | companion/src/transport/protocol_client.py:214-219 | two allocations share a number exactly when they are a multiple of 65535 apart |
| Requests.SequenceCounter.Next | companion/src/transport/protocol_client.py:214-219 | the numbers run 1 to 65535 and start over; zero is never used |
| Requests.RunKeepsInv | companion/src/transport/protocol_client.py:236-252 | in every interleaving, any number of frames being handled at once, no pending entry outlives its request, and each belongs to a request with its number |
| Requests.RunIsRight | companion/src/transport/protocol_client.py:214-296 | in every interleaving, any number of frames being handled at once, in which no response and no waiting call sees 65535 allocations go by, no call returns a response made for another |
| Requests.AnswersAreSourced | companion/src/transport/protocol_client.py:221-296 | in every interleaving what a request returns is a response the device sent with that request's number, and one that returns nothing timed out or was not written |
| Requests.FirstAnswerStays | companion/src/transport/protocol_client.py:899-909 | the first response put into a slot stays there and a finished call stays finished |
| Requests.HandledOnce | companion/src/transport/protocol_client.py:861-909 | a frame is put into a slot at most once, and taken by an inline request or let go at most once |
| Requests.InlineAnswered | companion/src/transport/protocol_client.py:287-290 | a response on the link can always reach the inline request that waits for its number |
| Requests.QueuedAnswered | companion/src/transport/protocol_client.py:236-252 | a response on the link can always reach the queued request pending under its number, whose entry is then gone |
| Requests.NewRequestAnswered | companion/src/transport/protocol_client.py:221-296 | from every reachable state a new request of either kind can return the response made for it |
| Requests.CanFinish | companion/src/transport/protocol_client.py:221-296 | no call is ever stuck: each can be over within three steps of its own |
| Requests.StaleResponseTaken | companion/src/transport/protocol_client.py:899-909 | from every state with a response as old as the next number, one more request takes it for its own |
| Requests.OldWaiterMisled | companion/src/transport/protocol_client.py:298-317 | from every state with a request that waited through 65535 allocations, a forgotten command's answer misleads it; on a link that was empty all responses stay recent |
| Requests.StaleRun | companion/src/transport/protocol_client.py:214-252 | a run from the start in which every waiting call is recent, 65536 numbers are issued, and a response that outlived 65535 of them is returned by the wrong request |
| Requests.OldWaiterRun | companion/src/transport/protocol_client.py:214-317 | a run from the start in which every response is recent, 65536 numbers are issued, and a request that waited through 65535 of them returns another command's answer |
| StreamLeases.DesiredIsMaximum | companion/src/services/__init__.py:355-364 | the wanted rate is the largest active lease, and zero exactly when there is none |
| StreamLeases.MapDetermined | companion/src/services/__init__.py:365-372 | in step, the wanted rates determine the cached map |
| StreamLeases.LeaseTable.Arbitrate | companion/src/services/__init__.py:355-364 | the pass over all owners computes the wanted rate |
| StreamLeases.LeaseTable.ApplyStreamRate | companion/src/services/__init__.py:354-372 | one stream is brought in step, others stay, the issued commands still replay to the map and none is redundant |
| StreamLeases.LeaseTable.Acquire | companion/src/services/__init__.py:315-324 | the lease is recorded and the cache stays the maximum over active leases |
| StreamLeases.LeaseTable.ReleaseStreams | companion/src/services/__init__.py:326-330 | all of an owner's leases go and the cache stays right |
| StreamLeases.LeaseTable.ReleaseStream | companion/src/services/__init__.py:332-340 | one lease goes, an owner without leases is forgotten, and the cache stays right |
| StreamLeases.LeaseTable.SetOwnerActive | companion/src/services/__init__.py:342-352 | an owner's leases start or stop counting and the cache stays right |
| StreamLeases.LeaseTable.Restore | companion/src/services/__init__.py:374-382 | after a reconnect everything leased is asked for again |
| StreamLeases.LeaseTable.LinkDown | companion/src/services/__init__.py:2142-2150 | after a disconnect the cache is empty |
| MotionWatchdog.MappedInEnvelope | jetson/src/hexapod_jetson_bridge/motion_command_adapter.py:94-151 | whatever is asked, what is forwarded lies in the motion envelope and is valid for more than zero and at most one second |
| MotionWatchdog.MappedIff | jetson/src/hexapod_jetson_bridge/motion_command_adapter.py:94-126 | a request is mapped exactly when its gait is known, every number is finite and it is valid for at least a millisecond |
| MotionWatchdog.MappedFieldByField | jetson/src/hexapod_jetson_bridge/motion_command_adapter.py:128-150 | each forwarded field is its own field of the request in the firmware's unit, nearest where it is an integer, and the nearer bound where that is out of range |
| MotionWatchdog.MappedValidity | jetson/src/hexapod_jetson_bridge/motion_command_adapter.py:120-150 | the validity is the whole milliseconds asked for, at most a second |
| MotionWatchdog.ExpireKeepsInv | jetson/src/hexapod_jetson_bridge/motion_command_adapter.py:221-227 | a poll stops exactly when a deadline has passed |
| MotionWatchdog.AcceptKeepsInv | jetson/src/hexapod_jetson_bridge/motion_command_adapter.py:173-235 | a request is accepted exactly when it is well formed and all four calls are, sets a deadline within a second, and otherwise ends in stop or changes nothing |
| MotionWatchdog.AcceptSends | jetson/src/hexapod_jetson_bridge/motion_command_adapter.py:173-219 | a well-formed request sends its own command to the four setters in turn, up to the first that is not accepted and then a stop; its deadline is its own validity from the end |
| MotionWatchdog.RunKeepsInv | jetson/src/hexapod_jetson_bridge/motion_command_adapter.py:154-235 | over every run: no deadline exactly when nothing was sent or the last call was stop; a deadline belongs to the last four calls, one accepted group; two stops are never adjacent |
| MotionWatchdog.StaleHeartbeatStops | jetson/src/hexapod_jetson_bridge/serial_client.py:121-130 | a heartbeat stale at any of the four calls ends the request in stop |
| MotionWatchdog.PolledInTimeStops | jetson/src/hexapod_jetson_bridge/motion_command_adapter.py:221-227 | a poll a second after the last acceptance leaves the robot stopped |
| MotionWatchdog.EveryRunLawful | jetson/src/hexapod_jetson_bridge/serial_client.py:132-175 | over every interleaving of starts, closes and heartbeats a closed bridge is started exactly when a start finished after the close, and only a closed one has its link shut |
| MotionWatchdog.NothingAfterShut | jetson/src/hexapod_jetson_bridge/serial_client.py:165-175 | after the end of a close no setter is accepted, whatever any thread does and whether or not the client says it is connected |
| MotionWatchdog.NoStartNoRevival | jetson/src/hexapod_jetson_bridge/serial_client.py:132-175 | a bridge closed while no start was under way is never started again |
| MotionWatchdog.CanPassIff | jetson/src/hexapod_jetson_bridge/serial_client.py:132-175 | from the moment the flags say closed, some continuation lets a setter through exactly when a start is under way and the link is not shut |
| MotionWatchdog.ShutBridgeStops | jetson/src/hexapod_jetson_bridge/motion_command_adapter.py:173-235 | a request made of a bridge whose link is shut ends in stop, whatever runs beside it |
| MotionWatchdog.JetsonBridge.Forwarded | jetson/src/hexapod_jetson_bridge/serial_client.py:200-260 | a setter goes through only when started, connected and fresh; on a closed bridge exactly when a start finished after the close, the heartbeat is fresh, the firmware accepts and the link is not shut |
| MotionWatchdog.JetsonBridge.CheckStart | jetson/src/hexapod_jetson_bridge/serial_client.py:132-138 | the first section of a start: closed raises, started is left alone, otherwise the start is under way |
| MotionWatchdog.JetsonBridge.TakeReply | jetson/src/hexapod_jetson_bridge/serial_client.py:140-151 | each exchange of a start goes on or gives up, and its heartbeat is recorded |
| MotionWatchdog.JetsonBridge.FinishStart | jetson/src/hexapod_jetson_bridge/serial_client.py:153-163 | the second section of a start: started after all replies, whether or not the bridge was closed meanwhile |
| MotionWatchdog.JetsonBridge.Start | jetson/src/hexapod_jetson_bridge/serial_client.py:132-163 | undisturbed, a start sets started exactly after handshake, heartbeat and subscriptions |
| MotionWatchdog.JetsonBridge.Others | jetson/src/hexapod_jetson_bridge/serial_client.py:132-186 | any order of steps by other threads, each through the bridge's own methods, is the specification's run |
| MotionWatchdog.JetsonBridge.SetClosed | jetson/src/hexapod_jetson_bridge/serial_client.py:167-172 | the locked section of a close: closed and not started |
| MotionWatchdog.JetsonBridge.StopClient | jetson/src/hexapod_jetson_bridge/serial_client.py:173-175 | the end of a close: the link is shut for good |
| MotionWatchdog.JetsonBridge.Close | jetson/src/hexapod_jetson_bridge/serial_client.py:165-175 | with anything between its two parts, a close returns closed with the link shut |
| MotionWatchdog.CloseDuringStart | jetson/src/hexapod_jetson_bridge/serial_client.py:132-175 | a start that has its replies and finishes after the flags say closed lets a setter through until the link is shut, and not after |
| MotionWatchdog.MotionCommandAdapter.ExpireIfNeeded | jetson/src/hexapod_jetson_bridge/motion_command_adapter.py:221-227 | the object's poll is the specification's |
| MotionWatchdog.MotionCommandAdapter.AcceptRequest | jetson/src/hexapod_jetson_bridge/motion_command_adapter.py:173-219 | the adapter's calls on its bridge, with any steps of other threads before each, are the specification's |
| MotionWatchdog.MotionCommandAdapter.Send | jetson/src/hexapod_jetson_bridge/motion_command_adapter.py:229-235 | one setter through the bridge's gate, followed by a stop and no deadline when it is refused |
| ServoMath.TickRoundTrip | protocol/python/hexapod_protocol/config.py:905-943 | every tick in travel survives tick to angle to rounded centidegrees to tick, unclamped, however halves are rounded |
| ServoMath.CentidegreesRoundTrip | protocol/python/hexapod_protocol/config.py:905-943 | unclamped, centidegrees come back within four |
| ServoMath.FourIsReached | protocol/python/hexapod_protocol/config.py:905-943 | and four is reached |
| ServoMath.HalvesRound | protocol/python/hexapod_protocol/config.py:892-894 | halves go away from zero in the command path and to the even number in the calibration path |
| ServoMath.TicksOfTurn | protocol/python/hexapod_protocol/config.py:905-913 | tick 2048 and the trim is straight, and 1024 ticks are a quarter turn to the side of the sign |
| ServoMath.GoalInTravel | protocol/python/hexapod_protocol/config.py:916-943 | the goal is the nearest tick in travel and the nearer end beyond it, and the flags say which |
| ServoMath.GoalInDevice | protocol/python/hexapod_protocol/config.py:936-941 | whatever the servo record, the goal is one the device has |
| ServoMath.UnmappedIff | protocol/python/hexapod_protocol/config.py:1089-1099 | a joint is marked unmapped exactly when no servo serves it |
| ServoMath.MapIsTotal | protocol/python/hexapod_protocol/config.py:1081-1105 | on a valid configuration every joint has a servo and the slot and identifier indexes agree on it |
| ServoMath.ServoMap.constructor | protocol/python/hexapod_protocol/config.py:1084-1087 | the two indexes are built as specified |
| ServoMath.CalibrationTickIsExact | companion/src/services/__init__.py:1918-1930 | on a valid configuration the command sent for a tick in travel makes that servo go to that tick |
| ServoMath.CommandedAtEnds | companion/src/services/__init__.py:1918-1930 | a tick outside the device counts as the nearer end of its range |
| ServoMath.CommandFitsWire | companion/src/services/__init__.py:1927-1930 | the command fits sixteen bits exactly within 3728 ticks of the trimmed centre |
| ServoFit.MedianOfMajority | protocol/python/hexapod_protocol/config.py:1053-1062 | the median of a list more than half of which is one value is that value |
| ServoFit.MedianIs | protocol/python/hexapod_protocol/config.py:1051-1062 | of any list the median is the middle number in ascending order, or the rounded mean of the two middle ones |
| ServoFit.MajorityForcesTrim | protocol/python/hexapod_protocol/config.py:1051-1062 | once the sign is right, a strict majority of exact readings forces the exact trim |
| ServoFit.NeverNoOffset | protocol/python/hexapod_protocol/config.py:1020-1046 | the fit never fails for want of an offset |
| ServoFit.FittedIff | protocol/python/hexapod_protocol/config.py:980-1046 | a fit is found exactly when all ticks are the device's, there are two readings and one is half a degree or more off centre |
| ServoFit.FarthestIs | protocol/python/hexapod_protocol/config.py:1020-1036 | the pose that decides the sign is the first of those farthest from the centre |
| ServoFit.FittedSign | protocol/python/hexapod_protocol/config.py:1047-1062 | the sign is negative exactly when that pose was read on the other side of the trimmed centre, and the trim is the median |
| ServoFit.ErrorsAdd | protocol/python/hexapod_protocol/config.py:1064-1070 | the squared residual adds up over the readings |
| ServoFit.ExactFit | protocol/python/hexapod_protocol/config.py:980-1078 | exact readings with an exact centre and a pose off it give sign and trim back with no residual |
| ServoFit.FitServoSignTrim | protocol/python/hexapod_protocol/config.py:980-1078 | the loops compute the fit, refusals included |
| PoseModel.HomeFootExact | companion/src/models/pose_model.py:83-136 | at zero joint angles the foot lies at the home radius and height exactly when the stance is in reach, the degenerate one included |
| PoseModel.FootDistance | companion/src/models/pose_model.py:113-136 | the foot is as far from the femur axis as the knee angle makes it |
| PoseModel.KneeBendsOut | companion/src/models/pose_model.py:99-111 | in the rest pose the tibia turns down from the femur: the knee is on the outer side |
| PoseModel.CoxaTurns | companion/src/models/pose_model.py:113-136 | turning the coxa turns the foot by the same angle about its axis and keeps its height |
| PoseModel.FemurTurns | companion/src/models/pose_model.py:113-136 | turning the femur turns the foot by the same angle about the femur axis |
| PoseModel.TibiaTurns | companion/src/models/pose_model.py:113-136 | turning the tibia turns the foot by the same angle about the knee |
| PoseModel.PlacedOnBody | companion/src/models/pose_model.py:149-153 | what lies ahead of a coxa or beside it goes to the turned place on the body |
| PoseModel.PlacementRoundTrip | companion/src/models/pose_model.py:139-162 | placing a point on the body and taking it back are inverse |
| PoseModel.FootIsJudged | companion/src/models/pose_model.py:228-253 | the foot of any joint angles is judged reachable exactly when its radius is not negative or folding it over leaves it outside the inner circle |
| PoseModel.HomeFoot | companion/src/models/pose_model.py:83-136 | the home law for real multiplication itself |
| PoseModel.JudgedFoot | companion/src/models/pose_model.py:228-253 | the reach law for real multiplication itself |
| PoseModel.FoldedFootRejected | companion/src/models/pose_model.py:228-253 | a leg whose foot is judged out of reach |
| PoseModel.ValidStanceInReach | companion/src/models/pose_model.py:182-205 | a stance that validation accepts is in reach |
| UrdfTree.Traverse | companion/src/data/urdf_fk.py:81-100 | the traversal ends on every model, visits each link once and parents first, and leaves out nothing a visited link leads to |
| UrdfTree.VisitedIffReachable | companion/src/data/urdf_fk.py:89-100 | the visited links are exactly the reachable ones |
| UrdfTree.TreePathLeads | companion/src/data/urdf_fk.py:89-100 | the tree path of a visited link leads to it along joints of the model |
| UrdfTree.ProductNext | companion/src/data/urdf_fk.py:104-120 | one joint more multiplies by its fixed transform and, only if it is actuated, by its turn |
| UrdfTree.FixedJointsDoNotTurn | companion/src/data/urdf_fk.py:104-120 | what a fixed joint is told to turn makes no difference |
| UrdfTree.LinkTransforms | companion/src/data/urdf_fk.py:104-120 | every reachable link gets the product along its tree path, and no other link anything |
| UrdfTree.LeafLinks | companion/src/data/urdf_fk.py:143-157 | the leaves with an actuated joint on their tree path, in the model's order, each as often as the model lists it |

## Left out

- The field-by-field bodies of HIL records, telemetry decoders and API wrappers: long fixed-offset reads; record bodies enter through a parser parameter.
- Error texts, log lines and statistics beyond the reader's counters: only which error arises is modelled.
- Threads, sockets, serial ports, files and clocks: interleavings are state-machine steps; readings and replies are parameters.
- Unowned `subscribe` and `unsubscribe` calls of the connection service: they bypass the leases and the cached map.
- Floating-point rounding: lengths, angles and times are exact reals; the home-reach check of validation compares squares.
- Message texts and order of validation errors: the violations are counted, exactly.
- The pose object's feeds and the viewer's drawing helpers: easy updates and field copies.
- The wire form of a configuration block and of the summary: two small fixed layouts.
- User interface, command line, firmware, simulators, relays and ROS nodes: outside this model.
- HilFragments.TraceReassembler.Accept: an expected session of zero stands for none given; the source refuses zero.
- StreamLeases.LeaseTable.Issue: says which commands are issued and in which order, not when the worker threads deliver them.
- MotionWatchdog.JetsonBridge.StopClient: a stream whose own close fails is taken as shut.
