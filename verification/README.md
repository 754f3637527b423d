# Verified core of the patrol robot

A Dafny model of the logic inside the robot's drivers and controllers that does
not depend on ROS, with proofs about it.  `dafny verify dfyconfig.toml` checks
all of it.

**Stream parsers.**  `Scanner` holds the theory that both binary parsers share.  A
*recogniser* looks at a byte string and waits, drops the first byte or takes a
frame; scanning repeats that.  From two facts about a recogniser (its decisions
are stable, and it decides within a bound) follow independence from chunking,
conservation of bytes, the leftmost greedy choice and the bounded resync latency.
`RtcmFrames` and `ImuFrames` define valid frames and prove that the tests of the
source recognise exactly those.  `RtcmFramer` and `ImuParser` contain the buffers,
cursors and counters as classes, proved equal to the scan, and state the results
about valid frames.  `SentenceSplitter` and `Sentences` do the same for `$` and
`#` lines and their two verifiers.

**Checksums.**  `CrcTheory` treats a CRC as a linear code over any register and
proves linearity, residues, detection of bursts and of odd changes.  `Crc24`,
`Crc24Parity` and `Crc24Table` instantiate it for CRC-24Q (RTCM Standard 10403,
section 4), `Crc32` for the two CRC-32 variants (section 8 of RFC 1952).

**NTRIP.**  `ChunkedBody` is the decoder as the source implements it (section 4.1
of RFC 7230).  `NtripSession` reads from a socket whose `recv` returns any
non-empty piece or is interrupted; the proofs hold for every such segmentation.
`Base64` is the credential encoding (section 4 of RFC 4648) with a decoder.

**Controllers.**  `ScanSafety` is the forward brake as a machine over scan,
command and tick events.  `Stations`, `SavitzkyGolay` and `RouteFollower` cover
path arithmetic, smoothing as a least-squares fit, and the control cycle with its
hysteresis, its ramp and the commands it sends.
`ImuAttitude` is the quaternion algebra, with angles as points of the unit circle.

Quantities that are floating point in the source are exact reals here, counters
are unbounded, and CRC registers are bit vectors of their true width.

## Where the code does less than one might expect

- The IMU checksum is a plain sum: every change of one byte is caught, but not an
  exchange of two (`ImuFrames.SwapIsMissed`); a change is missed exactly if it leaves
  the balance of sum and checksum (`ImuFrames.ChangeIsCaughtWhen`).
- The chunk-size reader gives up after 32 characters, so a size line of more than
  30 characters before its CRLF breaks the session (`ChunkedBody.LineIsRead`).
- Body bytes that arrive with the header reach the raw reader only (`skipped` in
  `NtripSession.OneSession`).  Losing leading zeros of a size line is harmless, but
  if as little as the first size line is lost and the data starts with a frame, the
  session publishes nothing (`ChunkedBody.SwallowedStartSilences`).
- The gap between stations is the true progress only up to half a turn
  (`Stations.GapIsProgress`), and stations are nominal (`Stations.NominalStationDrifts`,
  `Stations.IndexReadsBack`).
- The Euler round trip needs a positive cosine of the pitch, up to the one
  degenerate case in `ImuAttitude.EulerRoundTrip`.
- An old scan without points does not stop the robot (`RouteFollower.StaleScanBlocks`),
  nor does the lack of any scan (`SeesAWay` in `RouteFollower.EveryCycleSends`), and
  the candidate held while waiting to resume may be blocked
  (`RouteFollower.ChosenIsClearWhen`).
- The speed floor breaks the relation of turn rate and curvature, and so does the
  fix penalty, which scales the speed and not the turn rate
  (`RouteFollower.PenaltyBreaksCurvature`).
- A stretch of T cycles can hold one inward move more than T/N, because a streak may
  have been under way when it began (`RouteFollower.InwardMovesAreRare`).
- The start-up check divides by at least 0.000001, so it can pass for a smaller
  ramp rate that does not reach the widest offset (`RouteFollower.CheckGuaranteesRetreat`).
- An empty Unicore body, framed, is refused; an empty NMEA body is not.
- A comment at `src/um982_driver/src/unicore_parser.cpp:52-56` says that the zlib
  CRC frames outgoing commands; the command builder appends no checksum.  The model
  takes both functions for what they compute.

## Model

| member | source | states |
|---|---|---|
| Crc24Table.BuildCrc24qTable | src/ntrip_client/src/rtcm_framer.cpp:18-33 | Every table entry is the bit-at-a-time remainder of its byte, although the loop works on a 32-bit word with the 25-bit polynomial and masks at the end. |
| Crc24Table.Crc24q | src/ntrip_client/src/rtcm_framer.cpp:43-52 | The table-driven CRC equals the bit-at-a-time CRC-24Q on every byte string. |
| CrcTheory.RunLinear | src/ntrip_client/src/rtcm_framer.cpp:18-52 | For every linear code, the CRC of the XOR of two messages from the XOR of two registers is the XOR of the results. |
| CrcTheory.RunIsRunBits | src/ntrip_client/src/rtcm_framer.cpp:24-28 | For a code whose step moves the bits behind the highest one up, absorbing bytes is absorbing their bits one at a time. |
| CrcTheory.BurstDetected | src/ntrip_client/src/rtcm_framer.cpp:43-52 | For any linear code with invertible bit steps that tells three bytes apart, a change confined to 24 consecutive bits of a zero-residue message, aligned to bytes or not, leaves a non-zero residue. |
| CrcTheory.OddChangeDetected | src/ntrip_client/src/rtcm_framer.cpp:43-52 | For any linear code that keeps parity, an odd number of flipped bits leaves a non-zero residue. |
| Crc24.CodeIsLinear | src/ntrip_client/src/rtcm_framer.cpp:18-33 | CRC-24Q is a linear code. |
| Crc24.CodeIsInvertible | src/ntrip_client/src/rtcm_framer.cpp:18-33 | A bit step maps only zero to zero, so no register state is lost. |
| Crc24.CodeSeesThreeBytes | src/ntrip_client/src/rtcm_framer.cpp:18-52 | Three bytes leave a zero register only if all three are zero: no error of three bytes is invisible. |
| Crc24.Residue | src/ntrip_client/src/rtcm_framer.cpp:104-111 | A message followed by three bytes has a zero register exactly when those bytes are its CRC. |
| Crc24.CheckValue | src/ntrip_client/src/rtcm_framer.cpp:43-52 | The CRC of the digits one to nine has its published value, so generator, direction and start value are those of the standard. |
| Crc24Parity.CodeKeepsParity | src/ntrip_client/src/rtcm_framer.cpp:21-28 | The generator has even weight: a bit step keeps the parity of the register, and a byte changes it by its own. |
| RtcmFrames.CheckIsResidue | src/ntrip_client/src/rtcm_framer.cpp:104-111 | The comparison of computed and received CRC is the test that the whole frame has residue zero. |
| RtcmFrames.CorruptionBreaksResidue | src/ntrip_client/src/rtcm_framer.cpp:104-116 | A frame with residue zero, altered within 24 consecutive bits anywhere or by an odd number of bit flips, no longer has residue zero. |
| RtcmFrames.ThreeBytesCorrupt | src/ntrip_client/src/rtcm_framer.cpp:104-116 | Any change within three consecutive bytes is such an alteration. |
| RtcmFrames.CorruptionDetected | src/ntrip_client/src/rtcm_framer.cpp:104-116 | An accepted frame whose header is intact and that is altered within any 24 consecutive bits, across up to four bytes, or by any odd number of bit flips, is rejected as a bad CRC, whatever follows it. |
| RtcmFrames.TakesValidFrames | src/ntrip_client/src/rtcm_framer.cpp:79-125 | The loop accepts at a position exactly when a valid frame (preamble, reserved bits zero, length, CRC) starts there, and accepts the whole of it. |
| RtcmFrames.StepIsRecogniser | src/ntrip_client/src/rtcm_framer.cpp:75-133 | A decision, once made, does not change when more bytes arrive, and 1029 bytes always suffice to decide. |
| RtcmFrames.EncodeIsValid | src/ntrip_client/src/rtcm_framer.cpp:89-111 | Every payload of up to 1023 bytes, framed with its length and CRC, is a valid frame and is accepted as a whole. |
| RtcmFrames.WaitsExactlyForFrames | src/ntrip_client/src/rtcm_framer.cpp:79-102 | The loop waits for more exactly while the bytes can still become a valid frame, checks aside, or are two of which the second has reserved bits set. |
| RtcmFramer.ChunkingIsInvisible | src/ntrip_client/src/rtcm_framer.cpp:60-133 | Every way of cutting a byte stream into pushes yields the frames, buffer and counters of one push of the whole stream. |
| RtcmFramer.BytesAreConserved | src/ntrip_client/src/rtcm_framer.cpp:60-133 | Emitted frame bytes, discarded bytes and buffered bytes add up to the stream; fewer than 1029 bytes stay buffered; CRC failures do not exceed discarded bytes. |
| RtcmFramer.EmitsLeftmostValid | src/ntrip_client/src/rtcm_framer.cpp:75-133 | The frames emitted are those of the leftmost non-overlapping choice of valid frames in the part consumed, and there is only one such choice. |
| RtcmFramer.CountsBadCrcs | src/ntrip_client/src/rtcm_framer.cpp:104-116 | The CRC failures counted are exactly the positions consumed, outside emitted frames, where a whole frame with a wrong CRC lies. |
| RtcmFramer.EmitsWithin1029 | src/ntrip_client/src/rtcm_framer.cpp:75-133 | A valid frame at any offset has been emitted, or starts inside an earlier emitted one, once 1029 bytes from its start have arrived, whatever false syncs came before. |
| RtcmFramer.SentFramesArrive | src/ntrip_client/src/rtcm_framer.cpp:60-133 | Frames laid back to back come out exactly as sent, with nothing discarded, rejected or left over. |
| RtcmFramer.CheckFrame | src/ntrip_client/src/rtcm_framer.cpp:104-111 | The CRC comparison in 32-bit words decides exactly the 24-bit check. |
| RtcmFramer.Framer.Look | src/ntrip_client/src/rtcm_framer.cpp:79-116 | The tests made at the cursor, in their order, decide as the specification of one step does. |
| RtcmFramer.Framer.Push | src/ntrip_client/src/rtcm_framer.cpp:60-67 | The buffer, the frames handed on and all three counters become those of the reference scan, and the accounting of all bytes ever pushed is kept. |
| RtcmFramer.Framer.TryExtractFrames | src/ntrip_client/src/rtcm_framer.cpp:75-133 | The cursor loop computes the reference scan of its buffer. |
| RtcmFramer.Framer.Reset | src/ntrip_client/src/rtcm_framer.cpp:69-73 | A reset counts the buffered bytes as discarded, so the accounting since construction survives it. |
| Scanner.ScanConcat | src/ntrip_client/src/rtcm_framer.cpp:60-133 | For any stable recogniser, scanning a concatenation is scanning the first part, then its remainder with the second. |
| Scanner.FeedIsScan | src/imu_driver/src/frame_parser.cpp:28-96 | For any stable recogniser, feeding chunks one by one is scanning their concatenation. |
| Scanner.ScanAccounts | src/imu_driver/src/frame_parser.cpp:28-96 | For any recogniser, no byte is lost or counted twice, and the remainder is a suffix of the input. |
| Scanner.ScanIsTheGreedyChoice | src/imu_driver/src/frame_parser.cpp:28-96 | A list of hits is the leftmost greedy choice over the part consumed if and only if it is the list that the scan makes. |
| Scanner.Latency | src/imu_driver/src/frame_parser.cpp:28-96 | For a recogniser that decides within a bound, a frame is emitted or covered once that many bytes from its start have arrived. |
| Scanner.EncodedScan | src/imu_driver/src/frame_parser.cpp:28-96 | Encodings that are recognised as a whole scan back to what they encode. |
| Scanner.ScanCountsFaults | src/imu_driver/src/frame_parser.cpp:28-96 | For any recogniser, each counter is the number of positions, outside the frames taken, where that fault is found. |
| ImuFrames.TakesValidFrames | src/imu_driver/src/frame_parser.cpp:32-95 | A frame is accepted at a position exactly when a valid one (sync pair, length between 6 and 4102, 16-bit sum) starts there, and is decoded from it. |
| ImuFrames.StepIsRecogniser | src/imu_driver/src/frame_parser.cpp:28-96 | A decision does not change when more bytes arrive, and 4104 bytes always suffice to decide. |
| ImuFrames.EncodeIsRecognised | src/imu_driver/src/frame_parser.cpp:43-95 | Every frame with a payload of up to 4096 bytes is accepted as a whole and decodes to itself. |
| ImuFrames.SumAdds | src/imu_driver/src/messages.cpp:64-71 | The checksum of a concatenation is the wrapped sum of the checksums of its parts, of nothing zero and of one byte its value. |
| ImuFrames.ChangeIsCaughtWhen | src/imu_driver/src/frame_parser.cpp:80-85 | A valid frame altered in any bytes but sync and length is dropped with a checksum error if and only if the change shifts the summed bytes against the checksum modulo 65536; otherwise it is accepted as altered. |
| ImuFrames.ByteChangeDetected | src/imu_driver/src/frame_parser.cpp:38-85 | A valid frame with any one byte but the two of the length changed is dropped, whatever follows: as noise if a sync byte changed, as a checksum error if any other. |
| ImuFrames.SwapIsMissed | src/imu_driver/src/frame_parser.cpp:80-85 | A valid frame with two payload bytes exchanged is accepted as altered. |
| ImuFrames.WaitsExactlyForFrames | src/imu_driver/src/frame_parser.cpp:32-68 | The parser waits for more exactly while the bytes can still become a valid frame, checksum aside, or are a single one that is not the first sync byte. |
| ImuFrames.Checksum | src/imu_driver/src/messages.cpp:64-71 | The running 16-bit sum is the sum of the bytes modulo 65536. |
| ImuFrames.BuildCommand | src/imu_driver/src/messages.cpp:73-87 | A command is the frame of type 0 and id 0 that carries its code, so the parser accepts it. |
| ImuParser.ChunkingIsInvisible | src/imu_driver/src/frame_parser.cpp:28-96 | Every way of cutting the stream into pushes parses as one push of the whole. |
| ImuParser.BytesAreConserved | src/imu_driver/src/frame_parser.cpp:17-95 | Frame bytes, discarded and buffered bytes add up to the stream; fewer than 4104 bytes stay buffered; checksum errors and bad lengths together do not exceed discarded bytes. |
| ImuParser.ParsesLeftmostValid | src/imu_driver/src/frame_parser.cpp:28-96 | The frames returned are the one leftmost non-overlapping choice of valid frames in the part consumed. |
| ImuParser.CountsBadFrames | src/imu_driver/src/frame_parser.cpp:55-85 | The checksum errors and the bad lengths counted are exactly the positions consumed, outside returned frames, where a whole frame with a wrong checksum lies, and where the length is out of range. |
| ImuParser.ParsesWithin4104 | src/imu_driver/src/frame_parser.cpp:28-96 | A valid frame at any offset has been returned, or starts inside an earlier returned one, once 4104 bytes from its start have arrived. |
| ImuParser.SentFramesArrive | src/imu_driver/src/frame_parser.cpp:28-96 | Any list of frames with payloads up to 4096 bytes, encoded back to back and pushed in any chunks, is returned exactly, with nothing discarded and no checksum error. |
| ImuParser.FrameParser.Push | src/imu_driver/src/frame_parser.cpp:28-96 | The returned frames, the buffer and the four counters become those of the reference scan. |
| ImuParser.FrameParser.Look | src/imu_driver/src/frame_parser.cpp:38-88 | The tests at the front of the buffer decide as the specification of one step does. |
| ImuParser.FrameParser.DropFront | src/imu_driver/src/frame_parser.cpp:17-21 | One byte leaves the buffer and is counted. |
| ImuParser.FrameParser.Reset | src/imu_driver/src/frame_parser.cpp:23-26 | A reset drops the buffered bytes without counting them: all counters keep their values. |
| Crc32.MakeTable | src/um982_driver/src/command_builder.cpp:18-29 | Every table entry is the bit-at-a-time remainder of its byte. |
| Crc32.UnicoreCrc32 | src/um982_driver/src/command_builder.cpp:56-64 | The table-driven CRC equals the bit-at-a-time zlib CRC-32 on every byte string. |
| Crc32.UnicoreMessageCrc32 | src/um982_driver/src/unicore_parser.cpp:57-67 | The nested loops compute the bit-at-a-time CRC-32 that starts from zero. |
| Crc32.RunAdds | src/um982_driver/src/unicore_parser.cpp:57-67 | CRC-32 runs add over registers and messages of equal length. |
| Crc32.DifferencesAgree | src/um982_driver/src/command_builder.cpp:56-64 | For messages of equal length the XOR of their zlib CRCs, the XOR of their Unicore message CRCs and the Unicore CRC of their XOR are the same. |
| Crc32.FourByteChangeDetected | src/um982_driver/src/unicore_parser.cpp:57-67 | Any change of a message within four consecutive bytes changes both CRCs. |
| Crc32.CheckValue | src/um982_driver/src/command_builder.cpp:56-64 | The zlib CRC of the digits one to nine has its published value. |
| SentenceSplitter.RunConcat | src/um982_driver/src/frame_splitter.cpp:17-73 | How a stream is cut into pushes does not matter. |
| SentenceSplitter.NextKeeps | src/um982_driver/src/frame_splitter.cpp:20-72 | One byte keeps every state well formed and moves exactly one byte into an account: sentence, discarded, line ending or pending. |
| SentenceSplitter.RunKeeps | src/um982_driver/src/frame_splitter.cpp:17-73 | After any stream all bytes are accounted for, every emitted sentence starts with its sync byte and has no other, and at most 2048 bytes are pending. |
| SentenceSplitter.LinesArrive | src/um982_driver/src/frame_splitter.cpp:17-73 | Sentences sent as CRLF lines come out in order, unchanged, with nothing discarded. |
| SentenceSplitter.EmitsExactlySentences | src/um982_driver/src/frame_splitter.cpp:20-72 | For every stream, garbage included: a byte brings out a sentence exactly if it is a line ending with a sync byte and 1 to 2047 body bytes right before it, and then that one. |
| SentenceSplitter.DiscardsTheRest | src/um982_driver/src/frame_splitter.cpp:20-72 | After every stream the line endings consumed are all of its CR and LF, and every other byte is in a sentence, discarded or pending. |
| SentenceSplitter.OverflowsExactly | src/um982_driver/src/frame_splitter.cpp:61-69 | For every stream, garbage included: a byte counts as an overflow exactly if it is a body byte behind a sync byte and 2047 body bytes. |
| SentenceSplitter.FrameSplitter.Push | src/um982_driver/src/frame_splitter.cpp:17-73 | The per-byte loop over the fields follows the reference run. |
| SentenceSplitter.FrameSplitter.PushByte | src/um982_driver/src/frame_splitter.cpp:20-72 | One pass of the loop body is one step of the reference machine. |
| SentenceSplitter.FrameSplitter.Reset | src/um982_driver/src/frame_splitter.cpp:11-15 | A reset drops the pending bytes uncounted and returns to idle; the counters keep their values. |
| Sentences.TrimEol | src/um982_driver/src/nmea_parser.cpp:25-31 | All trailing CR and LF are removed, nothing else. |
| Sentences.TrimmedIs | src/um982_driver/src/nmea_parser.cpp:25-31 | What is trimmed are line endings only, and no line ending is left at the end. |
| Sentences.VerifyNmeaChecksum | src/um982_driver/src/nmea_parser.cpp:92-123 | True exactly for a trimmed sentence with a `$` or `!`, a last `*` three places before the end and two hex digits equal to the XOR between them. |
| Sentences.SplitNmeaFields | src/um982_driver/src/nmea_parser.cpp:125-149 | Fields come back exactly for a well-formed sentence; none holds a comma, and joined by commas they are the text between the sync byte and the last `*`. |
| Sentences.VerifyUnicoreChecksum | src/um982_driver/src/unicore_parser.cpp:79-104 | True exactly for a trimmed sentence of at least 11 bytes with a `#`, a last `*` nine places before the end and eight hex digits equal to the message CRC of the body. |
| Sentences.NmeaTextHolds | src/um982_driver/src/nmea_parser.cpp:92-123 | Every framed body passes, with digits of either case. |
| Sentences.NmeaHoldsExactly | src/um982_driver/src/nmea_parser.cpp:92-123 | A body between any lead byte and a `*` with two hex digits of either case passes if and only if the lead is `$` or `!` and the digits spell the XOR of the body. |
| Sentences.NmeaHoldsOnlyFramed | src/um982_driver/src/nmea_parser.cpp:92-123 | Every text that passes is such a framed body. |
| Sentences.XorAdds | src/um982_driver/src/nmea_parser.cpp:105-108 | The XOR of a concatenation is that of the XORs of its parts, and of one byte the byte. |
| Sentences.NmeaChangeRefused | src/um982_driver/src/nmea_parser.cpp:105-122 | A framed sentence with any one byte of its body changed is refused. |
| Sentences.UnicoreTextHolds | src/um982_driver/src/unicore_parser.cpp:79-104 | A framed body passes exactly when it is not empty. |
| Sentences.UnicoreHoldsExactly | src/um982_driver/src/unicore_parser.cpp:79-104 | A body between any lead byte and a `*` with eight hex digits of any cases passes if and only if the lead is `#`, the body is not empty and the digits spell its message CRC. |
| Sentences.UnicoreHoldsOnlyFramed | src/um982_driver/src/unicore_parser.cpp:79-104 | Every text that passes is such a framed body. |
| Sentences.UnicoreChangeRefused | src/um982_driver/src/unicore_parser.cpp:79-104 | A framed sentence with its body changed within four consecutive bytes is refused. |
| Sentences.SentencesRoundTrip | src/um982_driver/src/frame_splitter.cpp:17-73 | Any sequence of non-empty bodies free of sync and line-ending bytes that fit in 2048 bytes once framed comes out of a fresh splitter in order with nothing discarded, and each passes its own verifier. |
| Sentences.FieldsRestoreBody | src/um982_driver/src/nmea_parser.cpp:125-149 | Splitting a framed NMEA body and joining the fields by commas restores the body. |
| Base64.Base64Encode | src/ntrip_client/src/ntrip_client_node.cpp:63-97 | The loop with its two remainder cases computes the encoding of section 4 of RFC 4648. |
| Base64.RoundTrip | src/ntrip_client/src/ntrip_client_node.cpp:63-97 | Decoding the encoding of any byte string returns it. |
| Base64.DecodesExactlyEncodings | src/ntrip_client/src/ntrip_client_node.cpp:63-97 | A text decodes to a byte string if and only if it is its encoding, so wrong lengths, foreign characters, misplaced pads and set spare bits are refused and no two strings share an encoding. |
| Base64.Shape | src/ntrip_client/src/ntrip_client_node.cpp:63-97 | Four characters for every three bytes begun; padding only in the last two places, one pad for two bytes over and two for one. |
| ChunkedBody.LineIsRead | src/ntrip_client/src/ntrip_client_node.cpp:309-321 | A size line without a CRLF in it is read up to its CRLF if and only if it has at most 30 characters. |
| ChunkedBody.LongLineIsCut | src/ntrip_client/src/ntrip_client_node.cpp:311-321 | A line without CRLF in its first 32 bytes is cut there, and what follows is left to be read. |
| ChunkedBody.LineNeedsItsEnd | src/ntrip_client/src/ntrip_client_node.cpp:311-314 | A shorter one at the end of the stream ends the body. |
| ChunkedBody.UnreadableLineEnds | src/ntrip_client/src/ntrip_client_node.cpp:321-335 | A line that is empty, has no digits, or overflows or equals the error value ends the body. |
| ChunkedBody.SizeLineReads | src/ntrip_client/src/ntrip_client_node.cpp:322-326 | A size in hex digits followed by an extension reads as the value of the digits. |
| ChunkedBody.MixedCaseReads | src/ntrip_client/src/ntrip_client_node.cpp:322-326 | Hex digits in any mixture of cases have the value that their digit values spell in base sixteen. |
| ChunkedBody.HexIsDigit | src/ntrip_client/src/ntrip_client_node.cpp:322-326 | Every byte taken for a hex digit is the upper- or lower-case digit of its value. |
| ChunkedBody.SpelledSizeReads | src/ntrip_client/src/ntrip_client_node.cpp:322-326 | So a size line of such digits, with or without an extension, reads as the number spelled. |
| ChunkedBody.NumberReads | src/ntrip_client/src/ntrip_client_node.cpp:322-326 | Behind any spaces, an optional sign and an optional 0x, the digits read as their value, negated modulo 2^64 behind a minus; a value of 2^64 or more is an error. |
| ChunkedBody.PlainChunk | src/ntrip_client/src/ntrip_client_node.cpp:309-327 | Every non-empty chunk whose size is written in plain hex, in either case, is readable. |
| ChunkedBody.EncodedBody | src/ntrip_client/src/ntrip_client_node.cpp:330-352 | Readable chunks decode to their concatenated data, followed by what the rest of the stream decodes to. |
| ChunkedBody.CutChunkKeepsBlocks | src/ntrip_client/src/ntrip_client_node.cpp:342-350 | Of a chunk cut short its whole blocks of 4096 bytes are delivered, and all of it if only its CRLF is incomplete. |
| ChunkedBody.LastChunk | src/ntrip_client/src/ntrip_client_node.cpp:336-341 | Any readable size line that says zero ends the body, whatever follows. |
| ChunkedBody.ZeroLineIsLast | src/ntrip_client/src/ntrip_client_node.cpp:322-326 | One or more zeros, with or without an extension, are such a line. |
| ChunkedBody.EncodingDecodes | src/ntrip_client/src/ntrip_client_node.cpp:330-352 | Every chunked encoding of some data, cut in any way and ended by any terminating chunk, decodes to that data. |
| ChunkedBody.SwallowedStartSilences | src/ntrip_client/src/ntrip_client_node.cpp:427-431 | If what arrived with the header reaches into the data of the first chunk, up to a byte that is no space, sign or hex digit, nothing of the body is decoded, for every chunk and continuation. |
| ChunkedBody.PreambleStartsNoSize | src/ntrip_client/src/ntrip_client_node.cpp:427-431 | The preamble of an RTCM frame is such a byte, so losing the first size line suffices when the data starts with a frame. |
| ChunkedBody.LeadingZerosAreSpare | src/ntrip_client/src/ntrip_client_node.cpp:427-431 | Losing only leading zeros of the first size line changes nothing. |
| NtripSession.FindBlankLine | src/ntrip_client/src/ntrip_client_node.cpp:246-247 | The end of the first CRLFCRLF is found, if there is one. |
| NtripSession.ReadHeaders | src/ntrip_client/src/ntrip_client_node.cpp:233-255 | However the bytes arrive, a block of at most 8192 bytes is found and returned exactly, with less than one buffer behind it; one of more than 8704 never is. |
| NtripSession.RecvExact | src/ntrip_client/src/ntrip_client_node.cpp:291-305 | Succeeds exactly when enough bytes still come, and takes precisely those, however they arrive. |
| NtripSession.ReadChunkSize | src/ntrip_client/src/ntrip_client_node.cpp:309-327 | The byte-wise reader takes the line and yields the size that the specification gives, or fails with it. |
| NtripSession.ReadChunkData | src/ntrip_client/src/ntrip_client_node.cpp:342-348 | The framer gets the whole chunk if it comes, otherwise its complete blocks of 4096 bytes. |
| NtripSession.ReadChunked | src/ntrip_client/src/ntrip_client_node.cpp:330-352 | The framer receives exactly the decoded chunk data, for every segmentation of the stream. |
| NtripSession.ReadRaw | src/ntrip_client/src/ntrip_client_node.cpp:355-371 | The framer receives exactly the leftover and all that follows, for every segmentation. |
| NtripSession.OneSession | src/ntrip_client/src/ntrip_client_node.cpp:376-475 | With a header block of at most 8192 bytes the frames published are those of the bytes after it in raw mode, and in chunked mode those of the decoded data after the bytes that came with the header; if none came with it, those of the data of which the body is an encoding. A rejected response publishes nothing. |
| NtripSession.ChunkSplitIsInvisible | src/ntrip_client/src/ntrip_client_node.cpp:330-352 | Any two chunked encodings of the same data yield the same frames, those of the data. |
| NtripSession.SwallowedStartPublishesNothing | src/ntrip_client/src/ntrip_client_node.cpp:427-431 | When those bytes reach into the data of the first chunk, up to one that starts no size line, what is decoded from the rest holds no frame. |
| ImuAttitude.ComposedIsUnit | src/imu_driver/src/messages.cpp:159-169 | The composed quaternion has norm one. |
| ImuAttitude.InverseArguments | src/imu_driver/src/messages.cpp:182-194 | On it the arguments of the arc tangents are the heading and roll directions scaled by the cosine of the pitch, and the argument of the arc sine is the sine of the pitch. |
| ImuAttitude.QuaternionFromEulerKernel | src/imu_driver/src/messages.cpp:159-180 | Normalising in place changes nothing: the result is the composed quaternion of norm one. |
| ImuAttitude.EulerRoundTrip | src/imu_driver/src/messages.cpp:159-195 | Euler angles to quaternion to Euler angles is the identity if and only if the cosine of the pitch is positive, or is zero with heading and roll zero. |
| ScanSafety.EventPublishes | src/outdoor_patrol_safety/outdoor_patrol_safety/scan_safety_node.py:117-174 | An event publishes at most one Twist, and only one that the scan and command history justifies. |
| ScanSafety.EveryPublicationIsJustified | src/outdoor_patrol_safety/outdoor_patrol_safety/scan_safety_node.py:77-174 | Over every run, each published Twist is the latest unexpired command with all components unchanged except a positive forward one while the way is not clear, or the zero Twist of an expired one. |
| ScanSafety.ForwardOnlyWhenClear | src/outdoor_patrol_safety/outdoor_patrol_safety/scan_safety_node.py:81-115 | Over every run, forward motion is published only at an event before which the latest scan was at most the timeout old and had no return in the sector and within the range limits that is below the stop distance. |
| ScanSafety.CommandGoesOut | src/outdoor_patrol_safety/outdoor_patrol_safety/scan_safety_node.py:117-123 | Over every run, a command brings out exactly one Twist at once, itself, without its forward component if and only if that is positive and the latest scan is missing, too old or shows a valid in-sector return below the stop distance. |
| ScanSafety.BearingsAreSpaced | src/outdoor_patrol_safety/outdoor_patrol_safety/scan_safety_node.py:97-98 | The first beam is at the start angle and each next one an increment on. |
| ScanSafety.TickGoesOut | src/outdoor_patrol_safety/outdoor_patrol_safety/scan_safety_node.py:125-149 | Over every run, a tick brings out nothing without a command held, one zero Twist if it has expired, nothing less than a period after the last publication, and otherwise what the command would bring out on arrival. |
| ScanSafety.ScanIsSilent | src/outdoor_patrol_safety/outdoor_patrol_safety/scan_safety_node.py:77-79 | Over every run, a scan brings out nothing. |
| ScanSafety.HeldCommandIsRepublished | src/outdoor_patrol_safety/outdoor_patrol_safety/scan_safety_node.py:131-149 | With ticks at most D apart, publications for a held command are less than one period plus D apart. |
| ScanSafety.ForwardMotionStops | src/outdoor_patrol_safety/outdoor_patrol_safety/scan_safety_node.py:131-174 | Over every run, once the way has not been clear for one period plus D, the last Twist published does not move the robot forward, whatever commands kept coming. |
| ScanSafety.SilentScannerStops | src/outdoor_patrol_safety/outdoor_patrol_safety/scan_safety_node.py:81-85 | If scans stop coming, that is so one scan timeout, one period and D after the last one. |
| ScanSafety.HeldUntilExpiry | src/outdoor_patrol_safety/outdoor_patrol_safety/scan_safety_node.py:131-149 | Until a tick finds it expired a command stays held, and nothing is published for it later than its timeout. |
| ScanSafety.ExpiryStopsOnce | src/outdoor_patrol_safety/outdoor_patrol_safety/scan_safety_node.py:131-141 | An expired command yields exactly one zero Twist, within its timeout plus D, and then silence until the next command. |
| ScanSafety.ExpiryHappens | src/outdoor_patrol_safety/outdoor_patrol_safety/scan_safety_node.py:125-141 | No event comes later than D past the timeout without a tick before it having stopped the robot. |
| ScanSafety.SilentWithoutCommand | src/outdoor_patrol_safety/outdoor_patrol_safety/scan_safety_node.py:131-133 | Without a command nothing is published, whatever scans and ticks come. |
| ScanSafety.ScanSafetyNode.HandleScan | src/outdoor_patrol_safety/outdoor_patrol_safety/scan_safety_node.py:77-79 | The handler is the scan step of the state machine and keeps the cache correct. |
| ScanSafety.ScanSafetyNode.HandleCmd | src/outdoor_patrol_safety/outdoor_patrol_safety/scan_safety_node.py:117-123 | The handler is the command step. |
| ScanSafety.ScanSafetyNode.HandleTick | src/outdoor_patrol_safety/outdoor_patrol_safety/scan_safety_node.py:131-149 | The handler is the tick step: expiry first, then the rate limit. |
| ScanSafety.ScanSafetyNode.PublishGated | src/outdoor_patrol_safety/outdoor_patrol_safety/scan_safety_node.py:151-174 | The cached minimum over the sector gates exactly as the direct test of all returns of the scan does. |
| ScanSafety.ScanSafetyNode.SectorIndices | src/outdoor_patrol_safety/outdoor_patrol_safety/scan_safety_node.py:87-106 | Whatever scan filled the cache, the indices returned are those recomputed for this scan: all of its beams in the sector, in order. |
| ScanSafety.ScanSafetyNode.ForwardMin | src/outdoor_patrol_safety/outdoor_patrol_safety/scan_safety_node.py:108-115 | The running minimum is below the stop distance exactly when some valid in-sector return is. |
| Stations.GapIsShortest | src/outdoor_patrol_route/outdoor_patrol_route/path.py:324-332 | On a loop the gap is the difference up to whole turns, and lies in the half-open half turn to either side. |
| Stations.GapIsProgress | src/outdoor_patrol_route/outdoor_patrol_route/path.py:324-332 | The gap between two wrapped stations is the true progress if and only if that is more than half a turn backward and at most half a turn forward. |
| Stations.Unwraps | src/outdoor_patrol_route/outdoor_patrol_route/route_follower.py:386-393 | If every cycle moves by less than half a turn, the sum of the gaps is the true progress since the first projection, over any number of turns. |
| Stations.TravelledIsCongruent | src/outdoor_patrol_route/outdoor_patrol_route/route_follower.py:386-393 | With no assumption at all the sum is off by whole turns only. |
| Stations.OpenTelescopes | src/outdoor_patrol_route/outdoor_patrol_route/route_follower.py:386-393 | On an open path the sum is the last station minus the first, with no assumption. |
| Stations.NominalStationDrifts | src/outdoor_patrol_route/outdoor_patrol_route/path.py:183-201 | The nominal station of every resampled point is within half a step of its true one if and only if a loop is at least one step long, or an open path, which has one point more, at least one and a half. |
| Stations.IndexIsNearest | src/outdoor_patrol_route/outdoor_patrol_route/path.py:226-236 | Every station indexes a point; its nominal station is within half a step, on a loop up to whole turns, or on an open path the station lies beyond that end. |
| Stations.IndexReadsBack | src/outdoor_patrol_route/outdoor_patrol_route/path.py:226-236 | The wrapped or clamped nominal station of every point indexes that point again if and only if a loop is longer than one step, or an open path at least one and a half steps long. |
| SavitzkyGolay.Smooth | src/outdoor_patrol_route/outdoor_patrol_route/path.py:76-99 | The in-place loops produce the wrapped windows on a loop, and on an open path the centre fits with both edge blocks taken from the first and last full window; too short or even windows change nothing. |
| SavitzkyGolay.LoopKeepsSum | src/outdoor_patrol_route/outdoor_patrol_route/path.py:80-87 | Smoothing a closed loop keeps the sum of its points, hence their centroid, for every length and window. |
| SavitzkyGolay.OpenKeepsQuadratics | src/outdoor_patrol_route/outdoor_patrol_route/path.py:88-99 | On an open path every sequence that is quadratic in its index is a fixed point, edge blocks included. |
| SavitzkyGolay.FitIsLeastSquares | src/outdoor_patrol_route/outdoor_patrol_route/path.py:76-81 | The coefficients computed for a window are those of the one quadratic with the least sum of squared residuals. |
| SavitzkyGolay.LoopFitsBest | src/outdoor_patrol_route/outdoor_patrol_route/path.py:80-87 | On a loop each smoothed station is the value, at that station, of the least-squares quadratic of the window centred on it, across the seam. |
| SavitzkyGolay.OpenFitsBest | src/outdoor_patrol_route/outdoor_patrol_route/path.py:88-99 | On an open path each smoothed station is the value, at that station, of the least-squares quadratic of the window centred on it, moved as little as needed to lie inside the path. |
| SavitzkyGolay.FiveStationWeights | src/outdoor_patrol_route/outdoor_patrol_route/path.py:76-81 | For the default window the well-known weights are the pseudo-inverse. |
| RouteFollower.CandidatesFillCorridor | src/outdoor_patrol_route/outdoor_patrol_route/route_follower.py:232-240 | Candidates start on the path, are one step apart on the retreat side only, all fit the corridor less the clearance, and one more would not. |
| RouteFollower.AheadIsTrueDistance | src/outdoor_patrol_route/outdoor_patrol_route/route_follower.py:455-458 | On a loop a point counts as ahead exactly when the true distance to it is positive and within the trigger range, wherever the seam lies. |
| RouteFollower.AheadOnOpenPath | src/outdoor_patrol_route/outdoor_patrol_route/route_follower.py:454 | On an open path it counts exactly when the difference of the stations is positive and below the trigger range. |
| RouteFollower.StaleScanBlocks | src/outdoor_patrol_route/outdoor_patrol_route/route_follower.py:438-445 | A stale scan blocks every candidate if and only if it holds points; an empty one counts as clear at any age. |
| RouteFollower.TargetKeepsClearWhen | src/outdoor_patrol_route/outdoor_patrol_route/route_follower.py:435-486 | In every driving cycle, the offset the robot makes for keeps the clearance from every point ahead if and only if the nearest clear candidate is no nearer than the one committed, or the wait to resume is over, or the one held keeps it. |
| RouteFollower.NeverTooNear | src/outdoor_patrol_route/outdoor_patrol_route/route_follower.py:468-486 | After every cycle with a clear candidate the committed one is at least as far out as the nearest clear one, every move lands on that one, and a move outward comes at once. |
| RouteFollower.ChosenIsClearWhen | src/outdoor_patrol_route/outdoor_patrol_route/route_follower.py:479-486 | The candidate made for is clear if and only if the nearest clear one is no nearer than the one committed, or the wait to resume is over, or the one held through it is clear: otherwise the robot keeps making for a blocked one. |
| RouteFollower.BlockedCyclesAreInvisible | src/outdoor_patrol_route/outdoor_patrol_route/route_follower.py:471-472 | Cycles with everything blocked leave the choice and the streak as if they had not happened. |
| RouteFollower.InwardNeedsStreak | src/outdoor_patrol_route/outdoor_patrol_route/route_follower.py:479-486 | An inward move comes only after N successive cycles, not counting those with all blocked, in each of which a nearer candidate was clear and the same one was held. |
| RouteFollower.ResumesOnTime | src/outdoor_patrol_route/outdoor_patrol_route/route_follower.py:479-486 | From any state, once a nearer candidate has been clear for as many cycles as the streak lacks, the nearest clear one is committed, and until then the one before stays. |
| RouteFollower.InwardMovesArePaid | src/outdoor_patrol_route/outdoor_patrol_route/route_follower.py:468-486 | From any state, N times the inward moves of any cycles plus the streak after them is at most their number plus the streak before. |
| RouteFollower.InwardMovesAreRare | src/outdoor_patrol_route/outdoor_patrol_route/route_follower.py:468-486 | Any T successive cycles of a run contain at most T/N inward moves, rounded up, and its first T cycles at most T/N, rounded down. |
| RouteFollower.OneCycleCanMove | src/outdoor_patrol_route/outdoor_patrol_route/route_follower.py:479-486 | Rounding up is needed: with the streak one short, a single cycle can hold an inward move. |
| RouteFollower.TowardShrinks | src/outdoor_patrol_route/outdoor_patrol_route/route_follower.py:493-496 | The distance left shrinks by the allowance down to zero, and the target is never passed. |
| RouteFollower.AllowanceIsLeast | src/outdoor_patrol_route/outdoor_patrol_route/route_follower.py:493-494 | The allowance is the least that covers 0.0001, the share of the distance driven and that of a crawl at 0.1 m/s. |
| RouteFollower.ReachesByTravel | src/outdoor_patrol_route/outdoor_patrol_route/route_follower.py:488-496 | The target is reached once commanded travel is the distance over the ramp rate, and, while neither floor is at work, if and only if it is. |
| RouteFollower.ReachesByRaisedTravel | src/outdoor_patrol_route/outdoor_patrol_route/route_follower.py:488-496 | In cycles long enough for a crawl to exceed 0.0001, the target is reached if and only if the travel, speeds below 0.1 m/s raised to that, is the distance over the ramp rate. |
| RouteFollower.CheckGuaranteesRetreat | src/outdoor_patrol_route/outdoor_patrol_route/route_follower.py:254-256 | When the start-up check passes, every retreat is complete half a metre before the trigger range has been travelled if and only if the ramp rate times that distance covers the widest offset or the widest is within one cycle's floor; the first holds for every rate from 0.000001 on. |
| RouteFollower.CheckIsExact | src/outdoor_patrol_route/outdoor_patrol_route/route_follower.py:254-257 | For rates from 0.000001 on and offsets wider than 0.0001, the check passes if and only if the rate times the trigger range less half a metre covers the widest offset, and if and only if every retreat completes. |
| RouteFollower.HeldTargetRamps | src/outdoor_patrol_route/outdoor_patrol_route/route_follower.py:411-496 | While one candidate stays committed the commanded offset of a run is the ramp toward it at the commanded speeds. |
| RouteFollower.HeldTargetIsReached | src/outdoor_patrol_route/outdoor_patrol_route/route_follower.py:411-496 | So the offset of the run is the committed one once the travel commanded since is the lateral distance over the ramp rate, and, while neither floor is at work, if and only if it is. |
| RouteFollower.CorneringIsLimited | src/outdoor_patrol_route/outdoor_patrol_route/route_follower.py:512-515 | The cornering speed is at most nominal and, on a bend with a positive gain, at most what keeps curvature times gain times speed within the turn limit; and it is one of these two. |
| RouteFollower.UnflooredIsLimited | src/outdoor_patrol_route/outdoor_patrol_route/route_follower.py:512-522 | Before the floor, the speed is the cornering speed where that turns within the limit, and else the one that turns exactly at it. |
| RouteFollower.FloorBreaksCurvature | src/outdoor_patrol_route/outdoor_patrol_route/route_follower.py:510-522 | Before the fix penalty, the turn rate is curvature times speed if and only if the path is straight or the speed is not raised to its floor. |
| RouteFollower.PenaltyBreaksCurvature | src/outdoor_patrol_route/outdoor_patrol_route/route_follower.py:403-425 | Of the command sent, the turn rate is within its limit, and it is curvature times speed if and only if the command is a stop, the path is straight, or floor and fix penalty cancel out. |
| RouteFollower.OffsetStaysOnSide | src/outdoor_patrol_route/outdoor_patrol_route/route_follower.py:488-496 | Over every run the commanded offset stays on the side of the candidates and within any bound they keep. |
| RouteFollower.OffsetStaysInCorridor | src/outdoor_patrol_route/outdoor_patrol_route/route_follower.py:232-240 | Over every run it stays between the path and the outermost candidate, hence inside the corridor less the clearance. |
| RouteFollower.RunIsItsHistory | src/outdoor_patrol_route/outdoor_patrol_route/route_follower.py:375-433 | Until the end, the choice is that of the blockages seen, the distance travelled is the sum of the gaps, and finishing is the end test on it. |
| RouteFollower.FinishedLapsWereDriven | src/outdoor_patrol_route/outdoor_patrol_route/route_follower.py:386-433 | With short steps, a loop is finished only after the true progress reached the laps times the length, and the distance reported is exactly that progress. |
| RouteFollower.FinishedNearTheEnd | src/outdoor_patrol_route/outdoor_patrol_route/route_follower.py:429-433 | An open path is finished only within the goal tolerance of its end, and the distance reported is from the first station to there. |
| RouteFollower.LapsEndTheRoute | src/outdoor_patrol_route/outdoor_patrol_route/route_follower.py:386-433 | With short steps, a loop is finished if and only if the true progress reached the laps times the length at some cycle, and it finished in the first such cycle. |
| RouteFollower.ToleranceEndsTheRoute | src/outdoor_patrol_route/outdoor_patrol_route/route_follower.py:429-433 | An open path is finished if and only if some station was within the tolerance of the end, and it finished in the first such cycle. |
| RouteFollower.EveryCycleSends | src/outdoor_patrol_route/outdoor_patrol_route/route_follower.py:375-427 | Over every run, each cycle until the finish sends exactly one command: the driving one if the route is under way and some candidate keeps the clearance from every point ahead in a scan that, if it has points, is at most a second old; else a stop, which leaves speed, offset and choice alone. After the finish nothing is sent. |
| RouteFollower.MovesOnlyWithAWay | src/outdoor_patrol_route/outdoor_patrol_route/route_follower.py:398-425 | Over every run, a command other than the stop was sent in a cycle short of the end with such a way seen, and is the driving command of that cycle. |
| RouteFollower.OneCommandPerCycle | src/outdoor_patrol_route/outdoor_patrol_route/route_follower.py:375-427 | Over every run there is one command per cycle up to the finish, and the last one of a finished run is a stop. |
| RouteFollower.RouteFollowerNode.Control | src/outdoor_patrol_route/outdoor_patrol_route/route_follower.py:375-427 | The method, updating its fields in the order of the source, is one step of the state machine. |
| RouteFollower.RouteFollowerNode.ChooseOffset | src/outdoor_patrol_route/outdoor_patrol_route/route_follower.py:468-486 | The branches that update the committed index and the streak compute the specified choice; no index exactly when all are blocked. |
| RouteFollower.RouteFollowerNode.RampToward | src/outdoor_patrol_route/outdoor_patrol_route/route_follower.py:488-496 | The clamped step with copied sign is the specified ramp; before the first position the target is taken at once. |

## Left out

Requirements the model makes:

- ScanSafety.HeldCommandIsRepublished: needs a positive control period, by which the node divides when it starts.
- RouteFollower.TargetKeepsClearWhen: needs the scan to have a time stamp; the node stores points and stamp together, so points never come without one.
- RouteFollower.PenaltyBreaksCurvature: needs a limit on the turn rate that is not negative; a negative one can make the source divide by zero.
- ChunkedBody.PlainChunk: sizes below the largest `size_t`, the value the source uses for an error.
- RouteFollower.UnflooredIsLimited: needs a nominal speed that is not negative.
- RouteFollower.ReachesByRaisedTravel: needs cycles long enough for a crawl to exceed the floor of one cycle; without that, RouteFollower.ReachesByTravel says when the target is surely reached.
- RouteFollower.CheckIsExact: needs a rate and a widest offset above the floors; below them, RouteFollower.CheckGuaranteesRetreat gives the exact condition for a check that passes.
- SavitzkyGolay.OpenKeepsQuadratics: fits of order two only, the only order the source uses, and one coordinate at a time.

Not captured:

- Wrap-around of the `size_t` counters; they are unbounded here.
- Header blocks longer than 8192 bytes: whether one of up to 8704 bytes is accepted depends on how it is segmented, so nothing is claimed about what a session then publishes.
- The flag that stops a session, the reader thread, the stall watchdog, the reconnect backoff, GGA uploads, and the text of the request. A read error is the end of the stream.
- The classification of the response; it is a parameter of the session.
- A framer without a handler; here there always is one, and it only records.
- Rounding, NaN and infinities. A minimum over no returns is absent rather than infinite.
- Trigonometric functions and square root: given by their laws on the unit circle. The sector test of the brake is an arbitrary predicate on the bearing.
- The pseudo-inverse: any left inverse of the powers serves, and for least squares any whose product with the powers in the other order is symmetric.
- The search for the nearest path point, the placement of scan points along the path and the curvature to the look-ahead point: their results are inputs of a cycle. So is the fix penalty.
- The spline between control points, tangents, normals and the polyline of an offset.
- The clock: one reading per callback. Log messages, status text, markers and the summed odometry distance.
- Decoding of IMU payloads, GGA, RMC, VTG and KSXT fields, and the text of receiver commands.
- Serial and TCP plumbing, relays, parameters, launch files, frames and diagnostics.
