# H.264 stream handling of ohos_videostream_testing_project, in Dafny

The project streams the screen of an OpenHarmony device to a desktop. A server on the
device converts captured pixel maps to RGB888 for JPEG encoding. A Java receiver reads an
H.264 Annex-B byte stream from a socket, cuts it into NAL units at the start codes
`00 00 01` / `00 00 00 01`, assembles access units and hands complete frames to a
renderer. A command-line tool splits an H.264 file into NAL units. Python helpers drive
the device through `hdc shell uinput` commands. This Dafny model covers the byte-level and
string-level core of these parts:

- `annexb.dfy` (module `AnnexB`): the start-code scanner that `H264NaluSplitter.parseNalus`
  and `H264StreamReceiver.parseNalusWithStateMachine` share. Its state is the trailing run
  of zeros, capped at three. A `0x01` seen with two or more zeros behind it closes a code
  that starts three (or four) bytes back. The module proves which positions get reported,
  that they increase, and that rescanning a buffer from a reported position reports the
  same later codes.
- `nalu_splitter.dfy` (`NaluSplitter`): `parseNalus` as a method proved to compute the
  ranges `Nalus(data)`, with tiling, contiguity and ordering lemmas. It also has
  `isValidH264File`, `getStartCodeLength`, `isStartCode` and the type labels.
- `frame_assembler.dfy` (`FrameAssembler`): `H264FrameAssembler` as a class whose methods
  update the state, the buffer, the parameter-set list, the flags and the frame number.
  They return the callbacks they make as `Event` values. Each method is proved against a
  step function on a `Snapshot`, and the properties are lemmas about those functions.
  `isKeyFrameData` and `isValidH264Frame` are scanning loops proved to decide
  specification predicates.
- `stream_receiver.dfy` (`StreamReceiver`): the receiver of package `com.LaNasil`.
  - The per-read rescan and tail retention, the gate in front of the assembler, the
    end-of-stream flush and the validity gate in `handleCompleteFrame` are in class
    `Receiver`.
  - So are the broadcaster's evict-on-failure loop and the disconnect flag.
  - Lemmas show that delivering the units read chunk by chunk, with the tail kept
    between reads, is the same as one scan of the whole stream.
  - The module also has the IPv4 and port validation, using Java's `split` and
    `Integer.parseInt` semantics from `java_text.dfy`.
- `legacy_receiver.dfy` (`LegacyReceiver`): the older receiver of package `com.example`.
  Its four-slot sliding window persists across reads and fires on `00 00 00 01` only.
  The model proves its frames are a suffix of the stream, each beginning with `0x01`.
  It also covers the type read for logging, the labels and the argument check of `main`.
- `image_utils.dfy` (`ImageUtils`): `RGBA8888ToRGB888` and `RGB565ToRGB888` as in-place loops
  over an output array, the pixel bit arithmetic as bit-vector lemmas, and the size
  arithmetic and format dispatch of `PixelMapToJpeg`.
- `hdc_communicator.dfy` (`HdcCommunicator`): the touch command strings with a parser
  proving them unambiguous, the two scroll sequences, and `get_screenshot_filename`.
- `uinput_executor.dfy` (`UinputExecutor`): the `key_mappings` table and the key-press
  command.
- `wrappers.dfy`, `slicing.dfy`, `java_text.dfy` and `fixed_width.dfy` are support
  modules:
  - `Option`;
  - cutting a sequence at points;
  - `Integer.toString` / `parseInt`, `trim` and `split`;
  - 32-bit wrap-around and the truncating `%`.

Bytes are `bv8`, and Java's signed bytes are compared as their bit patterns, as the
source's `== 0x00` / `== 0x01` tests do. A `byte[]` is a `seq<byte>`. Callbacks are
returned as event lists and replayed in order.

## Model

| member | source | states |
|---|---|---|
| AnnexB.NalType | src/main/java/com/LaNasil/H264FrameAssembler.java:84-85 | the NAL unit type is the low five bits of the header byte, a value below 32 |
| AnnexB.StartsExactly | src/main/java/com/LaNasil/H264NaluSplitter.java:171-217 | the scanner reports exactly the positions where a start code begins that is not the tail of a longer one |
| AnnexB.StartsEmptyIff | src/main/java/com/LaNasil/H264NaluSplitter.java:171-217 | the scanner reports nothing exactly when `00 00 01` occurs nowhere in the buffer |
| AnnexB.StartsOrdered | src/main/java/com/LaNasil/H264NaluSplitter.java:192-207 | reported positions are strictly increasing and inside the buffer |
| AnnexB.StartsExtend | src/main/java/com/LaNasil/H264StreamReceiver.java:277-328 | the codes found in a buffer are a prefix of those found in any extension of it |
| AnnexB.Rescan | src/main/java/com/LaNasil/H264StreamReceiver.java:214-236 | restarting the scan from state 0 at a reported position q reports exactly the later codes, shifted by q |
| NaluSplitter.IsStartCode | src/main/java/com/LaNasil/H264NaluSplitter.java:134-149 | holds exactly when a three-byte or a four-byte start code begins at pos, bounds included |
| NaluSplitter.StartCodeLength | src/main/java/com/LaNasil/H264NaluSplitter.java:158-163 | 3 exactly when the third byte exists and is 0x01, otherwise 4 |
| NaluSplitter.ParseNalus | src/main/java/com/LaNasil/H264NaluSplitter.java:171-217 | the four-state loop computes one range per reported start code, each closed just before the next code and the last at the end of the file |
| NaluSplitter.ScanFindsRange | src/main/java/com/LaNasil/H264NaluSplitter.java:192-205 | a byte that closes a code appends its position and closes the previous range one byte before the code |
| NaluSplitter.NalusStarts | src/main/java/com/LaNasil/H264NaluSplitter.java:192-205 | the ranges start exactly at the reported code positions, in order |
| NaluSplitter.NalusEmptyIff | src/main/java/com/LaNasil/H264NaluSplitter.java:171-217 | no ranges exactly when the buffer contains no `00 00 01` |
| NaluSplitter.NalusBeginWithStartCodes | src/main/java/com/LaNasil/H264NaluSplitter.java:134-149 | every range start satisfies `isStartCode` |
| NaluSplitter.NalusContiguous | src/main/java/com/LaNasil/H264NaluSplitter.java:194-215 | each range ends one byte before the next starts, the last ends at the last byte, and every range spans at least three bytes |
| NaluSplitter.NalusTile | src/main/java/com/LaNasil/H264NaluSplitter.java:213-215 | the units laid end to end reproduce the file from the first start code on |
| NaluSplitter.LongZeroRunRecordsFourByteCode | src/main/java/com/LaNasil/H264NaluSplitter.java:189-207 | with three or more zeros before a 0x01, the recorded start is the four-byte code ending at that 0x01 |
| NaluSplitter.HeaderFollowsCode | src/main/java/com/LaNasil/H264NaluSplitter.java:79-81 | the header byte `main` reads at start + getStartCodeLength is the byte after the code, and lies inside the file for every range but the last |
| NaluSplitter.BareTrailingCodeHasNoHeader | src/main/java/com/LaNasil/H264NaluSplitter.java:79-81 | a file ending just after its only code gives a range whose header index equals the file length |
| NaluSplitter.IsValidH264File | src/main/java/com/LaNasil/H264NaluSplitter.java:113-125 | true exactly when the file has at least 4 bytes and `isStartCode` holds at some i below min(len - 3, 1000) |
| NaluSplitter.NaluTypeDescription | src/main/java/com/LaNasil/H264NaluSplitter.java:225-254 | the shared fallback label is given exactly for types outside 1..12 |
| NaluSplitter.NaluTypeDescriptionInjective | src/main/java/com/LaNasil/H264NaluSplitter.java:225-254 | the labels of types 1..12 are pairwise distinct |
| FrameAssembler.StartCodeLength | src/main/java/com/LaNasil/H264FrameAssembler.java:343-352 | 4 exactly for `00 00 00 01`, 3 exactly for `00 00 01`, 0 exactly when neither is at pos |
| FrameAssembler.IsStartCode | src/main/java/com/LaNasil/H264FrameAssembler.java:329-338 | where four bytes remain only the four-byte code counts, otherwise only the three-byte one |
| FrameAssembler.HeaderType | src/main/java/com/LaNasil/H264FrameAssembler.java:75-85 | a type is dispatched exactly for units of at least five bytes that begin with a start code, and it is the type of the byte after that code |
| FrameAssembler.KeyFrameSeesFourByteCodesOnly | src/main/java/com/LaNasil/H264FrameAssembler.java:310-324 | a key frame is exactly one with `00 00 00 01` followed by an IDR header before the last four bytes |
| FrameAssembler.ThreeByteIdrIsNotKeyFrame | src/main/java/com/LaNasil/H264FrameAssembler.java:310-324 | an IDR unit behind a three-byte code is dispatched as IDR yet not recognised as a key frame |
| FrameAssembler.ValidFrameIff | src/main/java/com/LaNasil/H264FrameAssembler.java:419-455 | a frame is valid exactly when it has at least 10 bytes and a four-byte code followed by a type-1 or type-5 header |
| FrameAssembler.IsKeyFrameData | src/main/java/com/LaNasil/H264FrameAssembler.java:310-324 | the scanning loop returns exactly the key-frame predicate |
| FrameAssembler.IsValidH264Frame | src/main/java/com/LaNasil/H264FrameAssembler.java:419-455 | the loop with its four flags returns exactly the validity predicate |
| FrameAssembler.RemoveTypeOnly | src/main/java/com/LaNasil/H264FrameAssembler.java:209-216 | `removeIf` leaves no entry of the type, leaves other types untouched, and is idempotent |
| FrameAssembler.UpdateParameterSetsFacts | src/main/java/com/LaNasil/H264FrameAssembler.java:208-222 | afterwards the list holds exactly one entry of the type, the new data, last; the other entries keep their order |
| FrameAssembler.RejectedUnitChangesNothing | src/main/java/com/LaNasil/H264FrameAssembler.java:75-82 | a unit under five bytes or without a leading start code changes nothing and reports nothing |
| FrameAssembler.ProcessStepFrames | src/main/java/com/LaNasil/H264FrameAssembler.java:74-111 | the only frame a unit can report is the buffer as it was, under its frame number; the frame number never decreases; parameter sets change only on SPS and PPS |
| FrameAssembler.ParameterSetSignal | src/main/java/com/LaNasil/H264FrameAssembler.java:116-139 | after an SPS or PPS the callback fires and the state becomes WAITING_FOR_FRAME exactly when both are known; otherwise the state is kept |
| FrameAssembler.ParameterSetsStayConsistent | src/main/java/com/LaNasil/H264FrameAssembler.java:208-235 | the list holds at most one SPS and one PPS, matching the flags, from construction and after every unit |
| FrameAssembler.IdrStartsKeyFrame | src/main/java/com/LaNasil/H264FrameAssembler.java:167-184 | an IDR reports a non-empty buffer first; the new buffer is the parameter sets in list order then the unit; the state is COLLECTING_FRAME; the frame number goes up by one |
| FrameAssembler.NonIdrReplacesBuffer | src/main/java/com/LaNasil/H264FrameAssembler.java:189-203 | a non-IDR slice reports the buffer only when it is non-empty in COLLECTING_FRAME; the buffer then holds the slice alone |
| FrameAssembler.OtherUnits | src/main/java/com/LaNasil/H264FrameAssembler.java:106-108 | SEI and unknown types only append; an AUD reports the buffer, then the buffer holds the AUD and the frame number goes up by one |
| FrameAssembler.AudThenIdrReportsAudOnlyFrame | src/main/java/com/LaNasil/H264FrameAssembler.java:153-184 | an AUD followed by an IDR reports a frame made of the AUD alone |
| FrameAssembler.SpsPpsIdrExample | src/main/java/com/LaNasil/H264FrameAssembler.java:116-184 | SPS, PPS, IDR from a fresh assembler report the parameter sets once and buffer SPS+PPS+IDR as frame 1 |
| FrameAssembler.RepeatedSpsSignalsAgain | src/main/java/com/LaNasil/H264FrameAssembler.java:116-125 | the callback fires on every SPS once both sets are known, not only the first time |
| FrameAssembler.ForceCompleteTwice | src/main/java/com/LaNasil/H264FrameAssembler.java:357-361 | calling `forceCompleteFrame` twice on the same assembler reports the same thing both times: the buffered frame with its key-frame flag and number, or nothing when the buffer is empty |
| FrameAssembler.NaluTypeDescription | src/main/java/com/LaNasil/H264FrameAssembler.java:389-406 | types other than 1, 5, 6, 7, 8, 9 get the prefixed default label |
| FrameAssembler.DescriptionHead | src/main/java/com/LaNasil/H264FrameAssembler.java:389-406 | only the default label starts like the prefix |
| FrameAssembler.NaluTypeDescriptionInjective | src/main/java/com/LaNasil/H264FrameAssembler.java:389-406 | different types always get different labels |
| FrameAssembler.Assembler.constructor | src/main/java/com/LaNasil/H264FrameAssembler.java:59-67 | a new assembler is waiting for SPS with an empty buffer, no parameter sets and frame number 0 |
| FrameAssembler.Assembler.ProcessNalu | src/main/java/com/LaNasil/H264FrameAssembler.java:74-111 | the new state and the callbacks made are those of the step function |
| FrameAssembler.Assembler.HandleSps | src/main/java/com/LaNasil/H264FrameAssembler.java:116-125 | the SPS step: store the set, raise the flag, signal when complete |
| FrameAssembler.Assembler.HandlePps | src/main/java/com/LaNasil/H264FrameAssembler.java:130-139 | the PPS step: store the set, raise the flag, signal when complete |
| FrameAssembler.Assembler.HandleSei | src/main/java/com/LaNasil/H264FrameAssembler.java:144-148 | appends the unit, no callback |
| FrameAssembler.Assembler.HandleAud | src/main/java/com/LaNasil/H264FrameAssembler.java:153-162 | the AUD step |
| FrameAssembler.Assembler.HandleIdrFrame | src/main/java/com/LaNasil/H264FrameAssembler.java:167-184 | the IDR step |
| FrameAssembler.Assembler.HandleNonIdrFrame | src/main/java/com/LaNasil/H264FrameAssembler.java:189-203 | the non-IDR step |
| FrameAssembler.Assembler.UpdateParameterSet | src/main/java/com/LaNasil/H264FrameAssembler.java:208-222 | the list after `removeIf` and `add` |
| FrameAssembler.Assembler.CheckParameterSetsComplete | src/main/java/com/LaNasil/H264FrameAssembler.java:227-235 | signals and switches to WAITING_FOR_FRAME exactly when both flags are set |
| FrameAssembler.Assembler.AddParameterSetsToFrame | src/main/java/com/LaNasil/H264FrameAssembler.java:240-248 | appends every stored set to the buffer in list order |
| FrameAssembler.Assembler.StartNewFrame | src/main/java/com/LaNasil/H264FrameAssembler.java:253-256 | empties the buffer and increments the frame number |
| FrameAssembler.Assembler.AddToCurrentFrame | src/main/java/com/LaNasil/H264FrameAssembler.java:261-267 | appends the data to the buffer |
| FrameAssembler.Assembler.CompleteCurrentFrame | src/main/java/com/LaNasil/H264FrameAssembler.java:272-305 | reports a non-empty buffer with its key-frame flag and number, and changes nothing |
| FrameAssembler.Assembler.ForceCompleteFrame | src/main/java/com/LaNasil/H264FrameAssembler.java:357-361 | the same report as completeCurrentFrame, state unchanged |
| FrameAssembler.Assembler.Reset | src/main/java/com/LaNasil/H264FrameAssembler.java:366-374 | back to the initial state |
| StreamReceiver.IsValidStartCode | src/main/java/com/LaNasil/H264StreamReceiver.java:370-389 | holds exactly when a three- or four-byte code begins at pos |
| StreamReceiver.Forwards | src/main/java/com/LaNasil/H264StreamReceiver.java:336-365 | a unit is forwarded exactly when it has at least four bytes, a start code at the front and a byte after it |
| StreamReceiver.ForwardedUnitsReachDispatch | src/main/java/com/LaNasil/H264StreamReceiver.java:336-365 | a forwarded unit is dispatched by the assembler exactly when it has five or more bytes |
| StreamReceiver.CountsRenderedFrames | src/main/java/com/LaNasil/H264StreamReceiver.java:492-510 | the frame counter rises by exactly the number of frames rendered, and every rendered frame passes `isValidH264Frame` |
| StreamReceiver.ProcessedInside | src/main/java/com/LaNasil/H264StreamReceiver.java:275-330 | processedBytes is 0, or the start of the last code found when at least two were found, strictly inside the buffer |
| StreamReceiver.PieceBeginsWithStartCode | src/main/java/com/LaNasil/H264StreamReceiver.java:297-319 | each delivered unit runs from one code start up to the next and begins with a start code |
| StreamReceiver.PiecesTile | src/main/java/com/LaNasil/H264StreamReceiver.java:277-328 | the delivered units laid end to end are the buffer from its first code to its last |
| StreamReceiver.DeliveredAndRetainedCoverStream | src/main/java/com/LaNasil/H264StreamReceiver.java:225-236 | with two or more codes read, the delivered units followed by the retained tail are the stream from the first code on |
| StreamReceiver.ChunkStep | src/main/java/com/LaNasil/H264StreamReceiver.java:219-236 | rescanning the retained tail plus a new chunk delivers exactly the new units of one scan over everything read, and retains the same tail |
| StreamReceiver.ReadStep | src/main/java/com/LaNasil/H264StreamReceiver.java:219-236 | one read keeps the read loop's invariant: the session is the single-scan session of everything read |
| StreamReceiver.LeadingBytesBeforeSingleCodeAreLost | src/main/java/com/LaNasil/H264StreamReceiver.java:248-257 | a stream with other bytes before its only start code delivers nothing at the flush |
| StreamReceiver.DottedQuadsAreValid | src/main/java/com/LaNasil/H264StreamReceiver.java:628-644 | every dotted quad of decimal numbers 0..255 is accepted |
| StreamReceiver.ValidIpAddressParts | src/main/java/com/LaNasil/H264StreamReceiver.java:628-644 | an accepted address is non-blank and splits into exactly four parts, each parsing to 0..255 |
| StreamReceiver.TrailingDotAccepted | src/main/java/com/LaNasil/H264StreamReceiver.java:631-633 | "1.2.3.4." is accepted because split drops trailing empty parts |
| StreamReceiver.SignedPartAccepted | src/main/java/com/LaNasil/H264StreamReceiver.java:636-637 | a part written with a plus sign is accepted |
| StreamReceiver.EmptyPartRefused | src/main/java/com/LaNasil/H264StreamReceiver.java:636-642 | an empty part between two dots is refused |
| StreamReceiver.BroadcastFacts | src/main/java/com/LaNasil/H264StreamReceiver.java:515-531 | every open client gets one send attempt; a client stays exactly when it is open and its send succeeds; none is added |
| StreamReceiver.Receiver.constructor | src/main/java/com/LaNasil/H264StreamReceiver.java:67-73 | not connected, no clients, counter 0, fresh assembler |
| StreamReceiver.Receiver.HandleCompleteFrame | src/main/java/com/LaNasil/H264StreamReceiver.java:492-510 | an invalid frame is dropped; a valid one is rendered and counted |
| StreamReceiver.Receiver.HandleEvents | src/main/java/com/LaNasil/H264StreamReceiver.java:459-486 | the assembler callbacks are handled in the order made: frames go to handleCompleteFrame, parameter sets only log |
| StreamReceiver.Receiver.ProcessCompleteNalu | src/main/java/com/LaNasil/H264StreamReceiver.java:336-365 | the session after delivering the unit through the gate |
| StreamReceiver.Receiver.CodeClosed | src/main/java/com/LaNasil/H264StreamReceiver.java:297-319 | closing a code delivers the unit from the previous code to this one and moves processedBytes to this code |
| StreamReceiver.Receiver.ParseNalusWithStateMachine | src/main/java/com/LaNasil/H264StreamReceiver.java:272-331 | delivers every unit closed by a later code, in order, and returns the start of the last code when two or more were found, else 0 |
| StreamReceiver.Receiver.ReadChunk | src/main/java/com/LaNasil/H264StreamReceiver.java:225-236 | delivers the units of buffer+chunk and keeps the suffix from processedBytes when 0 < processedBytes < length, else everything |
| StreamReceiver.Receiver.FlushAtEndOfStream | src/main/java/com/LaNasil/H264StreamReceiver.java:248-257 | the remaining bytes go through the gate once, then completion is forced |
| StreamReceiver.Receiver.ReceiveH264Stream | src/main/java/com/LaNasil/H264StreamReceiver.java:208-267 | the session after the reads equals one scan of everything read followed by the flush; afterwards the receiver is disconnected |
| StreamReceiver.Receiver.BroadcastToWebSocketClients | src/main/java/com/LaNasil/H264StreamReceiver.java:515-531 | the clients left are the open ones whose send succeeded; the attempts are the open ones |
| StreamReceiver.Receiver.DisconnectFromServer | src/main/java/com/LaNasil/H264StreamReceiver.java:556-572 | tears down exactly when the flag was set; afterwards it is clear, so a second call does nothing |
| StreamReceiver.Receiver.ResetStatistics | src/main/java/com/LaNasil/H264StreamReceiver.java:543-551 | the counter is 0 and the assembler is reset; rendered frames are kept |
| LegacyReceiver.ConsumeByte | src/main/java/com/example/H264StreamReceiver.java:322-349 | one byte slides the window, fires on `00 00 00 01`, and keeps the variables tracking the frames of the bytes consumed |
| LegacyReceiver.ReceiveH264Stream | src/main/java/com/example/H264StreamReceiver.java:305-379 | the frames rendered are the frames of the whole stream and the count is the number of detections, however the reads split it |
| LegacyReceiver.FramesStartWithOne | src/main/java/com/example/H264StreamReceiver.java:334-349 | one frame per detection, each beginning with the 0x01 of its code |
| LegacyReceiver.FramesAreSuffix | src/main/java/com/example/H264StreamReceiver.java:337-379 | the frames laid end to end are a suffix of the stream |
| LegacyReceiver.FramesBeginAtFirstDetection | src/main/java/com/example/H264StreamReceiver.java:309-310 | the frames begin at the first detection, and bytes before it go into no frame |
| LegacyReceiver.LastFrameIsSuffix | src/main/java/com/example/H264StreamReceiver.java:376-379 | the frame flushed at the end is the stream from its 0x01 on |
| LegacyReceiver.ClosedFramesEndWithZeros | src/main/java/com/example/H264StreamReceiver.java:342-349 | every frame but the last ends with the three zero bytes of the next code |
| LegacyReceiver.ThreeByteCodesIgnored | src/main/java/com/example/H264StreamReceiver.java:327-331 | a three-byte code never fires the window |
| LegacyReceiver.CodeAcrossReads | src/main/java/com/example/H264StreamReceiver.java:305-306 | a code split across two reads still fires, because the window outlives the read |
| LegacyReceiver.StartCodeLength | src/main/java/com/example/H264StreamReceiver.java:445-454 | 3 for `00 00 01`, 4 for `00 00 00 01`, else 0 |
| LegacyReceiver.StartCodeLengthOrderIrrelevant | src/main/java/com/example/H264StreamReceiver.java:445-454 | the three-byte check coming first changes nothing |
| LegacyReceiver.RenderedTypeIsAlwaysOne | src/main/java/com/example/H264StreamReceiver.java:404-408 | frames built here carry no start code, so the logged type is that of the leading 0x01, always 1 |
| LegacyReceiver.DescriptionAgreesWithAssembler | src/main/java/com/example/H264StreamReceiver.java:421-436 | labels for 1, 5, 6, 7, 8 agree with the assembler's and every other type gets the shared label |
| LegacyReceiver.MainAccepts | src/main/java/com/example/H264StreamReceiver.java:660-710 | only 0 or 2 arguments start the program; with 2 it connects exactly when the trimmed host is valid and the trimmed port parses into 1..65535 |
| LegacyReceiver.MainCheckOrder | src/main/java/com/example/H264StreamReceiver.java:669-690 | a port that does not parse is reported even when the host is bad; a bad host is reported before a port out of range |
| LegacyReceiver.WindowSlotOverflows | src/main/java/com/example/H264StreamReceiver.java:306-324 | with a 32-bit window position the slot is n % 4 below 2^31 bytes and -3 just after |
| ImageUtils.RgbaPixelDropsAlpha | server/src/image_utils.cpp:89-94 | a pixel keeps its first three bytes in memory order and drops the fourth |
| ImageUtils.RgbaPixelRoundTrip | server/src/image_utils.cpp:89-94 | the three bytes with the alpha put back give the word again |
| ImageUtils.Rgb565RoundTrip | server/src/image_utils.cpp:104-109 | the expansion loses nothing, and its low 3, 2 and 3 bits are zero |
| ImageUtils.Rgb565Onto | server/src/image_utils.cpp:104-109 | every triple with those low bits zero is the expansion of some word |
| ImageUtils.Extremes | server/src/image_utils.cpp:33-38 | white and black map to the expected RGB888 bytes |
| ImageUtils.ExpandAt | server/src/image_utils.cpp:89-109 | output byte 3i+k comes from input word i alone |
| ImageUtils.RgbaBufferDropsAlpha | server/src/image_utils.cpp:88-94 | over a little-endian byte buffer, pixel i's output bytes are input bytes 4i, 4i+1, 4i+2 |
| ImageUtils.RGBA8888ToRGB888 | server/src/image_utils.cpp:83-96 | fails, writing nothing, when a buffer is missing or size <= 0; otherwise writes the converted pixels to bytes 0..3*size-1 only |
| ImageUtils.RGB565ToRGB888 | server/src/image_utils.cpp:98-111 | the same over 16-bit words |
| ImageUtils.ConvertedPixelsFit | server/src/image_utils.cpp:62-72 | the pixel count passed (size/3) fits both the output and the input, and is every whole pixel when nothing wraps |
| ImageUtils.PixelMapToJpeg | server/src/image_utils.cpp:53-81 | RGBA and RGB565 maps are converted and encoded when conversion succeeds; RGB888 goes straight to the encoder, which fails on missing pixel data (114-117); other formats fail |
| HdcCommunicator.ParseRender | client/hdc_communicator.py:13-34 | reading a rendered touch command back gives the same touch |
| HdcCommunicator.RenderInjective | client/hdc_communicator.py:13-34 | different touches give different commands |
| HdcCommunicator.DownCommandIsDown | client/hdc_communicator.py:13-17 | the down command is the rendering of a down touch at (x, y) |
| HdcCommunicator.UpCommandIsUp | client/hdc_communicator.py:18-22 | the up command is the rendering of an up touch at (x, y) |
| HdcCommunicator.TouchCommandIsClick | client/hdc_communicator.py:30-34 | the touch command is the rendering of a click at (x, y) |
| HdcCommunicator.MoveCommandIsMove | client/hdc_communicator.py:24-28 | the move command is a move between the two points lasting 200 ms |
| HdcCommunicator.ScrollsMirror | client/hdc_communicator.py:66-88 | each scroll is an interval, a down, a move, an up and an interval, and each starts where the other ends |
| HdcCommunicator.FindFirst | client/hdc_communicator.py:40-41 | `str.index` finds the first match at or after from, and fails exactly when there is none |
| HdcCommunicator.ScreenshotFilenameFacts | client/hdc_communicator.py:36-45 | None without the marker; a found name holds no space and sits between the first marker and a space |
| HdcCommunicator.ScreenshotFilenameRoundTrip | client/hdc_communicator.py:36-42 | a space-free name written after the first marker and before a space is read back |
| HdcCommunicator.ScreenshotFilenameEdges | client/hdc_communicator.py:39-45 | the name may be empty, and a name with no space after it is not found |
| UinputExecutor.LetterKeyCodes | client/uinput_executor.py:26-51 | 'a'..'z' map to 2017..2042 in order |
| UinputExecutor.DigitKeyCodes | client/uinput_executor.py:52-61 | '0'..'9' map to 2000..2009 in order |
| UinputExecutor.OtherKeysDistinct | client/uinput_executor.py:63-75 | the other codes lie outside both runs and differ from each other |
| UinputExecutor.CodesDistinct | client/uinput_executor.py:25-76 | no two keys share a code |
| UinputExecutor.KeyMappingsLookup | client/uinput_executor.py:25-76 | each key lives in exactly one group, and the table gives that group's code |
| UinputExecutor.HandleKeyPressRoundTrip | client/uinput_executor.py:85-92 | a mapped key gives one command pressing and releasing its own code; an unmapped key gives none |
| UinputExecutor.HandleKeyPressInjective | client/uinput_executor.py:85-92 | different keys give different commands |
| JavaText.ParseIntOfIntToString | src/main/java/com/LaNasil/H264StreamReceiver.java:636 | `Integer.parseInt` reads back what `Integer.toString` wrote, for every 32-bit value |
| JavaText.FieldsOfJoin | src/main/java/com/LaNasil/H264StreamReceiver.java:631 | splitting undoes joining when no field holds the separator |
| JavaText.SplitDropsTrailing | src/main/java/com/LaNasil/H264StreamReceiver.java:631 | `split` drops a trailing empty field |
| JavaText.TrimEmptyIff | src/main/java/com/LaNasil/H264StreamReceiver.java:629 | `trim()` leaves nothing exactly when every character is at or below U+0020 |

## Left out

- Sockets, threads, the WebSocket server and the shutdown hook are not modelled. The reads of `receiveH264Stream` are a parameter: the sequence of chunks each read returned up to end of stream. The `IOException` path is left out.
- The `CopyOnWriteArraySet` and `AtomicBoolean` / `AtomicLong` atomicity is not modelled: the broadcaster and the flag are sequential. `BroadcastToWebSocketClients` takes each client's open state and send outcome as fields of `Client`.
- The second constructor of `H264FrameAssembler`, taking an `RGBFrameCallback` (src/main/java/com/LaNasil/H264FrameAssembler.java:63-67), is not modelled. Under it no parameter-set callback is made (230-232), and a completed frame goes to `onH264FrameComplete` plus a decode attempt (286-303) instead of `onFrameComplete`. The model's `Event` lists describe the `FrameCallback` form only, the one the receiver uses (src/main/java/com/LaNasil/H264StreamReceiver.java:460).
- The renderers (`H264VideoRenderer` in both packages) and `H264Decoder` are left out. They are JavaCV/FFmpeg, ImageIO and Base64, i.e. foreign code. A rendered frame is recorded as the byte sequence handed over.
- `totalBytesReceived`, rate statistics, timestamps, JSON building, logging and console output are left out: floating point, clock and I/O.
- The GUI code, `NetworkListener.java`, `VlcjExample.java` and `client/main.py` are left out.
- `RGB888ToJpeg` (libjpeg) is not modelled. `PixelMapToJpeg` takes its outcome as the parameter `encoderSucceeds`.
- The server mains `ohscrcpy_virtual.cpp` and `scrcpyoh.cpp`, and `image_receiver.py`, are left out (sockets and capture).
- `reinterpret_cast` reads the input as native words. The model assumes little-endian in `Words32`/`Words16` and otherwise takes the words as given.
- Command execution through `subprocess` is left out: the helpers are modelled as the command strings they build. `execute_command` and `delete_file` are not modelled, and neither are `get_screenshot`'s download and the print statements.
- Java `null` is not modelled. `processNALU` (src/main/java/com/LaNasil/H264FrameAssembler.java:75), `isValidH264Frame` (420), `processCompleteNalu` (src/main/java/com/LaNasil/H264StreamReceiver.java:337) and `isValidIpAddress` (629) reject null, but the callers in the model never pass it, so arrays and strings are never null. Only the C++ buffer pointers are nullable, as `Option` / `array?`.
- `Integer.parseInt` is modelled for ASCII digits only. Java also accepts other Unicode decimal digits.
- The frame number is unbounded. The source's `long` would need 2^63 frames to wrap.
- `LegacyReceiver.ReceiveH264Stream` uses an unbounded window position. The 32-bit wrap-around of the source is stated separately, under Findings.
- The legacy receiver's `isConnected` check inside the read loop and its socket reads are left out: the loop runs over all chunks.
- `ImageUtils.RGBA8888ToRGB888`, `ImageUtils.RGB565ToRGB888`: the requires state what the C++ leaves to its caller, a source buffer of at least `size` words and room for `3*size` bytes. Out-of-bounds behaviour is not modelled.
- `ImageUtils.PixelMapToJpeg`: `encoderSucceeds` stands for libjpeg's outcome after `RGB888ToJpeg`'s own null check, which the model states. Width and height only go to the encoder, so they are not parameters. The map's data is taken to be stride × height bytes.

Two behaviours of the code that its callers might not expect:

- The legacy `main` parses the port before it validates the host (`LegacyReceiver.MainCheckOrder`).
- The `state` and `lastNaluStart` arguments of `parseNalusWithStateMachine` are always 0 and -1 at the call site, because the caller's locals are never updated. The model fixes them.

## Findings

| source | as written | input that shows it | evidently intended | confidence | as-written member | corrected member |
|---|---|---|---|---|---|---|
| src/main/java/com/example/H264StreamReceiver.java:306-331 | `windowPos` is an `int` that counts every byte of the connection, and the slot is `windowPos % 4` | a connection delivering more than 2^31 bytes: `windowPos` wraps to -2^31, and one byte later `windowPos % 4` is -3, an out-of-range index | the slot is the byte count modulo 4, however long the stream | not executed | LegacyReceiver.WindowSlotOverflows | LegacyReceiver.ReceiveH264Stream |
