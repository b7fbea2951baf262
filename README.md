# Split-and-sticky packet decoder of SerialPortSticky

This project models the receive parser of the SerialPortSticky main window
and proves properties of it. A serial port delivers bytes in chunks that
need not match packet boundaries. One chunk can hold several packets (they
"stick"), and a packet can be split across chunks. The parser works as
follows:

- It appends each chunk to a buffer kept from earlier chunks.
- It repeatedly looks for a header `AA BB`.
- It reads a one-byte length `N` and checks for the trailer byte `FF` at
  `header + 2 + 1 + N`.
- It logs each packet `[AA BB] [N] [N data bytes] [FF]` it finds.
- It keeps the unresolved tail of the buffer for the next chunk.

The model follows the code as written (`MainWindow.xaml.cs`, lines 81-220),
including two defects, which are proved and listed under "## Findings":

- **The header search is loose.** It looks for `0xAA`, then for `0xBB`
  anywhere after it, or from the start position when no `0xAA` is found. It
  answers one less than the position of that `0xBB`. The answer therefore need
  not hold `0xAA`, can lie one byte before the start position, and is `-1`
  ("no header") when that `0xBB` is the first byte of the buffer.
- **A short length byte can stall the loop.** A length byte below 4 makes
  the loop continue with its cursor on the header it found. After a
  contiguous `AA BB` the next pass finds the same header again, and the loop
  never ends.

Modules:

- `Packet` (`packet.dfy`): the packet layout and the header search.
  - `HeadPosition` is the search as a function.
  - `FirstIndexOf` is its inner loop.
  - `EncodePacket` builds a packet.
- `Loop` (`runs.dfy`): the decoding loop abstracted from its buffer.
  - Every pass is a function of the cursor at its top.
  - A pass returns keeping a suffix (`Retain`), logs a frame and moves on
    (`Accept`), skips a header with a bad trailer (`Reject`), or hands on the
    place it found the header at (`Stall`).
  - Includes generic facts about such loops: repetition is endless, and
    frames are ordered.
- `ParseTrace` (`parse_trace.dfy`): the loop over one buffer.
  - `StepAt` is one pass of the `while` loop.
  - `Iterate` is the cursor before pass `n`, and `Spans` the frames logged
    so far.
  - Includes lemmas for every branch of a pass, bounds, ordering, the
    uniqueness of the outcome, and the endless loop.
- `SerialPortSticky` (`main_window.dfy`): the class `MainWindow` with the
  field `receivedBuffer` and the source's methods, written imperatively.
  - `GetHeadPosition` keeps the nested loops.
  - `ParsePass` is one pass of the loop body.
  - `DecodePass` is that pass seen from the loop: it moves the loop on or
    ends it.
  - `Decode` is the `while` loop.
  - `ParseReceiveData` is the entry point.
- `PacketStreams` (`streams.dfy`): what the parser makes of packets back to
  back, of a chunk ending inside a packet, and of the two buffers that show
  the defects.
- `StrictDecoder` (`strict_decoder.dfy`): the corrected parser.
  - The header search requires `AA BB` to be adjacent.
  - A short length byte skips the header, as a bad trailer does.

The comments at lines 90 and 96-99 document the header as the two bytes
`AA BB` in a row. The code's search does not require that, and the model
follows the code.

## Model

| member | source | states |
|---|---|---|
| Packet.FirstIndexOf | SerialPortSticky/SerialPortSticky/MainWindow.xaml.cs:201-214 | the inner search answers -1 or an index at or after the start that holds the byte searched for |
| Packet.FirstIndexOfIsFirst | SerialPortSticky/SerialPortSticky/MainWindow.xaml.cs:201-214 | the answer is -1 exactly when the byte does not occur from the start on, and no earlier index holds it |
| Packet.FirstIndexOfFinds | SerialPortSticky/SerialPortSticky/MainWindow.xaml.cs:201-214 | the first occurrence at `k` is answered as `k` |
| Packet.HeadPosition | SerialPortSticky/SerialPortSticky/MainWindow.xaml.cs:192-218 | the header search answers -1 or `r` with `pos - 1 <= r <= size - 2` and `buf[r + 1] == 0xBB` |
| Packet.HeadPositionSearches | SerialPortSticky/SerialPortSticky/MainWindow.xaml.cs:199-214 | the second stage starts after the first 0xAA, or at `pos` when there is none; the answer is -1 exactly when no 0xBB follows that start or that 0xBB is byte 0; no 0xBB lies between that start and the answer |
| Packet.HeadPositionFindsContiguousHeader | SerialPortSticky/SerialPortSticky/MainWindow.xaml.cs:199-214 | a contiguous `AA BB` whose 0xAA is the first 0xAA from `pos` is found exactly |
| Packet.HeadPositionWithoutSecondMarker | SerialPortSticky/SerialPortSticky/MainWindow.xaml.cs:199-214 | with no 0xBB at or after `pos` the answer is -1 |
| Packet.EncodePacket | SerialPortSticky/SerialPortSticky/MainWindow.xaml.cs:96-99 | the documented layout holding 4 to 255 data bytes is a well-formed packet that carries those bytes |
| SerialPortSticky.MainWindow.constructor | SerialPortSticky/SerialPortSticky/MainWindow.xaml.cs:86 | the kept buffer starts empty; a null array is the empty sequence |
| SerialPortSticky.MainWindow.GetHeadPosition | SerialPortSticky/SerialPortSticky/MainWindow.xaml.cs:192-218 | the nested loops compute exactly `HeadPosition` of the kept buffer |
| SerialPortSticky.MainWindow.ParsePass | SerialPortSticky/SerialPortSticky/MainWindow.xaml.cs:128-183 | one loop pass performs the pass `StepAt` describes; it keeps `buf[from..]` when it returns, and otherwise leaves the buffer unchanged and hands on the next cursor and the logged frame; every read is in bounds |
| SerialPortSticky.MainWindow.DecodePass | SerialPortSticky/SerialPortSticky/MainWindow.xaml.cs:125-184 | a pass from a cursor no earlier pass started from either ends the loop, which then returns keeping the bytes that pass names, or moves it to the next pass, logging exactly that pass's frame |
| SerialPortSticky.MainWindow.Decode | SerialPortSticky/SerialPortSticky/MainWindow.xaml.cs:122-184 | the `while` loop either returns after `steps` passes, keeping `buf[kept..]` and having logged exactly the frames of those passes, or spins forever, reported as a hang after the `steps` passes before the first repeated cursor, with the buffer unchanged |
| SerialPortSticky.MainWindow.ParseReceiveData | SerialPortSticky/SerialPortSticky/MainWindow.xaml.cs:102-185 | an empty chunk changes nothing and logs nothing; otherwise the loop runs over the old buffer followed by the chunk, with the outcome `Decode` states |
| ParseTrace.StepAt | SerialPortSticky/SerialPortSticky/MainWindow.xaml.cs:128-183 | one pass from cursor `p`: the header search, then return keeping the bytes from `p` (no header) or from the header (header only, frame incomplete), hand on the header itself (length below 4), log the frame and continue after it (trailer 0xFF), or continue two bytes after the header |
| ParseTrace.Iterate | SerialPortSticky/SerialPortSticky/MainWindow.xaml.cs:125-184 | the cursor at the top of pass `n` of the `while` loop, or none once a pass has returned |
| ParseTrace.Spans | SerialPortSticky/SerialPortSticky/MainWindow.xaml.cs:172-178 | the frames the first `n` passes of the loop log, in the order they are logged |
| ParseTrace.StepAtWithin | SerialPortSticky/SerialPortSticky/MainWindow.xaml.cs:128-183 | every pass stays inside the buffer: a kept suffix starts at most one byte before the cursor, and exactly at it when no header is found; a logged frame has the accepted shape; a skipped header is followed by a bad trailer; a stall sits on a length byte below 4 |
| ParseTrace.PassProgress | SerialPortSticky/SerialPortSticky/MainWindow.xaml.cs:155-182 | every pass except a stall moves the cursor strictly forward, and the cursor stays at most the buffer length |
| ParseTrace.IterateWithin | SerialPortSticky/SerialPortSticky/MainWindow.xaml.cs:125-184 | the cursor at the top of every pass lies inside the buffer |
| ParseTrace.NoHeaderStep | SerialPortSticky/SerialPortSticky/MainWindow.xaml.cs:131-138 | proof helper for `ParsePass` and `Decode`: when the search finds nothing the pass keeps the bytes from the cursor |
| ParseTrace.HeaderOnlyStep | SerialPortSticky/SerialPortSticky/MainWindow.xaml.cs:143-150 | proof helper for `ParsePass` and `Decode`: when the header is the last two bytes the pass keeps the header |
| ParseTrace.ShortLengthStep | SerialPortSticky/SerialPortSticky/MainWindow.xaml.cs:153-155 | proof helper for `ParsePass` and `Decode`: a length byte below 4 hands on the header position itself |
| ParseTrace.IncompleteStep | SerialPortSticky/SerialPortSticky/MainWindow.xaml.cs:158-165 | proof helper for `ParsePass` and `Decode`: a frame running past the buffer end keeps the bytes from the header |
| ParseTrace.FullLengthStep | SerialPortSticky/SerialPortSticky/MainWindow.xaml.cs:168-183 | proof helper for `ParsePass` and `Decode`: a frame that fits is logged when its trailer is 0xFF, in the accepted shape, and otherwise the cursor moves two bytes past the header position |
| ParseTrace.PassUnfolds | SerialPortSticky/SerialPortSticky/MainWindow.xaml.cs:125-184 | proof helper for `ParsePass` and `Decode`: pass `n` takes the cursor to the next pass and appends its frame when it logs one |
| ParseTrace.ContinuePass | SerialPortSticky/SerialPortSticky/MainWindow.xaml.cs:153-182 | proof helper for `ParsePass` and `Decode`: a skip or a stall hands on its cursor and logs nothing |
| ParseTrace.AcceptPass | SerialPortSticky/SerialPortSticky/MainWindow.xaml.cs:172-178 | proof helper for `ParsePass` and `Decode`: an accepting pass appends the frame's bytes to the log and continues after it |
| ParseTrace.IterateAlong | SerialPortSticky/SerialPortSticky/MainWindow.xaml.cs:172-178 | passes that accept frame after frame along cursors `cs` reach `cs[n]` and log the frames between consecutive cursors |
| ParseTrace.FramesAccepted | SerialPortSticky/SerialPortSticky/MainWindow.xaml.cs:153-178 | every logged frame lies inside the buffer and has `s[1] == 0xBB`, `s[2] >= 4`, `|s| == s[2] + 4` and last byte 0xFF |
| ParseTrace.DecodingContinues | SerialPortSticky/SerialPortSticky/MainWindow.xaml.cs:125-184 | a pass from a new cursor moves the loop on, logging exactly the pass's frame, and the loop starts from at most one more cursor than the buffer has bytes |
| ParseTrace.DecodingRevisits | SerialPortSticky/SerialPortSticky/MainWindow.xaml.cs:125-184 | a pass from a cursor seen before means the loop spins forever |
| ParseTrace.DecodingReturns | SerialPortSticky/SerialPortSticky/MainWindow.xaml.cs:131-164 | proof helper for `ParsePass` and `Decode`: a returning pass ends the loop, keeping the suffix that pass names |
| ParseTrace.DecodedAfterReturn | SerialPortSticky/SerialPortSticky/MainWindow.xaml.cs:131-164 | when the loop returns in pass `n` keeping `buf[from..]`, that is the only outcome: no hang, `n` passes, the frames of those passes, `buf[from..]` kept |
| ParseTrace.DecodedWhenDiverges | SerialPortSticky/SerialPortSticky/MainWindow.xaml.cs:155 | when the loop spins forever, every outcome is the reported hang with the buffer unchanged |
| ParseTrace.DecodedIsUnique | SerialPortSticky/SerialPortSticky/MainWindow.xaml.cs:125-184 | the loop over a buffer has one outcome: any two agree on whether it hangs, on the number of passes, on the frames logged and on the bytes kept |
| ParseTrace.CursorsVisited | SerialPortSticky/SerialPortSticky/MainWindow.xaml.cs:125-184 | the cursors at the top of the loop's first `n` passes are the cursors the generic loop visits |
| Loop.VisitedCount | SerialPortSticky/SerialPortSticky/MainWindow.xaml.cs:125-184 | the first `n` passes start from at most `n` distinct cursors, and from fewer once an earlier pass repeated a cursor |
| Loop.FirstRepeatIsUnique | SerialPortSticky/SerialPortSticky/MainWindow.xaml.cs:125-184 | at most one pass is the first to start from a cursor an earlier pass started from |
| ParseTrace.RepeatedCursorDiverges | SerialPortSticky/SerialPortSticky/MainWindow.xaml.cs:125-184 | a pass from a cursor that an earlier pass started from makes the loop endless |
| ParseTrace.RevisitDiverges | SerialPortSticky/SerialPortSticky/MainWindow.xaml.cs:125-184 | reaching any cursor of an earlier pass makes the loop endless |
| ParseTrace.NoPassAfterReturn | SerialPortSticky/SerialPortSticky/MainWindow.xaml.cs:131-164 | after the pass that returns there is no further pass |
| ParseTrace.ReturnIsUnique | SerialPortSticky/SerialPortSticky/MainWindow.xaml.cs:131-164 | the loop returns at most once, with one kept suffix, and a returning loop is not endless |
| ParseTrace.StallBehindFrameEnd | SerialPortSticky/SerialPortSticky/MainWindow.xaml.cs:192-218 | a search that steps back onto a trailer byte and stalls there stalls there again from that place |
| ParseTrace.SpansOrdered | SerialPortSticky/SerialPortSticky/MainWindow.xaml.cs:158-183 | logged frames come in buffer order, each starting at most one byte before the previous one ends, and the cursor lags the last frame's end only at a place where the loop is stuck |
| ParseTrace.SpansBeforeResidual | SerialPortSticky/SerialPortSticky/MainWindow.xaml.cs:131-164 | when the loop returns every logged frame ends at most one byte past the start of the kept suffix |
| ParseTrace.ShortLengthAtContiguousHeaderDiverges | SerialPortSticky/SerialPortSticky/MainWindow.xaml.cs:155 | a contiguous header with a length byte below 4 stops the cursor on that header and the loop never ends |
| ParseTrace.StallRepeats | SerialPortSticky/SerialPortSticky/MainWindow.xaml.cs:155 | a pass that stalls at its own cursor repeats in every later pass and logs nothing |
| Loop.EmittedAll | SerialPortSticky/SerialPortSticky/MainWindow.xaml.cs:172-178 | when every accepting pass logs a frame with some property, every logged frame has it |
| Loop.RepeatIsEndless | SerialPortSticky/SerialPortSticky/MainWindow.xaml.cs:125-184 | a loop whose passes depend only on the cursor and which revisits a cursor never returns |
| Loop.EmittedOrdered | SerialPortSticky/SerialPortSticky/MainWindow.xaml.cs:125-184 | passes that move back at most one place keep the logged frames ordered behind the cursor |
| PacketStreams.PacketAccepted | SerialPortSticky/SerialPortSticky/MainWindow.xaml.cs:153-178 | a well-formed packet at the cursor is logged whole and the next pass starts right after it |
| PacketStreams.PacketsDecode | SerialPortSticky/SerialPortSticky/MainWindow.xaml.cs:125-184 | well-formed packets back to back are logged one per pass, each exactly, and the cursor ends right after the last |
| PacketStreams.ConcatenatedPacketsDecode | SerialPortSticky/SerialPortSticky/MainWindow.xaml.cs:125-184 | a buffer of well-formed packets back to back logs exactly those packets and keeps nothing |
| PacketStreams.EncodedPacketsDecode | SerialPortSticky/SerialPortSticky/MainWindow.xaml.cs:96-99 | packets built in the documented layout are logged back exactly |
| PacketStreams.PartialPacketKept | SerialPortSticky/SerialPortSticky/MainWindow.xaml.cs:131-165 | a packet cut short after `k` bytes is kept for the next chunk, by the no-header, header-only or incomplete branch according to `k` |
| PacketStreams.SplitPacketKept | SerialPortSticky/SerialPortSticky/MainWindow.xaml.cs:110-165 | a chunk ending inside a packet logs the complete packets before it and keeps the partial packet whole |
| PacketStreams.ConcatAppend | SerialPortSticky/SerialPortSticky/MainWindow.xaml.cs:110-120 | the bytes of two runs of chunks received one after the other are the bytes of the first run followed by those of the second |
| PacketStreams.ChunksReceived | SerialPortSticky/SerialPortSticky/MainWindow.xaml.cs:110-120 | the bytes received after chunk `i` are those received before it followed by chunk `i`; they start the whole stream, and are neither empty nor, before the last chunk, all of it |
| PacketStreams.ChunkBeforeLast | SerialPortSticky/SerialPortSticky/MainWindow.xaml.cs:102-185 | a call before the last one of a packet split over non-empty chunks does not hang, logs nothing and keeps all the bytes received so far |
| PacketStreams.LastChunk | SerialPortSticky/SerialPortSticky/MainWindow.xaml.cs:102-185 | the last call of a packet split over non-empty chunks does not hang, logs the packet once and keeps nothing |
| PacketStreams.PacketAcrossChunks | SerialPortSticky/SerialPortSticky/MainWindow.xaml.cs:102-185 | a packet split over any number of non-empty chunks, received from an empty buffer: no call hangs, every call before the last logs nothing and keeps all bytes received so far, and the last call logs the packet exactly once and keeps nothing |
| PacketStreams.OverlappingFramesLogged | SerialPortSticky/SerialPortSticky/MainWindow.xaml.cs:192-218 | on `AA BB 04 01 02 03 04 FF BB 04 05 06 07 08 FF` the loop logs `[0, 8)` and `[7, 15)`, which share byte 7, and the second frame is not a well-formed packet |
| PacketStreams.BadTrailerFirstPass | SerialPortSticky/SerialPortSticky/MainWindow.xaml.cs:168-182 | on `AA BB 04 01 02 03 04 00 AA BB 04 05 06 07 08 FF` the first pass finds the header at 0 and, as byte 7 is not 0xFF, skips its two bytes |
| PacketStreams.BadTrailerSecondPass | SerialPortSticky/SerialPortSticky/MainWindow.xaml.cs:168-178 | on that buffer the pass from byte 2 finds the header at 8 and logs `[8, 16)` |
| PacketStreams.BadTrailerSkipped | SerialPortSticky/SerialPortSticky/MainWindow.xaml.cs:125-184 | on that buffer the loop logs only the good packet `[8, 16)` and returns after two passes keeping nothing |
| PacketStreams.ShortLengthHangs | SerialPortSticky/SerialPortSticky/MainWindow.xaml.cs:155 | on `AA BB 02` the loop never returns and logs nothing |
| StrictDecoder.FindHeader | SerialPortSticky/SerialPortSticky/MainWindow.xaml.cs:192-218 | the corrected search answers -1 or an index at or after the start holding a contiguous `AA BB` |
| StrictDecoder.FindHeaderIsFirst | SerialPortSticky/SerialPortSticky/MainWindow.xaml.cs:192-218 | the corrected search answers -1 exactly when there is no contiguous header, and no header lies before its answer |
| StrictDecoder.StrictStep | SerialPortSticky/SerialPortSticky/MainWindow.xaml.cs:128-183 | one corrected pass: the pass `StepAt` describes, with a contiguous header search and a length byte below 4 skipping the header's two bytes |
| StrictDecoder.StrictStepWithin | SerialPortSticky/SerialPortSticky/MainWindow.xaml.cs:128-183 | a corrected pass keeps a suffix from at or after the cursor, logs a well-formed packet, or skips a header; it never stalls and never moves back |
| StrictDecoder.StrictRun | SerialPortSticky/SerialPortSticky/MainWindow.xaml.cs:125-184 | the corrected loop always returns, keeping a suffix starting at or after its start cursor |
| StrictDecoder.ChainedDisjoint | SerialPortSticky/SerialPortSticky/MainWindow.xaml.cs:158-183 | frames chained one after the other are in order, pairwise disjoint and well-formed |
| StrictDecoder.StrictFramesChained | SerialPortSticky/SerialPortSticky/MainWindow.xaml.cs:158-183 | the corrected loop's frames are chained from its start cursor to the kept suffix |
| StrictDecoder.StrictFramesDisjoint | SerialPortSticky/SerialPortSticky/MainWindow.xaml.cs:158-183 | the corrected loop's frames lie between the start cursor and the kept suffix, share no byte, come in buffer order and are each a well-formed packet |
| StrictDecoder.StrictAlong | SerialPortSticky/SerialPortSticky/MainWindow.xaml.cs:172-178 | corrected passes that accept along cursors `cs` log the frames between consecutive cursors, in order |
| StrictDecoder.StrictConcatenatedPacketsDecode | SerialPortSticky/SerialPortSticky/MainWindow.xaml.cs:125-184 | the corrected loop logs exactly the packets of a buffer of well-formed packets back to back and keeps nothing |
| StrictDecoder.StrictOverlapping | SerialPortSticky/SerialPortSticky/MainWindow.xaml.cs:192-218 | on the overlapping buffer the corrected loop logs only the first packet and keeps the bytes after it |
| StrictDecoder.StrictShortLength | SerialPortSticky/SerialPortSticky/MainWindow.xaml.cs:155 | on `AA BB 02` the corrected loop skips the header and returns, keeping the last byte |

## Left out

- GodSerialPort.cs and GodSerialPort.Event.cs are left out. They are thin wrappers over the platform serial port: opening, closing, reads with retries and sleeps, and event forwarding. That is I/O.
- UiLoggerHelper.cs is left out: it is a logging sink.
- SerialPortDataFormat.cs is left out: it is an enumeration with no logic.
- The rest of MainWindow.xaml.cs is left out: `CheckPortStatusHandler` (a reconnect loop on another thread), `LoggerHandler`, `ShowMessageOnUi` and `OpenSerialPort`. They are concurrency, UI dispatch and wiring.
- The `HexToByte` and `ToHexString` extensions are not part of this model. The log line written for an accepted frame is modelled as appending that frame's bytes to the returned `parsed` list, not as its hex text.
- SerialPortSticky.MainWindow.Decode: the source loop spins forever on a cursor it has seen before. Because it does, the method stops there instead and reports `hangs`. This rests on each pass being a function of its cursor, which `DecodingRevisits` proves gives an endless loop. The method then returns `parsed` holding the frames logged before that point, and leaves the buffer unchanged. The source never returns, and would repeat any frame the cycle logs. The `steps` and `kept` results are ghost: they only name the outcome.
- SerialPortSticky.MainWindow.ParsePass: the source's single method is split. `ParsePass` is the body of the `while` loop, `DecodePass` calls it and relates its pass to the loop so far, and `Decode` is the loop, which replaces the buffer by the kept bytes once a pass returns. The source does that replacement inside the returning pass.
- SerialPortSticky.MainWindow.ParseReceiveData: a null chunk is not modelled. In the source, reading `bt.Length` (line 105) then throws before any state changes, and the serial port's event wrapper catches the exception. A `seq<byte>` cannot be null. Calls are modelled as strictly one after the other. The source takes no lock, and its loop reads the field `_receivedBuffer` itself (lines 153 and 196) rather than a local copy, so overlapping calls are not captured.
- Array copies (`Array.Copy`, `Concat(...).ToArray()`) are modelled as sequence slices and concatenation. A null `_receivedBuffer` is the empty sequence.
- 32-bit cursor arithmetic is not modelled as wrapping. Every sum the parser forms is at most the buffer length plus 259, so it wraps only for a kept buffer within 259 bytes of 2^31, which the model does not cover.
- The unbounded growth of the kept buffer while no header is found is not bounded by the model, and neither is it bounded by the source.
- ParseTrace.SpansOrdered: states that logged frames are in order with each starting at most one byte before the previous one ends, not that they are disjoint. The source breaks disjointness by one byte (see "## Findings").
- ParseTrace.SpansBeforeResidual: states that logged frames end at most one byte past the kept suffix's start, for the same reason.

## Findings

| source | as written | input that shows it | evidently intended | confidence | as-written member | corrected member |
|---|---|---|---|---|---|---|
| SerialPortSticky/SerialPortSticky/MainWindow.xaml.cs:199-214 | the header search does not require 0xAA and 0xBB to be adjacent and answers one less than the 0xBB it finds, so after a logged frame it can place a header on that frame's trailer byte | `AA BB 04 01 02 03 04 FF BB 04 05 06 07 08 FF`: frames `[0, 8)` and `[7, 15)` are logged; they share byte 7 and the second starts with 0xFF | only contiguous `AA BB` headers are matched, so logged frames are well-formed packets that do not overlap | not executed | PacketStreams.OverlappingFramesLogged | StrictDecoder.StrictFramesDisjoint |
| SerialPortSticky/SerialPortSticky/MainWindow.xaml.cs:155 | a length byte below 4 continues the loop with the cursor on the header it found, so after a contiguous `AA BB` the next pass finds the same header again | `AA BB 02`: the loop never returns and the receive path hangs | a malformed length skips the header, as a wrong trailer byte does at line 182, so the loop always ends | not executed | PacketStreams.ShortLengthHangs | StrictDecoder.StrictShortLength |
