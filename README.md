# Looping file loader of `mscommon.cpp`, in Dafny

This project models the file loader that the MultiStream samples use to feed
a looping audio stream. It covers two functions of `source/mscommon.cpp`.

- `OpenFile` opens an asset read-only and seeks to its end to learn its size.
  It writes that size through `pnSize` and then seeks to `nStartOffset`.
  It returns the descriptor, or -1 when the open fails, or -2 (after closing
  the file) when either seek fails.
- `LoadFile` fills a buffer with `nReadSize` bytes. On a short read it drops
  the last `nEndOffset` bytes it just read, which are the trimmed tail. It
  then seeks back to `nStartOffset` and goes on. A read or seek failure
  closes the file and returns -1.

The files:

- `cellfs.dfy` (module `CellFs`) models the platform file calls the loader
  makes: `cellFsOpen`, `cellFsRead`, `cellFsLseek` and `cellFsClose`.
  - The file is an in-memory, read-only `File` class with a cursor, an open
    flag and a ghost log of every call.
  - A *fault plan* (`failAfter`) decides which call fails: `None` is a
    healthy device, and `Some(k)` lets the next `k` opens, reads and seeks
    succeed and fails every later one. A close never fails and does not use
    up the plan.
  - `FileState` is the value view of a descriptor.
- `loop_stream.dfy` (module `LoopStream`) defines the two byte streams a
  looping load can produce, with `E = size - nEndOffset` the loop end and
  `S = nStartOffset` the loop start.
  - `Looped` is the stream the documentation of the two offsets describes:
    `file[cursor..E)`, then `file[S..E)` over and over, in closed form.
  - `AsWritten` is what the C loop actually delivers. It decides whether a
    read "fits" against the physical end of file, not against `E`.
  - `LoopProgresses` is the condition under which the C loop ends without
    its count underflowing. `ProgressIsNeeded` shows that it is exact: on a
    device whose calls succeed, every other input makes the count underflow
    or the loop go round for ever.
  - `Continues` says where the looped stream goes on after a number of
    bytes, so that two loads in a row can be chained (`LoopedContinues`).
- `mscommon.dfy` (module `MsCommon`) holds the loader itself.
  - `OpenFile` is a method over a `File`, tied to the pure function `Open`.
  - `LoadFile` is a method with the C `while` loop writing into an `array`.
    It is proved to compute the pure, operational `Load`: result, final
    descriptor state, buffer contents and the exact sequence of platform
    calls.
  - `LoadRound` is one pass of the loop body, and `LoadStep` is its pure
    counterpart.
  - `TrimmedCount` and `AsLong` model `nRead -= nEndOffset` on the unsigned
    64-bit `nRead`.
  - `LoadLooping` is a corrected loader that never reads past `E`. It is
    proved to deliver `Looped` from any cursor and to leave the cursor where
    that stream goes on.
- `mscommon_facts.dfy` (module `MsCommonFacts`) holds the properties of
  `Load`.
  - The buffer holds `AsWritten` up to the write position reached, and
    nothing outside the request is written.
  - Success means exactly that the whole request was delivered. A failure
    closes the file, and its last call is a close.
  - Every call is a read of at most the request, a seek back to `S`, or a
    close.
  - On an open descriptor, a healthy device always succeeds.
  - The load returns -1 exactly when one of its reads or seeks failed.
  - A request that fits is a single read.
  - A successful `Load` from a cursor outside the trimmed tail agrees with
    `Looped` except in the last `nEndOffset` bytes. With no trimmed tail it
    agrees everywhere, from any cursor.
  - It also holds concrete scenarios and the two findings below.

`*pnSize` receives the total size of the file: it is written at line 193,
after the seek to the end and before the seek to `nStartOffset` at line 195.
`Open`'s `sizeReport` is therefore `|data|`.

After a wrap the remaining count drops only by the bytes kept. So a
150-byte request from cursor 900 of a 1000-byte file with loop start 100 and
tail 20 keeps 80 bytes, seeks back to 100, asks for 70 more and ends at
cursor 170 (`ThousandByteWrap`).

## Model

| member | source | states |
|---|---|---|
| `CellFs.File.Open` | source/mscommon.cpp:183 | a freshly opened descriptor holds the file's bytes with the cursor at 0, the given fault plan and an empty call log |
| `CellFs.File.Read` | source/mscommon.cpp:233 | a read succeeds exactly when the descriptor is open and its plan not spent; on success it copies `ReadBytes` (the bytes from the cursor, stopping at end of file) to `dst[off..]`, changes no other element of `dst`, reports their count and advances the cursor by it; on failure nothing changes but the log |
| `CellFs.File.Seek` | source/mscommon.cpp:195 | an absolute seek succeeds exactly when the descriptor is healthy and the offset is not negative, and then sets the cursor to it (past end of file allowed); on failure nothing changes but the log |
| `CellFs.File.SeekEnd` | source/mscommon.cpp:186 | the seek to the end succeeds exactly when the descriptor is healthy, and then reports the file size and leaves the cursor there |
| `CellFs.File.Close` | source/mscommon.cpp:189 | closing marks the descriptor closed and changes nothing else |
| `CellFs.ReadBytes` | source/mscommon.cpp:233 | a read returns at most the bytes asked for, exactly that many when they fit before end of file, otherwise all bytes up to end of file |
| `CellFs.ReadBytesAreFileBytes` | source/mscommon.cpp:233 | the bytes a read returns are the file's bytes from the cursor on |
| `CellFs.WriteSlices` | source/mscommon.cpp:233 | copying into the buffer at `ppData` puts the bytes there and leaves the rest of the buffer as it was |
| `MsCommon.Open` | source/mscommon.cpp:177-203 | OpenFile returns -1 exactly when the open fails (no file, or the device fails its first call), and then makes no further call; it returns -2 with the file closed and a close as its last call when a seek fails, having reported the size exactly when the seek to the end succeeded; it returns the descriptor with the cursor at `nStartOffset` after exactly the two seeks, having written the total file size to `*pnSize`; the size it reports is the total file size; once the open succeeds, it returns the descriptor exactly when the plan lets both seeks through and `nStartOffset` is not negative, and -2 otherwise |
| `MsCommon.OpenFile` | source/mscommon.cpp:177-203 | the method returns what `Open` returns, leaves the descriptor in the state and with the call log `Open` gives, and writes `*pnSize` exactly when `Open` reports a size |
| `MsCommon.LoadStep` | source/mscommon.cpp:230-251 | one pass of the loop body keeps the buffer's length; a failed call closes the file without advancing the write position; a pass that goes on keeps `ppData + nReadSize` constant and either lowers the remaining count or moves the cursor to the loop start |
| `MsCommon.Load` | source/mscommon.cpp:228-253 | the loop returns 0 or -1; it keeps the file's bytes and the buffer's length; the write position stays within the request and reaches its end exactly when the loop returns 0; a return of -1 leaves the file closed |
| `MsCommon.LoadFile` | source/mscommon.cpp:219-254 | the C loop returns, leaves the descriptor, fills the buffer and makes the platform calls exactly as `Load` describes, from any cursor (end of file and past it included) on which the loop ends without underflow |
| `MsCommon.LoadRound` | source/mscommon.cpp:230-251 | one pass of the loop body's calls and writes equal `LoadStep`: the read of `loadSize` bytes, on a short read the trim by `nEndOffset` and the seek back, and a close after a failure |
| `MsCommon.LoopedAdvance` | source/mscommon.cpp:213-214 | a read that stops at the loop end extends the delivered prefix of the looped stream, the rest of the stream continues from the new cursor, and nothing past the request is touched |
| `MsCommon.RewindAtLoopEnd` | source/mscommon.cpp:240-248 | the corrected loader seeks back to `nStartOffset` when the cursor is at or past the loop end, which does not change the looped stream ahead and leaves the cursor where it goes on; a failed seek closes the file |
| `MsCommon.LoopedRound` | source/mscommon.cpp:230-251 | a pass of the corrected loader advances the write position by at least one and at most the remaining count; what it wrote is the next part of the looped stream, the cursor is where that stream goes on, and nothing after the bytes written changes; a failed pass closes the file and changes no byte |
| `MsCommon.LoadLooping` | source/mscommon.cpp:213-214 | the corrected loader fills `dst[0..nReadSize)` with the looped stream from the cursor and leaves the cursor where that stream goes on, so a second call continues it; after a failure it returns -1 with the file closed and the buffer holding a prefix of the looped stream followed by its old contents; it never writes past the request, keeps a healthy device healthy, and always succeeds on a healthy open descriptor |
| `MsCommon.TrimmedCount` | source/mscommon.cpp:242 | `nRead -= nEndOffset` on the unsigned 64-bit count is the difference when at least `nEndOffset` bytes were read, and otherwise that difference wrapped to just below 2^64 |
| `MsCommon.AsLong` | source/mscommon.cpp:250-251 | the 64-bit count added to the `long` pointer and subtracted from the `long` size is the signed 64-bit value with the same bits |
| `LoopStream.LoopProgresses` | source/mscommon.cpp:228-251 | when a request runs past end of file under this condition, the first short read returns at least `nEndOffset` bytes and the loop start lies before the loop end |
| `LoopStream.ProgressIsNeeded` | source/mscommon.cpp:228-251 | outside the condition the request runs past end of file, and, on a device whose calls succeed, either the first short read returns fewer than `nEndOffset` bytes (the count underflows) or reads from the loop start never fit and return at most `nEndOffset` bytes (each keeps nothing and the loop never ends, or returns fewer and the count underflows) |
| `LoopStream.AsWritten` | source/mscommon.cpp:240-251 | the loop delivers exactly the bytes asked for, and from a cursor before the loop end its first byte is the byte at the cursor |
| `LoopStream.AsWrittenEnd` | source/mscommon.cpp:233-251 | the cursor the loop leaves is within the file whenever something was asked, and past `nStartOffset` after a wrap |
| `LoopStream.AsWrittenWraps` | source/mscommon.cpp:240-251 | a request that runs past end of file keeps the bytes from the cursor up to the loop end and goes on from `nStartOffset` with the rest of the count, ending where that rest ends |
| `LoopStream.Looped` | source/mscommon.cpp:213-214 | the looped stream from any cursor has exactly the bytes asked for |
| `LoopStream.StreamIndex` | source/mscommon.cpp:213-214 | every byte of the looped stream comes from before the loop end, so the trimmed tail is never played |
| `LoopStream.WrapIsMod` | source/mscommon.cpp:213-214 | folding an offset into the loop by stepping back whole loops is the remainder by the loop length |
| `LoopStream.StreamIndexIsMod` | source/mscommon.cpp:213-214 | past the first pass, byte `i` of the looped stream is `file[S + (i - first pass) mod (E - S)]` |
| `LoopStream.LoopedFitsFirstPass` | source/mscommon.cpp:213-214 | a request that fits before the loop end is played straight from the cursor |
| `LoopStream.LoopedWraps` | source/mscommon.cpp:213-214 | a request that runs past the loop end plays the rest of the first pass, then the looped stream from the loop start |
| `LoopStream.LoopedStep` | source/mscommon.cpp:213-214 | the looped stream splits at any read that stops at the loop end or at the request |
| `LoopStream.LoopedFromLoopEnd` | source/mscommon.cpp:213-214 | at or past the loop end, the looped stream starts over at the loop start |
| `LoopStream.ContinuesShifts` | source/mscommon.cpp:213-214 | from the cursor where the stream goes on after `k` bytes, byte `j` of the looped stream is byte `k + j` of the stream from the first cursor |
| `LoopStream.ContinuesAfterRead` | source/mscommon.cpp:213-214 | a read that does not pass the loop end leaves the cursor where the looped stream goes on |
| `LoopStream.ContinuesAfterRewind` | source/mscommon.cpp:213-214 | a cursor at or past the loop end goes on at the loop start |
| `LoopStream.ContinuesChain` | source/mscommon.cpp:213-214 | going on after `k` bytes and then after `j` more is going on after `k + j` |
| `LoopStream.LoopedContinues` | source/mscommon.cpp:213-214 | `k` bytes from a cursor followed by `m` bytes from where the stream goes on are the first `k + m` bytes from that cursor |
| `LoopStream.AsWrittenAgreesBeforeTail` | source/mscommon.cpp:240-251 | from a cursor outside the trimmed tail (any cursor when there is none), what the loop delivers equals the looped stream in every position except the last `nEndOffset` ones |
| `LoopStream.UntrimmedLoadIsLooped` | source/mscommon.cpp:240-251 | with `nEndOffset == 0` the loop delivers exactly the looped stream from any cursor, end of file and past it included |
| `LoopStream.WrapEndsAtCursor` | source/mscommon.cpp:240-251 | after a wrap the final cursor lies past the loop start and within the file, and the delivered bytes end with `file[S..cursor)` |
| `MsCommonFacts.LoadStepFrame` | source/mscommon.cpp:233 | one pass writes only inside `ppData[0..nReadSize)` |
| `MsCommonFacts.LoadStepShape` | source/mscommon.cpp:240-251 | a pass that goes on wrote what it read at the write position; after a full read the request is complete; after a short read of at least `nEndOffset` bytes the write position moves by the bytes read less `nEndOffset` and the cursor is at `nStartOffset` |
| `MsCommonFacts.ReadDelivers` | source/mscommon.cpp:240-251 | the bytes one pass keeps are the start of the delivered stream, and the passes after it deliver exactly the rest |
| `MsCommonFacts.LoadStepKeepsEnd` | source/mscommon.cpp:240-251 | a pass that goes on does not change where the load will end |
| `MsCommonFacts.LoadStepCalls` | source/mscommon.cpp:230-248 | a pass makes at least one call, never raises the remaining count, calls only reads of at most the remaining count, seeks to `nStartOffset` and closes, and stops exactly when its last call is a close |
| `MsCommonFacts.LoadStepRewinds` | source/mscommon.cpp:240-251 | a pass that leaves bytes to load followed a short read, moved the write position by `nRead - nEndOffset` and put the cursor at `nStartOffset`; on a healthy open descriptor a pass always goes on |
| `MsCommonFacts.LoadStaysInRange` | source/mscommon.cpp:228-253 | the loop never writes outside `ppData[0..nReadSize)` |
| `MsCommonFacts.LoadDeliversAsWritten` | source/mscommon.cpp:228-253 | up to the write position reached, the buffer holds the stream the loop delivers, including the bytes written before a failure |
| `MsCommonFacts.LoadSucceedsAsWritten` | source/mscommon.cpp:228-253 | a successful load fills the whole request with the stream the loop delivers |
| `MsCommonFacts.LoadIsLoopedBeforeTail` | source/mscommon.cpp:213-214 | a successful load from a cursor outside the trimmed tail holds the looped stream except in its last `nEndOffset` bytes; with `nEndOffset == 0` it holds the whole looped stream from any cursor |
| `MsCommonFacts.LoadEndsAtAsWrittenEnd` | source/mscommon.cpp:234-253 | a successful load ends at the cursor `AsWrittenEnd`, with the file still open if anything was asked; a failed load leaves the file closed |
| `MsCommonFacts.FaultFreeLoadSucceeds` | source/mscommon.cpp:228-253 | on a healthy open descriptor the load always returns 0 and leaves the file open |
| `MsCommonFacts.LoadAppendsToLog` | source/mscommon.cpp:228 | the load only adds calls, and a request of zero bytes makes no call at all |
| `MsCommonFacts.LoadFailsWithClose` | source/mscommon.cpp:234-248 | a load of a non-empty request returns -1 exactly when its last call is a close |
| `MsCommonFacts.LoadStepFaults` | source/mscommon.cpp:233-248 | a pass stops exactly when one of its calls, the read or the seek back, failed |
| `MsCommonFacts.LoadFailsExactlyOnFault` | source/mscommon.cpp:228-253 | the load returns -1 exactly when one of the calls it made was a failed read or a failed seek back |
| `MsCommonFacts.LoadCalls` | source/mscommon.cpp:226-243 | every call the load makes is a read of at most `nReadSize` bytes, a seek to `nStartOffset`, or a close |
| `MsCommonFacts.LoadWithinFirstRead` | source/mscommon.cpp:230-251 | a request that fits before end of file, when the read succeeds, is one read of exactly the request and no seek: it returns 0, copies `file[cursor..cursor+n)` to the buffer and advances the cursor by `n`; a request of zero bytes does nothing and returns 0 |
| `MsCommonFacts.OpenThenLoadWholeFile` | source/mscommon.cpp:177-254 | on a healthy device, opening at offset 0 and loading the reported size reproduces the whole file in one read |
| `MsCommonFacts.ConcreteWrapScenario` | source/mscommon.cpp:228-253 | 6 bytes from cursor 7 of a 10-byte file holding 0..9, with loop start 2 and tail 1: the load makes a short read, a seek back and a second read, and gives the exact buffer and final cursor |
| `MsCommonFacts.ThousandByteWrap` | source/mscommon.cpp:240-251 | 150 bytes from cursor 900 of a 1000-byte file with loop start 100 and tail 20: 80 bytes are kept, the cursor goes back to 100, the second read asks for 70 bytes, and the load ends at cursor 170 |
| `MsCommonFacts.ConcreteWrapIsLooped` | source/mscommon.cpp:213-214 | the wrapping load of `ConcreteWrapScenario` delivers the looped stream |
| `MsCommonFacts.LoadPastEndOfFile` | source/mscommon.cpp:228-253 | 3 bytes from cursor 11 of a 10-byte file holding 0..9, with loop start 2 and no trimmed tail: the first read returns nothing, the load seeks back to 2, reads 2, 3, 4 and returns 0 with the looped stream; a zero-byte request from the same cursor with tail 5 makes no call and returns 0 |
| `MsCommonFacts.TrimmedTailLeaks` | source/mscommon.cpp:240-251 | 3 bytes from cursor 6 of a 10-byte file holding 0..9, with loop start 2 and tail 2: the read fits before end of file but ends inside the trimmed tail, so the load gives 6, 7, 8 where the looped stream gives 6, 7, 2 |
| `MsCommonFacts.TrimmedCountIsDifference` | source/mscommon.cpp:242 | `nRead -= nEndOffset` on the 64-bit count, read back as the signed offset it moves `ppData` by, is the plain difference, negative when fewer bytes were read than trimmed |
| `MsCommonFacts.TrimUnderflows` | source/mscommon.cpp:242 | a short read of 2 bytes with `nEndOffset == 5` wraps the count to 2^64 - 3, moving the write pointer back by 3 and raising the remaining count from 4 to 7; the progress condition rules this input out |
| `MsCommonFacts.TrimmedCountUnderProgress` | source/mscommon.cpp:221-251 | for any file size, a request of at most `INT_MAX` bytes and `nEndOffset` at most `INT_MAX`: under the progress condition a short read returns at least `nEndOffset` bytes, so the 64-bit trim is the count the model keeps |

## Left out

- `audioInitCell`, `InitialiseAudio`, `ShutdownMultiStream`, `StartMultiStreamUpdateThread` and `InitSPURS` (source/mscommon.cpp:39-161, 256-303) are left out. They are straight calls into the platform audio, MultiStream, thread and co-processor libraries, whose behaviour cannot be seen.
- The `s_receivedExitGameRequest` flag (source/mscommon.cpp:5, 41) is left out. It is cross-thread signalling.
- The real `cellFs*` calls are replaced by the in-memory descriptor of `CellFs`.
  - Failures come from the fault plan, and failed calls change nothing but the log.
  - `cellFsLseek` with `CELL_FS_SEEK_SET` is assumed to reject a negative offset: `Seek` fails on one whatever the fault plan.
  - The platform's error codes are one value, `FS_ERROR`.
  - The path string is a key of a map, and `cellFsOpen`'s descriptor number is a parameter `fd`.
- `MsCommon.LoadFile`: requires `LoopProgresses`, and `ProgressIsNeeded` shows that, on a device whose calls succeed, every other input goes wrong. Either a short read returns fewer than `nEndOffset` bytes, so the count underflows and the C loop corrupts its pointer (the second finding), or reads from `nStartOffset` never fit (`size - nStartOffset <= nEndOffset`). In the second case, when `size - nStartOffset == nEndOffset` each read keeps nothing and the C loop runs forever, and when `size - nStartOffset < nEndOffset` the read underflows the count as in the first case. The model does not describe those runs.
- `MsCommon.LoadFile`: `nReadSize` is bounded to `0..INT_MAX`, and `nStartOffset` and `nEndOffset` are not negative. The truncation of `long` into `loadSize`, a negative `nReadSize` (which the C loop at line 228 would accept and pass to `cellFsRead` as a negative `loadSize`) and negative offsets are not modelled.
- `MsCommon.LoadFile`: `ppData` is a buffer (`array`) with a write offset, not a raw address. The caller must supply at least `nReadSize` bytes, so writes past the buffer are not modelled.
- `MsCommon.LoadFile`: `loadSize` is not a separate read size in the model: `LoadRound` reads the remaining count and requires `loadSize` to equal it. In the C, `loadSize` starts at `nReadSize` and its only assignment (line 231) lowers it to the remaining count, which never rises under the progress condition (`MsCommonFacts.LoadStepCalls`). So the two are equal at every read.
- `MsCommon.OpenFile`: the `(long)` cast of the 64-bit position is not modelled, because sizes are unbounded naturals.
- `MsCommon.LoadLooping`: its exact call log is not stated. After a failure, the contract says only that the buffer holds some prefix of the looped stream followed by its old contents, not how long that prefix is; the C function returns only -1 there.

## Findings

| source | as written | input that shows it | evidently intended | confidence | as-written member | corrected member |
|---|---|---|---|---|---|---|
| source/mscommon.cpp:240-251 | a read counts as reaching the end only when it is short against the physical end of file, so a read that fits before end of file but ends inside the last `nEndOffset` bytes keeps trimmed-tail bytes | 10-byte file 0..9, `nStartOffset = 2`, `nEndOffset = 2`, cursor 6, `nReadSize = 3`: the buffer gets 6, 7, 8 | no byte of the trimmed tail is delivered: 6, 7, 2 (`file[cursor..E)` then `file[S..E)` repeated, as documented at lines 213-214) | not executed | `MsCommonFacts.TrimmedTailLeaks` | `MsCommon.LoadLooping` |
| source/mscommon.cpp:242 | `nRead -= nEndOffset` is unsigned 64-bit with no guard, so a short read of fewer than `nEndOffset` bytes wraps around; `ppData` then moves backwards and `nReadSize` grows | 10-byte file, cursor 8, `nEndOffset = 5`, `nReadSize = 4`: the read returns 2, `nRead` becomes 2^64 - 3, `ppData` moves back 3 and `nReadSize` becomes 7 | each pass advances the write position by at least one byte and at most the remaining count | not executed | `MsCommonFacts.TrimUnderflows` | `MsCommon.LoopedRound` |
