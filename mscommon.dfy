/** The looping file loader: OpenFile opens a file, reports its size and
    seeks to a start offset; LoadFile fills a buffer from the file, and on
    reaching end of file drops the trimmed tail and seeks back to the loop
    start, so that one call can deliver a buffer that spans the loop point. */
module MsCommon {
  import opened CellFs
  import opened LoopStream

  /** Largest value of an unsigned 64-bit integer, plus one. */
  const U64: nat := 0x1_0000_0000_0000_0000

  // ---------------------------------------------------------------- OpenFile

  /** What OpenFile returns (a descriptor, -1 or -2), the descriptor it leaves
      behind, the value it writes through its size pointer (None: not
      written), and the calls it makes after the open. */
  datatype OpenOutcome = OpenOutcome(ret: int, file: Option<FileState>, sizeReport: Option<int>, trace: seq<Op>)

  /** OpenFile on a file system `fs`.  The platform hands out descriptor
      `fd`; `plan` is the device's fault plan, and the open itself is its
      first call. */
  function Open(fs: map<string, seq<byte>>, name: string, startOffset: int, fd: nat, plan: Option<nat>): (r: OpenOutcome)
    ensures r.ret == -1 || r.ret == -2 || r.ret == fd
    ensures r.ret == -1 <==> name !in fs || plan == Some(0)
    ensures r.ret == -1 ==> r.file == None && r.sizeReport == None && r.trace == []
    ensures r.ret == -2 ==> && r.file.Some? && !r.file.value.open && |r.trace| >= 2 && r.trace[|r.trace| - 1] == Close
                            && (r.sizeReport.Some? <==> r.trace[0] == Seek(|fs[name]|))
    ensures r.ret == fd ==> && r.file.Some? && r.file.value.open && r.file.value.data == fs[name]
                            && r.file.value.cursor == startOffset && r.trace == [Seek(|fs[name]|), Seek(startOffset)]
                            && r.sizeReport == Some(|fs[name]|)
    ensures r.sizeReport.Some? ==> name in fs && r.sizeReport.value == |fs[name]|
    ensures name in fs && plan != Some(0) ==> (r.ret == fd <==> startOffset >= 0 && (plan.None? || plan.value >= 3))
  {
    if name !in fs || plan == Some(0) then OpenOutcome(-1, None, None, [])
    else
      var data := fs[name];
      var afterOpen := Spend(FileState(data, 0, true, plan));
      if Fails(afterOpen) then
        OpenOutcome(-2, Some(afterOpen.(open := false)), None, [SeekFault(|data|), Close])
      else
        var atEnd := Spend(afterOpen).(cursor := |data|);
        if Fails(atEnd) || startOffset < 0 then
          OpenOutcome(-2, Some(atEnd.(open := false)), Some(|data|), [Seek(|data|), SeekFault(startOffset), Close])
        else
          OpenOutcome(fd, Some(Spend(atEnd).(cursor := startOffset)), Some(|data|), [Seek(|data|), Seek(startOffset)])
  }

  /** Open `name` read-only, seek to its end to learn its size, write that
      size to `size[0]`, then seek to `startOffset`.  A failed seek closes
      the file. */
  method OpenFile(fs: map<string, seq<byte>>, name: string, size: array<int>, startOffset: int, fd: nat, plan: Option<nat>)
    returns (ret: int, file: File?)
    requires size.Length == 1
    modifies size
    ensures var o := Open(fs, name, startOffset, fd, plan);
            ret == o.ret && (file == null <==> o.file == None)
            && (file != null ==> fresh(file) && file.State() == o.file.value && file.log == o.trace)
            && size[0] == if o.sizeReport.Some? then o.sizeReport.value else old(size[0])
  {
    if name !in fs || plan == Some(0) {
      return -1, null;
    }
    file := new File.Open(fs[name], if plan.Some? then Some(plan.value - 1) else None);
    var r, pos := file.SeekEnd();
    if r != 0 {
      file.Close();
      return -2, file;
    }
    size[0] := pos;
    r := file.Seek(startOffset);
    if r != 0 {
      file.Close();
      return -2, file;
    }
    return fd, file;
  }

  // ---------------------------------------------------------------- LoadFile

  /** What LoadFile returns (0 or -1), the descriptor and destination it
      leaves behind, how far its write position got, and the descriptor's
      call log afterwards. */
  datatype LoadOutcome = LoadOutcome(ret: int, file: FileState, dst: seq<byte>, delivered: nat, log: seq<Op>)

  /** How one pass of LoadFile's loop body ends, after the calls in `step`:
      the load stops (a call failed and the file was closed), or it goes on
      from a new descriptor state, destination, write position and remaining
      count. */
  datatype Round =
    | Stop(file: FileState, dst: seq<byte>, pos: nat, step: seq<Op>)
    | Continue(file: FileState, dst: seq<byte>, pos: nat, rem: nat, step: seq<Op>)

  /** One pass of LoadFile's loop body with `rem` bytes still to load: read
      `rem` bytes at `pos`; a read that fails closes the file; a short read
      keeps all but the last `T` of the bytes it read and seeks back to `S`,
      and a seek that fails closes the file.  Each pass that goes on makes
      progress: the count goes down, or it stays and the cursor moves to `S`. */
  function LoadStep(f: FileState, dst: seq<byte>, pos: nat, rem: nat, S: nat, T: nat): (r: Round)
    requires pos + rem <= |dst| && rem > 0
    requires LoopProgresses(|f.data|, f.cursor, rem, S, T)
    ensures r.file.data == f.data && |r.dst| == |dst|
    ensures r.Stop? ==> !r.file.open && r.pos == pos
    ensures r.Continue? ==>
              && r.file.open && r.pos + r.rem == pos + rem
              && LoopProgresses(|f.data|, r.file.cursor, r.rem, S, T)
              && (r.rem < rem || (r.file.cursor == S && f.cursor != S))
  {
    if Fails(f) then Stop(f.(open := false), dst, pos, [ReadFault(rem), Close])
    else
      var bytes := ReadBytes(f, rem);
      var read := Read(f.cursor, rem, |bytes|);
      var f1 := Spend(f).(cursor := f.cursor + |bytes|);
      var dst1 := Write(dst, pos, bytes);
      if |bytes| == rem then Continue(f1, dst1, pos + rem, 0, [read])
      else if Fails(f1) then Stop(f1.(open := false), dst1, pos, [read, SeekFault(S), Close])
      else
        var kept := |bytes| - T;
        Continue(Spend(f1).(cursor := S), dst1, pos + kept, rem - kept, [read, Seek(S)])
  }

  /** The loop of LoadFile, from descriptor `f`, destination `dst`, write
      position `pos` and `rem` bytes still to load, with `log` the calls made
      on the descriptor so far: passes of the loop body until nothing is left
      or a call fails.  It returns 0 exactly when the write position reached
      the end of the request, and -1 with the file closed otherwise; the
      write position never leaves the request. */
  function Load(f: FileState, dst: seq<byte>, pos: nat, rem: nat, S: nat, T: nat, log: seq<Op>): (r: LoadOutcome)
    requires pos + rem <= |dst|
    requires LoopProgresses(|f.data|, f.cursor, rem, S, T)
    ensures r.ret == 0 || r.ret == -1
    ensures r.file.data == f.data && |r.dst| == |dst|
    ensures pos <= r.delivered <= pos + rem && (r.ret == 0 <==> r.delivered == pos + rem)
    ensures r.ret == -1 ==> !r.file.open
    decreases rem, if f.cursor == S then 0 else 1
  {
    if rem == 0 then LoadOutcome(0, f, dst, pos, log)
    else
      match LoadStep(f, dst, pos, rem, S, T)
      case Stop(f1, dst1, pos1, step) => LoadOutcome(-1, f1, dst1, pos1, log + step)
      case Continue(f1, dst1, pos1, rem1, step) => Load(f1, dst1, pos1, rem1, S, T, log + step)
  }

  /** Load `readSize` bytes from `f` into `dst[0..]`; on end of file drop the
      last `endOffset` bytes read and continue from `startOffset`.  Returns 0,
      or -1 after closing the file when a read or seek fails. */
  method LoadFile(f: File, dst: array<byte>, readSize: nat, startOffset: nat, endOffset: nat) returns (ret: int)
    requires readSize <= dst.Length
    requires readSize <= INT_MAX && startOffset <= INT_MAX && endOffset <= INT_MAX
    requires LoopProgresses(|f.data|, f.cursor, readSize, startOffset, endOffset)
    modifies f, dst
    ensures var o := Load(old(f.State()), old(dst[..]), 0, readSize, startOffset, endOffset, old(f.log));
            ret == o.ret && f.State() == o.file && dst[..] == o.dst && f.log == o.log
  {
    ghost var start := Load(f.State(), dst[..], 0, readSize, startOffset, endOffset, f.log);
    var remaining: nat := readSize;
    var writeAt: nat := 0;
    var loadSize: nat := readSize;
    while remaining != 0
      invariant writeAt + remaining == readSize
      invariant remaining <= loadSize <= INT_MAX
      invariant LoopProgresses(|f.data|, f.cursor, remaining, startOffset, endOffset)
      invariant start == Load(f.State(), dst[..], writeAt, remaining, startOffset, endOffset, f.log)
      decreases remaining, if f.cursor == startOffset then 0 else 1
    {
      if loadSize > remaining {
        loadSize := remaining;
      }
      ghost var before, written, pos, rem, logged := f.State(), dst[..], writeAt, remaining, f.log;
      var r, nRead, step := LoadRound(f, dst, writeAt, loadSize, startOffset, endOffset, remaining);
      if r != 0 {
        return -1;
      }
      writeAt := writeAt + nRead;
      remaining := remaining - nRead;
      ResumeAfterPass(before, written, pos, rem, startOffset, endOffset, logged,
                      f.State(), dst[..], writeAt, remaining, step, f.log);
    }
    return 0;
  }

  /** A pass of the loop that goes on leaves the rest of the load to the
      passes after it: resuming from its result gives the same outcome. */
  lemma ResumeAfterPass(f: FileState, dst: seq<byte>, pos: nat, rem: nat, S: nat, T: nat, log: seq<Op>,
                        f1: FileState, dst1: seq<byte>, pos1: nat, rem1: nat, step: seq<Op>, log1: seq<Op>)
    requires pos + rem <= |dst| && rem > 0
    requires LoopProgresses(|f.data|, f.cursor, rem, S, T)
    requires LoadStep(f, dst, pos, rem, S, T) == Continue(f1, dst1, pos1, rem1, step) && log1 == log + step
    ensures pos1 + rem1 <= |dst1| && LoopProgresses(|f1.data|, f1.cursor, rem1, S, T)
    ensures Load(f, dst, pos, rem, S, T, log) == Load(f1, dst1, pos1, rem1, S, T, log1)
  {
  }

  /** One pass of LoadFile's loop body: read `loadSize` bytes to
      `dst[writeAt..]`; on a short read drop the last `endOffset` bytes read
      and seek back to `startOffset`.  Returns 0 and how far the write
      position advances, or -1 after closing the file.  `remaining` is the
      count still to load, which `loadSize` equals. */
  method LoadRound(f: File, dst: array<byte>, writeAt: nat, loadSize: nat, startOffset: nat, endOffset: nat,
                   ghost remaining: nat)
    returns (ret: int, nRead: nat, ghost step: seq<Op>)
    requires loadSize == remaining > 0 && writeAt + remaining <= dst.Length
    requires LoopProgresses(|f.data|, f.cursor, remaining, startOffset, endOffset)
    modifies f, dst
    ensures f.log == old(f.log) + step
    ensures ret == 0 ==> nRead <= remaining
    ensures LoadStep(old(f.State()), old(dst[..]), writeAt, remaining, startOffset, endOffset)
            == if ret == 0 then Continue(f.State(), dst[..], writeAt + nRead, remaining - nRead, step)
               else Stop(f.State(), dst[..], writeAt, step)
  {
    var r;
    r, nRead := f.Read(dst, writeAt, loadSize);
    if r != 0 {
      f.Close();
      return -1, 0, [ReadFault(loadSize), Op.Close];
    }
    step := [Op.Read(old(f.cursor), loadSize, nRead)];
    if nRead != loadSize {
      nRead := nRead - endOffset;
      r := f.Seek(startOffset);
      if r != 0 {
        f.Close();
        return -1, nRead, step + [SeekFault(startOffset), Op.Close];
      }
      step := step + [Op.Seek(startOffset)];
    }
    return 0, nRead, step;
  }

  /** `nRead -= nEndOffset` on LoadFile's unsigned 64-bit read count: the
      difference when the count is at least the trimmed tail, and otherwise
      the difference wrapped around past zero to just below 2^64. */
  function TrimmedCount(nRead: nat, endOffset: nat): (r: nat)
    requires nRead < U64 && endOffset < U64
    ensures r < U64
    ensures nRead >= endOffset ==> r == nRead - endOffset
    ensures nRead < endOffset ==> r == U64 - (endOffset - nRead)
  {
    (nRead - endOffset) % U64
  }

  /** A 64-bit pattern read as the signed `long` that LoadFile's write
      pointer and remaining count are: a value in the signed 64-bit range
      with the same bit pattern, that is, equal to `x` modulo 2^64. */
  function AsLong(x: nat): (r: int)
    requires x < U64
    ensures -(U64 / 2) <= r < U64 / 2
    ensures (x - r) % U64 == 0
  {
    if x < U64 / 2 then x else x - U64
  }

  // ---------------------------------------------------------- corrected load

  /** One read of the corrected loader, from cursor `c` before the loop end:
      the bytes it writes at `w` extend the delivered prefix of the looped
      stream `want`, and the rest of `want` is the looped stream from the new
      cursor.  Nothing after the bytes written is touched. */
  lemma LoopedAdvance(data: seq<byte>, c: nat, rem: nat, S: nat, T: nat, bytes: seq<byte>, c1: nat,
                      want: seq<byte>, w: nat, n: nat, before: seq<byte>, after: seq<byte>)
    requires S + T < |data| && c < |data| - T
    requires |bytes| == Min(rem, |data| - T - c) && bytes == data[c..c + |bytes|] && c1 == c + |bytes|
    requires w + rem == n == |want| <= |before|
    requires before[..w] == want[..w] && want[w..] == Looped(data, c, rem, S, T)
    requires after == Write(before, w, bytes)
    ensures after[..w + |bytes|] == want[..w + |bytes|] && want[w + |bytes|..] == Looped(data, c1, rem - |bytes|, S, T)
    ensures after[w + |bytes|..] == before[w + |bytes|..]
  {
    var k := |bytes|;
    LoopedStep(data, c, rem, S, T);
    WriteSlices(before, w, bytes);
    assert want[w..w + k] == bytes;
    assert after[..w + k] == after[..w] + after[w..w + k];
    assert want[..w + k] == want[..w] + want[w..w + k];
  }

  /** A loader that never reads past the loop end `E = size - endOffset`: each
      read stops at `E`, and a cursor at or past `E` is first moved back to
      `startOffset`.  It delivers the looped stream from any cursor, and
      leaves the cursor where that stream goes on, so that the next call
      continues it. */
  method LoadLooping(f: File, dst: array<byte>, readSize: nat, startOffset: nat, endOffset: nat) returns (ret: int)
    requires readSize <= dst.Length
    requires startOffset + endOffset < |f.data|
    modifies f, dst
    ensures ret == 0 || ret == -1
    ensures ret == 0 ==> dst[..readSize] == Looped(f.data, old(f.cursor), readSize, startOffset, endOffset)
                         && f.open == old(f.open)
    ensures ret == 0 ==> Continues(|f.data|, old(f.cursor), readSize, f.cursor, startOffset, endOffset)
    ensures ret == -1 ==> !f.open
    ensures ret == -1 ==> exists k :: 0 <= k <= readSize && dst[..k] == Looped(f.data, old(f.cursor), readSize, startOffset, endOffset)[..k]
                                                         && dst[k..] == old(dst[k..])
    ensures dst[readSize..] == old(dst[readSize..])
    ensures old(f.failAfter) == None ==> f.failAfter == None
    ensures old(f.open) && old(f.failAfter) == None ==> ret == 0
  {
    ghost var want := Looped(f.data, f.cursor, readSize, startOffset, endOffset);
    ghost var c0 := f.cursor;
    var remaining: nat := readSize;
    var writeAt: nat := 0;
    while remaining != 0
      invariant writeAt + remaining == readSize
      invariant dst[..writeAt] == want[..writeAt]
      invariant want[writeAt..] == Looped(f.data, f.cursor, remaining, startOffset, endOffset)
      invariant Continues(|f.data|, c0, writeAt, f.cursor, startOffset, endOffset)
      invariant dst[writeAt..] == old(dst[writeAt..])
      invariant dst[readSize..] == old(dst[readSize..])
      invariant f.open == old(f.open)
      invariant old(f.failAfter) == None ==> f.failAfter == None
    {
      ghost var c := f.cursor;
      var r, got := LoopedRound(f, dst, writeAt, remaining, startOffset, endOffset, want, readSize);
      if r != 0 {
        assert dst[..writeAt] == want[..writeAt] && dst[writeAt..] == old(dst[writeAt..]);
        return -1;
      }
      ContinuesChain(|f.data|, c0, writeAt, c, got, f.cursor, startOffset, endOffset);
      writeAt := writeAt + got;
      remaining := remaining - got;
    }
    return 0;
  }

  /** One pass of the corrected loader's loop: move back to `startOffset`
      when the cursor is at or past the loop end, then read up to the loop
      end or the remaining count, whichever comes first.  Each pass that
      succeeds delivers at least one more byte of the looped stream `want`. */
  method LoopedRound(f: File, dst: array<byte>, writeAt: nat, remaining: nat, startOffset: nat, endOffset: nat,
                     ghost want: seq<byte>, ghost readSize: nat)
    returns (ret: int, got: nat)
    requires startOffset + endOffset < |f.data|
    requires remaining > 0 && writeAt + remaining == readSize == |want| <= dst.Length
    requires dst[..writeAt] == want[..writeAt]
    requires want[writeAt..] == Looped(f.data, f.cursor, remaining, startOffset, endOffset)
    modifies f, dst
    ensures ret == 0 || ret == -1
    ensures ret == -1 ==> !f.open
    ensures ret == 0 ==> && 0 < got <= remaining && f.open == old(f.open)
                         && dst[..writeAt + got] == want[..writeAt + got]
                         && want[writeAt + got..] == Looped(f.data, f.cursor, remaining - got, startOffset, endOffset)
                         && Continues(|f.data|, old(f.cursor), got, f.cursor, startOffset, endOffset)
                         && dst[writeAt + got..] == old(dst[writeAt + got..])
    ensures ret == -1 ==> dst[..] == old(dst[..])
    ensures dst[readSize..] == old(dst[readSize..])
    ensures old(f.failAfter) == None ==> f.failAfter == None
    ensures old(f.open) && old(f.failAfter) == None ==> ret == 0
  {
    ghost var c0 := f.cursor;
    var r := RewindAtLoopEnd(f, remaining, startOffset, endOffset);
    if r != 0 {
      return -1, 0;
    }
    var chunk := Min(remaining, |f.data| - endOffset - f.cursor);
    ghost var c, before, st := f.cursor, dst[..], f.State();
    r, got := f.Read(dst, writeAt, chunk);
    if r != 0 {
      f.Close();
      return -1, 0;
    }
    ReadBytesAreFileBytes(st, chunk);
    LoopedAdvance(f.data, c, remaining, startOffset, endOffset, ReadBytes(st, chunk), f.cursor,
                  want, writeAt, readSize, before, dst[..]);
    ContinuesAfterRead(|f.data|, c, got, startOffset, endOffset);
    ContinuesChain(|f.data|, c0, 0, c, got, f.cursor, startOffset, endOffset);
    return 0, got;
  }

  /** The start of a pass of the corrected loader: a cursor at or past the
      loop end moves back to `startOffset`, which does not change the looped
      stream ahead of it; a seek that fails closes the file. */
  method RewindAtLoopEnd(f: File, remaining: nat, startOffset: nat, endOffset: nat) returns (ret: int)
    requires startOffset + endOffset < |f.data|
    modifies f
    ensures ret == 0 || ret == -1
    ensures ret == -1 ==> !f.open
    ensures ret == 0 ==> && f.cursor < |f.data| - endOffset && f.open == old(f.open)
                         && Looped(f.data, f.cursor, remaining, startOffset, endOffset)
                            == Looped(f.data, old(f.cursor), remaining, startOffset, endOffset)
                         && Continues(|f.data|, old(f.cursor), 0, f.cursor, startOffset, endOffset)
    ensures old(f.failAfter) == None ==> f.failAfter == None
    ensures old(f.open) && old(f.failAfter) == None ==> ret == 0
  {
    if f.cursor >= |f.data| - endOffset {
      LoopedFromLoopEnd(f.data, f.cursor, remaining, startOffset, endOffset);
      ContinuesAfterRewind(|f.data|, f.cursor, startOffset, endOffset);
      var r := f.Seek(startOffset);
      if r != 0 {
        f.Close();
        return -1;
      }
    }
    return 0;
  }
}
