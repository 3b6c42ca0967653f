/** What LoadFile's loop delivers, in terms of the byte streams of
    LoopStream: the destination holds the loader's stream up to the write
    position it reached, nothing outside the requested range is touched,
    and the calls it makes are reads of at most the request and seeks back
    to the loop start.  Facts about OpenFile followed by LoadFile, and the
    inputs that show where the loader departs from the looped stream. */
module MsCommonFacts {
  import opened CellFs
  import opened LoopStream
  import opened MsCommon

  // ------------------------------------------------------ one pass of the loop

  /** One pass of the loop body writes only inside `dst[pos..pos + rem)`. */
  lemma {:induction false} LoadStepFrame(f: FileState, dst: seq<byte>, pos: nat, rem: nat, S: nat, T: nat)
    requires pos + rem <= |dst| && rem > 0
    requires LoopProgresses(|f.data|, f.cursor, rem, S, T)
    ensures var r := LoadStep(f, dst, pos, rem, S, T);
            forall i | 0 <= i < |dst| && !(pos <= i < pos + rem) :: r.dst[i] == dst[i]
  {
    if !Fails(f) {
      WriteSlices(dst, pos, ReadBytes(f, rem));
    }
  }

  /** What a pass of the loop body that goes on has done: it wrote the bytes
      it read at `pos`; after a full read the load is complete, after a
      short read all but the last `T` bytes count and the cursor is at `S`. */
  lemma LoadStepShape(f: FileState, dst: seq<byte>, pos: nat, rem: nat, S: nat, T: nat, r: Round)
    requires pos + rem <= |dst| && rem > 0
    requires LoopProgresses(|f.data|, f.cursor, rem, S, T)
    requires r == LoadStep(f, dst, pos, rem, S, T) && r.Continue?
    ensures var bytes := ReadBytes(f, rem);
            && r.dst == Write(dst, pos, bytes)
            && if |bytes| == rem then r.pos == pos + rem && r.file.cursor == f.cursor + rem && r.rem == 0
               else |bytes| >= T && r.pos == pos + (|bytes| - T) && r.file.cursor == S && r.rem == rem - (|bytes| - T)
  {
  }

  /** The read of a pass that goes on, and the positions it leaves, split the
      loader's stream `w`: the bytes written at `pos` are its start, up to
      the new write position `pos1`, and the stream `w1` from the new cursor
      `c1` is its rest. */
  lemma {:induction false} ReadDelivers(f: FileState, dst: seq<byte>, pos: nat, rem: nat, S: nat, T: nat,
                                        pos1: nat, c1: nat, rem1: nat, w: seq<byte>, w1: seq<byte>)
    requires pos + rem <= |dst| && rem > 0
    requires LoopProgresses(|f.data|, f.cursor, rem, S, T)
    requires var bytes := ReadBytes(f, rem);
             if |bytes| == rem then pos1 == pos + rem && c1 == f.cursor + rem && rem1 == 0
             else |bytes| >= T && pos1 == pos + (|bytes| - T) && c1 == S && rem1 == rem - (|bytes| - T)
    requires LoopProgresses(|f.data|, c1, rem1, S, T)
    requires w == AsWritten(f.data, f.cursor, rem, S, T) && w1 == AsWritten(f.data, c1, rem1, S, T)
    ensures pos1 <= pos + rem
    ensures forall i | pos <= i < pos1 :: Write(dst, pos, ReadBytes(f, rem))[i] == w[i - pos]
    ensures w1 == w[pos1 - pos..]
  {
    if |ReadBytes(f, rem)| == rem {
      FullReadOfFile(f, dst, pos, rem, S, T, pos1, c1, rem1, w, w1);
    } else {
      ShortReadOfFile(f, dst, pos, rem, S, T, pos1, c1, rem1, w, w1);
    }
  }

  /** ReadDelivers after a full read: FullReadDelivers for the bytes the
      descriptor `f` returns. */
  lemma FullReadOfFile(f: FileState, dst: seq<byte>, pos: nat, rem: nat, S: nat, T: nat,
                       pos1: nat, c1: nat, rem1: nat, w: seq<byte>, w1: seq<byte>)
    requires pos + rem <= |dst| && rem > 0
    requires LoopProgresses(|f.data|, f.cursor, rem, S, T)
    requires |ReadBytes(f, rem)| == rem && pos1 == pos + rem && c1 == f.cursor + rem && rem1 == 0
    requires w == AsWritten(f.data, f.cursor, rem, S, T) && w1 == AsWritten(f.data, c1, rem1, S, T)
    ensures pos1 <= pos + rem
    ensures forall i | pos <= i < pos1 :: Write(dst, pos, ReadBytes(f, rem))[i] == w[i - pos]
    ensures w1 == w[pos1 - pos..]
  {
    ReadBytesAreFileBytes(f, rem);
    FullReadDelivers(f.data, f.cursor, rem, S, T, dst, pos, ReadBytes(f, rem), w, w1);
  }

  /** ReadDelivers after a short read: ShortReadDelivers for the bytes the
      descriptor `f` returns. */
  lemma ShortReadOfFile(f: FileState, dst: seq<byte>, pos: nat, rem: nat, S: nat, T: nat,
                        pos1: nat, c1: nat, rem1: nat, w: seq<byte>, w1: seq<byte>)
    requires pos + rem <= |dst| && rem > 0
    requires LoopProgresses(|f.data|, f.cursor, rem, S, T)
    requires var n := |ReadBytes(f, rem)|;
             n < rem && n >= T && pos1 == pos + (n - T) && c1 == S && rem1 == rem - (n - T)
    requires w == AsWritten(f.data, f.cursor, rem, S, T) && w1 == AsWritten(f.data, c1, rem1, S, T)
    ensures pos1 <= pos + rem
    ensures forall i | pos <= i < pos1 :: Write(dst, pos, ReadBytes(f, rem))[i] == w[i - pos]
    ensures w1 == w[pos1 - pos..]
  {
    ReadBytesAreFileBytes(f, rem);
    ShortReadDelivers(f.data, f.cursor, rem, S, T, dst, pos, ReadBytes(f, rem), w, w1);
  }

  lemma FullReadDelivers(data: seq<byte>, c: nat, rem: nat, S: nat, T: nat,
                         dst: seq<byte>, pos: nat, bytes: seq<byte>, w: seq<byte>, w1: seq<byte>)
    requires LoopProgresses(|data|, c, rem, S, T) && c + rem <= |data| && pos + rem <= |dst|
    requires bytes == data[c..c + rem]
    requires w == AsWritten(data, c, rem, S, T) && w1 == AsWritten(data, c + rem, 0, S, T)
    ensures forall i | pos <= i < pos + rem :: Write(dst, pos, bytes)[i] == w[i - pos]
    ensures w1 == w[rem..]
  {
  }

  /** A short read from cursor `c` writes the bytes of the loader's stream `w`
      up to the loop end first, and the rest `w1` of the stream starts over
      at `S`. */
  lemma {:induction false} ShortReadDelivers(data: seq<byte>, c: nat, rem: nat, S: nat, T: nat,
                                             dst: seq<byte>, pos: nat, bytes: seq<byte>, w: seq<byte>, w1: seq<byte>)
    requires LoopProgresses(|data|, c, rem, S, T) && rem > 0 && c + rem > |data| && pos + rem <= |dst|
    requires |bytes| == |data| - Min(c, |data|) && (|bytes| > 0 ==> bytes == data[c..c + |bytes|])
    requires w == AsWritten(data, c, rem, S, T) && w1 == AsWritten(data, S, rem - (|bytes| - T), S, T)
    ensures forall i | pos <= i < pos + (|bytes| - T) :: Write(dst, pos, bytes)[i] == w[i - pos]
    ensures w1 == w[|bytes| - T..]
  {
    var E := |data| - T;
    assert w == data[Min(c, E)..E] + w1;
  }

  /** A pass of the loop body that goes on leaves the loader's final cursor
      where it was. */
  lemma {:induction false} LoadStepKeepsEnd(f: FileState, dst: seq<byte>, pos: nat, rem: nat, S: nat, T: nat)
    requires pos + rem <= |dst| && rem > 0
    requires LoopProgresses(|f.data|, f.cursor, rem, S, T)
    ensures var r := LoadStep(f, dst, pos, rem, S, T);
            r.Continue? ==>
              AsWrittenEnd(f.data, r.file.cursor, r.rem, S, T) == AsWrittenEnd(f.data, f.cursor, rem, S, T)
  {
    var r := LoadStep(f, dst, pos, rem, S, T);
    if r.Continue? && |ReadBytes(f, rem)| < rem {
      var E := |f.data| - T;
      assert AsWrittenEnd(f.data, f.cursor, rem, S, T) == AsWrittenEnd(f.data, S, rem - (E - Min(f.cursor, E)), S, T);
    }
  }

  /** The calls of one pass: a read of `rem` bytes, a seek back to `S` after
      a short read, and a close after a call that failed, which ends the
      pass. */
  lemma {:induction false} LoadStepCalls(f: FileState, dst: seq<byte>, pos: nat, rem: nat, S: nat, T: nat)
    requires pos + rem <= |dst| && rem > 0
    requires LoopProgresses(|f.data|, f.cursor, rem, S, T)
    ensures var r := LoadStep(f, dst, pos, rem, S, T);
            && |r.step| > 0 && (r.Continue? ==> r.rem <= rem)
            && (forall j | 0 <= j < |r.step| :: LoaderCall(r.step[j], rem, S))
            && (r.Stop? <==> r.step[|r.step| - 1].Close?)
  {
  }

  /** A pass that leaves bytes still to load followed a short read: the
      write position moved by the bytes read less the trimmed tail, and the
      cursor is back at the loop start.  On a healthy open descriptor a pass
      always goes on. */
  lemma {:induction false} LoadStepRewinds(f: FileState, dst: seq<byte>, pos: nat, rem: nat, S: nat, T: nat)
    requires pos + rem <= |dst| && rem > 0
    requires LoopProgresses(|f.data|, f.cursor, rem, S, T)
    ensures var r := LoadStep(f, dst, pos, rem, S, T);
            && (r.Continue? && r.rem > 0 ==> |ReadBytes(f, rem)| < rem && r.file.cursor == S
                                             && r.pos == pos + |ReadBytes(f, rem)| - T)
            && (f.open && f.failAfter == None ==> r.Continue? && r.file.failAfter == None)
  {
  }

  // ------------------------------------------------------------ the whole loop

  /** LoadFile's loop writes only inside `dst[pos..pos + rem)`. */
  lemma {:induction false} LoadStaysInRange(f: FileState, dst: seq<byte>, pos: nat, rem: nat, S: nat, T: nat,
                                            log: seq<Op>, o: LoadOutcome)
    requires pos + rem <= |dst|
    requires LoopProgresses(|f.data|, f.cursor, rem, S, T)
    requires o == Load(f, dst, pos, rem, S, T, log)
    ensures forall i | 0 <= i < |dst| && !(pos <= i < pos + rem) :: o.dst[i] == dst[i]
    decreases rem, if f.cursor == S then 0 else 1
  {
    if rem > 0 {
      var r := LoadStep(f, dst, pos, rem, S, T);
      LoadStepFrame(f, dst, pos, rem, S, T);
      if r.Continue? {
        LoadStaysInRange(r.file, r.dst, r.pos, r.rem, S, T, log + r.step, o);
      }
    }
  }

  /** Up to the write position LoadFile's loop reached, the destination
      holds the loader's stream `w == AsWritten(...)`: on success the whole
      request, after a failure the bytes delivered before it. */
  lemma {:induction false} LoadDeliversAsWritten(f: FileState, dst: seq<byte>, pos: nat, rem: nat, S: nat, T: nat,
                                                 log: seq<Op>, o: LoadOutcome, w: seq<byte>)
    requires pos + rem <= |dst|
    requires LoopProgresses(|f.data|, f.cursor, rem, S, T)
    requires o == Load(f, dst, pos, rem, S, T, log) && w == AsWritten(f.data, f.cursor, rem, S, T)
    ensures pos <= o.delivered <= pos + rem && |o.dst| == |dst|
    ensures o.ret == 0 ==> o.delivered == pos + rem
    ensures forall i | pos <= i < o.delivered :: o.dst[i] == w[i - pos]
    decreases rem, if f.cursor == S then 0 else 1
  {
    if rem > 0 {
      var r := LoadStep(f, dst, pos, rem, S, T);
      if r.Continue? {
        var w1 := AsWritten(f.data, r.file.cursor, r.rem, S, T);
        LoadStepShape(f, dst, pos, rem, S, T, r);
        ReadDelivers(f, dst, pos, rem, S, T, r.pos, r.file.cursor, r.rem, w, w1);
        LoadDeliversAsWritten(r.file, r.dst, r.pos, r.rem, S, T, log + r.step, o, w1);
        LoadStaysInRange(r.file, r.dst, r.pos, r.rem, S, T, log + r.step, o);
        forall i | pos <= i < o.delivered
          ensures o.dst[i] == w[i - pos]
        {
          if i >= r.pos {
            assert o.dst[i] == w1[i - r.pos];
          }
        }
      }
    }
  }

  /** A successful LoadFile fills the whole request with the loader's
      stream `w == AsWritten(...)`. */
  lemma LoadSucceedsAsWritten(f: FileState, dst: seq<byte>, rem: nat, S: nat, T: nat, log: seq<Op>,
                              o: LoadOutcome, w: seq<byte>)
    requires rem <= |dst| && LoopProgresses(|f.data|, f.cursor, rem, S, T)
    requires o == Load(f, dst, 0, rem, S, T, log) && w == AsWritten(f.data, f.cursor, rem, S, T)
    ensures |o.dst| == |dst|
    ensures o.ret == 0 ==> forall i | 0 <= i < rem :: o.dst[i] == w[i]
  {
    LoadDeliversAsWritten(f, dst, 0, rem, S, T, log, o, w);
    if o.ret == 0 {
      forall i | 0 <= i < rem
        ensures o.dst[i] == w[i]
      {
        assert o.dst[i] == w[i - 0];
      }
    }
  }

  /** A successful LoadFile from a cursor outside the trimmed tail fills the
      destination with the looped stream everywhere but its last `T` bytes,
      and entirely when there is no trimmed tail, even from a cursor past
      end of file. */
  lemma LoadIsLoopedBeforeTail(f: FileState, dst: seq<byte>, rem: nat, S: nat, T: nat, log: seq<Op>, o: LoadOutcome)
    requires rem <= |dst| && (f.cursor + T <= |f.data| || T == 0) && S + T < |f.data|
    requires o == Load(f, dst, 0, rem, S, T, log)
    ensures |o.dst| == |dst|
    ensures o.ret == 0 ==> forall i | 0 <= i < rem - T :: o.dst[i] == Looped(f.data, f.cursor, rem, S, T)[i]
    ensures o.ret == 0 && T == 0 ==> o.dst[..rem] == Looped(f.data, f.cursor, rem, S, T)
  {
    var w := AsWritten(f.data, f.cursor, rem, S, T);
    LoadSucceedsAsWritten(f, dst, rem, S, T, log, o, w);
    if o.ret == 0 {
      AsWrittenAgreesBeforeTail(f.data, f.cursor, rem, S, T);
      AgreementCarriesOver(o.dst, w, Looped(f.data, f.cursor, rem, S, T), rem, T);
    }
  }

  /** A destination that holds `w`, which agrees with `looped` but for its
      last `T` bytes, agrees with `looped` there too. */
  lemma AgreementCarriesOver(d: seq<byte>, w: seq<byte>, looped: seq<byte>, n: nat, T: nat)
    requires n <= |d| && |w| == |looped| == n
    requires forall i | 0 <= i < n :: d[i] == w[i]
    requires forall i | 0 <= i < n - T :: w[i] == looped[i]
    ensures forall i | 0 <= i < n - T :: d[i] == looped[i]
    ensures T == 0 ==> d[..n] == looped
  {
  }

  /** LoadFile's loop ends at the cursor `AsWrittenEnd` when it succeeds,
      with the descriptor open unless nothing was asked; a failure leaves it
      closed. */
  lemma {:induction false} LoadEndsAtAsWrittenEnd(f: FileState, dst: seq<byte>, pos: nat, rem: nat, S: nat, T: nat,
                                                  log: seq<Op>, o: LoadOutcome)
    requires pos + rem <= |dst|
    requires LoopProgresses(|f.data|, f.cursor, rem, S, T)
    requires o == Load(f, dst, pos, rem, S, T, log)
    ensures && (o.ret == 0 ==> o.file.cursor == AsWrittenEnd(f.data, f.cursor, rem, S, T))
            && (o.ret == 0 && rem > 0 ==> o.file.open)
            && (o.ret != 0 ==> !o.file.open)
    decreases rem, if f.cursor == S then 0 else 1
  {
    if rem > 0 {
      var r := LoadStep(f, dst, pos, rem, S, T);
      if r.Continue? {
        LoadStepKeepsEnd(f, dst, pos, rem, S, T);
        LoadEndsAtAsWrittenEnd(r.file, r.dst, r.pos, r.rem, S, T, log + r.step, o);
      }
    }
  }

  /** On a healthy open descriptor LoadFile's loop always succeeds, and the
      descriptor stays open and healthy. */
  lemma {:induction false} FaultFreeLoadSucceeds(f: FileState, dst: seq<byte>, pos: nat, rem: nat, S: nat, T: nat,
                                                 log: seq<Op>, o: LoadOutcome)
    requires pos + rem <= |dst|
    requires LoopProgresses(|f.data|, f.cursor, rem, S, T)
    requires f.open && f.failAfter == None
    requires o == Load(f, dst, pos, rem, S, T, log)
    ensures o.ret == 0 && o.file.open && o.file.failAfter == None
    decreases rem, if f.cursor == S then 0 else 1
  {
    if rem > 0 {
      var r := LoadStep(f, dst, pos, rem, S, T);
      LoadStepRewinds(f, dst, pos, rem, S, T);
      FaultFreeLoadSucceeds(r.file, r.dst, r.pos, r.rem, S, T, log + r.step, o);
    }
  }

  /** The calls LoadFile's loop may make for a request of `rem` bytes: reads
      of at most `rem` bytes, seeks back to the loop start `S`, and closes. */
  predicate LoaderCall(op: Op, rem: nat, S: nat)
  {
    match op
    case Read(_, asked, _) => asked <= rem
    case ReadFault(asked) => asked <= rem
    case Seek(to) => to == S
    case SeekFault(to) => to == S
    case Close => true
  }

  /** LoadFile's loop only appends to the descriptor's log, and nothing at
      all for a request of zero bytes. */
  lemma {:induction false} LoadAppendsToLog(f: FileState, dst: seq<byte>, pos: nat, rem: nat, S: nat, T: nat,
                                            log: seq<Op>, o: LoadOutcome)
    requires pos + rem <= |dst|
    requires LoopProgresses(|f.data|, f.cursor, rem, S, T)
    requires o == Load(f, dst, pos, rem, S, T, log)
    ensures && |log| <= |o.log| && (forall i | 0 <= i < |log| :: o.log[i] == log[i])
            && (rem == 0 ==> o.log == log)
    decreases rem, if f.cursor == S then 0 else 1
  {
    if rem > 0 {
      var r := LoadStep(f, dst, pos, rem, S, T);
      if r.Continue? {
        LoadAppendsToLog(r.file, r.dst, r.pos, r.rem, S, T, log + r.step, o);
      }
    }
  }

  /** LoadFile's loop fails exactly when its last call is a close. */
  lemma {:induction false} LoadFailsWithClose(f: FileState, dst: seq<byte>, pos: nat, rem: nat, S: nat, T: nat,
                                              log: seq<Op>, o: LoadOutcome)
    requires pos + rem <= |dst| && rem > 0
    requires LoopProgresses(|f.data|, f.cursor, rem, S, T)
    requires o == Load(f, dst, pos, rem, S, T, log)
    ensures |log| < |o.log| && (o.ret == -1 <==> o.log[|o.log| - 1].Close?)
    decreases rem, if f.cursor == S then 0 else 1
  {
    var r := LoadStep(f, dst, pos, rem, S, T);
    LoadStepCalls(f, dst, pos, rem, S, T);
    var log1 := log + r.step;
    assert log1[|log1| - 1] == r.step[|r.step| - 1];
    if r.Continue? && r.rem > 0 {
      LoadFailsWithClose(r.file, r.dst, r.pos, r.rem, S, T, log1, o);
    }
  }

  /** A call the device refused. */
  predicate Faulty(op: Op)
  {
    op.ReadFault? || op.SeekFault?
  }

  /** A pass stops exactly when one of its calls failed. */
  lemma LoadStepFaults(f: FileState, dst: seq<byte>, pos: nat, rem: nat, S: nat, T: nat)
    requires pos + rem <= |dst| && rem > 0
    requires LoopProgresses(|f.data|, f.cursor, rem, S, T)
    ensures var r := LoadStep(f, dst, pos, rem, S, T);
            r.Stop? <==> exists j | 0 <= j < |r.step| :: Faulty(r.step[j])
  {
    var r := LoadStep(f, dst, pos, rem, S, T);
    if r.Stop? {
      assert Faulty(r.step[if r.step[0].ReadFault? then 0 else 1]);
    }
  }

  /** LoadFile's loop returns -1 exactly when one of its calls failed: a
      read (lines 234-238) or the seek back to the loop start (lines
      244-248). */
  lemma {:induction false} LoadFailsExactlyOnFault(f: FileState, dst: seq<byte>, pos: nat, rem: nat, S: nat, T: nat,
                                                   log: seq<Op>, o: LoadOutcome)
    requires pos + rem <= |dst|
    requires LoopProgresses(|f.data|, f.cursor, rem, S, T)
    requires o == Load(f, dst, pos, rem, S, T, log)
    ensures |log| <= |o.log|
    ensures o.ret == -1 <==> exists j | |log| <= j < |o.log| :: Faulty(o.log[j])
    decreases rem, if f.cursor == S then 0 else 1
  {
    if rem > 0 {
      var r := LoadStep(f, dst, pos, rem, S, T);
      var log1 := log + r.step;
      LoadStepFaults(f, dst, pos, rem, S, T);
      if r.Stop? {
        var j :| 0 <= j < |r.step| && Faulty(r.step[j]);
        assert o.log[|log| + j] == r.step[j];
      } else {
        LoadFailsExactlyOnFault(r.file, r.dst, r.pos, r.rem, S, T, log1, o);
        LoadAppendsToLog(r.file, r.dst, r.pos, r.rem, S, T, log1, o);
        forall j | |log| <= j < |log1|
          ensures !Faulty(o.log[j])
        {
          assert o.log[j] == log1[j] == r.step[j - |log|];
        }
      }
    }
  }

  /** The calls LoadFile's loop adds to the log are reads of at most the
      request, seeks back to the loop start, and closes. */
  lemma {:induction false} LoadCalls(f: FileState, dst: seq<byte>, pos: nat, rem: nat, S: nat, T: nat, log: seq<Op>, o: LoadOutcome)
    requires pos + rem <= |dst|
    requires LoopProgresses(|f.data|, f.cursor, rem, S, T)
    requires o == Load(f, dst, pos, rem, S, T, log)
    ensures |log| <= |o.log| && forall i | |log| <= i < |o.log| :: LoaderCall(o.log[i], rem, S)
    decreases rem, if f.cursor == S then 0 else 1
  {
    if rem > 0 {
      var r := LoadStep(f, dst, pos, rem, S, T);
      LoadStepCalls(f, dst, pos, rem, S, T);
      if r.Continue? {
        LoadCalls(r.file, r.dst, r.pos, r.rem, S, T, log + r.step, o);
        LoadAppendsToLog(r.file, r.dst, r.pos, r.rem, S, T, log + r.step, o);
        forall i | |log| <= i < |o.log|
          ensures LoaderCall(o.log[i], rem, S)
        {
          if i < |log| + |r.step| {
            assert o.log[i] == r.step[i - |log|];
          }
        }
      }
    }
  }

  /** A request that fits before end of file is one read of exactly the
      request and no seek: it succeeds, writes `data[c..c + rem)` at `pos`
      and moves the cursor by `rem`.  A request of zero bytes makes no call
      and changes nothing. */
  lemma {:induction false} LoadWithinFirstRead(f: FileState, dst: seq<byte>, pos: nat, rem: nat, S: nat, T: nat,
                                               log: seq<Op>)
    requires pos + rem <= |dst| && f.cursor + rem <= |f.data|
    requires rem == 0 || !Fails(f)
    ensures var o := Load(f, dst, pos, rem, S, T, log);
            && o.ret == 0 && o.delivered == pos + rem && o.file.cursor == f.cursor + rem
            && o.dst == Write(dst, pos, f.data[f.cursor..f.cursor + rem])
            && o.log == log + if rem == 0 then [] else [Op.Read(f.cursor, rem, rem)]
  {
    if rem == 0 {
      assert Write(dst, pos, f.data[f.cursor..f.cursor]) == dst;
    } else {
      var r := LoadStep(f, dst, pos, rem, S, T);
      assert ReadBytes(f, rem) == f.data[f.cursor..f.cursor + rem];
      assert r.Continue? && r.rem == 0;
    }
  }

  // ------------------------------------------------------- OpenFile, then load

  /** On a healthy device, OpenFile at offset 0 followed by a LoadFile of the
      size it reported delivers the whole file in one read. */
  lemma {:induction false} OpenThenLoadWholeFile(fs: map<string, seq<byte>>, name: string, fd: nat,
                                                 dst: seq<byte>, S: nat, T: nat)
    requires name in fs && |fs[name]| <= |dst|
    ensures var op := Open(fs, name, 0, fd, None);
            && op.ret == fd && op.sizeReport == Some(|fs[name]|)
            && var o := Load(op.file.value, dst, 0, op.sizeReport.value, S, T, op.trace);
               o.ret == 0 && |o.dst| == |dst| && o.dst[..|fs[name]|] == fs[name] && o.log == op.trace + if fs[name] == [] then [] else [Op.Read(0, |fs[name]|, |fs[name]|)]
  {
    var op := Open(fs, name, 0, fd, None);
    var data := fs[name];
    LoadWithinFirstRead(op.file.value, dst, 0, |data|, S, T, op.trace);
    WriteSlices(dst, 0, data[0..|data|]);
  }

  // ---------------------------------------------------- where the loader departs

  /** The bytes 0, 1, ..., 9. */
  function Ramp(): (r: seq<byte>)
    ensures |r| == 10 && forall i | 0 <= i < 10 :: r[i] == i as byte
  {
    [0, 1, 2, 3, 4, 5, 6, 7, 8, 9]
  }

  /** A load that wraps once: 6 bytes from cursor 7 of a 10-byte file with
      loop start 2 and a 1-byte trimmed tail.  The first read comes back
      short with 3 bytes, of which 2 are kept; the cursor goes back to 2 and
      a second read of the 4 bytes still wanted completes the load. */
  lemma ConcreteWrapScenario()
    ensures var o := Load(FileState(Ramp(), 7, true, None), [0, 0, 0, 0, 0, 0], 0, 6, 2, 1, []);
            && o == LoadOutcome(0, FileState(Ramp(), 6, true, None), [7, 8, 2, 3, 4, 5], 6,
                                [Op.Read(7, 6, 3), Seek(2), Op.Read(2, 4, 4)])
  {
    var data := Ramp();
    var f := FileState(data, 7, true, None);
    var r := LoadStep(f, [0, 0, 0, 0, 0, 0], 0, 6, 2, 1);
    assert ReadBytes(f, 6) == [7, 8, 9];
    assert Write([0, 0, 0, 0, 0, 0], 0, [7, 8, 9]) == [7, 8, 9, 0, 0, 0];
    assert r == Continue(FileState(data, 2, true, None), [7, 8, 9, 0, 0, 0], 2, 4, [Op.Read(7, 6, 3), Seek(2)]);
    var f1 := FileState(data, 2, true, None);
    assert ReadBytes(f1, 4) == [2, 3, 4, 5];
    assert Write([7, 8, 9, 0, 0, 0], 2, [2, 3, 4, 5]) == [7, 8, 2, 3, 4, 5];
    assert LoadStep(f1, [7, 8, 9, 0, 0, 0], 2, 4, 2, 1)
        == Continue(FileState(data, 6, true, None), [7, 8, 2, 3, 4, 5], 6, 0, [Op.Read(2, 4, 4)]);
  }

  /** A wrap in a 1000-byte file with loop start 100 and a 20-byte trimmed
      tail, loading 150 bytes from cursor 900: the first read returns the 100
      bytes left, 80 of them are kept, the cursor goes back to 100, and the
      second read asks for the 70 bytes still wanted, ending at 170. */
  lemma ThousandByteWrap(data: seq<byte>, dst: seq<byte>)
    requires |data| == 1000 && |dst| == 150
    ensures var o := Load(FileState(data, 900, true, None), dst, 0, 150, 100, 20, []);
            && o.ret == 0 && o.file.cursor == 170 && o.dst == data[900..980] + data[100..170]
            && o.log == [Op.Read(900, 150, 100), Seek(100), Op.Read(100, 70, 70)]
  {
    var f := FileState(data, 900, true, None);
    var f1 := FileState(data, 100, true, None);
    var f2 := FileState(data, 170, true, None);
    var dst1 := Write(dst, 0, data[900..1000]);
    var dst2 := Write(dst1, 80, data[100..170]);
    var log1 := [Op.Read(900, 150, 100), Seek(100)];
    assert ReadBytes(f, 150) == data[900..1000];
    assert LoadStep(f, dst, 0, 150, 100, 20) == Continue(f1, dst1, 80, 70, log1);
    assert [] + log1 == log1;
    assert Load(f, dst, 0, 150, 100, 20, []) == Load(f1, dst1, 80, 70, 100, 20, log1);
    assert ReadBytes(f1, 70) == data[100..170];
    assert LoadStep(f1, dst1, 80, 70, 100, 20) == Continue(f2, dst2, 150, 0, [Op.Read(100, 70, 70)]);
    assert Load(f1, dst1, 80, 70, 100, 20, log1) == LoadOutcome(0, f2, dst2, 150, log1 + [Op.Read(100, 70, 70)]);
    WriteSlices(dst, 0, data[900..1000]);
    WriteSlices(dst1, 80, data[100..170]);
    assert dst2 == data[900..980] + data[100..170];
  }

  /** The load of ConcreteWrapScenario delivers the looped stream: its last
      read ends before the trimmed tail. */
  lemma ConcreteWrapIsLooped()
    ensures Looped(Ramp(), 7, 6, 2, 1) == [7, 8, 2, 3, 4, 5]
  {
    var looped := Looped(Ramp(), 7, 6, 2, 1);
    forall i | 0 <= i < 6
      ensures looped[i] == [7, 8, 2, 3, 4, 5][i]
    {
      assert looped[i] == Ramp()[StreamIndex(10, 7, 2, 1, i)];
    }
  }

  /** A cursor past end of file, which OpenFile's seek allows.  With no
      trimmed tail, 3 bytes from cursor 11 of the 10-byte file with loop
      start 2: the first read returns nothing, the cursor goes back to 2 and
      a second read delivers bytes 2, 3 and 4, which is the looped stream.
      A load of nothing makes no call, whatever the cursor and the tail. */
  lemma LoadPastEndOfFile()
    ensures LoopProgresses(10, 11, 3, 2, 0) && LoopProgresses(10, 11, 0, 2, 5)
    ensures var o := Load(FileState(Ramp(), 11, true, None), [0, 0, 0], 0, 3, 2, 0, []);
            && o == LoadOutcome(0, FileState(Ramp(), 5, true, None), [2, 3, 4], 3,
                                [Op.Read(11, 3, 0), Seek(2), Op.Read(2, 3, 3)])
            && o.dst == Looped(Ramp(), 11, 3, 2, 0)
    ensures Load(FileState(Ramp(), 11, true, None), [0, 0, 0], 0, 0, 2, 5, [])
            == LoadOutcome(0, FileState(Ramp(), 11, true, None), [0, 0, 0], 0, [])
  {
  }

  /** The trimmed tail leaks: 3 bytes from cursor 6 of a 10-byte file with
      loop start 2 and a 2-byte trimmed tail fit before end of file, so the
      loader reads bytes 6, 7 and 8 and never wraps; byte 8 lies in the
      trimmed tail, where the looped stream has byte 2. */
  lemma TrimmedTailLeaks()
    ensures LoopProgresses(10, 6, 3, 2, 2)
    ensures var o := Load(FileState(Ramp(), 6, true, None), [0, 0, 0], 0, 3, 2, 2, []);
            && o.ret == 0 && o.dst == [6, 7, 8] && 8 >= |Ramp()| - 2
            && Looped(Ramp(), 6, 3, 2, 2) == [6, 7, 2] && o.dst != Looped(Ramp(), 6, 3, 2, 2)
  {
    var data := Ramp();
    var f := FileState(data, 6, true, None);
    assert ReadBytes(f, 3) == [6, 7, 8];
    assert Write([0, 0, 0], 0, [6, 7, 8]) == [6, 7, 8];
    assert LoadStep(f, [0, 0, 0], 0, 3, 2, 2) == Continue(FileState(data, 9, true, None), [6, 7, 8], 3, 0, [Op.Read(6, 3, 3)]);
    var looped := Looped(data, 6, 3, 2, 2);
    assert looped[0] == data[StreamIndex(10, 6, 2, 2, 0)] == 6;
    assert looped[1] == data[StreamIndex(10, 6, 2, 2, 1)] == 7;
    assert looped[2] == data[StreamIndex(10, 6, 2, 2, 2)] == 2;
  }

  /** LoadFile's `nRead -= nEndOffset` read back as the signed write offset
      it is added to: the difference itself, negative when a short read
      returns fewer bytes than the trimmed tail. */
  lemma TrimmedCountIsDifference(nRead: nat, endOffset: nat)
    requires nRead <= INT_MAX && endOffset <= INT_MAX
    ensures AsLong(TrimmedCount(nRead, endOffset)) == nRead - endOffset
  {
    if nRead >= endOffset {
      DivisionIsUnique(nRead - endOffset, U64, 0, nRead - endOffset);
    } else {
      DivisionIsUnique(nRead - endOffset, U64, -1, nRead - endOffset + U64);
    }
  }

  /** A short read inside the trimmed tail: 4 bytes from cursor 8 of a
      10-byte file with a 5-byte trimmed tail return 2 bytes, and
      `nRead -= nEndOffset` wraps to 2^64 - 3, which moves the write
      pointer back by 3 and raises the remaining count from 4 to 7.  The
      progress condition the model demands rules this input out. */
  lemma TrimUnderflows()
    ensures |ReadBytes(FileState(Ramp(), 8, true, None), 4)| == 2
    ensures TrimmedCount(2, 5) == U64 - 3 && AsLong(TrimmedCount(2, 5)) == -3
    ensures 4 - AsLong(TrimmedCount(2, 5)) == 7
    ensures !LoopProgresses(10, 8, 4, 0, 5)
  {
    TrimmedCountIsDifference(2, 5);
  }

  /** Under the progress condition a short read returns at least the
      trimmed tail, so the 64-bit count LoadFile computes is the amount the
      model keeps. */
  lemma TrimmedCountUnderProgress(f: FileState, rem: nat, T: nat, S: nat)
    requires LoopProgresses(|f.data|, f.cursor, rem, S, T)
    requires rem <= INT_MAX && T <= INT_MAX
    requires |ReadBytes(f, rem)| < rem
    ensures |ReadBytes(f, rem)| >= T
    ensures AsLong(TrimmedCount(|ReadBytes(f, rem)|, T)) == |ReadBytes(f, rem)| - T
  {
    TrimmedCountIsDifference(|ReadBytes(f, rem)|, T);
  }
}
