/** The platform file-system calls the loader relies on (cellFsOpen,
    cellFsRead, cellFsLseek, cellFsClose), over an in-memory, read-only
    file.  Whether a call fails is decided by a fault plan carried with the
    descriptor, so that every error path of the loader can be stated. */
module CellFs {

  type byte = bv8

  /** Largest value of the C `int` the loader keeps its sizes in. */
  const INT_MAX: nat := 0x7fff_ffff

  /** Return code of a failed platform call (any non-zero value will do). */
  const FS_ERROR: int := 1

  datatype Option<T> = None | Some(value: T)

  function Min(a: nat, b: nat): nat { if a <= b then a else b }

  /** One platform call on a descriptor, as the device saw it. */
  datatype Op =
    | Read(at: nat, asked: nat, got: nat)
    | ReadFault(asked: nat)
    | Seek(to: int)
    | SeekFault(to: int)
    | Close

  /** The value view of a descriptor: the file's bytes, the read cursor,
      whether the descriptor is open, and the fault plan.  `failAfter ==
      None` is a healthy device; `Some(k)` lets the next k reads and seeks
      succeed and fails every one after them.  A close never fails and does
      not use up the plan. */
  datatype FileState = FileState(data: seq<byte>, cursor: nat, open: bool, failAfter: Option<nat>)

  /** The next call on `f` fails: the descriptor is closed or the plan is spent. */
  predicate Fails(f: FileState) { !f.open || f.failAfter == Some(0) }

  /** The descriptor after one more successful call. */
  function Spend(f: FileState): (g: FileState)
    requires !Fails(f)
    ensures g.data == f.data && g.cursor == f.cursor && g.open
    ensures f.failAfter == None ==> g.failAfter == None
  {
    if f.failAfter.Some? then f.(failAfter := Some(f.failAfter.value - 1)) else f
  }

  /** The bytes a successful read of `asked` bytes returns: those from the
      cursor on, stopping at end of file. */
  function ReadBytes(f: FileState, asked: nat): (b: seq<byte>)
    ensures |b| <= asked
    ensures f.cursor + asked <= |f.data| ==> |b| == asked
    ensures f.cursor + asked > |f.data| ==> |b| == |f.data| - Min(f.cursor, |f.data|)
  {
    if f.cursor < |f.data| then f.data[f.cursor..f.cursor + Min(asked, |f.data| - f.cursor)] else []
  }

  /** A read returns the file's bytes from the cursor on. */
  lemma ReadBytesAreFileBytes(f: FileState, asked: nat)
    ensures var b := ReadBytes(f, asked);
            |b| > 0 ==> f.cursor + |b| <= |f.data| && b == f.data[f.cursor..f.cursor + |b|]
  {
  }

  /** `dst` with `bytes` copied in at offset `at`. */
  function Write(dst: seq<byte>, at: nat, bytes: seq<byte>): (r: seq<byte>)
    requires at + |bytes| <= |dst|
    ensures |r| == |dst|
  {
    dst[..at] + bytes + dst[at + |bytes|..]
  }

  /** A write puts `bytes` at `at` and leaves everything else as it was. */
  lemma WriteSlices(dst: seq<byte>, at: nat, bytes: seq<byte>)
    requires at + |bytes| <= |dst|
    ensures var r := Write(dst, at, bytes);
            r[..at] == dst[..at] && r[at..at + |bytes|] == bytes && r[at + |bytes|..] == dst[at + |bytes|..]
  {
  }

  /** An open descriptor.  `log` records every call made on it. */
  class File {
    const data: seq<byte>
    var cursor: nat
    var open: bool
    var failAfter: Option<nat>
    ghost var log: seq<Op>

    function State(): FileState
      reads this
    {
      FileState(data, cursor, open, failAfter)
    }

    /** A descriptor just opened on `contents`, cursor at the start. */
    constructor Open(contents: seq<byte>, plan: Option<nat>)
      ensures State() == FileState(contents, 0, true, plan) && log == []
    {
      data := contents;
      cursor := 0;
      open := true;
      failAfter := plan;
      log := [];
    }

    /** cellFsRead: copy up to `asked` bytes from the cursor into
        `dst[off..]`, report how many were copied and advance the cursor. */
    method Read(dst: array<byte>, off: nat, asked: nat) returns (ret: int, got: nat)
      requires off + asked <= dst.Length
      modifies this, dst
      ensures (ret == 0) == !Fails(old(State()))
      ensures ret != 0 ==> got == 0 && State() == old(State()) && dst[..] == old(dst[..])
                           && log == old(log) + [ReadFault(asked)]
      ensures ret == 0 ==>
                var b := ReadBytes(old(State()), asked);
                got == |b| && State() == Spend(old(State())).(cursor := old(cursor) + got)
                && dst[..] == Write(old(dst[..]), off, b)
                && log == old(log) + [Op.Read(old(cursor), asked, got)]
    {
      if !open || failAfter == Some(0) {
        ret, got := FS_ERROR, 0;
        log := log + [ReadFault(asked)];
        return;
      }
      var b := ReadBytes(State(), asked);
      ghost var before := dst[..];
      forall i | 0 <= i < |b| {
        dst[off + i] := b[i];
      }
      assert dst[..] == Write(before, off, b);
      ret, got := 0, |b|;
      log := log + [Op.Read(cursor, asked, got)];
      cursor := cursor + got;
      if failAfter.Some? {
        failAfter := Some(failAfter.value - 1);
      }
    }

    /** cellFsLseek with CELL_FS_SEEK_SET: move the cursor to `to`.  A
        negative offset is refused; an offset past the end is allowed. */
    method Seek(to: int) returns (ret: int)
      modifies this
      ensures (ret == 0) == (!Fails(old(State())) && to >= 0)
      ensures ret != 0 ==> State() == old(State()) && log == old(log) + [SeekFault(to)]
      ensures ret == 0 ==> State() == Spend(old(State())).(cursor := to) && log == old(log) + [Op.Seek(to)]
    {
      if !open || failAfter == Some(0) || to < 0 {
        ret := FS_ERROR;
        log := log + [SeekFault(to)];
        return;
      }
      ret := 0;
      cursor := to;
      log := log + [Op.Seek(to)];
      if failAfter.Some? {
        failAfter := Some(failAfter.value - 1);
      }
    }

    /** cellFsLseek with CELL_FS_SEEK_END and offset 0: move the cursor to
        the end of the file and report that position. */
    method SeekEnd() returns (ret: int, pos: nat)
      modifies this
      ensures (ret == 0) == !Fails(old(State()))
      ensures ret != 0 ==> State() == old(State()) && log == old(log) + [SeekFault(|data|)]
      ensures ret == 0 ==> pos == |data| && State() == Spend(old(State())).(cursor := |data|)
                           && log == old(log) + [Op.Seek(|data|)]
    {
      pos := 0;
      if !open || failAfter == Some(0) {
        ret := FS_ERROR;
        log := log + [SeekFault(|data|)];
        return;
      }
      ret, pos := 0, |data|;
      cursor := |data|;
      log := log + [Op.Seek(|data|)];
      if failAfter.Some? {
        failAfter := Some(failAfter.value - 1);
      }
    }

    /** cellFsClose: always succeeds, and leaves the fault plan as it was. */
    method Close()
      modifies this
      ensures State() == old(State()).(open := false) && log == old(log) + [Op.Close]
    {
      open := false;
      log := log + [Op.Close];
    }
  }
}
