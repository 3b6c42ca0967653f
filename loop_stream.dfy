/** The byte streams a looping load produces.  A file of `size` bytes is
    played from a cursor `c` to the loop end `E = size - T` (the last `T`
    bytes are the trimmed tail), then from the loop start `S` to `E` again and
    again.  `Looped` is that stream as the documentation of the two offsets describes
    it; `AsWritten` is what the loader's loop actually delivers, which tests
    whether a read fits against the physical end of file instead of `E`. */
module LoopStream {
  import opened CellFs

  /** The loader's loop ends without its trim underflowing: nothing is
      asked, or the first read fits before end of file, or the short read
      returns at least the trimmed tail (the cursor is not inside it, or
      there is none) and every later pass from the loop start makes progress
      (`S < E`).  ProgressIsNeeded shows that, on a device whose calls succeed,
      every other input underflows or loops forever. */
  predicate LoopProgresses(size: nat, c: nat, n: nat, S: nat, T: nat): (ok: bool)
    ensures ok && n > 0 && c + n > size ==> size - Min(c, size) >= T && S < size - T
  {
    n == 0 || c + n <= size || ((c + T <= size || T == 0) && S + T < size)
  }

  /** The first `n` bytes the loader's loop delivers from cursor `c`: a read
      that fits before end of file ends the load; one that does not keeps
      the bytes it read up to `E` and continues from `S`.  From a cursor
      before `E` the stream starts with the byte at the cursor. */
  function AsWritten(data: seq<byte>, c: nat, n: nat, S: nat, T: nat): (r: seq<byte>)
    requires LoopProgresses(|data|, c, n, S, T)
    ensures |r| == n
    ensures n > 0 && c < |data| - T ==> r[0] == data[c]
    decreases n, if c == S then 0 else 1
  {
    if n == 0 then []
    else if c + n <= |data| then data[c..c + n]
    else
      var E := |data| - T;
      var h := Min(c, E);
      data[h..E] + AsWritten(data, S, n - (E - h), S, T)
  }

  /** The cursor after the loader's loop has delivered `AsWritten(data, c, n, S, T)`:
      within the file whenever something was asked, and past `S` after a
      wrap. */
  function AsWrittenEnd(data: seq<byte>, c: nat, n: nat, S: nat, T: nat): (e: nat)
    requires LoopProgresses(|data|, c, n, S, T)
    ensures n > 0 ==> e <= |data|
    ensures n > 0 && c + n > |data| ==> S < e
    decreases n, if c == S then 0 else 1
  {
    if n == 0 || c + n <= |data| then c + n
    else
      var E := |data| - T;
      AsWrittenEnd(data, S, n - (E - Min(c, E)), S, T)
  }

  /** Without the progress condition the loop cannot end well on a device
      whose calls succeed (a failed call ends it with -1 first): the first
      short read returns fewer bytes than the trimmed tail, so the count
      underflows; or reads from the loop start never fit and return at most
      the trimmed tail, so that each of them either keeps nothing and the
      loop goes round for ever, or returns less and the count underflows. */
  lemma ProgressIsNeeded(size: nat, c: nat, n: nat, S: nat, T: nat)
    requires !LoopProgresses(size, c, n, S, T)
    ensures n > 0 && c + n > size
    ensures || size - Min(c, size) < T
            || (&& size - Min(S, size) <= T
                && S + (n - (size - Min(c, size) - T)) > size)
  {
  }

  /** Offset `x` folded into a period of length `L` by stepping back whole
      periods. */
  function Wrap(x: nat, L: nat): (r: nat)
    requires L > 0
    ensures r < L
    decreases x
  {
    if x < L then x else Wrap(x - L, L)
  }

  /** Where byte `i` of the looped stream from cursor `c` comes from:
      `data[c..E)` first (nothing when `c` is at or past `E`), then
      `data[S..E)` over and over.  It always lies before the loop end `E`, so
      no byte of the trimmed tail is ever played. */
  function StreamIndex(size: nat, c: nat, S: nat, T: nat, i: nat): (k: nat)
    requires S + T < size
    ensures k < size - T
  {
    var E := size - T;
    var h := Min(c, E);
    if i < E - h then h + i else S + Wrap(i - (E - h), E - S)
  }

  /** The first `n` bytes of the looped stream from cursor `c`: byte `i`
      is the file's byte at `StreamIndex`, which is never in the trimmed
      tail. */
  function Looped(data: seq<byte>, c: nat, n: nat, S: nat, T: nat): (r: seq<byte>)
    requires S + T < |data|
    ensures |r| == n
  {
    seq(n, i requires 0 <= i => data[StreamIndex(|data|, c, S, T, i)])
  }

  /** Folding into a period is the remainder of the division by its length. */
  lemma {:induction false} WrapIsMod(x: nat, L: nat)
    requires L > 0
    ensures Wrap(x, L) == x % L
    decreases x
  {
    if x >= L {
      WrapIsMod(x - L, L);
    }
    ModuloStep(x, L);
  }

  /** Stepping back one period does not change a position within the period. */
  lemma ModuloStep(j: nat, L: nat)
    requires L > 0
    ensures (if j < L then j else (j - L) % L) == j % L
  {
    if j < L {
      DivisionIsUnique(j, L, 0, j);
    } else {
      var k := j - L;
      var q, r := k / L, k % L;
      assert k == q * L + r;
      assert j == (q + 1) * L + r;
      DivisionIsUnique(j, L, q + 1, r);
    }
  }

  /** A quotient and remainder that rebuild `x` are the ones `/` and `%` give. */
  lemma DivisionIsUnique(x: int, L: int, q: int, r: int)
    requires L > 0 && 0 <= r < L && x == q * L + r
    ensures x % L == r
  {
    var q', r' := x / L, x % L;
    assert x == q' * L + r';
    if q > q' {
      assert (q - q') * L == q * L - q' * L;
      MultipleAtLeast(q - q', L);
    } else if q < q' {
      assert (q' - q) * L == q' * L - q * L;
      MultipleAtLeast(q' - q, L);
    }
  }

  /** A positive multiple of `L` is at least `L`. */
  lemma {:induction false} MultipleAtLeast(d: int, L: int)
    requires d >= 1 && L > 0
    ensures d * L >= L
    decreases d
  {
    if d > 1 {
      MultipleAtLeast(d - 1, L);
      assert d * L == (d - 1) * L + L;
    }
  }

  /** Past the first pass, byte `i` of the looped stream is the remainder of
      its distance from the first pass by the loop length `E - S`. */
  lemma StreamIndexIsMod(size: nat, c: nat, S: nat, T: nat, i: nat)
    requires S + T < size && i >= size - T - Min(c, size - T)
    ensures StreamIndex(size, c, S, T, i) == S + (i - (size - T - Min(c, size - T))) % (size - T - S)
  {
    WrapIsMod(i - (size - T - Min(c, size - T)), size - T - S);
  }

  /** From the loop start, the looped stream is the loop folded into one
      period. */
  lemma StreamIndexFromStart(size: nat, S: nat, T: nat, j: nat)
    requires S + T < size
    ensures StreamIndex(size, S, S, T, j) == S + Wrap(j, size - T - S)
  {
  }

  /** A request that fits before the loop end is played straight from the
      cursor. */
  lemma LoopedFitsFirstPass(data: seq<byte>, c: nat, n: nat, S: nat, T: nat)
    requires S + T < |data| && c + n <= |data| - T
    ensures Looped(data, c, n, S, T) == data[c..c + n]
  {
    var r := Looped(data, c, n, S, T);
    forall i | 0 <= i < n
      ensures r[i] == data[c..c + n][i]
    {
      assert r[i] == data[StreamIndex(|data|, c, S, T, i)];
    }
  }

  /** A request that runs past the loop end plays the rest of the first
      pass, then the looped stream from `S`. */
  lemma LoopedWraps(data: seq<byte>, c: nat, n: nat, S: nat, T: nat)
    requires S + T < |data| && c + n > |data| - T
    ensures Looped(data, c, n, S, T)
            == data[Min(c, |data| - T)..|data| - T] + Looped(data, S, n - (|data| - T - Min(c, |data| - T)), S, T)
  {
    var first := |data| - T - Min(c, |data| - T);
    var r := Looped(data, c, n, S, T);
    var rest := Looped(data, S, n - first, S, T);
    var w := data[Min(c, |data| - T)..|data| - T] + rest;
    forall i | 0 <= i < n
      ensures r[i] == w[i]
    {
      assert r[i] == data[StreamIndex(|data|, c, S, T, i)];
      if i >= first {
        StreamIndexFromStart(|data|, S, T, i - first);
        assert w[i] == rest[i - first] == data[StreamIndex(|data|, S, S, T, i - first)];
      }
    }
  }

  /** One read of the looped stream: the bytes up to the loop end or the
      request, whichever comes first, then the rest of the stream from there. */
  lemma LoopedStep(data: seq<byte>, c: nat, n: nat, S: nat, T: nat)
    requires S + T < |data| && c < |data| - T
    ensures var k := Min(n, |data| - T - c);
            Looped(data, c, n, S, T) == data[c..c + k] + Looped(data, c + k, n - k, S, T)
  {
    var k := Min(n, |data| - T - c);
    var r := Looped(data, c, n, S, T);
    var rest := Looped(data, c + k, n - k, S, T);
    var w := data[c..c + k] + rest;
    forall i | 0 <= i < n
      ensures r[i] == w[i]
    {
      assert r[i] == data[StreamIndex(|data|, c, S, T, i)];
      if i >= k {
        assert w[i] == rest[i - k] == data[StreamIndex(|data|, c + k, S, T, i - k)];
      }
    }
  }

  /** At or past the loop end, the looped stream starts over from `S`. */
  lemma LoopedFromLoopEnd(data: seq<byte>, c: nat, n: nat, S: nat, T: nat)
    requires S + T < |data| && c >= |data| - T
    ensures Looped(data, c, n, S, T) == Looped(data, S, n, S, T)
  {
    var r, w := Looped(data, c, n, S, T), Looped(data, S, n, S, T);
    forall i | 0 <= i < n
      ensures r[i] == w[i]
    {
      StreamIndexFromStart(|data|, S, T, i);
      assert r[i] == data[StreamIndex(|data|, c, S, T, i)];
      assert w[i] == data[StreamIndex(|data|, S, S, T, i)];
    }
  }

  /** The cursor `c1` is where the looped stream from cursor `c` goes on
      after `k` bytes: at the file position of byte `k`, or at or past the
      loop end when that byte is the loop start (the next pass moves back
      there first).  ContinuesShifts shows that the stream from `c1` is then
      the stream from `c` without its first `k` bytes. */
  predicate Continues(size: nat, c: nat, k: nat, c1: nat, S: nat, T: nat)
    requires S + T < size
  {
    var p := StreamIndex(size, c, S, T, k);
    c1 == p || (p == S && c1 >= size - T)
  }

  /** Folding `x + j` into a period is folding the folded `x`, plus `j`. */
  lemma {:induction false} WrapAdd(x: nat, j: nat, L: nat)
    requires L > 0
    ensures Wrap(x + j, L) == Wrap(Wrap(x, L) + j, L)
    decreases x
  {
    if x >= L {
      WrapAdd(x - L, j, L);
      assert Wrap(x + j, L) == Wrap(x - L + j, L);
    }
  }

  /** From a cursor that goes on after `k` bytes, byte `j` of the looped
      stream is byte `k + j` of the stream from `c`. */
  lemma ContinuesShifts(size: nat, c: nat, k: nat, c1: nat, S: nat, T: nat, j: nat)
    requires S + T < size && Continues(size, c, k, c1, S, T)
    ensures StreamIndex(size, c1, S, T, j) == StreamIndex(size, c, S, T, k + j)
  {
    if k >= size - T - Min(c, size - T) {
      ShiftPastFirstPass(size, c, k, c1, S, T, j);
    } else {
      ShiftWithinFirstPass(size, c, k, c1, S, T, j);
    }
  }

  /** ContinuesShifts when byte `k` lies past the first pass: the cursor is
      at its place in the loop, or at the loop end when that is `S`. */
  lemma ShiftPastFirstPass(size: nat, c: nat, k: nat, c1: nat, S: nat, T: nat, j: nat)
    requires S + T < size && Continues(size, c, k, c1, S, T)
    requires k >= size - T - Min(c, size - T)
    ensures StreamIndex(size, c1, S, T, j) == StreamIndex(size, c, S, T, k + j)
  {
    var E := size - T;
    var L := E - S;
    var x := k - (E - Min(c, E));
    var w := Wrap(x, L);
    WrapAdd(x, j, L);
    assert StreamIndex(size, c, S, T, k + j) == S + Wrap(w + j, L);
    if c1 < E && w + j >= L {
      assert Wrap(w + j, L) == Wrap(w + j - L, L);
    }
  }

  /** ContinuesShifts when byte `k` lies in the first pass: the cursor is
      `k` bytes further on, or at the loop end when that byte is `S`. */
  lemma ShiftWithinFirstPass(size: nat, c: nat, k: nat, c1: nat, S: nat, T: nat, j: nat)
    requires S + T < size && Continues(size, c, k, c1, S, T)
    requires k < size - T - Min(c, size - T)
    ensures StreamIndex(size, c1, S, T, j) == StreamIndex(size, c, S, T, k + j)
  {
    var L := size - T - S;
    if c1 >= size - T && j >= L {
      assert Wrap(j, L) == Wrap(j - L, L);
    }
  }

  /** Reading `j` bytes from `c` without passing the loop end leaves the
      cursor where the looped stream goes on. */
  lemma ContinuesAfterRead(size: nat, c: nat, j: nat, S: nat, T: nat)
    requires S + T < size && c + j <= size - T
    ensures Continues(size, c, j, c + j, S, T)
  {
  }

  /** A cursor at or past the loop end goes on at the loop start. */
  lemma ContinuesAfterRewind(size: nat, c: nat, S: nat, T: nat)
    requires S + T < size && c >= size - T
    ensures Continues(size, c, 0, S, S, T)
  {
  }

  /** Going on after `k` bytes and then after `j` more is going on after
      `k + j`. */
  lemma ContinuesChain(size: nat, c0: nat, k: nat, c1: nat, j: nat, c2: nat, S: nat, T: nat)
    requires S + T < size
    requires Continues(size, c0, k, c1, S, T) && Continues(size, c1, j, c2, S, T)
    ensures Continues(size, c0, k + j, c2, S, T)
  {
    ContinuesShifts(size, c0, k, c1, S, T, j);
  }

  /** Two loads in a row: `k` bytes from `c`, then `m` bytes from the cursor
      `c1` that goes on after them, are the first `k + m` bytes from `c`. */
  lemma LoopedContinues(data: seq<byte>, c: nat, k: nat, c1: nat, m: nat, S: nat, T: nat)
    requires S + T < |data| && Continues(|data|, c, k, c1, S, T)
    ensures Looped(data, c, k + m, S, T) == Looped(data, c, k, S, T) + Looped(data, c1, m, S, T)
  {
    var whole, first, next := Looped(data, c, k + m, S, T), Looped(data, c, k, S, T), Looped(data, c1, m, S, T);
    forall i | 0 <= i < k + m
      ensures whole[i] == (first + next)[i]
    {
      if i >= k {
        ContinuesShifts(|data|, c, k, c1, S, T, i - k);
      }
    }
  }

  /** What the loader delivers and the looped stream agree everywhere but in
      the last `T` positions: only the final read can run past `E`, and by
      at most `T` bytes. */
  lemma AsWrittenAgreesBeforeTail(data: seq<byte>, c: nat, n: nat, S: nat, T: nat)
    requires (c + T <= |data| || T == 0) && S + T < |data|
    ensures forall i | 0 <= i < n - T :: AsWritten(data, c, n, S, T)[i] == Looped(data, c, n, S, T)[i]
  {
    StreamsAgreeBeforeTail(data, c, n, S, T, AsWritten(data, c, n, S, T), Looped(data, c, n, S, T));
  }

  /** AsWrittenAgreesBeforeTail for the two streams `written` and `looped`,
      by induction on the passes of the loader. */
  lemma {:induction false} StreamsAgreeBeforeTail(data: seq<byte>, c: nat, n: nat, S: nat, T: nat,
                                                  written: seq<byte>, looped: seq<byte>)
    requires (c + T <= |data| || T == 0) && S + T < |data|
    requires written == AsWritten(data, c, n, S, T) && looped == Looped(data, c, n, S, T)
    ensures forall i | 0 <= i < n - T :: written[i] == looped[i]
    decreases n, if c == S then 0 else 1
  {
    var E := |data| - T;
    if c + n <= |data| {
      AsWrittenAgreesWithinFile(data, c, n, S, T);
    } else if n > 0 {
      var m := n - (E - Min(c, E));
      var written', looped' := AsWritten(data, S, m, S, T), Looped(data, S, m, S, T);
      StreamsAgreeBeforeTail(data, S, m, S, T, written', looped');
      WrapKeepsAgreement(data, c, n, S, T, written, looped, written', looped');
    }
  }

  /** One wrap of the loader: when the streams from `S` agree but for their
      last `T` bytes, so do the streams from `c`, which put the same bytes up
      to `E` before them. */
  lemma WrapKeepsAgreement(data: seq<byte>, c: nat, n: nat, S: nat, T: nat,
                           written: seq<byte>, looped: seq<byte>, written': seq<byte>, looped': seq<byte>)
    requires (c + T <= |data| || T == 0) && S + T < |data| && n > 0 && c + n > |data|
    requires written == AsWritten(data, c, n, S, T) && looped == Looped(data, c, n, S, T)
    requires var m := n - (|data| - T - Min(c, |data| - T));
             written' == AsWritten(data, S, m, S, T) && looped' == Looped(data, S, m, S, T)
    requires forall i | 0 <= i < |written'| - T :: written'[i] == looped'[i]
    ensures forall i | 0 <= i < n - T :: written[i] == looped[i]
  {
    var E := |data| - T;
    AsWrittenWraps(data, c, n, S, T);
    LoopedWraps(data, c, n, S, T);
    SharedPrefixKeepsAgreement(data[Min(c, E)..E], written', looped', T);
  }

  /** A request that fits before end of file: the loader and the looped
      stream agree but for the bytes read past the loop end, which are at
      most the last `T`. */
  lemma AsWrittenAgreesWithinFile(data: seq<byte>, c: nat, n: nat, S: nat, T: nat)
    requires c + n <= |data| && S + T < |data|
    ensures forall i | 0 <= i < n - T :: AsWritten(data, c, n, S, T)[i] == Looped(data, c, n, S, T)[i]
  {
    var E := |data| - T;
    if c + n <= E {
      LoopedFitsFirstPass(data, c, n, S, T);
    } else if n > 0 {
      var written, looped := AsWritten(data, c, n, S, T), Looped(data, c, n, S, T);
      forall i | 0 <= i < n - T
        ensures written[i] == looped[i]
      {
        assert written[i] == data[c + i];
      }
    }
  }

  /** Two sequences that agree but for their last `T` elements still do
      after the same prefix is put before both. */
  lemma SharedPrefixKeepsAgreement(prefix: seq<byte>, a: seq<byte>, b: seq<byte>, T: nat)
    requires |a| == |b| && forall i | 0 <= i < |a| - T :: a[i] == b[i]
    ensures forall i | 0 <= i < |prefix| + |a| - T :: (prefix + a)[i] == (prefix + b)[i]
  {
    forall i | 0 <= i < |prefix| + |a| - T
      ensures (prefix + a)[i] == (prefix + b)[i]
    {
      if i >= |prefix| {
        assert (prefix + a)[i] == a[i - |prefix|];
      }
    }
  }

  /** With no trimmed tail the loader delivers exactly the looped stream. */
  lemma UntrimmedLoadIsLooped(data: seq<byte>, c: nat, n: nat, S: nat)
    requires S < |data|
    ensures AsWritten(data, c, n, S, 0) == Looped(data, c, n, S, 0)
  {
    AsWrittenAgreesBeforeTail(data, c, n, S, 0);
  }

  /** A request that runs past end of file: the loader keeps the bytes up to
      `E` from the cursor and goes on from `S` with the rest. */
  lemma AsWrittenWraps(data: seq<byte>, c: nat, n: nat, S: nat, T: nat)
    requires LoopProgresses(|data|, c, n, S, T)
    requires n > 0 && c + n > |data|
    ensures var E := |data| - T;
            var m := n - (E - Min(c, E));
            && LoopProgresses(|data|, S, m, S, T)
            && AsWritten(data, c, n, S, T) == data[Min(c, E)..E] + AsWritten(data, S, m, S, T)
            && AsWrittenEnd(data, c, n, S, T) == AsWrittenEnd(data, S, m, S, T)
  {
    var E := |data| - T;
    assert S + T < |data| && (c + T <= |data| || T == 0);
    assert n - (E - Min(c, E)) >= 0;
  }

  /** After a wrap, the loader's stream `w` ends with the bytes from `S` up
      to its final cursor `e`, and that cursor lies past `S` and within the
      file. */
  lemma {:induction false} WrapEndsAtCursor(data: seq<byte>, c: nat, n: nat, S: nat, T: nat, w: seq<byte>, e: nat)
    requires LoopProgresses(|data|, c, n, S, T)
    requires n > 0 && c + n > |data|
    requires w == AsWritten(data, c, n, S, T) && e == AsWrittenEnd(data, c, n, S, T)
    ensures S < e <= |data| && e - S <= n && w[n - (e - S)..] == data[S..e]
    decreases n, if c == S then 0 else 1
  {
    var E := |data| - T;
    var h := Min(c, E);
    var m := n - (E - h);
    var tail := AsWritten(data, S, m, S, T);
    AsWrittenWraps(data, c, n, S, T);
    if S + m > |data| {
      WrapEndsAtCursor(data, S, m, S, T, tail, e);
    }
    DropPrefix(data[h..E], tail, m - (e - S));
  }

  /** Dropping a whole first part and `k` more bytes of a concatenation
      leaves the second part without its first `k` bytes. */
  lemma DropPrefix(a: seq<byte>, b: seq<byte>, k: nat)
    requires k <= |b|
    ensures (a + b)[|a| + k..] == b[k..]
  {
  }
}
