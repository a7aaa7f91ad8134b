/** Scatter/gather copy between vectors of memory buffers. */
module Buffer {
  import opened Words

  /** All bytes of a vector, one buffer after the other. */
  function Flat(c: seq<seq<Byte>>): seq<Byte> {
    if c == [] then [] else c[0] + Flat(c[1..])
  }

  /** Where buffer i starts. */
  function Start(c: seq<seq<Byte>>, i: nat): nat
    requires i <= |c|
  {
    if i == 0 then 0 else |c[0]| + Start(c[1..], i - 1)
  }

  lemma {:induction false} StartNext(c: seq<seq<Byte>>, i: nat)
    requires i < |c|
    ensures Start(c, i + 1) == Start(c, i) + |c[i]| <= |Flat(c)|
  {
    if i > 0 {
      StartNext(c[1..], i - 1);
    }
  }

  lemma {:induction false} StartEnd(c: seq<seq<Byte>>)
    ensures Start(c, |c|) == |Flat(c)|
  {
    if c != [] {
      StartEnd(c[1..]);
    }
  }

  lemma {:induction false} StartMono(c: seq<seq<Byte>>, i: nat, j: nat)
    requires i <= j <= |c|
    ensures Start(c, i) <= Start(c, j)
    decreases j
  {
    if i < j {
      StartMono(c, i, j - 1);
      StartNext(c, j - 1);
    }
  }

  /** Buffer i in the flat view. */
  lemma {:induction false} FlatAt(c: seq<seq<Byte>>, i: nat)
    requires i < |c|
    ensures Start(c, i) + |c[i]| <= |Flat(c)| && Flat(c)[Start(c, i)..Start(c, i) + |c[i]|] == c[i]
  {
    StartNext(c, i);
    if i > 0 {
      FlatAt(c[1..], i - 1);
      var a, r := Start(c[1..], i - 1), Flat(c[1..]);
      assert Flat(c)[|c[0]| + a..|c[0]| + a + |c[i]|] == r[a..a + |c[i]|];
    }
  }

  /** f with g in place of what was at offset p. */
  function Over(f: seq<Byte>, p: nat, g: seq<Byte>): (r: seq<Byte>)
    requires p + |g| <= |f|
    ensures |r| == |f|
  {
    f[..p] + g + f[p + |g|..]
  }

  /** A change of buffer i in the flat view. */
  lemma {:induction false} FlatUpdate(c: seq<seq<Byte>>, i: nat, x: seq<Byte>)
    requires i < |c| && |x| == |c[i]|
    ensures Start(c, i) + |x| <= |Flat(c)| && Flat(c[i := x]) == Over(Flat(c), Start(c, i), x)
  {
    StartNext(c, i);
    if i == 0 {
      assert c[i := x][1..] == c[1..];
    } else {
      FlatUpdate(c[1..], i - 1, x);
      assert c[i := x][1..] == c[1..][i - 1 := x];
      OverPrefix(c[0], Flat(c[1..]), Start(c[1..], i - 1), x);
      hide Over;
    }
  }

  lemma OverPrefix(p: seq<Byte>, f: seq<Byte>, a: nat, x: seq<Byte>)
    requires a + |x| <= |f|
    ensures p + Over(f, a, x) == Over(p + f, |p| + a, x)
  {
    var l, r := p + Over(f, a, x), Over(p + f, |p| + a, x);
    forall k {:trigger l[k]} | 0 <= k < |l|
      ensures l[k] == r[k]
    {
    }
  }

  lemma {:induction false} StartUpdate(c: seq<seq<Byte>>, i: nat, x: seq<Byte>, j: nat)
    requires i < |c| && |x| == |c[i]| && j <= |c|
    ensures Start(c[i := x], j) == Start(c, j)
    decreases j
  {
    if j > 0 {
      StartUpdate(c, i, x, j - 1);
      StartNext(c, j - 1);
      StartNext(c[i := x], j - 1);
    }
  }

  lemma SliceSlice(f: seq<Byte>, a: nat, b: nat, o: nat, n: nat)
    requires a <= b <= |f| && o + n <= b - a
    ensures f[a..b][o..o + n] == f[a + o..a + o + n]
  {
    var l, r := f[a..b][o..o + n], f[a + o..a + o + n];
    assert |l| == |r|;
    forall k {:trigger l[k]} | 0 <= k < n
      ensures l[k] == r[k]
    {
      assert l[k] == f[a..b][o + k] == f[a + o + k];
    }
  }

  /** A slice of a buffer in the flat view. */
  lemma FlatSlice(c: seq<seq<Byte>>, i: nat, o: nat, n: nat)
    requires i < |c| && o + n <= |c[i]|
    ensures Start(c, i) + o + n <= |Flat(c)| && Flat(c)[Start(c, i) + o..Start(c, i) + o + n] == c[i][o..o + n]
  {
    FlatAt(c, i);
    hide Flat, Start;
    SliceSlice(Flat(c), Start(c, i), Start(c, i) + |c[i]|, o, n);
  }

  lemma OverInside(f: seq<Byte>, a: nat, x: seq<Byte>, o: nat, g: seq<Byte>)
    requires a + |x| <= |f| && f[a..a + |x|] == x && o + |g| <= |x|
    ensures Over(f, a, Over(x, o, g)) == Over(f, a + o, g)
  {
    var l, r := Over(f, a, Over(x, o, g)), Over(f, a + o, g);
    forall k {:trigger l[k]} | 0 <= k < |f|
      ensures l[k] == r[k]
    {
      assert a <= k < a + |x| ==> f[k] == x[k - a];
    }
  }

  lemma FlatPut(c: seq<seq<Byte>>, i: nat, o: nat, g: seq<Byte>)
    requires i < |c| && o + |g| <= |c[i]|
    ensures Start(c, i) + o + |g| <= |Flat(c)| && Flat(c[i := Over(c[i], o, g)]) == Over(Flat(c), Start(c, i) + o, g)
  {
    FlatUpdate(c, i, Over(c[i], o, g));
    FlatAt(c, i);
    hide Flat, Start;
    OverInside(Flat(c), Start(c, i), c[i], o, g);
  }

  /** Writing two pieces one after the other. */
  lemma OverOver(f: seq<Byte>, p: nat, g: seq<Byte>, h: seq<Byte>)
    requires p + |g| + |h| <= |f|
    ensures Over(Over(f, p, g), p + |g|, h) == Over(f, p, g + h)
  {
    var l, r := Over(Over(f, p, g), p + |g|, h), Over(f, p, g + h);
    forall k {:trigger l[k]} | 0 <= k < |f|
      ensures l[k] == r[k]
    {
    }
  }

  /** The offset that a cursor stands for. */
  function Pos(c: seq<seq<Byte>>, idx: nat, off: nat): nat
    requires idx <= |c|
  {
    Start(c, idx) + if idx < |c| then off else 0
  }

  predicate CursorOk(c: seq<seq<Byte>>, idx: nat, off: nat) {
    idx <= |c| && (idx < |c| ==> off <= |c[idx]|)
  }

  function Bytes(b: array<Byte>): seq<Byte>
    reads b
  {
    b[..]
  }

  ghost function Contents(bufs: seq<array<Byte>>): (c: seq<seq<Byte>>)
    reads bufs
    ensures |c| == |bufs| && forall i {:trigger c[i]} | 0 <= i < |bufs| :: c[i] == bufs[i][..]
  {
    seq(|bufs|, i requires 0 <= i < |bufs| reads bufs => Bytes(bufs[i]))
  }

  class BufVec {
    const bufs: seq<array<Byte>>
    var idx: nat
    var off: nat

    ghost function All(): seq<seq<Byte>>
      reads bufs
    {
      Contents(bufs)
    }

    ghost predicate Valid()
      reads this, bufs
    {
      CursorOk(All(), idx, off)
    }

    constructor (b: seq<array<Byte>>)
      ensures bufs == b && idx == 0 && off == 0 && Valid()
    {
      bufs, idx, off := b, 0, 0;
    }

    /** fuse_bufvec_advance */
    method Advance(len: nat) returns (more: bool)
      requires Valid() && idx < |bufs| && off + len <= bufs[idx].Length
      modifies this
      ensures Valid()
      ensures if old(off) + len < bufs[old(idx)].Length then more && idx == old(idx) && off == old(off) + len
        else idx == old(idx) + 1 && more == (idx < |bufs|) && (more ==> off == 0)
      ensures Pos(All(), idx, off) == Pos(All(), old(idx), old(off)) + len
    {
      ghost var c := All();
      StartNext(c, idx);
      more := true;
      off := off + len;
      if off == bufs[idx].Length {
        idx := idx + 1;
        if idx == |bufs| {
          return false;
        }
        off := 0;
      }
    }
  }

  ghost function LeftOf(c: seq<seq<Byte>>, idx: nat, off: nat): (n: nat)
    requires CursorOk(c, idx, off)
    ensures n == |Flat(c)| - Pos(c, idx, off)
  {
    StartEnd(c);
    StartMono(c, idx, |c|);
    if idx < |c| then
      StartNext(c, idx);
      |Flat(c)| - Pos(c, idx, off)
    else 0
  }

  /** fuse_buf_copy_one for two memory buffers. */
  method CopyOne(dst: array<Byte>, doff: nat, src: array<Byte>, soff: nat, len: nat)
    requires dst != src && doff + len <= dst.Length && soff + len <= src.Length
    modifies dst
    ensures dst[..] == Over(old(dst[..]), doff, src[soff..soff + len])
  {
    forall i | 0 <= i < len {
      dst[doff + i] := src[soff + i];
    }
    assert dst[..] == Over(old(dst[..]), doff, src[soff..soff + len]);
  }

  /** A copy under way: copied bytes from offset q of the source are at offset p of the destination. */
  ghost predicate Mid(cs: seq<seq<Byte>>, cd0: seq<seq<Byte>>, cd: seq<seq<Byte>>, q: nat, p: nat, copied: nat) {
    && |cd| == |cd0| && (forall i {:trigger cd[i]} | 0 <= i < |cd| :: |cd[i]| == |cd0[i]|)
    && q + copied <= |Flat(cs)| && p + copied <= |Flat(cd0)|
    && Flat(cd) == Over(Flat(cd0), p, Flat(cs)[q..q + copied])
  }

  lemma {:induction false} SameStarts(c: seq<seq<Byte>>, c': seq<seq<Byte>>, j: nat)
    requires |c'| == |c| && j <= |c| && forall i {:trigger c'[i]} | 0 <= i < |c| :: |c'[i]| == |c[i]|
    ensures Start(c', j) == Start(c, j)
    decreases j
  {
    if j > 0 {
      SameStarts(c, c', j - 1);
      StartNext(c, j - 1);
      StartNext(c', j - 1);
    }
  }

  lemma SameLength(c: seq<seq<Byte>>, c': seq<seq<Byte>>)
    requires |c'| == |c| && forall i {:trigger c'[i]} | 0 <= i < |c| :: |c'[i]| == |c[i]|
    ensures |Flat(c')| == |Flat(c)|
  {
    SameStarts(c, c', |c|);
    StartEnd(c);
    StartEnd(c');
  }

  lemma SplitSlice(f: seq<Byte>, q: nat, n: nat, m: nat)
    requires q + n + m <= |f|
    ensures f[q..q + n] + f[q + n..q + n + m] == f[q..q + n + m]
  {
  }

  /** One chunk more. */
  lemma Chunk(cs: seq<seq<Byte>>, cd0: seq<seq<Byte>>, cd: seq<seq<Byte>>, q: nat, p: nat, copied: nat,
              sidx: nat, soff: nat, didx: nat, doff: nat, len: nat)
    requires Mid(cs, cd0, cd, q, p, copied) && sidx < |cs| && didx < |cd|
    requires soff + len <= |cs[sidx]| && doff + len <= |cd[didx]|
    requires Pos(cs, sidx, soff) == q + copied && Pos(cd, didx, doff) == p + copied
    ensures Mid(cs, cd0, cd[didx := Over(cd[didx], doff, cs[sidx][soff..soff + len])], q, p, copied + len)
  {
    hide Flat, Start, Over;
    var g := cs[sidx][soff..soff + len];
    FlatSlice(cs, sidx, soff, len);
    FlatPut(cd, didx, doff, g);
    SplitSlice(Flat(cs), q, copied, len);
    OverOver(Flat(cd0), p, Flat(cs)[q..q + copied], g);
  }

  /** What the last buffer of a vector still has. */
  function LastLen(c: seq<seq<Byte>>, idx: nat, off: nat): nat
    requires idx < |c| && off <= |c[idx]|
  {
    if idx == |c| - 1 then |c[idx]| - off else |c[|c| - 1]|
  }

  /** The source's cursor between chunks: behind where it started, never at the end of a buffer it moved in. */
  predicate Moved(cs: seq<seq<Byte>>, idx0: nat, off0: nat, idx: nat, off: nat) {
    && idx0 <= idx < |cs| && off <= |cs[idx]| && (idx == idx0 ==> off0 <= off)
    && ((idx == idx0 && off == off0) || off == 0 || off < |cs[idx]|)
  }

  /** Nothing is left although the source's cursor is inside the vector: its last buffers are empty. */
  lemma {:induction false} EmptyTail(c: seq<seq<Byte>>, idx: nat, off: nat)
    requires idx < |c| && off <= |c[idx]| && LeftOf(c, idx, off) == 0
    ensures off == |c[idx]| && (idx < |c| - 1 ==> |c[|c| - 1]| == 0)
  {
    StartEnd(c);
    StartNext(c, idx);
    StartMono(c, idx + 1, |c|);
    if idx < |c| - 1 {
      StartNext(c, |c| - 1);
      StartMono(c, idx + 1, |c| - 1);
    }
  }

  predicate DistinctBufs(d: seq<array<Byte>>, s: seq<array<Byte>>) {
    && (forall i, j {:trigger d[i], d[j]} | 0 <= i < j < |d| :: d[i] != d[j])
    && (forall i, j {:trigger d[i], s[j]} | 0 <= i < |d| && 0 <= j < |s| :: d[i] != s[j])
  }

  lemma StartCopy(cs: seq<seq<Byte>>, cd: seq<seq<Byte>>, q: nat, p: nat, sidx: nat, soff: nat, didx: nat, doff: nat)
    requires CursorOk(cs, sidx, soff) && CursorOk(cd, didx, doff) && q == Pos(cs, sidx, soff) && p == Pos(cd, didx, doff)
    ensures Mid(cs, cd, cd, q, p, 0)
  {
    var n, m := LeftOf(cs, sidx, soff), LeftOf(cd, didx, doff);
  }

  /** The store into buffer i is seen in that buffer only. */
  lemma SameElsewhere(d: seq<array<Byte>>, s: seq<array<Byte>>, i: nat, cd: seq<seq<Byte>>, cs: seq<seq<Byte>>, x: seq<Byte>)
    requires DistinctBufs(d, s) && i < |d| && |cd| == |d| && |cs| == |s| && d[i][..] == x
    requires forall j {:trigger d[j]} | 0 <= j < |d| && j != i :: d[j][..] == cd[j]
    requires forall j {:trigger s[j]} | 0 <= j < |s| :: s[j][..] == cs[j]
    ensures Contents(d) == cd[i := x] && Contents(s) == cs
  {
  }

  method BufSize(v: BufVec) returns (n: nat)
    ensures n == |Flat(v.All())|
  {
    n := 0;
    ghost var c := v.All();
    for i := 0 to |v.bufs|
      invariant n == Start(c, i)
    {
      StartNext(c, i);
      n := n + v.bufs[i].Length;
    }
    StartEnd(c);
  }

  /** One chunk of fuse_buf_copy: as much as both current buffers allow. */
  method CopyChunk(dstv: BufVec, srcv: BufVec) returns (len: nat)
    requires dstv.Valid() && srcv.Valid() && DistinctBufs(dstv.bufs, srcv.bufs) && srcv.idx < |srcv.bufs| && dstv.idx < |dstv.bufs|
    modifies dstv.bufs
    ensures srcv.All() == old(srcv.All())
    ensures var (n, m) := (srcv.bufs[srcv.idx].Length - srcv.off, dstv.bufs[dstv.idx].Length - dstv.off); len == if n < m then n else m
    ensures dstv.All() == var cd := old(dstv.All()); cd[dstv.idx := Over(cd[dstv.idx], dstv.off, srcv.All()[srcv.idx][srcv.off..srcv.off + len])]
  {
    var src, dst := srcv.bufs[srcv.idx], dstv.bufs[dstv.idx];
    var srcLen, dstLen := src.Length - srcv.off, dst.Length - dstv.off;
    len := if srcLen < dstLen then srcLen else dstLen;
    ghost var cs, cd := srcv.All(), dstv.All();
    CopyOne(dst, dstv.off, src, srcv.off, len);
    SameElsewhere(dstv.bufs, srcv.bufs, dstv.idx, cd, cs, Over(cd[dstv.idx], dstv.off, cs[srcv.idx][srcv.off..srcv.off + len]));
  }

  /** What fuse_buf_copy leaves, from cursors (s0, so0) and (d0, do0) to cursors (s1, so1) and (d1, do1). */
  ghost predicate CopyDone(cs: seq<seq<Byte>>, cd0: seq<seq<Byte>>, cd: seq<seq<Byte>>, s0: nat, so0: nat, d0: nat, do0: nat,
                           s1: nat, so1: nat, d1: nat, do1: nat, copied: nat) {
    && CursorOk(cs, s0, so0) && CursorOk(cd0, d0, do0) && CursorOk(cs, s1, so1) && CursorOk(cd, d1, do1)
    && copied == (if LeftOf(cs, s0, so0) < LeftOf(cd0, d0, do0) then LeftOf(cs, s0, so0) else LeftOf(cd0, d0, do0))
    && Mid(cs, cd0, cd, Pos(cs, s0, so0), Pos(cd0, d0, do0), copied)
    && Pos(cs, s1, so1) == Pos(cs, s0, so0) + copied
    && (Pos(cd, d1, do1) == Pos(cd0, d0, do0) + copied <==> !Lags(cs, cd0, s0, so0, d0, do0))
  }

  /** The last chunk uses the source up: the destination's cursor is not moved past it. */
  ghost predicate Lags(cs: seq<seq<Byte>>, cd: seq<seq<Byte>>, s0: nat, so0: nat, d0: nat, do0: nat)
    requires CursorOk(cs, s0, so0) && CursorOk(cd, d0, do0)
  {
    s0 < |cs| && d0 < |cd| && LeftOf(cs, s0, so0) <= LeftOf(cd, d0, do0) && LastLen(cs, s0, so0) > 0
  }

  /** Between chunks. */
  ghost predicate Going(cs: seq<seq<Byte>>, cd0: seq<seq<Byte>>, cd: seq<seq<Byte>>, s0: nat, so0: nat, d0: nat, do0: nat,
                        s1: nat, so1: nat, d1: nat, do1: nat, copied: nat) {
    && CursorOk(cs, s0, so0) && CursorOk(cd0, d0, do0) && CursorOk(cd, d1, do1)
    && s0 < |cs| && d0 < |cd0| && d1 < |cd| && Moved(cs, s0, so0, s1, so1)
    && Mid(cs, cd0, cd, Pos(cs, s0, so0), Pos(cd0, d0, do0), copied)
    && Pos(cs, s1, so1) == Pos(cs, s0, so0) + copied && Pos(cd, d1, do1) == Pos(cd0, d0, do0) + copied
  }

  lemma NothingToDo(cs: seq<seq<Byte>>, cd: seq<seq<Byte>>, s0: nat, so0: nat, d0: nat, do0: nat)
    requires CursorOk(cs, s0, so0) && CursorOk(cd, d0, do0) && (s0 == |cs| || d0 == |cd|)
    ensures CopyDone(cs, cd, cd, s0, so0, d0, do0, s0, so0, d0, do0, 0)
  {
    StartEnd(cs);
    StartEnd(cd);
    StartCopy(cs, cd, Pos(cs, s0, so0), Pos(cd, d0, do0), s0, so0, d0, do0);
  }

  /** The source is used up: its cursor s1 is past the last buffer, the destination's is where it was before the chunk. */
  lemma SourceUsedUp(cs: seq<seq<Byte>>, cd0: seq<seq<Byte>>, cd: seq<seq<Byte>>, s0: nat, so0: nat, d0: nat, do0: nat,
                     s1: nat, so1: nat, so2: nat, d1: nat, do1: nat, copied: nat, len: nat)
    requires CursorOk(cs, s0, so0) && CursorOk(cd0, d0, do0) && CursorOk(cd, d1, do1) && s0 < |cs| && d0 < |cd0|
    requires Moved(cs, s0, so0, s1, so1) && s1 == |cs| - 1 && so1 + len == |cs[s1]|
    requires Mid(cs, cd0, cd, Pos(cs, s0, so0), Pos(cd0, d0, do0), copied)
    requires Pos(cs, |cs|, so2) == Pos(cs, s0, so0) + copied && Pos(cd, d1, do1) + len == Pos(cd0, d0, do0) + copied
    ensures CopyDone(cs, cd0, cd, s0, so0, d0, do0, |cs|, so2, d1, do1, copied)
  {
    StartEnd(cs);
    assert LeftOf(cs, s0, so0) == copied <= LeftOf(cd0, d0, do0);
  }

  /** The destination is used up. */
  lemma DestinationUsedUp(cs: seq<seq<Byte>>, cd0: seq<seq<Byte>>, cd: seq<seq<Byte>>, s0: nat, so0: nat, d0: nat, do0: nat,
                          s1: nat, so1: nat, do1: nat, copied: nat)
    requires CursorOk(cs, s0, so0) && CursorOk(cd0, d0, do0) && s0 < |cs| && d0 < |cd0|
    requires Moved(cs, s0, so0, s1, so1) && (s1 > s0 || so1 < |cs[s1]|)
    requires Mid(cs, cd0, cd, Pos(cs, s0, so0), Pos(cd0, d0, do0), copied)
    requires Pos(cs, s1, so1) == Pos(cs, s0, so0) + copied && Pos(cd, |cd|, do1) == Pos(cd0, d0, do0) + copied
    ensures CopyDone(cs, cd0, cd, s0, so0, d0, do0, s1, so1, |cd|, do1, copied)
  {
    StartEnd(cd);
    SameLength(cd0, cd);
    assert LeftOf(cd0, d0, do0) == copied <= LeftOf(cs, s0, so0);
    if LeftOf(cs, s0, so0) == copied {
      assert LeftOf(cs, s1, so1) == 0;
      EmptyTail(cs, s1, so1);
    }
  }

  /** fuse_buf_copy between memory buffers. */
  method BufCopy(dstv: BufVec, srcv: BufVec) returns (copied: nat)
    requires dstv.Valid() && srcv.Valid() && (dstv != srcv ==> DistinctBufs(dstv.bufs, srcv.bufs))
    modifies dstv, srcv, dstv.bufs
    ensures dstv.Valid() && srcv.Valid() && srcv.All() == old(srcv.All())
    ensures dstv == srcv ==> copied == |Flat(dstv.All())| && dstv.idx == old(dstv.idx) && dstv.off == old(dstv.off)
    ensures dstv != srcv ==> CopyDone(old(srcv.All()), old(dstv.All()), dstv.All(), old(srcv.idx), old(srcv.off), old(dstv.idx), old(dstv.off),
                                      srcv.idx, srcv.off, dstv.idx, dstv.off, copied)
  {
    if dstv == srcv {
      copied := BufSize(dstv);
      return;
    }
    copied := 0;
    if srcv.idx >= |srcv.bufs| || dstv.idx >= |dstv.bufs| {
      NothingToDo(srcv.All(), dstv.All(), srcv.idx, srcv.off, dstv.idx, dstv.off);
      return;
    }
    ghost var cs, cd0, s0, so0, d0, do0 := srcv.All(), dstv.All(), srcv.idx, srcv.off, dstv.idx, dstv.off;
    StartCopy(cs, cd0, Pos(cs, s0, so0), Pos(cd0, d0, do0), s0, so0, d0, do0);
    hide Mid, LeftOf, Flat, Start, CopyDone, Over;
    var more := true;
    while more
      invariant srcv.All() == cs && dstv.Valid() && srcv.Valid()
      invariant if more then Going(cs, cd0, dstv.All(), s0, so0, d0, do0, srcv.idx, srcv.off, dstv.idx, dstv.off, copied)
        else CopyDone(cs, cd0, dstv.All(), s0, so0, d0, do0, srcv.idx, srcv.off, dstv.idx, dstv.off, copied)
      decreases more, |srcv.bufs| - srcv.idx + |dstv.bufs| - dstv.idx
    {
      hide Going;
      copied, more := CopyStep(dstv, srcv, copied, cs, cd0, s0, so0, d0, do0);
    }
  }

  /** One pass of its loop. */
  method CopyStep(dstv: BufVec, srcv: BufVec, copied0: nat, ghost cs: seq<seq<Byte>>, ghost cd0: seq<seq<Byte>>,
                  ghost s0: nat, ghost so0: nat, ghost d0: nat, ghost do0: nat) returns (copied: nat, more: bool)
    requires dstv != srcv && dstv.Valid() && srcv.Valid() && DistinctBufs(dstv.bufs, srcv.bufs) && srcv.All() == cs
    requires Going(cs, cd0, dstv.All(), s0, so0, d0, do0, srcv.idx, srcv.off, dstv.idx, dstv.off, copied0)
    modifies dstv, srcv, dstv.bufs
    ensures dstv.Valid() && srcv.Valid() && srcv.All() == cs
    ensures if more then Going(cs, cd0, dstv.All(), s0, so0, d0, do0, srcv.idx, srcv.off, dstv.idx, dstv.off, copied)
      else CopyDone(cs, cd0, dstv.All(), s0, so0, d0, do0, srcv.idx, srcv.off, dstv.idx, dstv.off, copied)
    ensures srcv.idx + dstv.idx > old(srcv.idx) + old(dstv.idx)
  {
    hide Going, Half, CopyDone, Moved;
    ghost var d1, s1 := dstv.idx, srcv.idx;
    var len;
    len, more := TakeChunk(dstv, srcv, copied0, cs, cd0, s0, so0, d0, do0);
    copied := copied0 + len;
    if !more {
      return;
    }
    ghost var cd, do1 := dstv.All(), dstv.off;
    HalfFacts(cs, cd0, cd, s0, so0, d0, do0, srcv.idx, srcv.off, d1, do1, copied, len);
    more := dstv.Advance(len);
    HalfDone(cs, cd0, cd, s0, so0, d0, do0, srcv.idx, srcv.off, d1, do1, dstv.idx, dstv.off, copied, len);
  }

  /** The source's cursor has been moved past a chunk of len bytes, the destination's not yet. */
  ghost predicate Half(cs: seq<seq<Byte>>, cd0: seq<seq<Byte>>, cd: seq<seq<Byte>>, s0: nat, so0: nat, d0: nat, do0: nat,
                       s1: nat, so1: nat, d1: nat, do1: nat, copied: nat, len: nat) {
    && CursorOk(cs, s0, so0) && CursorOk(cd0, d0, do0) && s0 < |cs| && d0 < |cd0| && d1 < |cd| && do1 + len <= |cd[d1]|
    && Moved(cs, s0, so0, s1, so1) && (s1 > s0 || so1 < |cs[s1]|)
    && Mid(cs, cd0, cd, Pos(cs, s0, so0), Pos(cd0, d0, do0), copied)
    && Pos(cs, s1, so1) == Pos(cs, s0, so0) + copied && Pos(cd, d1, do1) + len == Pos(cd0, d0, do0) + copied
  }

  lemma HalfFacts(cs: seq<seq<Byte>>, cd0: seq<seq<Byte>>, cd: seq<seq<Byte>>, s0: nat, so0: nat, d0: nat, do0: nat,
                  s1: nat, so1: nat, d1: nat, do1: nat, copied: nat, len: nat)
    requires Half(cs, cd0, cd, s0, so0, d0, do0, s1, so1, d1, do1, copied, len)
    ensures d1 < |cd| && do1 + len <= |cd[d1]|
  {
  }

  lemma HalfDone(cs: seq<seq<Byte>>, cd0: seq<seq<Byte>>, cd: seq<seq<Byte>>, s0: nat, so0: nat, d0: nat, do0: nat,
                 s1: nat, so1: nat, d1: nat, do1: nat, d2: nat, do2: nat, copied: nat, len: nat)
    requires Half(cs, cd0, cd, s0, so0, d0, do0, s1, so1, d1, do1, copied, len)
    requires CursorOk(cd, d2, do2) && Pos(cd, d2, do2) == Pos(cd, d1, do1) + len
    ensures d2 < |cd| ==> Going(cs, cd0, cd, s0, so0, d0, do0, s1, so1, d2, do2, copied)
    ensures d2 == |cd| ==> CopyDone(cs, cd0, cd, s0, so0, d0, do0, s1, so1, d2, do2, copied)
  {
    hide Mid, Flat, Start;
    if d2 == |cd| {
      hide CopyDone;
      DestinationUsedUp(cs, cd0, cd, s0, so0, d0, do0, s1, so1, do2, copied);
    }
  }

  /** Copies a chunk and moves the source's cursor. */
  method TakeChunk(dstv: BufVec, srcv: BufVec, copied: nat, ghost cs: seq<seq<Byte>>, ghost cd0: seq<seq<Byte>>,
                   ghost s0: nat, ghost so0: nat, ghost d0: nat, ghost do0: nat) returns (len: nat, more: bool)
    requires dstv != srcv && dstv.Valid() && srcv.Valid() && DistinctBufs(dstv.bufs, srcv.bufs) && srcv.All() == cs
    requires Going(cs, cd0, dstv.All(), s0, so0, d0, do0, srcv.idx, srcv.off, dstv.idx, dstv.off, copied)
    modifies srcv, dstv.bufs
    ensures dstv.Valid() && srcv.Valid() && srcv.All() == cs
    ensures if more then Half(cs, cd0, dstv.All(), s0, so0, d0, do0, srcv.idx, srcv.off, dstv.idx, dstv.off, copied + len, len)
      else CopyDone(cs, cd0, dstv.All(), s0, so0, d0, do0, srcv.idx, srcv.off, dstv.idx, dstv.off, copied + len)
    ensures srcv.idx > old(srcv.idx) || (more && srcv.idx == old(srcv.idx) && dstv.off + len == dstv.bufs[dstv.idx].Length)
  {
    ghost var cd, s1, so1, d1, do1 := dstv.All(), srcv.idx, srcv.off, dstv.idx, dstv.off;
    assert s1 < |cs| && d1 < |cd|;
    hide Mid, LeftOf, Flat, Start, CopyDone, Over, Going, Pos, Moved, Half;
    len := CopyChunk(dstv, srcv);
    ghost var cd1 := dstv.All();
    ChunkDone(cs, cd0, cd, cd1, s0, so0, d0, do0, s1, so1, d1, do1, copied, len);
    more := srcv.Advance(len);
    assert dstv.All() == cd1 && srcv.All() == cs;
    ChunkTaken(cs, cd0, cd1, s0, so0, d0, do0, s1, so1, srcv.idx, srcv.off, d1, do1, copied, len);
  }

  lemma ChunkTaken(cs: seq<seq<Byte>>, cd0: seq<seq<Byte>>, cd: seq<seq<Byte>>, s0: nat, so0: nat, d0: nat, do0: nat,
                   s1: nat, so1: nat, s2: nat, so2: nat, d1: nat, do1: nat, copied: nat, len: nat)
    requires CursorOk(cs, s0, so0) && CursorOk(cd0, d0, do0) && s0 < |cs| && d0 < |cd0| && Moved(cs, s0, so0, s1, so1)
    requires Mid(cs, cd0, cd, Pos(cs, s0, so0), Pos(cd0, d0, do0), copied + len)
    requires d1 < |cd| && do1 + len <= |cd[d1]| && Pos(cs, s1, so1) == Pos(cs, s0, so0) + copied && Pos(cd, d1, do1) == Pos(cd0, d0, do0) + copied
    requires so1 + len <= |cs[s1]| && s2 <= |cs| && Pos(cs, s2, so2) == Pos(cs, s1, so1) + len
    requires if so1 + len < |cs[s1]| then s2 == s1 && so2 == so1 + len else s2 == s1 + 1 && (s2 < |cs| ==> so2 == 0)
    ensures s2 < |cs| ==> Half(cs, cd0, cd, s0, so0, d0, do0, s2, so2, d1, do1, copied + len, len)
    ensures s2 == |cs| ==> CopyDone(cs, cd0, cd, s0, so0, d0, do0, s2, so2, d1, do1, copied + len)
  {
    hide Mid, Flat, Start, CopyDone, Pos;
    if s2 == |cs| {
      SourceUsedUp(cs, cd0, cd, s0, so0, d0, do0, s1, so1, so2, d1, do1, copied + len, len);
    }
  }

  lemma ChunkDone(cs: seq<seq<Byte>>, cd0: seq<seq<Byte>>, cd: seq<seq<Byte>>, cd1: seq<seq<Byte>>, s0: nat, so0: nat, d0: nat, do0: nat,
                  s1: nat, so1: nat, d1: nat, do1: nat, copied: nat, len: nat)
    requires Going(cs, cd0, cd, s0, so0, d0, do0, s1, so1, d1, do1, copied) && so1 + len <= |cs[s1]| && do1 + len <= |cd[d1]|
    requires cd1 == cd[d1 := Over(cd[d1], do1, cs[s1][so1..so1 + len])]
    ensures CursorOk(cs, s0, so0) && CursorOk(cd0, d0, do0) && s0 < |cs| && d0 < |cd0| && Moved(cs, s0, so0, s1, so1)
    ensures Mid(cs, cd0, cd1, Pos(cs, s0, so0), Pos(cd0, d0, do0), copied + len)
    ensures d1 < |cd1| && |cd1[d1]| == |cd[d1]| && Pos(cs, s1, so1) == Pos(cs, s0, so0) + copied && Pos(cd1, d1, do1) == Pos(cd0, d0, do0) + copied
  {
    hide Mid, Flat;
    Chunk(cs, cd0, cd, Pos(cs, s0, so0), Pos(cd0, d0, do0), copied, s1, so1, d1, do1, len);
    StartUpdate(cd, d1, cd1[d1], d1);
  }
}
