/** Bits of numbers, of bytes and of little-endian words. */
module Bits {
  import opened Words

  function Pow2(k: nat): (p: nat)
    ensures p >= 1
  {
    if k == 0 then 1 else 2 * Pow2(k - 1)
  }

  predicate Bit(x: nat, k: nat) {
    if k == 0 then x % 2 == 1 else Bit(x / 2, k - 1)
  }

  lemma {:induction false} Pow2Add(a: nat, b: nat)
    ensures Pow2(a + b) == Pow2(a) * Pow2(b)
  {
    if a > 0 {
      Pow2Add(a - 1, b);
      assert 2 * (Pow2(a - 1) * Pow2(b)) == (2 * Pow2(a - 1)) * Pow2(b);
    }
  }

  /** Setting a clear bit. */
  lemma {:induction false} AddBit(x: nat, k: nat, l: nat)
    requires !Bit(x, k)
    ensures Bit(x + Pow2(k), l) <==> l == k || Bit(x, l)
  {
    if k == 0 {
      assert (x + 1) / 2 == x / 2;
    } else {
      assert (x + Pow2(k)) / 2 == x / 2 + Pow2(k - 1) && (x + Pow2(k)) % 2 == x % 2;
      if l > 0 {
        AddBit(x / 2, k - 1, l - 1);
      }
    }
  }

  /** Clearing a set bit. */
  lemma {:induction false} SubBit(x: nat, k: nat, l: nat)
    requires Bit(x, k)
    ensures x >= Pow2(k) && (Bit(x - Pow2(k), l) <==> l != k && Bit(x, l))
  {
    if k == 0 {
      assert (x - 1) / 2 == x / 2;
    } else {
      SubBit(x / 2, k - 1, if l > 0 then l - 1 else 0);
      assert (x - Pow2(k)) / 2 == x / 2 - Pow2(k - 1) && (x - Pow2(k)) % 2 == x % 2;
    }
  }

  lemma {:induction false} AddFits(x: nat, k: nat, m: nat)
    requires !Bit(x, k) && x < Pow2(m) && k < m
    ensures x + Pow2(k) < Pow2(m)
  {
    if k > 0 {
      AddFits(x / 2, k - 1, m - 1);
    } else {
      assert Pow2(m) == 2 * Pow2(m - 1);
    }
  }

  lemma {:induction false} AllOnes(m: nat, k: nat)
    requires k < m
    ensures Bit(Pow2(m) - 1, k)
  {
    assert (Pow2(m) - 1) / 2 == Pow2(m - 1) - 1 && (Pow2(m) - 1) % 2 == 1;
    if k > 0 {
      AllOnes(m - 1, k - 1);
    }
  }

  lemma {:induction false} LowBits(x: nat, y: nat, m: nat, k: nat)
    requires k < m
    ensures Bit(x + Pow2(m) * y, k) == Bit(x, k)
  {
    var p := Pow2(m - 1) * y;
    assert Pow2(m) * y == 2 * p;
    assert (x + 2 * p) / 2 == x / 2 + p && (x + 2 * p) % 2 == x % 2;
    if k > 0 {
      LowBits(x / 2, y, m - 1, k - 1);
    }
  }

  lemma {:induction false} HighBits(x: nat, y: nat, m: nat, k: nat)
    requires x < Pow2(m)
    ensures Bit(x + Pow2(m) * y, m + k) == Bit(y, k)
  {
    if m > 0 {
      var p := Pow2(m - 1) * y;
      assert Pow2(m) * y == 2 * p;
      assert (x + 2 * p) / 2 == x / 2 + p;
      HighBits(x / 2, y, m - 1, k);
    }
  }

  lemma Pow8()
    ensures Pow2(8) == 256
  {
    assert Pow2(4) == 16;
    Pow2Add(4, 4);
  }

  /** Bit 8 i + k of a little-endian word is bit k of its byte i. */
  lemma {:induction false} WordBit(s: seq<Byte>, i: nat, k: nat)
    requires i < |s| && k < 8
    ensures Bit(Decode(s), 8 * i + k) == Bit(s[i], k)
  {
    Pow8();
    if i == 0 {
      LowBits(s[0], Decode(s[1..]), 8, k);
    } else {
      HighBits(s[0], Decode(s[1..]), 8, 8 * (i - 1) + k);
      WordBit(s[1..], i - 1, k);
    }
  }

  /** Setting the bit in the word sets it in the byte and touches no other byte. */
  lemma {:induction false} WordSet(s: seq<Byte>, i: nat, k: nat)
    requires i < |s| && k < 8 && !Bit(s[i], k)
    ensures s[i] + Pow2(k) < 256 && Decode(s[i := s[i] + Pow2(k)]) == Decode(s) + Pow2(8 * i + k)
  {
    Pow8();
    AddFits(s[i], k, 8);
    var s' := s[i := s[i] + Pow2(k)];
    if i == 0 {
      assert s'[1..] == s[1..];
    } else {
      WordSet(s[1..], i - 1, k);
      assert s'[1..] == s[1..][i - 1 := s[1..][i - 1] + Pow2(k)];
      Pow2Add(8, 8 * (i - 1) + k);
    }
  }

  lemma {:induction false} EncodeDecode(s: seq<Byte>)
    ensures Encode(Decode(s), |s|) == s
  {
    if s != [] {
      EncodeDecode(s[1..]);
      LowByte(s[0], Decode(s[1..]));
      assert Encode(Decode(s), |s|) == [s[0]] + s[1..];
    }
  }

  lemma LowByte(b: Byte, d: nat)
    ensures (b + 256 * d) % 256 == b && (b + 256 * d) / 256 == d
  {
  }

  lemma {:induction false} Pow256Pow2(n: nat)
    ensures Pow256(n) == Pow2(8 * n)
  {
    Pow8();
    if n > 0 {
      Pow256Pow2(n - 1);
      Pow2Add(8, 8 * (n - 1));
    }
  }
}

/** The block bitmap with staged allocations and frees. */
module Bitmap {
  import opened Words
  import opened Bits
  import opened Sequences

  /** The map in memory: 64-bit words of eight bytes each. */
  type Map = seq<Word>

  /** Number no is bit no % 8 of byte no / 8, and that byte is byte no / 8 % 8 of its word. */
  function WordOf(no: nat): (q: nat)
    ensures 64 * q <= no < 64 * q + 64
  {
    no / 8 / 8
  }

  function ByteOf(no: nat): (b: nat)
    ensures b < 8
  {
    no / 8 % 8
  }

  function BitOf(no: nat): (k: nat)
    ensures k < 8
  {
    no % 8
  }

  lemma PlaceOf(no: nat)
    ensures no == 64 * WordOf(no) + (8 * ByteOf(no) + BitOf(no))
  {
  }

  predicate InUse(m: Map, no: nat)
    requires no < 64 * |m|
  {
    Bit(m[WordOf(no)][ByteOf(no)], BitOf(no))
  }

  /** The numbers whose bit is set. */
  ghost function Used(m: Map): (s: set<nat>)
    ensures forall no {:trigger no in s} :: no in s <==> 0 <= no < 64 * |m| && InUse(m, no)
  {
    set no: nat | no < 64 * |m| && InUse(m, no)
  }

  /** The byte that holds a number's bit, with that bit set or cleared. */
  function SetBit(m: Map, no: nat): (r: Map)
    requires no < 64 * |m| && !InUse(m, no)
    ensures |r| == |m|
  {
    Pow8();
    var q, b, k := WordOf(no), ByteOf(no), BitOf(no);
    AddFits(m[q][b], k, 8);
    m[q := m[q][b := m[q][b] + Pow2(k)]]
  }

  function ClearBit(m: Map, no: nat): (r: Map)
    requires no < 64 * |m| && InUse(m, no)
    ensures |r| == |m|
  {
    var q, b, k := WordOf(no), ByteOf(no), BitOf(no);
    SubBit(m[q][b], k, 0);
    m[q := m[q][b := m[q][b] - Pow2(k)]]
  }

  /** A change to one byte moves a bit of the map exactly when it moves the bit in that byte. */
  lemma OneByte(m: Map, m': Map, no: nat, v: Byte, n: nat)
    requires no < 64 * |m| && n < 64 * |m|
    requires m' == m[WordOf(no) := m[WordOf(no)][ByteOf(no) := v]]
    ensures WordOf(n) == WordOf(no) && ByteOf(n) == ByteOf(no) ==> InUse(m', n) == Bit(v, BitOf(n)) && InUse(m, n) == Bit(m[WordOf(no)][ByteOf(no)], BitOf(n)) && (n == no <==> BitOf(n) == BitOf(no))
    ensures !(WordOf(n) == WordOf(no) && ByteOf(n) == ByteOf(no)) ==> InUse(m', n) == InUse(m, n) && n != no
  {
    PlaceOf(n);
    PlaceOf(no);
    hide WordOf, ByteOf, BitOf, Bit;
  }

  lemma SetBitUsed(m: Map, no: nat)
    requires no < 64 * |m| && !InUse(m, no)
    ensures Used(SetBit(m, no)) == Used(m) + {no} && no !in Used(m)
  {
    hide WordOf, ByteOf, BitOf, Bit, Used;
    var m' := SetBit(m, no);
    forall n {:trigger n in Used(m')}
      ensures n in Used(m') <==> n in Used(m) || n == no
    {
      if 0 <= n < 64 * |m| {
        var b := m[WordOf(no)][ByteOf(no)];
        AddBit(b, BitOf(no), BitOf(n));
        OneByte(m, m', no, m'[WordOf(no)][ByteOf(no)], n);
      }
    }
  }

  lemma ClearBitUsed(m: Map, no: nat)
    requires no < 64 * |m| && InUse(m, no)
    ensures Used(ClearBit(m, no)) == Used(m) - {no} && no in Used(m)
  {
    hide WordOf, ByteOf, BitOf, Bit, Used;
    var m' := ClearBit(m, no);
    forall n {:trigger n in Used(m')}
      ensures n in Used(m') <==> n in Used(m) && n != no
    {
      if 0 <= n < 64 * |m| {
        var b := m[WordOf(no)][ByteOf(no)];
        SubBit(b, BitOf(no), BitOf(n));
        OneByte(m, m', no, m'[WordOf(no)][ByteOf(no)], n);
      }
    }
  }

  lemma PlaceIn(q: nat, j: nat)
    requires j < 64
    ensures WordOf(64 * q + j) == q && 8 * ByteOf(64 * q + j) + BitOf(64 * q + j) == j
  {
    PlaceOf(64 * q + j);
    hide *;
  }

  lemma InUseAt(m: Map, no: nat, q: nat)
    requires no < 64 * |m| && WordOf(no) == q
    ensures InUse(m, no) == Bit(m[q][ByteOf(no)], BitOf(no))
  {
  }

  lemma SetBitAt(m: Map, no: nat, q: nat, w: Word)
    requires no < 64 * |m| && WordOf(no) == q && !InUse(m, no)
    requires m[q][ByteOf(no)] + Pow2(BitOf(no)) < 256 && w == m[q][ByteOf(no) := m[q][ByteOf(no)] + Pow2(BitOf(no))]
    ensures SetBit(m, no) == m[q := w]
  {
  }

  /** Bit j of word q, read as a little-endian number, is bit 64 q + j of the map. */
  lemma WordView(m: Map, q: nat, j: nat)
    requires q < |m| && j < 64
    ensures Bit(Decode(m[q]), j) == InUse(m, 64 * q + j)
  {
    hide *;
    var no := 64 * q + j;
    PlaceIn(q, j);
    InUseAt(m, no, q);
    WordBit(m[q], ByteOf(no), BitOf(no));
  }

  /** Storing word q with bit j set. */
  lemma WordStore(m: Map, q: nat, j: nat)
    requires q < |m| && j < 64 && !InUse(m, 64 * q + j)
    ensures m[q := Encode(Decode(m[q]) + Pow2(j), 8)] == SetBit(m, 64 * q + j)
  {
    hide *;
    var no := 64 * q + j;
    PlaceIn(q, j);
    InUseAt(m, no, q);
    var b, k := ByteOf(no), BitOf(no);
    WordSet(m[q], b, k);
    var w := m[q][b := m[q][b] + Pow2(k)];
    EncodeDecode(w);
    SetBitAt(m, no, q, w);
  }

  /** What the scan of word q shows about the map. */
  lemma WordScanned(m: Map, q: nat, word: nat, j: nat)
    requires q < |m| && word == Decode(m[q]) && j <= 64
    requires word != 0xffff_ffff_ffff_ffff ==> (j < 64 ==> !Bit(word, j)) && forall l: nat {:trigger Bit(word, l)} | l < j :: Bit(word, l)
    requires word == 0xffff_ffff_ffff_ffff ==> j == 64
    ensures forall no: nat {:trigger no in Used(m)} | 64 * q <= no < 64 * q + j :: no in Used(m)
    ensures j < 64 ==> !InUse(m, 64 * q + j)
  {
    hide Decode, Bit;
    forall no: nat {:trigger no in Used(m)} | 64 * q <= no < 64 * q + j
      ensures no in Used(m)
    {
      WordView(m, q, no - 64 * q);
      if word == 0xffff_ffff_ffff_ffff {
        Pow256Of8();
        Pow256Pow2(8);
        AllOnes(64, no - 64 * q);
      } else {
        assert Bit(word, no - 64 * q);
      }
    }
    if j < 64 {
      WordView(m, q, j);
    }
  }

  function SetOf(s: seq<nat>): set<nat> {
    set x | x in s
  }

  lemma SetOfCons(x: nat, s: seq<nat>)
    ensures SetOf([x] + s) == {x} + SetOf(s)
    ensures Distinct(s) && x !in SetOf(s) ==> Distinct([x] + s)
  {
  }

  lemma EmptyDistinct()
    ensures Distinct<nat>([])
  {
  }

  lemma InSetOf(x: nat, s: seq<nat>)
    ensures x in SetOf(s) <==> x in s
  {
  }

  function Without(s: seq<nat>, i: nat): seq<nat>
    requires i < |s|
  {
    s[..i] + s[i + 1..]
  }

  lemma SetOfWithout(s: seq<nat>, i: nat)
    requires i < |s| && Distinct(s)
    ensures SetOf(Without(s, i)) == SetOf(s) - {s[i]} && Distinct(Without(s, i)) && s[i] in SetOf(s)
  {
    var t := Without(s, i);
    assert forall k {:trigger t[k]} | 0 <= k < |t| :: t[k] == s[if k < i then k else k + 1];
    forall x {:trigger x in SetOf(t)}
      ensures x in SetOf(t) <==> x in SetOf(s) && x != s[i]
    {
      if x in s && x != s[i] {
        var k :| 0 <= k < |s| && s[k] == x;
        assert t[if k < i then k else k - 1] == x;
      }
    }
  }

  function Below(n: nat): (s: set<nat>)
    ensures forall m: nat {:trigger m in s} :: m in s <==> m < n
  {
    if n == 0 then {} else Below(n - 1) + {n - 1}
  }

  lemma {:induction false} BelowSize(n: nat)
    ensures |Below(n)| == n
  {
    if n > 0 {
      BelowSize(n - 1);
    }
  }

  lemma SubsetSize(a: set<nat>, b: set<nat>)
    requires a <= b
    ensures |a| <= |b| && (|a| == |b| ==> a == b)
  {
    assert b == a + (b - a);
  }

  /** No more numbers are in use than there are, and as many only when all are. */
  lemma CountUsed(m: Map)
    ensures |Used(m)| <= 64 * |m|
    ensures |Used(m)| == 64 * |m| ==> forall no: nat {:trigger InUse(m, no)} | no < 64 * |m| :: InUse(m, no)
    ensures (forall no: nat {:trigger no in Used(m)} | no < 64 * |m| :: no in Used(m)) ==> |Used(m)| == 64 * |m|
  {
    hide InUse;
    var n := 64 * |m|;
    BelowSize(n);
    SubsetSize(Used(m), Below(n));
    if forall no: nat {:trigger no in Used(m)} | no < n :: no in Used(m) {
      assert Used(m) == Below(n);
    }
    if |Used(m)| == n {
      assert forall no: nat {:trigger InUse(m, no)} | no < n :: no in Below(n) && no in Used(m);
    }
  }

  /** The numbers staged against the set in use: it is the set the transaction began with, and the staged allocations. */
  ghost predicate Staged(used: set<nat>, used0: set<nat>, allocs: seq<nat>, frees: seq<nat>) {
    && Distinct(allocs) && Distinct(frees) && SetOf(frees) <= used
    && used == used0 + SetOf(allocs) && used0 !! SetOf(allocs)
  }

  lemma StageAlloc(used: set<nat>, used0: set<nat>, allocs: seq<nat>, frees: seq<nat>, no: nat)
    requires Staged(used, used0, allocs, frees) && no !in used
    ensures Staged(used + {no}, used0, [no] + allocs, frees) && |used + {no}| == |used| + 1 && no !in frees
  {
    SetOfCons(no, allocs);
    InSetOf(no, frees);
    hide Distinct, SetOf;
  }

  lemma StageFree(used: set<nat>, used0: set<nat>, allocs: seq<nat>, frees: seq<nat>, no: nat)
    requires Staged(used, used0, allocs, frees) && no in used && no !in frees
    ensures Staged(used, used0, allocs, [no] + frees)
  {
    SetOfCons(no, frees);
    InSetOf(no, frees);
    hide Distinct, SetOf;
  }

  lemma StageUnfree(used: set<nat>, used0: set<nat>, allocs: seq<nat>, frees: seq<nat>, i: nat)
    requires Staged(used, used0, allocs, frees) && i < |frees|
    ensures Staged(used, used0, allocs, Without(frees, i)) && frees[i] in used
  {
    SetOfWithout(frees, i);
    hide Distinct, SetOf, Without;
  }

  lemma StageUnalloc(used: set<nat>, used0: set<nat>, allocs: seq<nat>, frees: seq<nat>, i: nat)
    requires Staged(used, used0, allocs, frees) && i < |allocs| && allocs[i] !in frees
    ensures Staged(used - {allocs[i]}, used0, Without(allocs, i), frees) && allocs[i] in used && |used - {allocs[i]}| == |used| - 1
  {
    SetOfWithout(allocs, i);
    InSetOf(allocs[i], frees);
    hide Distinct, SetOf, Without;
  }

  lemma StageCommit(used: set<nat>, used0: set<nat>, allocs: seq<nat>, frees: seq<nat>)
    requires Staged(used, used0, allocs, frees)
    ensures Staged(used, used - SetOf(frees), frees, [])
  {
    assert SetOf([]) == {};
    hide Distinct, SetOf;
    assert Distinct<nat>([]) by {
      EmptyDistinct();
    }
  }

  /** What an abort has to restore: the numbers in use and how many there were. */
  datatype Start = Start(used: set<nat>, ntotal: nat)

  datatype State = State(m: Map, nfree: int, allocs: seq<nat>, frees: seq<nat>, prevNtotal: nat)

  /** The size to go back to is recorded by the first resize, unless it is 0. */
  predicate Recorded(total: nat, prevNtotal: nat, ntotal0: nat) {
    && prevNtotal <= total && ntotal0 <= total && prevNtotal % 64 == 0
    && (ntotal0 != 0 ==> if prevNtotal == 0 then total == ntotal0 else prevNtotal == ntotal0)
  }

  ghost predicate Within(used: set<nat>, n: nat) {
    forall no {:trigger no in used} | no in used :: 0 <= no < n
  }

  lemma WithinUsed(m: Map, s: set<nat>)
    ensures Within(Used(m) - s, 64 * |m|)
  {
    hide InUse;
  }

  ghost predicate Open(s: State, start: Start) {
    && s.nfree == 64 * |s.m| - |Used(s.m)|
    && Staged(Used(s.m), start.used, s.allocs, s.frees)
    && Within(start.used, start.ntotal)
    && Recorded(64 * |s.m|, s.prevNtotal, start.ntotal)
  }

  lemma AllocKeeps(s: State, start: Start, no: nat)
    requires Open(s, start) && no < 64 * |s.m| && !InUse(s.m, no)
    ensures Open(s.(m := SetBit(s.m, no), nfree := s.nfree - 1, allocs := [no] + s.allocs), start)
    ensures s.nfree > 0 && no !in s.frees && no !in Used(s.m) && Used(SetBit(s.m, no)) == Used(s.m) + {no}
  {
    SetBitUsed(s.m, no);
    StageAlloc(Used(s.m), start.used, s.allocs, s.frees, no);
    CountUsed(SetBit(s.m, no));
    hide Used, InUse, SetBit, Staged, Within, Recorded;
  }

  lemma FreeKeeps(s: State, start: Start, no: nat)
    requires Open(s, start) && no in Used(s.m) && no !in s.frees
    ensures Open(s.(frees := [no] + s.frees), start)
  {
    StageFree(Used(s.m), start.used, s.allocs, s.frees, no);
    hide Used, Staged, Within, Recorded;
  }

  lemma UnfreeKeeps(s: State, start: Start, i: nat)
    requires Open(s, start) && i < |s.frees|
    ensures Open(s.(frees := Without(s.frees, i)), start) && s.frees[i] in Used(s.m)
  {
    StageUnfree(Used(s.m), start.used, s.allocs, s.frees, i);
    hide Used, Staged, Within, Recorded, Without;
  }

  lemma UnallocKeeps(s: State, start: Start, i: nat)
    requires Open(s, start) && i < |s.allocs| && s.allocs[i] !in s.frees
    ensures s.allocs[i] < 64 * |s.m| && InUse(s.m, s.allocs[i])
    ensures Open(s.(m := ClearBit(s.m, s.allocs[i]), nfree := s.nfree + 1, allocs := Without(s.allocs, i)), start)
    ensures Used(ClearBit(s.m, s.allocs[i])) == Used(s.m) - {s.allocs[i]}
  {
    StageUnalloc(Used(s.m), start.used, s.allocs, s.frees, i);
    ClearBitUsed(s.m, s.allocs[i]);
    hide Used, InUse, ClearBit, Staged, Within, Recorded, Without;
  }

  lemma NoneLeft(s: State, start: Start)
    requires Open(s, start) && forall no: nat {:trigger no in Used(s.m)} | no < 64 * |s.m| :: no in Used(s.m)
    ensures s.nfree == 0 && 64 * |s.m| !in s.frees
  {
    CountUsed(s.m);
    InSetOf(64 * |s.m|, s.frees);
    hide InUse, SetOf, Distinct, Within, Recorded;
  }

  function Zeros(n: nat): Map {
    seq(n, _ => ZERO_WORD)
  }

  lemma {:induction false} ZeroBit(k: nat)
    ensures !Bit(0, k)
  {
    if k > 0 {
      ZeroBit(k - 1);
    }
  }

  lemma ZerosUnused(m: Map, n: nat)
    ensures Used(m + Zeros(n)) == Used(m)
  {
    forall no {:trigger no in Used(m)}
      ensures no in Used(m + Zeros(n)) <==> no in Used(m)
    {
      if 0 <= no {
        ZeroBit(BitOf(no));
        hide WordOf, ByteOf, BitOf, Bit;
      }
    }
  }

  lemma CutUsed(m: Map, n: nat)
    requires n <= |m| && Within(Used(m), 64 * n)
    ensures Used(m[..n]) == Used(m)
  {
    hide WordOf, ByteOf, BitOf, Bit;
    forall no {:trigger no in Used(m)}
      ensures no in Used(m[..n]) <==> no in Used(m)
    {
    }
  }

  lemma RecordedGrow(n: nat, n': nat, prev: nat, ntotal0: nat)
    requires Recorded(64 * n, prev, ntotal0) && n < n'
    ensures Recorded(64 * n', if prev == 0 then 64 * n else prev, ntotal0)
  {
  }

  lemma GrowKeeps(s: State, start: Start, n: nat, m': Map)
    requires Open(s, start) && n > |s.m| && m' == s.m + Zeros(n - |s.m|)
    ensures Used(m') == Used(s.m) && |m'| == n
    ensures Open(s.(m := m', nfree := s.nfree + (64 * n - 64 * |s.m|), prevNtotal := if s.prevNtotal == 0 then 64 * |s.m| else s.prevNtotal), start)
  {
    ZerosUnused(s.m, n - |s.m|);
    RecordedGrow(|s.m|, n, s.prevNtotal, start.ntotal);
    hide Used, InUse, Staged, Within, Recorded;
  }

  lemma FreeCount(s: State, start: Start)
    requires Open(s, start)
    ensures s.nfree == 64 * |s.m| - |Used(s.m)|
  {
    hide Used, Recorded, Within, InUse, Staged;
  }

  lemma FreesDistinct(s: State, start: Start)
    requires Open(s, start)
    ensures Distinct(s.frees)
  {
    hide Used, Recorded, Within, InUse;
  }

  lemma AllocsDistinct(s: State, start: Start)
    requires Open(s, start)
    ensures Distinct(s.allocs)
  {
    hide Used, Recorded, Within, InUse;
  }

  lemma InUseNow(s: State, start: Start)
    requires Open(s, start)
    ensures Used(s.m) == start.used + SetOf(s.allocs)
  {
    hide Used, Recorded, Within, InUse;
  }

  lemma ClearFirst(s: State, start: Start)
    requires Open(s, start) && s.allocs != [] && s.frees == []
    ensures s.allocs[0] < 64 * |s.m| && InUse(s.m, s.allocs[0])
    ensures Open(s.(m := ClearBit(s.m, s.allocs[0]), nfree := s.nfree + 1, allocs := s.allocs[1..]), start)
  {
    hide Open, InUse, ClearBit, Used;
    assert Without(s.allocs, 0) == s.allocs[1..];
    UnallocKeeps(s, start, 0);
  }

  /** An abort may forget the staged frees before it clears the bits. */
  lemma DropFrees(s: State, start: Start)
    requires Open(s, start)
    ensures Open(s.(frees := []), start)
  {
    hide Used, Recorded, Within, InUse;
  }

  /** A commit leaves the staged frees as bits to clear. */
  lemma FreesToClear(s: State, start: Start)
    requires Open(s, start)
    ensures Open(State(s.m, s.nfree, s.frees, [], 0), Start(Used(s.m) - SetOf(s.frees), 64 * |s.m|))
  {
    StageCommit(Used(s.m), start.used, s.allocs, s.frees);
    WithinUsed(s.m, SetOf(s.frees));
    hide Used, InUse, SetOf, Distinct, Staged, Within;
  }

  lemma AllCleared(s: State, start: Start)
    requires Open(s, start) && s.allocs == []
    ensures Used(s.m) == start.used && s.nfree == 64 * |s.m| - |Used(s.m)|
  {
    hide Recorded, InUse, Used, Within;
  }

  /** What the size recorded for an abort is worth. */
  lemma AbortSize(s: State, start: Start)
    requires Open(s, start) && s.allocs == []
    ensures s.prevNtotal % 64 == 0 && s.prevNtotal <= 64 * |s.m|
    ensures s.prevNtotal != 0 ==> Within(Used(s.m), s.prevNtotal)
    ensures (if s.prevNtotal != 0 then s.prevNtotal else 64 * |s.m|) == start.ntotal <==> start.ntotal != 0 || |s.m| == 0
  {
    AllCleared(s, start);
    hide InUse, Used, Staged;
  }

  lemma Settled(s: State)
    requires s.nfree == 64 * |s.m| - |Used(s.m)| && s.allocs == [] && s.frees == [] && s.prevNtotal == 0
    ensures Open(s, Start(Used(s.m), 64 * |s.m|))
  {
    hide InUse;
  }

  class BlockBitmap {
    var m: Map
    var nfree: int
    var allocs: seq<nat>
    var frees: seq<nat>
    var prevNtotal: nat
    ghost var start: Start

    function Ntotal(): nat
      reads this
    {
      64 * |m|
    }

    function Now(): State
      reads this
    {
      State(m, nfree, allocs, frees, prevNtotal)
    }

    ghost predicate Valid()
      reads this
    {
      Open(Now(), start)
    }

    /** Nothing staged. */
    ghost predicate Idle()
      reads this
    {
      allocs == [] && frees == [] && prevNtotal == 0 && start == Start(Used(m), Ntotal())
    }

    constructor (n: nat)
      ensures Valid() && Idle() && |m| == n && Used(m) == {}
    {
      m := [] + Zeros(n);
      nfree := 64 * n;
      allocs, frees, prevNtotal := [], [], 0;
      start := Start({}, 64 * n);
      new;
      ZerosUnused([], n);
      assert Used([]) == {};
      hide Used, InUse, Zeros;
    }

    /** The first number that is not in use; Ntotal() when there is none. A block staged as freed is still in use. */
    method Alloc() returns (no: nat)
      requires Valid()
      modifies this`m, this`nfree, this`allocs
      ensures Valid()
      ensures no <= Ntotal() && (no == Ntotal() <==> old(nfree) == 0) && no !in old(frees)
      ensures forall l: nat {:trigger l in old(Used(m))} | l < no :: l in old(Used(m))
      ensures no == Ntotal() ==> Now() == old(Now())
      ensures no < Ntotal() ==> no !in old(Used(m)) && Used(m) == old(Used(m)) + {no} && allocs == [no] + old(allocs) && |m| == old(|m|)
    {
      hide Open, Used, Decode, Encode, Pow2, Bit, InUse, SetBit;
      var q;
      q, no := Scan();
      if no < 64 * |m| {
        WordStore(m, q, no - 64 * q);
        AllocKeeps(Now(), start, no);
        m := m[q := Encode(Decode(m[q]) + Pow2(no - 64 * q), 8)];
        nfree := nfree - 1;
        allocs := [no] + allocs;
      } else {
        NoneLeft(Now(), start);
      }
    }

    /** The word-at-a-time search. */
    method Scan() returns (q: nat, no: nat)
      ensures no < 64 * |m| ==> 64 * q <= no < 64 * q + 64 && q < |m| && !InUse(m, no)
      ensures no <= 64 * |m| && forall l: nat {:trigger l in Used(m)} | l < no :: l in Used(m)
    {
      hide *;
      q := 0;
      while q < |m|
        invariant q <= |m|
        invariant forall l: nat {:trigger l in Used(m)} | l < 64 * q :: l in Used(m)
      {
        var word := Decode(m[q]);
        if word != 0xffff_ffff_ffff_ffff {
          var j := FirstClear(word);
          WordScanned(m, q, word, j);
          if j < 64 {
            return q, 64 * q + j;
          }
        } else {
          WordScanned(m, q, word, 64);
        }
        q := q + 1;
      }
      no := 64 * |m|;
    }

    /** Frees are staged: the bit stays set until the commit. */
    method Free(no: nat)
      requires Valid() && no in Used(m) && no !in frees
      modifies this`frees
      ensures Valid() && frees == [no] + old(frees)
    {
      hide Open, Used;
      FreeKeeps(Now(), start, no);
      frees := [no] + frees;
    }

    method Unfree(no: nat)
      requires Valid() && no in frees
      modifies this`frees
      ensures Valid() && no in Used(m) && SetOf(frees) == SetOf(old(frees)) - {no}
    {
      hide Open, Used, Distinct;
      var i := IndexOf(frees, no);
      UnfreeKeeps(Now(), start, i);
      FreesDistinct(Now(), start);
      SetOfWithout(frees, i);
      hide SetOf;
      frees := Without(frees, i);
    }

    method Unalloc(no: nat)
      requires Valid() && no in allocs && no !in frees
      modifies this`m, this`nfree, this`allocs
      ensures Valid() && |m| == old(|m|)
      ensures no in old(Used(m)) && Used(m) == old(Used(m)) - {no} && SetOf(allocs) == SetOf(old(allocs)) - {no}
    {
      hide Open, Used, Distinct, InUse, ClearBit;
      var i := IndexOf(allocs, no);
      UnallocKeeps(Now(), start, i);
      AllocsDistinct(Now(), start);
      SetOfWithout(allocs, i);
      hide SetOf;
      allocs := Without(allocs, i);
      m := ClearBit(m, no);
      nfree := nfree + 1;
    }

    /** Growing to n words, unless there is no memory for it. */
    method Grow(n: nat, memory: bool) returns (ok: bool)
      requires Valid() && |m| <= n
      modifies this`m, this`nfree, this`prevNtotal
      ensures Valid() && Used(m) == old(Used(m)) && ok == (memory || n == old(|m|))
      ensures |m| == if ok then n else old(|m|)
      ensures prevNtotal == if |m| != old(|m|) && old(prevNtotal) == 0 then old(Ntotal()) else old(prevNtotal)
    {
      hide Open, Used, Zeros;
      if |m| == n {
        return true;
      }
      if !memory {
        return false;
      }
      GrowKeeps(Now(), start, n, m + Zeros(n - |m|));
      if prevNtotal == 0 {
        prevNtotal := 64 * |m|;
      }
      nfree := nfree + (64 * n - 64 * |m|);
      m := m + Zeros(n - |m|);
      ok := true;
    }

    /** An abort restores the numbers in use and the free count; it restores the size unless that was 0 and has grown. */
    method Abort()
      requires Valid()
      modifies this
      ensures Valid() && Idle() && Used(m) == old(start.used) && nfree == Ntotal() - |Used(m)|
      ensures Ntotal() == if old(prevNtotal) != 0 then old(prevNtotal) else old(Ntotal())
      ensures Ntotal() == old(start.ntotal) <==> old(start.ntotal) != 0 || old(Ntotal()) == 0
    {
      hide Open, Used, InUse, ClearBit, SetOf;
      DropFrees(Now(), start);
      while allocs != []
        invariant Open(State(m, nfree, allocs, [], prevNtotal), start)
        invariant start == old(start) && |m| == old(|m|) && prevNtotal == old(prevNtotal)
        decreases |allocs|
      {
        ClearFirst(State(m, nfree, allocs, [], prevNtotal), start);
        m := ClearBit(m, allocs[0]);
        nfree := nfree + 1;
        allocs := allocs[1..];
      }
      frees := [];
      AllCleared(Now(), start);
      AbortSize(Now(), start);
      if prevNtotal != 0 && 64 * |m| != prevNtotal {
        ghost var was := m;
        CutUsed(m, prevNtotal / 64);
        nfree := nfree - (64 * |m| - prevNtotal);
        m := m[..prevNtotal / 64];
      }
      prevNtotal := 0;
      start := Start(Used(m), 64 * |m|);
      Settled(Now());
    }

    /** A commit takes the staged frees out of the numbers in use. */
    method Commit()
      requires Valid()
      modifies this
      ensures Valid() && Idle() && |m| == old(|m|) && nfree == Ntotal() - |Used(m)|
      ensures Used(m) == old(start.used + SetOf(allocs)) - SetOf(old(frees))
    {
      hide Open, Used, InUse, ClearBit, SetOf;
      InUseNow(Now(), start);
      FreesToClear(Now(), start);
      ghost var goal := Start(Used(m) - SetOf(frees), 64 * |m|);
      allocs := [];
      while frees != []
        invariant Open(State(m, nfree, frees, [], 0), goal)
        invariant |m| == old(|m|) && allocs == []
        decreases |frees|
      {
        ClearFirst(State(m, nfree, frees, [], 0), goal);
        m := ClearBit(m, frees[0]);
        nfree := nfree + 1;
        frees := frees[1..];
      }
      AllCleared(Now().(prevNtotal := 0), goal);
      prevNtotal := 0;
      start := Start(Used(m), 64 * |m|);
      Settled(Now());
    }
  }

  /** A call made between two commits; Grow says whether memory is found. */
  datatype Op = Alloc | Free(no: nat) | Unfree(no: nat) | Unalloc(no: nat) | Grow(n: nat, memory: bool)

  /** What the source asserts of a call. */
  predicate Allowed(s: State, op: Op) {
    match op
    case Alloc => true
    case Free(no) => no < 64 * |s.m| && InUse(s.m, no) && no !in s.frees
    case Unfree(no) => no in s.frees
    case Unalloc(no) => no in s.allocs && no !in s.frees
    case Grow(n, _) => |s.m| <= n
  }

  method Step(b: BlockBitmap, op: Op)
    requires b.Valid() && Allowed(b.Now(), op)
    modifies b
    ensures b.Valid() && b.start == old(b.start)
  {
    hide Open, InUse;
    match op {
      case Alloc => var no := b.Alloc();
      case Free(no) => b.Free(no);
      case Unfree(no) => b.Unfree(no);
      case Unalloc(no) => b.Unalloc(no);
      case Grow(n, memory) => var ok := b.Grow(n, memory);
    }
  }

  /** A whole transaction of allowed calls: an abort gives back the state it began with. */
  method Aborted(b: BlockBitmap, ops: seq<Op>)
    requires b.Valid() && b.Idle() && b.Ntotal() != 0
    modifies b
    ensures b.Valid() && b.Idle() && Used(b.m) == old(Used(b.m)) && b.Ntotal() == old(b.Ntotal()) && b.nfree == old(b.nfree)
  {
    FreeCount(b.Now(), b.start);
    hide Open, Used, InUse, Allowed;
    for i := 0 to |ops|
      invariant b.Valid() && b.start == old(b.start)
    {
      if Allowed(b.Now(), ops[i]) {
        Step(b, ops[i]);
      }
    }
    b.Abort();
  }

  /** From no blocks at all, an abort does not take a growth back. */
  method GrowFromNothing(b: BlockBitmap, n: nat)
    requires b.Valid() && b.Idle() && b.Ntotal() == 0 && n > 0
    modifies b
    ensures b.Valid() && b.Idle() && Used(b.m) == old(Used(b.m)) && b.Ntotal() == 64 * n != old(b.Ntotal())
    ensures b.nfree == 64 * n && old(b.nfree) == 0
  {
    FreeCount(b.Now(), b.start);
    hide Open;
    var ok := b.Grow(n, true);
    b.Abort();
  }

  method IndexOf(s: seq<nat>, x: nat) returns (i: nat)
    requires x in s
    ensures i < |s| && s[i] == x
  {
    i := 0;
    while s[i] != x
      invariant i < |s| && x in s[i..]
      decreases |s| - i
    {
      i := i + 1;
    }
  }

  /** The first clear bit below bit 64; 64 when all are set. */
  method FirstClear(word: nat) returns (j: nat)
    ensures j <= 64 && (j < 64 ==> !Bit(word, j)) && forall l: nat {:trigger Bit(word, l)} | l < j :: Bit(word, l)
  {
    hide Bit;
    j := 0;
    while j < 64 && Bit(word, j)
      invariant j <= 64 && forall l: nat {:trigger Bit(word, l)} | l < j :: Bit(word, l)
    {
      j := j + 1;
    }
  }
}
