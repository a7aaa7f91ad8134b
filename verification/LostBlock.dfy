/**
 * Two writes that run out of space after they have replaced a pointer of the old file. The abort gives the new block back while
 * the file is still read through it.
 */
module LostBlock {
  import opened Words
  import opened Geometry
  import opened Tree
  import opened Bpram
  import opened WriteSpec
  import opened CrawlArithmetic
  import opened SpaceSpec
  import opened Root
  import opened Height
  import opened TreeSpace
  import opened Volume
  import opened OneFile
  import opened Request

  /** A file of one full block, and one block free. */
  const FULL: Mem := map[1 := RootBlock(0, 2, 128, 0), 2 := RootBlock(0, 3, 4096, 4), 3 := ZeroBlock(), 4 := ZeroBlock()]

  ghost const FULL_PLACES: Labels := map[1 := Label(2, 0, 0), 2 := Label(0, 0, 0), 3 := Label(1, 0, 0)]

  lemma FullSingle()
    ensures Single(FULL, 0, 3, 4096)
  {
    hide RootBlock;
  }

  lemma FullZeros()
    ensures FileShows(FULL, 2, 4, Zeros(4096))
  {
    FullSingle();
    assert Get(FULL, 3) == ZeroBlock();
    hide Single, Read, Get;
    forall x: nat {:trigger Read(FULL, 3, 0, 0, x)} | x < Cap(0) && x < 4096
      ensures Read(FULL, 3, 0, 0, x) == 0
    {
      ZeroReads(FULL, 3, 0, 0, x);
    }
    ShowsZeros(FULL, 0, 3, 4096);
  }

  lemma FullStart(s: Snap)
    requires s.mem == FULL && s.freed == {} && s.pos == FULL_PLACES
    ensures VolProper(s, VOL) && VolShows(FULL, VOL, Files(Zeros(4096))) && 0 in Files(Zeros(4096)) && Files(Zeros(4096))[0].bytes == Zeros(4096)
  {
    assert Proper(FULL, FULL_PLACES, {}, 1, 3, 0, 0, 4096);
    hide *;
    FullSingle();
    FullZeros();
    ShowsFile(FULL, 0, 3, Zeros(4096));
    IsProper(s, 0, 3, 4096);
  }

  lemma FullMount()
    ensures {1, 2, 3} == FULL_PLACES.Keys <= FULL.Keys && 0 !in FULL && forall b {:trigger b in FULL} | b in FULL :: b < 0x2000_0000_0000_0000
    ensures FreeBlocks(FULL, FULL_PLACES) == 1
  {
    hide RootBlock, ZeroBlock;
    assert FULL.Keys == {1, 2, 3, 4};
    assert FULL.Keys - FULL_PLACES.Keys == {4};
  }

  /** One more byte needs a taller tree. */
  lemma FullRaises()
    ensures VolOk(VOL) && 0 in VOL.live && InodeBlock(FULL, VOL, 0) == 2 && RootWordOf(0) == 4
    ensures Taller(FULL, 2, 4, 4097) && RootAddr(Get(FULL, 2), 4) != 0 && HeightFor(4097) - RootHeight(Get(FULL, 2), 4) == 1
  {
    FullSingle();
    Facts(FULL, 0, 3, 4096);
    hide RootBlock, Nbytes, HaHeight, RootHeight, RootAddr;
    assert MaxBlocks(0) == 1 && MaxBlocks(1) == 512;
    assert HeightFrom(2, 1) == 1;
  }

  lemma Fine(off: nat, buf: seq<Byte>, f: seq<Byte>)
    requires 0 < |buf| && off + |buf| <= 0x10_0000_0000
    ensures 0 in VOL.live && WriteOk(Files(f), 0, off, buf)
  {
  }

  /** A byte is appended to a file of one full block while one block is free: the block becomes the new root of the tree, none is
      left for the byte, and the abort takes the root away. */
  method AppendLosesFile() returns (fs: Bpram, r: int)
    ensures fs.Valid() && r == ENOSPC && VolShows(fs.mem, VOL, Files(Zeros(4096))) && !VolProper(Now(fs), VOL)
  {
    var zeros := Zeros(4096);
    hide *;
    FullMount();
    fs := new Bpram(FULL, {1, 2, 3}, FULL_PLACES);
    ghost var s0 := Now(fs);
    FullStart(s0);
    Fine(4096, [1], zeros);
    ghost var got;
    r, got := WriteRequest(fs, VOL, 0, 4096, [1], Files(zeros), {});
    FullRaises();
    RaiseLost(s0, Now(fs), VOL, Files(zeros), 0, 4096, 4097, FlatWrite(zeros, 4096, got), {}, r);
  }

  /** A sparse file of height 2 that ends one byte into a missing block, and one block free. */
  const SPARSE: Mem := map[1 := RootBlock(0, 2, 128, 0), 2 := RootBlock(2, 3, 2093057, 4), 3 := ZeroBlock()[0 := ToWord(4)], 4 := ZeroBlock(), 5 := ZeroBlock()]

  ghost const SPARSE_PLACES: Labels := map[1 := Label(2, 0, 0), 2 := Label(0, 0, 0), 3 := Label(1, 2, 0), 4 := Label(1, 1, 0)]

  lemma SparseSingle()
    ensures Single(SPARSE, 2, 3, 2093057) && Get(SPARSE, 3) == ZeroBlock()[0 := ToWord(4)] && Get(SPARSE, 4) == ZeroBlock()
  {
    hide RootBlock, ZeroBlock, ToWord;
  }

  lemma SparseEntry(k: nat)
    requires k < 512
    ensures Addr(Get(SPARSE, 3), k) == if k == 0 then 4 else 0
    ensures Addr(Get(SPARSE, 4), k) == 0
  {
    SparseSingle();
    WordRoundTrip(4);
    assert ZeroBlock()[k] == ZERO_WORD;
    hide ToWord, ZeroBlock;
  }

  lemma SparseZeros()
    ensures FileShows(SPARSE, 2, 4, Zeros(2093057))
  {
    SparseSingle();
    hide Single, Get;
    forall x: nat {:trigger Read(SPARSE, 3, 2, 0, x)} | x < Cap(2) && x < 2093057
      ensures Read(SPARSE, 3, 2, 0, x) == 0
    {
      var k := Slot(2, 0, x);
      SparseEntry(k);
      if k == 0 {
        ZeroReads(SPARSE, 4, 1, 0, x);
      }
    }
    hide Read;
    ShowsZeros(SPARSE, 2, 3, 2093057);
  }

  lemma SparseProper()
    ensures Proper(SPARSE, SPARSE_PLACES, {}, 1, 3, 2, 0, 2093057)
  {
    SparseSingle();
    ZeroProper(SPARSE, SPARSE_PLACES, 1, 4, 1, 0, 2093057);
    hide Single, ZeroBlock, ToWord, RootBlock;
    forall k: nat {:trigger ChildBase(2, 0, k)} | k < 512 && ChildBase(2, 0, k) < 2093057
      ensures Proper(SPARSE, SPARSE_PLACES, {}, 1, Addr(Get(SPARSE, 3), k), 1, ChildBase(2, 0, k), 2093057)
    {
      SparseEntry(k);
      hide Get, Addr;
      assert ChildBase(2, 0, 0) == 0;
    }
  }

  lemma SparseStart(s: Snap)
    requires s.mem == SPARSE && s.freed == {} && s.pos == SPARSE_PLACES
    ensures VolProper(s, VOL) && VolShows(SPARSE, VOL, Files(Zeros(2093057))) && 0 in Files(Zeros(2093057)) && Files(Zeros(2093057))[0].bytes == Zeros(2093057)
  {
    assert 1 in s.pos && s.pos[1] == Label(2, 0, 0) && 2 in s.pos && s.pos[2] == Label(0, 0, 0);
    hide *;
    SparseSingle();
    SparseZeros();
    ShowsFile(SPARSE, 2, 3, Zeros(2093057));
    SparseProper();
    IsProper(s, 2, 3, 2093057);
  }

  lemma SparseMount()
    ensures {1, 2, 3, 4} == SPARSE_PLACES.Keys <= SPARSE.Keys && 0 !in SPARSE && forall b {:trigger b in SPARSE} | b in SPARSE :: b < 0x2000_0000_0000_0000
    ensures FreeBlocks(SPARSE, SPARSE_PLACES) == 1
  {
    hide RootBlock, ZeroBlock, ToWord;
    assert SPARSE.Keys == {1, 2, 3, 4, 5};
    assert SPARSE.Keys - SPARSE_PLACES.Keys == {5};
  }

  /** An append within one entry of a table, where the last block of the file is missing, needs one block and stores it in place. */
  lemma TablePlugs(m: Mem, a: nat, h: nat, base: nat, q: Ask, k: nat, free: nat)
    requires h == 1 && Touches(q, h, base) && q.n <= q.lo && a != 0 && free > 0
    requires First(q, h, base) == Last(q, h, base) == k < 512 && ChildBase(h, base, k) < q.n && Addr(Get(m, a), k) == 0
    ensures Plugs(m, a, h, base, q, Atomic, free) && Need(m, a, h, base, q, Atomic) == Bill(1, false)
  {
    EntriesOf(q, h, base);
    hide First, Last, Touches, ChildBase, Get, Addr, PlugsBelow;
    var hole := Need(m, 0, 0, ChildBase(h, base, k), q, Atomic);
    assert hole == Bill(1, true);
    assert Child(m, a, h, base, q, k) == 0;
    assert NeedTo(m, a, h, base, q, Atomic, k) == Bill(0, false);
    assert NeedTo(m, a, h, base, q, Atomic, k + 1) == Bill(1, false);
  }

  /** An append that does so below its first entry and goes on to the next one needs more than that block. */
  lemma TopPlugs(m: Mem, a: nat, h: nat, base: nat, q: Ask, k: nat, free: nat)
    requires h > 1 && Touches(q, h, base) && q.n <= q.lo && a != 0
    requires First(q, h, base) == k && Last(q, h, base) == k + 1 < 512 && ChildBase(h, base, k) < q.n <= ChildBase(h, base, k + 1) && Touches(q, h - 1, ChildBase(h, base, k))
    requires Plugs(m, Addr(Get(m, a), k), h - 1, ChildBase(h, base, k), q, Atomic, free)
    requires Need(m, Addr(Get(m, a), k), h - 1, ChildBase(h, base, k), q, Atomic) == Bill(1, false)
    ensures Plugs(m, a, h, base, q, Atomic, free) && Need(m, a, h, base, q, Atomic).cost > 1
  {
    EntriesOf(q, h, base);
    assert Touches(q, h - 1, ChildBase(h, base, k + 1));
    assert Below(q, h, base, Atomic) == Atomic;
    HoleNeeds(m, h - 1, ChildBase(h, base, k + 1), q, Atomic);
    hide First, Last, Below, Touches, ChildBase, Get, Addr, PlugsHere;
    var c0, c1 := Child(m, a, h, base, q, k), Child(m, a, h, base, q, k + 1);
    assert c0 == Addr(Get(m, a), k) && c1 == 0;
    assert NeedTo(m, a, h, base, q, Atomic, k) == Bill(0, false);
    assert NeedTo(m, a, h, base, q, Atomic, k + 1) == Bill(1, false);
    assert NeedTo(m, a, h, base, q, Atomic, k + 2).cost > 1;
  }

  lemma AppendRange(q: Ask, h: nat)
    requires q == Ask(2093057, 2097153, 2093057) && h == 2
    ensures Touches(q, h, 0) && First(q, h, 0) == 0 && Last(q, h, 0) == 1
    ensures ChildBase(h, 0, 0) == 0 && ChildBase(h, 0, 1) == 2097152
  {
    assert Cap(h - 1) == 2097152 && Cap(h) == 1073741824;
    ChildBaseMul(h, 0, 0);
    ChildBaseMul(h, 0, 1);
    hide Cap, ChildBase;
  }

  lemma AppendRangeBelow(q: Ask, h: nat)
    requires q == Ask(2093057, 2097153, 2093057) && h == 1
    ensures Touches(q, h, 0) && First(q, h, 0) == 511 && Last(q, h, 0) == 511 && ChildBase(h, 0, 511) == 2093056
  {
    assert Cap(h - 1) == 4096 && Cap(h) == 2097152;
    ChildBaseMul(h, 0, 511);
    hide Cap, ChildBase;
  }

  lemma SparsePlugs(q: Ask, h: nat)
    requires q == Ask(2093057, 2097153, 2093057) && h == 2
    ensures Touches(q, h, 0) && Plugs(SPARSE, 3, h, 0, q, Atomic, 1) && Need(SPARSE, 3, h, 0, q, Atomic).cost > 1
  {
    hide *;
    AppendRange(q, h);
    AppendRangeBelow(q, h - 1);
    SparseEntry(0);
    SparseEntry(511);
    TablePlugs(SPARSE, 4, h - 1, 0, q, 511, 1);
    TopPlugs(SPARSE, 3, h, 0, q, 0, 1);
  }

  lemma SparseHeight()
    ensures VolOk(VOL) && 0 in VOL.live && InodeBlock(SPARSE, VOL, 0) == 2 && RootWordOf(0) == 4
    ensures Nbytes(Get(SPARSE, 2), 4) == 2093057 && HaHeight(Get(SPARSE, 2), 4) == 2 && RootAddr(Get(SPARSE, 2), 4) == 3
    ensures !Taller(SPARSE, 2, 4, 2097153)
  {
    SparseSingle();
    Facts(SPARSE, 2, 3, 2093057);
    hide Single, Get, RootBlock, Nbytes, HaHeight, RootHeight, RootAddr;
    assert MaxBlocks(0) == 1 && MaxBlocks(1) == 512 && MaxBlocks(2) == 262144;
    assert HeightFrom(513, 2) == 2;
  }

  /** The append runs out of space after it has lost a pointer. */
  lemma SparseLost(s0: Snap, s1: Snap, files: map<nat, File>, g: seq<Byte>, r: int)
    requires s0.mem == SPARSE && s0.pos == SPARSE_PLACES && VolOk(VOL) && 0 in VOL.live && 0 in files
    requires Ended(s0, s1, VOL, files, 0, 2093057, 2097153, g, {}, r)
    ensures r == ENOSPC && !VolProper(s1, VOL) && VolShows(s1.mem, VOL, files)
  {
    var q, h := Ask(2093057, 2097153, 2093057), HaHeight(Get(SPARSE, 2), 4);
    SparseHeight();
    SparseMount();
    SparsePlugs(q, h);
    hide VolProper, VolShows, Plugs, Need, Taller, Get, RootAddr, Nbytes, HaHeight, InodeBlock, RootWordOf, FreeBlocks, Solid, WithBytes, Touches;
  }

  /** A block is appended to the sparse file: it plugs the missing block, none is left for the next one, and the abort takes the
      plug away. */
  method AppendLosesBlock() returns (fs: Bpram, r: int)
    ensures fs.Valid() && r == ENOSPC && VolShows(fs.mem, VOL, Files(Zeros(2093057))) && !VolProper(Now(fs), VOL)
  {
    var zeros, buf := Zeros(2093057), seq<Byte>(4096, _ => 1);
    hide *;
    SparseMount();
    fs := new Bpram(SPARSE, {1, 2, 3, 4}, SPARSE_PLACES);
    ghost var s0 := Now(fs);
    SparseStart(s0);
    Fine(2093057, buf, zeros);
    ghost var got;
    r, got := WriteRequest(fs, VOL, 0, 2093057, buf, Files(zeros), {});
    SparseHeight();
    SparseLost(s0, Now(fs), Files(zeros), FlatWrite(zeros, 2093057, got), r);
  }

  /** The first table of a file of height 2 is missing: an append that crosses into the second one copies the table above them in the
      atomic mode. */
  lemma AppendCopiesTable(m: Mem, a: nat, h: nat, q: Ask)
    requires h == 2 && a != 0 && Addr(Get(m, a), 0) == 0 && q == Ask(2093057, 2097153, 2093057)
    ensures Touches(q, h, 0) && Need(m, a, h, 0, q, Atomic).moved
  {
    hide *;
    AppendRange(q, h);
    GapHere(m, a, h, 0, q, 0);
    AppendMoves(m, a, h, 0, q);
  }

  lemma GapHere(m: Mem, a: nat, h: nat, base: nat, q: Ask, k: nat)
    requires h > 0 && Touches(q, h, base) && k == First(q, h, base) < Last(q, h, base) < 512 && ChildBase(h, base, k) < q.n && Addr(Get(m, a), k) == 0
    ensures Gap(m, a, h, base, q)
  {
    EntriesOf(q, h, base);
    hide First, Last, Touches, ChildBase, Get, Addr;
  }
}
