/** Tree roots: the height-and-address word and the size word that an inode block holds for a file. */
module Root {
  import opened Words
  import opened Geometry
  import opened Tree
  import opened Bpram
  import opened WriteSpec

  /** The 8-byte struct height_addr: 3 bits of height below 61 bits of address. */
  function HaWord(height: nat, addr: nat): Word
    requires height < 8 && addr < 0x2000_0000_0000_0000
  {
    ToWord(height + 8 * addr)
  }

  lemma HaRoundTrip(height: nat, addr: nat)
    requires height < 8 && addr < 0x2000_0000_0000_0000
    ensures Decode(HaWord(height, addr)) % 8 == height && Decode(HaWord(height, addr)) / 8 == addr
  {
    WordRoundTrip(height + 8 * addr);
    hide Decode, ToWord;
    LowBits(height, addr);
  }

  lemma LowBits(height: nat, addr: nat)
    requires height < 8
    ensures (height + 8 * addr) % 8 == height && (height + 8 * addr) / 8 == addr
  {
  }

  /** A root occupies words ro and ro + 1 of block rb. */
  function Nbytes(blk: Block, ro: nat): nat
    requires ro < 511
  {
    Decode(blk[ro + 1])
  }

  /** The stored height, which tree_root_height ignores while the file is empty. */
  function HaHeight(blk: Block, ro: nat): nat
    requires ro < 511
  {
    Decode(blk[ro]) % 8
  }

  function RootHeight(blk: Block, ro: nat): nat
    requires ro < 511
  {
    if Nbytes(blk, ro) == 0 then 0 else HaHeight(blk, ro)
  }

  function RootAddr(blk: Block, ro: nat): nat
    requires ro < 511
  {
    if Nbytes(blk, ro) == 0 then 0 else Decode(blk[ro]) / 8
  }

  /** Byte x of the file whose root is in rb; a file longer than its tree reads as zeros beyond it. */
  function FileByte(m: Mem, rb: nat, ro: nat, x: nat): Byte
    requires ro < 511
  {
    var blk := Get(m, rb);
    if x < Cap(RootHeight(blk, ro)) then Read(m, RootAddr(blk, ro), RootHeight(blk, ro), 0, x) else 0
  }

  /** A reader of the file sees size |f| and the bytes of f. */
  ghost predicate FileShows(m: Mem, rb: nat, ro: nat, f: seq<Byte>)
    requires ro < 511
  {
    Nbytes(Get(m, rb), ro) == |f| && forall x: nat {:trigger FileByte(m, rb, ro, x)} | x < |f| :: FileByte(m, rb, ro, x) == f[x]
  }

  ghost predicate FileProper(s: Snap, freed: set<nat>, t: nat, rb: nat, ro: nat)
    requires ro < 511
  {
    var blk := Get(s.mem, rb);
    Proper(s.mem, s.pos, freed, t, RootAddr(blk, ro), RootHeight(blk, ro), 0, Nbytes(blk, ro))
  }

  /** FileShows, taken apart into the tree and what lies beyond its capacity. */
  lemma FileShowsTree(m: Mem, rb: nat, ro: nat, f: seq<Byte>)
    requires ro < 511
    ensures var blk := Get(m, rb); var h := RootHeight(blk, ro);
      FileShows(m, rb, ro, f) <==>
      && Nbytes(blk, ro) == |f|
      && Shows(m, RootAddr(blk, ro), h, 0, f)
      && (forall x: nat {:trigger f[x]} | Cap(h) <= x < |f| :: f[x] == 0)
  {
    var blk := Get(m, rb);
    var h, a := RootHeight(blk, ro), RootAddr(blk, ro);
    if FileShows(m, rb, ro, f) {
      forall x: nat | x < |f|
        ensures if x < Cap(h) then Read(m, a, h, 0, x) == f[x] else f[x] == 0
      {
        assert FileByte(m, rb, ro, x) == f[x];
      }
    }
  }

  /** Memory m' differs from s only in tree t and in the two root words in block rb. */
  ghost predicate RootFrame(s: Snap, m': Mem, t: nat, rb: nat, ro: nat)
    requires ro < 511
  {
    && (forall b {:trigger Get(m', b)} | b in s.pos && b != rb && s.pos[b].tree != t :: Get(m', b) == Get(s.mem, b))
    && (forall i {:trigger Get(m', rb)[i]} | 0 <= i < 512 && i != ro && i != ro + 1 :: Get(m', rb)[i] == Get(s.mem, rb)[i])
  }

  /** From s0 to s1 only tree t and the root words were written; a copy of rb may have been made. */
  ghost predicate TreeFrame(s0: Snap, s1: Snap, t: nat, rb: nat, ro: nat)
    requires ro < 511
  {
    && rb in s0.pos && s0.pos[rb].tree != t
    && s1.mem.Keys == s0.mem.Keys && RootFrame(s0, s1.mem, t, rb, ro)
    && Extends(s0.pos, s1.pos) && s0.freed <= s1.freed && s0.crashes <= s1.crashes
    && (forall b {:trigger b in s1.pos} | b in s1.pos && b !in s0.pos :: s1.pos[b].tree == t || s1.pos[b] == s0.pos[rb])
    && (forall b {:trigger b in s1.freed} | b in s1.freed && b !in s0.freed :: b in s1.pos && (s1.pos[b].tree == t || b == rb))
  }

  /** Every crash since s0 shows the file as was or, once committed in place, as now. */
  ghost predicate FileCrashes(s0: Snap, s1: Snap, t: nat, rb: nat, ro: nat, was: seq<Byte>, now: seq<Byte>, committed: bool)
    requires ro < 511
  {
    forall m' {:trigger m' in s1.crashes} | m' in s1.crashes ::
      m' in s0.crashes || (RootFrame(s0, m', t, rb, ro) && (FileShows(m', rb, ro, was) || (committed && FileShows(m', rb, ro, now))))
  }

  lemma RootFrameTrans(s0: Snap, s1: Snap, m': Mem, t: nat, rb: nat, ro: nat)
    requires ro < 511 && TreeFrame(s0, s1, t, rb, ro) && RootFrame(s1, m', t, rb, ro)
    ensures RootFrame(s0, m', t, rb, ro)
  {
    forall b | b in s0.pos && b != rb && s0.pos[b].tree != t
      ensures Get(m', b) == Get(s0.mem, b)
    {
      assert Get(s1.mem, b) == Get(s0.mem, b);
    }
    forall i | 0 <= i < 512 && i != ro && i != ro + 1
      ensures Get(m', rb)[i] == Get(s0.mem, rb)[i]
    {
      assert Get(s1.mem, rb)[i] == Get(s0.mem, rb)[i];
    }
  }

  lemma TreeFrameTrans(s0: Snap, s1: Snap, s2: Snap, t: nat, rb: nat, ro: nat)
    requires ro < 511 && TreeFrame(s0, s1, t, rb, ro) && TreeFrame(s1, s2, t, rb, ro)
    ensures TreeFrame(s0, s2, t, rb, ro)
  {
    RootFrameTrans(s0, s1, s2.mem, t, rb, ro);
    forall b | b in s2.freed && b !in s0.freed
      ensures b in s2.pos && (s2.pos[b].tree == t || b == rb)
    {
      if b in s1.freed {
        assert b in s1.pos;
      }
    }
  }

  lemma FileCrashesTrans(s0: Snap, s1: Snap, s2: Snap, t: nat, rb: nat, ro: nat, was: seq<Byte>, now: seq<Byte>, committed: bool)
    requires ro < 511 && TreeFrame(s0, s1, t, rb, ro)
    requires FileCrashes(s0, s1, t, rb, ro, was, was, false) && FileCrashes(s1, s2, t, rb, ro, was, now, committed)
    ensures FileCrashes(s0, s2, t, rb, ro, was, now, committed)
  {
    forall m' {:trigger m' in s2.crashes} | m' in s2.crashes && m' !in s0.crashes && m' !in s1.crashes
      ensures RootFrame(s0, m', t, rb, ro)
    {
      RootFrameTrans(s0, s1, m', t, rb, ro);
    }
  }

  /** The file depends only on its tree and its root words, wherever those are. */
  lemma FileMoved(s: Snap, m': Mem, freed: set<nat>, t: nat, rb: nat, rb': nat, ro: nat, f: seq<Byte>)
    requires ro < 511 && FileShows(s.mem, rb, ro, f) && FileProper(s, freed, t, rb, ro)
    requires Get(m', rb')[ro] == Get(s.mem, rb)[ro] && Get(m', rb')[ro + 1] == Get(s.mem, rb)[ro + 1]
    requires forall b {:trigger Get(m', b)} | b in s.pos && s.pos[b].tree == t :: Get(m', b) == Get(s.mem, b)
    ensures FileShows(m', rb', ro, f)
    ensures forall s': Snap | s'.mem == m' && Extends(s.pos, s'.pos) :: FileProper(s', freed, t, rb', ro)
  {
    var blk := Get(s.mem, rb);
    forall s': Snap | s'.mem == m' && Extends(s.pos, s'.pos)
      ensures FileProper(s', freed, t, rb', ro) && FileShows(m', rb', ro, f)
    {
      ProperFrame(s.mem, m', s.pos, s'.pos, freed, freed, t, RootAddr(blk, ro), RootHeight(blk, ro), 0, |f|);
      FileShowsTree(s.mem, rb, ro, f);
      FileShowsTree(m', rb', ro, f);
    }
    assert Extends(s.pos, Snap(m', s.pos, s.freed, s.crashes).pos);
  }

  lemma FileKept(s: Snap, m': Mem, freed: set<nat>, t: nat, rb: nat, ro: nat, f: seq<Byte>)
    requires ro < 511 && FileShows(s.mem, rb, ro, f) && FileProper(s, freed, t, rb, ro)
    requires Get(m', rb)[ro] == Get(s.mem, rb)[ro] && Get(m', rb)[ro + 1] == Get(s.mem, rb)[ro + 1]
    requires forall b {:trigger Get(m', b)} | b in s.pos && s.pos[b].tree == t :: Get(m', b) == Get(s.mem, b)
    ensures FileShows(m', rb, ro, f)
    ensures forall s': Snap | s'.mem == m' && Extends(s.pos, s'.pos) :: FileProper(s', freed, t, rb, ro)
  {
    FileMoved(s, m', freed, t, rb, rb, ro, f);
  }
}

/** tree_max_nblocks, tree_height and the raising half of tree_change_height. */
module Height {
  import opened Words
  import opened Geometry
  import opened Tree
  import opened Bpram
  import opened WriteSpec
  import opened WriteCrawl
  import opened CrawlSlots
  import opened Root

  /** Largest file size for which every capacity fits 64 bits. */
  const MAX_SIZE: nat := 0x200_0000_0000_0000

  method TreeMaxNblocks(height: nat) returns (n: nat)
    ensures n == MaxBlocks(height)
  {
    n := 1;
    var i := height;
    while i > 0
      invariant 0 <= i <= height && n == MaxBlocks(height - i)
    {
      n := n * 512;
      i := i - 1;
    }
  }

  /** tree_height: the least height whose trees address n blocks. */
  method TreeHeight(n: nat) returns (height: nat)
    ensures n <= MaxBlocks(height)
    ensures forall h: nat | n <= MaxBlocks(h) :: height <= h
  {
    height := 0;
    var max := 1;
    while n > max
      invariant max == MaxBlocks(height)
      invariant forall h: nat | h < height :: MaxBlocks(h) < n
      decreases n - max
    {
      max := max * 512;
      height := height + 1;
    }
  }

  lemma {:induction false} MaxBlocksMono(h: nat, h': nat)
    requires h <= h'
    ensures MaxBlocks(h) <= MaxBlocks(h')
    decreases h'
  {
    if h < h' {
      MaxBlocksMono(h, h' - 1);
    }
  }

  lemma MaxBlocks5()
    ensures MaxBlocks(5) == 0x2000_0000_0000 && Cap(5) == 0x200_0000_0000_0000
  {
    assert MaxBlocks(2) == 512 * 512;
    assert MaxBlocks(4) == 512 * 512 * MaxBlocks(2);
  }

  /** Files of up to 2^57 bytes have trees of height at most 5, and only for those does every capacity fit 64 bits. */
  lemma HeightBound(size: nat, height: nat)
    requires (size + 4095) / 4096 <= MaxBlocks(height)
    requires forall h: nat | (size + 4095) / 4096 <= MaxBlocks(h) :: height <= h
    ensures height <= 5 <==> size <= 0x200_0000_0000_0000
    ensures size <= 0x200_0000_0000_0000 <==> Cap(height) < 0x1_0000_0000_0000_0000
  {
    MaxBlocks5();
    if size <= 0x200_0000_0000_0000 {
      assert (size + 4095) / 4096 <= MaxBlocks(5);
      MaxBlocksMono(height, 5);
    } else {
      assert (size + 4095) / 4096 > MaxBlocks(5);
      if height <= 5 {
        MaxBlocksMono(height, 5);
      } else {
        assert MaxBlocks(6) == 512 * MaxBlocks(5);
        MaxBlocksMono(6, height);
      }
    }
  }

  /** Every block in use at s is as it was. */
  ghost predicate Intact(s: Snap, m': Mem) {
    forall b {:trigger Get(m', b)} | b in s.pos :: Get(m', b) == Get(s.mem, b)
  }

  /** From s0 to s only new blocks, all for tree t, have been written. */
  ghost predicate Grown(s0: Snap, s: Snap, t: nat) {
    && s.mem.Keys == s0.mem.Keys && s.freed == s0.freed && s0.crashes <= s.crashes
    && Intact(s0, s.mem) && Extends(s0.pos, s.pos)
    && (forall b {:trigger b in s.pos} | b in s.pos && b !in s0.pos :: s.pos[b].tree == t)
    && (forall m' {:trigger m' in s.crashes} | m' in s.crashes :: m' in s0.crashes || Intact(s0, m'))
  }

  /** Storing into a block that was not in use at s0. */
  lemma GrownStore(s0: Snap, s: Snap, s': Snap, t: nat, b: nat)
    requires Grown(s0, s, t) && b !in s0.pos && b in s.mem
    requires OnlyBlock(s.mem, s'.mem, b) && s' == Snap(s'.mem, s.pos, s.freed, s.crashes + iset{s'.mem}) && s'.mem.Keys == s.mem.Keys
    ensures Grown(s0, s', t)
  {
    forall c | c in s0.pos
      ensures Get(s'.mem, c) == Get(s0.mem, c)
    {
      assert Get(s.mem, c) == Get(s0.mem, c);
    }
  }

  /** A new level whose first entry is the old root and whose other entries below |f| are holes reads as f. */
  lemma LevelReads(s0: Snap, s: Snap, t: nat, a: nat, b: nat, h: nat, f: seq<Byte>)
    requires h > 0 && a != 0 && b != 0 && b !in s0.pos && b !in s.freed && s.freed == s0.freed
    requires Proper(s0.mem, s0.pos, s0.freed, t, a, h - 1, 0, |f|) && Shows(s0.mem, a, h - 1, 0, f)
    requires forall x: nat {:trigger f[x]} | Cap(h - 1) <= x < |f| :: f[x] == 0
    requires Intact(s0, s.mem) && Extends(s0.pos, s.pos) && b in s.pos && s.pos[b] == Label(t, h, 0)
    requires Addr(Get(s.mem, b), 0) == a
    requires forall k: nat {:trigger ChildBase(h, 0, k)} | 1 <= k < 512 && ChildBase(h, 0, k) < |f| :: Addr(Get(s.mem, b), k) == 0
    ensures Proper(s.mem, s.pos, s.freed, t, b, h, 0, |f|) && Shows(s.mem, b, h, 0, f)
  {
    hide Proper, Shows, SlotIs, Intact, Extends, Cap, ChildBase, Get;
    var tbl := Get(s.mem, b);
    FirstSlot(s0, s, t, h, tbl, f);
    forall k: nat {:trigger ChildBase(h, 0, k)} | k < 512 && ChildBase(h, 0, k) < |f|
      ensures SlotIs(s, s.freed, t, h, 0, tbl, k, f)
    {
      if k > 0 {
        LaterSlot(h, k);
        HoleSlot(s, t, h, tbl, k, f);
      }
    }
    TableReads(s, s.freed, t, b, h, 0, f);
  }

  lemma LaterSlot(h: nat, k: nat)
    requires h > 0 && 0 < k < 512
    ensures Cap(h - 1) <= ChildBase(h, 0, k)
  {
    ChildBaseOrder(h, 0);
    assert ChildBase(h, 0, 0) + Cap(h - 1) <= ChildBase(h, 0, k);
  }

  /** The old root, now the first entry, still reads as it did. */
  lemma FirstSlot(s0: Snap, s: Snap, t: nat, h: nat, tbl: Block, f: seq<Byte>)
    requires h > 0 && s.freed == s0.freed && Intact(s0, s.mem) && Extends(s0.pos, s.pos)
    requires Proper(s0.mem, s0.pos, s0.freed, t, Addr(tbl, 0), h - 1, 0, |f|) && Shows(s0.mem, Addr(tbl, 0), h - 1, 0, f)
    ensures SlotIs(s, s.freed, t, h, 0, tbl, 0, f)
  {
    var a := Addr(tbl, 0);
    assert Proper(s.mem, s.pos, s.freed, t, a, h - 1, 0, |f|) && Shows(s.mem, a, h - 1, 0, f) by {
      hide Proper, Cap;
      ProperFrame(s0.mem, s.mem, s0.pos, s.pos, s0.freed, s.freed, t, a, h - 1, 0, |f|);
    }
    hide Proper, Shows, Cap;
    assert ChildBase(h, 0, 0) == 0;
  }

  lemma HoleSlot(s: Snap, t: nat, h: nat, tbl: Block, k: nat, f: seq<Byte>)
    requires h > 0 && k < 512 && Addr(tbl, k) == 0 && Cap(h - 1) <= ChildBase(h, 0, k) < |f|
    requires forall x: nat {:trigger f[x]} | Cap(h - 1) <= x < |f| :: f[x] == 0
    ensures SlotIs(s, s.freed, t, h, 0, tbl, k, f)
  {
    HoleZero(s.mem, h - 1, ChildBase(h, 0, k), f);
    HoleProper(s, s.freed, t, h - 1, ChildBase(h, 0, k), |f|);
  }

  lemma HoleProper(s: Snap, freed: set<nat>, t: nat, h: nat, base: nat, end: nat)
    ensures Proper(s.mem, s.pos, freed, t, 0, h, base, end)
  {
  }

  lemma IntactStore(s: Snap, m: Mem, m': Mem, b: nat)
    requires Intact(s, m) && b !in s.pos && OnlyBlock(m, m', b)
    ensures Intact(s, m')
  {
    forall c | c in s.pos
      ensures Get(m', c) == Get(s.mem, c)
    {
      assert Get(m, c) == Get(s.mem, c);
    }
  }

  /** Store a word of a block that was not in use at s0 or s1. */
  method StoreNew(fs: Bpram, b: nat, i: nat, w: Word, ghost t: nat, ghost s0: Snap, ghost s1: Snap)
    requires fs.Valid() && b in fs.used && i < 512 && b !in s0.pos && b !in s1.pos
    requires Grown(s0, Now(fs), t) && Intact(s1, fs.mem)
    modifies fs`mem, fs`crashes
    ensures fs.Valid() && Grown(s0, Now(fs), t) && Intact(s1, fs.mem)
    ensures Get(fs.mem, b) == old(Get(fs.mem, b))[i := w]
  {
    ghost var s := Now(fs);
    fs.StoreWord(b, i, w);
    GrownStore(s0, s, Now(fs), t, b);
    IntactStore(s1, s.mem, fs.mem, b);
  }

  lemma ChildBaseNext(h: nat, i: nat)
    requires h > 0
    ensures ChildBase(h, 0, 1) == Cap(h - 1) && ChildBase(h, 0, i + 1) == ChildBase(h, 0, i) + Cap(h - 1)
  {
    ChildBaseMul(h, 0, 1);
  }

  /** Mark as holes the entries after the first that the size makes valid. */
  method ClearEntries(fs: Bpram, b: nat, h: nat, childMaxNbytes: nat, nbytes: nat, ghost t: nat, ghost s0: Snap, ghost s1: Snap)
    requires fs.Valid() && h > 0 && childMaxNbytes == Cap(h - 1) && childMaxNbytes > 0
    requires b in fs.used && b !in s0.pos && b !in s1.pos
    requires Grown(s0, Now(fs), t) && Intact(s1, fs.mem)
    modifies fs`mem, fs`crashes
    ensures fs.Valid() && Grown(s0, Now(fs), t) && Intact(s1, fs.mem)
    ensures Get(fs.mem, b)[0] == old(Get(fs.mem, b))[0]
    ensures forall k: nat {:trigger ChildBase(h, 0, k)} | 1 <= k < 512 && ChildBase(h, 0, k) < nbytes :: Addr(Get(fs.mem, b), k) == 0
  {
    hide *;
    if childMaxNbytes < nbytes {
      var valid := childMaxNbytes;
      var next := if nbytes <= 512 * childMaxNbytes then nbytes else 512 * childMaxNbytes;
      var i := 1;
      ChildBaseNext(h, 0);
      while valid < next
        invariant fs.Valid() && Grown(s0, Now(fs), t) && Intact(s1, fs.mem)
        invariant 1 <= i <= 512 && valid == ChildBase(h, 0, i)
        invariant Get(fs.mem, b)[0] == old(Get(fs.mem, b))[0]
        invariant forall k: nat | 1 <= k < i :: Get(fs.mem, b)[k] == ZERO_WORD
        decreases next - valid
      {
        EntryBound(h, i);
        ChildBaseNext(h, i);
        StoreNew(fs, b, i, ZERO_WORD, t, s0, s1);
        i, valid := i + 1, valid + childMaxNbytes;
      }
      HolesSet(h, i, nbytes, Get(fs.mem, b));
    } else {
      HolesNone(h, nbytes);
    }
  }

  /** Of the top table of a tree only the first entry leads anywhere. */
  ghost predicate TopEmpty(m: Mem, a: nat, h: nat, n: nat) {
    h > 0 && forall k: nat {:trigger ChildBase(h, 0, k)} | 1 <= k < 512 && ChildBase(h, 0, k) < n :: Addr(Get(m, a), k) == 0
  }

  /** The tree at a' of height h' is that at a of height h below new levels that lead nowhere else; without a tree there is none. */
  ghost predicate Stacked(m: Mem, a: nat, h: nat, m': Mem, a': nat, h': nat, n: nat)
    decreases h'
  {
    if a == 0 || h' <= h then a' == a && SameShape(m, m', a, h', 0, n)
    else a' != 0 && TopEmpty(m', a', h', n) && Stacked(m, a, h, m', Addr(Get(m', a'), 0), h' - 1, n)
  }

  /** It stays so while no pointer of it that is visible changes. */
  lemma {:induction false} StackedShape(m: Mem, a: nat, h: nat, m': Mem, m'': Mem, a': nat, h': nat, n: nat)
    requires Stacked(m, a, h, m', a', h', n) && SameShape(m', m'', a', h', 0, n) && n > 0
    ensures Stacked(m, a, h, m'', a', h', n)
    decreases h'
  {
    if a == 0 || h' <= h {
      ShapeTrans(m, m', m'', a, h', 0, n);
    } else {
      assert ChildBase(h', 0, 0) == 0;
      StackedShape(m, a, h, m', m'', Addr(Get(m', a'), 0), h' - 1, n);
    }
  }

  /** The leaves of the old tree are found in the new one. */
  lemma {:induction false} StackedLeaf(m: Mem, a: nat, h: nat, m': Mem, a': nat, h': nat, n: nat, x: nat)
    requires Stacked(m, a, h, m', a', h', n) && h <= h' && x < n && x < Cap(h)
    ensures x < Cap(h') && LeafOf(m', a', h', 0, x) == LeafOf(m, a, h, 0, x)
    decreases h'
  {
    CapMono(h, h');
    if h' == h {
      ShapeLeaf(m, m', a, h, 0, n, x);
    } else if a != 0 {
      CapMono(h, h' - 1);
      assert ChildBase(h', 0, 0) == 0;
      SlotUnique(h', 0, x, 0);
      StackedLeaf(m, a, h, m', Addr(Get(m', a'), 0), h' - 1, n, x);
    }
  }

  /** Put one more level on top of the tree. */
  method AddLevel(fs: Bpram, addr: nat, h: nat, childMaxNbytes: nat, nbytes: nat, ghost t: nat, ghost f: seq<Byte>, ghost s0: Snap)
    returns (r: int, b: nat)
    requires fs.Valid() && addr != 0 && addr in fs.used && nbytes == |f| && h > 0 && childMaxNbytes == Cap(h - 1)
    requires Grown(s0, Now(fs), t)
    requires Proper(fs.mem, fs.pos, fs.freed, t, addr, h - 1, 0, |f|) && Shows(fs.mem, addr, h - 1, 0, f)
    requires forall x: nat {:trigger f[x]} | Cap(h - 1) <= x < |f| :: f[x] == 0
    modifies fs
    ensures fs.Valid() && Grown(s0, Now(fs), t)
    ensures r == 0 || r == ENOSPC
    ensures r == 0 ==> b != 0 && b in fs.used && Proper(fs.mem, fs.pos, fs.freed, t, b, h, 0, |f|) && Shows(fs.mem, b, h, 0, f)
    ensures r == 0 <==> FreeBlocks(old(fs.mem), old(fs.pos)) > 0
    ensures r == 0 ==> FreeBlocks(fs.mem, fs.pos) == FreeBlocks(old(fs.mem), old(fs.pos)) - 1 && b !in s0.pos
    ensures r == 0 ==> TopEmpty(fs.mem, b, h, |f|) && Addr(Get(fs.mem, b), 0) == addr && SameShape(old(fs.mem), fs.mem, addr, h - 1, 0, |f|)
  {
    hide Proper, Shows, FreeBlocks, SameShape;
    ghost var s1 := Now(fs);
    b := fs.AllocBlock(Label(t, h, 0));
    if b == 0 {
      return ENOSPC, 0;
    }
    ghost var s2 := Now(fs);
    assert Grown(s0, s2, t);
    assert addr in fs.mem;
    fs.StoreWord(b, 0, ToWord(addr));
    GrownStore(s0, s2, Now(fs), t, b);
    ClearEntries(fs, b, h, childMaxNbytes, nbytes, t, s0, s1);
    WordRoundTrip(addr);
    LevelReads(s1, Now(fs), t, addr, b, h, f);
    ShapeFrame(s1.mem, fs.mem, s1.pos, s1.freed, t, addr, h - 1, 0, |f|);
    OneTaken(s1.mem, s1.pos, b, Label(t, h, 0));
    SameFree(s1.mem, fs.mem, fs.pos);
    r := 0;
  }

  lemma EntryBound(h: nat, i: nat)
    requires h > 0 && ChildBase(h, 0, i) < 512 * Cap(h - 1)
    ensures i < 512
  {
    if i >= 512 {
      ChildBaseMul(h, 0, 512);
      if i > 512 {
        ChildBaseStep(h, 0, 512, i);
      }
    }
  }

  lemma HolesSet(h: nat, i: nat, nbytes: nat, tbl: Block)
    requires h > 0 && 1 <= i && (ChildBase(h, 0, i) >= nbytes || ChildBase(h, 0, i) >= 512 * Cap(h - 1))
    requires forall k: nat | 1 <= k < i && k < 512 :: tbl[k] == ZERO_WORD
    ensures forall k: nat {:trigger ChildBase(h, 0, k)} | 1 <= k < 512 && ChildBase(h, 0, k) < nbytes :: Addr(tbl, k) == 0
  {
    forall k: nat {:trigger ChildBase(h, 0, k)} | 1 <= k < 512 && ChildBase(h, 0, k) < nbytes
      ensures Addr(tbl, k) == 0
    {
      ChildBaseOrder(h, 0);
      assert tbl[k] == ZERO_WORD == Encode(0, 8);
      WordRoundTrip(0);
    }
  }

  lemma HolesNone(h: nat, nbytes: nat)
    requires h > 0 && nbytes <= Cap(h - 1)
    ensures forall k: nat {:trigger ChildBase(h, 0, k)} | 1 <= k < 512 :: ChildBase(h, 0, k) >= nbytes
  {
    ChildBaseOrder(h, 0);
    assert ChildBase(h, 0, 0) == 0;
  }

  /** Replacing the height and address of a root by those of another tree for the same bytes. */
  lemma RootStored(s0: Snap, s: Snap, t: nat, rb: nat, ro: nat, h: nat, a: nat, f: seq<Byte>)
    requires ro < 511 && h < 8 && a < 0x2000_0000_0000_0000 && Nbytes(Get(s.mem, rb), ro) == |f| > 0
    requires Get(s.mem, rb)[ro] == HaWord(h, a)
    requires Proper(s.mem, s.pos, s.freed, t, a, h, 0, |f|) && Shows(s.mem, a, h, 0, f)
    requires forall x: nat {:trigger f[x]} | Cap(h) <= x < |f| :: f[x] == 0
    ensures FileShows(s.mem, rb, ro, f) && FileProper(s, s.freed, t, rb, ro) && HaHeight(Get(s.mem, rb), ro) == h
  {
    HaRoundTrip(h, a);
    FileShowsTree(s.mem, rb, ro, f);
  }

  lemma EmptyFile(m: Mem, rb: nat, ro: nat)
    requires ro < 511 && Nbytes(Get(m, rb), ro) == 0
    ensures FileShows(m, rb, ro, [])
  {
  }

  /** Build levels on top of the tree until it has the new height. */
  method AddLevels(fs: Bpram, addr: nat, height: nat, newHeight: nat, nbytes: nat, ghost t: nat, ghost f: seq<Byte>)
    returns (r: int, a: nat)
    requires fs.Valid() && addr != 0 && addr in fs.used && nbytes == |f| > 0 && height <= newHeight
    requires Proper(fs.mem, fs.pos, fs.freed, t, addr, height, 0, |f|) && Shows(fs.mem, addr, height, 0, f)
    requires forall x: nat {:trigger f[x]} | Cap(height) <= x < |f| :: f[x] == 0
    modifies fs
    ensures fs.Valid() && Grown(old(Now(fs)), Now(fs), t)
    ensures r == 0 || r == ENOSPC
    ensures r == 0 ==> a != 0 && a in fs.used
    ensures r == 0 ==> Proper(fs.mem, fs.pos, fs.freed, t, a, newHeight, 0, |f|) && Shows(fs.mem, a, newHeight, 0, f)
    ensures r == 0 ==> forall x: nat {:trigger f[x]} | Cap(newHeight) <= x < |f| :: f[x] == 0
    ensures r == 0 <==> newHeight - height <= FreeBlocks(old(fs.mem), old(fs.pos))
    ensures r == 0 ==> FreeBlocks(fs.mem, fs.pos) == FreeBlocks(old(fs.mem), old(fs.pos)) - (newHeight - height)
    ensures r == 0 && height < newHeight ==> a !in old(fs.pos)
    ensures r == 0 ==> Stacked(old(fs.mem), addr, height, fs.mem, a, newHeight, |f|)
  {
    hide Proper, Shows, Grown, FreeBlocks, SameShape, TopEmpty;
    ghost var s0 := Now(fs);
    ShapeRefl(s0.mem, addr, height, 0, |f|);
    hide Stacked;
    assert Grown(s0, s0, t) by { GrownSelf(s0, t); }
    var max := TreeMaxNblocks(height);
    var childMaxNbytes := 4096 * max;
    a := addr;
    var h := height;
    while h < newHeight
      invariant height <= h <= newHeight && childMaxNbytes == Cap(h)
      invariant fs.Valid() && Grown(s0, Now(fs), t) && a != 0 && a in fs.used
      invariant Proper(fs.mem, fs.pos, fs.freed, t, a, h, 0, |f|) && Shows(fs.mem, a, h, 0, f)
      invariant forall x: nat {:trigger f[x]} | Cap(h) <= x < |f| :: f[x] == 0
      invariant FreeBlocks(fs.mem, fs.pos) == FreeBlocks(s0.mem, s0.pos) - (h - height) && (h > height ==> a !in s0.pos)
      invariant Stacked(s0.mem, addr, height, fs.mem, a, h, |f|)
    {
      ghost var mid, was := fs.mem, a;
      r, a := AddLevel(fs, a, h + 1, childMaxNbytes, nbytes, t, f, s0);
      if r != 0 {
        return r, 0;
      }
      StackedLevel(s0.mem, addr, height, mid, fs.mem, was, a, h, |f|);
      childMaxNbytes := 512 * childMaxNbytes;
      h := h + 1;
    }
    r := 0;
  }

  lemma StackedLevel(m: Mem, a: nat, h: nat, m': Mem, m'': Mem, a': nat, b: nat, h': nat, n: nat)
    requires a != 0 && h <= h' && Stacked(m, a, h, m', a', h', n) && SameShape(m', m'', a', h', 0, n) && n > 0
    requires b != 0 && TopEmpty(m'', b, h' + 1, n) && Addr(Get(m'', b), 0) == a'
    ensures Stacked(m, a, h, m'', b, h' + 1, n)
  {
    hide SameShape, TopEmpty;
    StackedShape(m, a, h, m', m'', a', h', n);
  }

  lemma GrownSelf(s: Snap, t: nat)
    ensures Grown(s, s, t)
  {
  }

  /** New blocks alone leave a file as it is. */
  lemma GrownFrame(s0: Snap, s: Snap, t: nat, rb: nat, ro: nat, f: seq<Byte>)
    requires ro < 511 && rb in s0.pos && s0.pos[rb].tree != t && s0.freed <= s0.pos.Keys
    requires FileShows(s0.mem, rb, ro, f) && FileProper(s0, s0.freed, t, rb, ro) && Grown(s0, s, t)
    ensures TreeFrame(s0, s, t, rb, ro) && FileCrashes(s0, s, t, rb, ro, f, f, false)
    ensures FileShows(s.mem, rb, ro, f) && FileProper(s, s.freed, t, rb, ro)
    ensures Get(s.mem, rb) == Get(s0.mem, rb) && rb in s.pos && s.pos[rb] == s0.pos[rb]
  {
    FileKept(s0, s.mem, s0.freed, t, rb, ro, f);
    forall m' {:trigger m' in s.crashes} | m' in s.crashes && m' !in s0.crashes
      ensures RootFrame(s0, m', t, rb, ro) && FileShows(m', rb, ro, f)
    {
      FileKept(s0, m', s0.freed, t, rb, ro, f);
    }
  }

  /** One aligned store into a root word. */
  lemma RootStoreFrame(s: Snap, s': Snap, t: nat, rb: nat, ro: nat, i: nat, w: Word, was: seq<Byte>, now: seq<Byte>, committed: bool)
    requires ro < 511 && (i == ro || i == ro + 1) && rb in s.pos && s.pos[rb].tree != t && rb in s.mem
    requires s' == Snap(s.mem[rb := Get(s.mem, rb)[i := w]], s.pos, s.freed, s.crashes + iset{s'.mem})
    requires FileShows(s'.mem, rb, ro, was) || (committed && FileShows(s'.mem, rb, ro, now))
    ensures TreeFrame(s, s', t, rb, ro) && FileCrashes(s, s', t, rb, ro, was, now, committed)
  {
  }

  lemma RaiseStored(s: Snap, s': Snap, t: nat, rb: nat, ro: nat, h: nat, a: nat, f: seq<Byte>)
    requires ro < 511 && h < 8 && a < 0x2000_0000_0000_0000
    requires rb in s.pos && s.pos[rb].tree != t && rb in s.mem && FileShows(s.mem, rb, ro, f)
    requires s' == Snap(s.mem[rb := Get(s.mem, rb)[ro := HaWord(h, a)]], s.pos, s.freed, s.crashes + iset{s'.mem})
    requires |f| > 0 ==> Proper(s.mem, s.pos, s.freed, t, a, h, 0, |f|) && Shows(s.mem, a, h, 0, f)
    requires forall x: nat {:trigger f[x]} | Cap(h) <= x < |f| :: f[x] == 0
    ensures FileShows(s'.mem, rb, ro, f) && FileProper(s', s'.freed, t, rb, ro) && HaHeight(Get(s'.mem, rb), ro) == h
    ensures TreeFrame(s, s', t, rb, ro) && FileCrashes(s, s', t, rb, ro, f, f, false)
  {
    HaRoundTrip(h, a);
    assert Nbytes(Get(s'.mem, rb), ro) == |f|;
    if |f| == 0 {
      EmptyFile(s'.mem, rb, ro);
    } else {
      ProperFrame(s.mem, s'.mem, s.pos, s.pos, s.freed, s.freed, t, a, h, 0, |f|);
      RootStored(s, s', t, rb, ro, h, a, f);
    }
    RootStoreFrame(s, s', t, rb, ro, ro, HaWord(h, a), f, f, false);
  }

  lemma {:induction false} CapMono(h: nat, h': nat)
    requires h <= h'
    ensures Cap(h) <= Cap(h')
    decreases h'
  {
    if h < h' {
      CapMono(h, h' - 1);
    }
  }

  /** What raising the tree from s0 to s1 costs, and what of it an abort could not take back. A file without a tree costs nothing. */
  ghost predicate Raised(s0: Snap, s1: Snap, t: nat, rb: nat, ro: nat, newHeight: nat, n: nat, r: int)
    requires ro < 511
  {
    var a, h, a' := RootAddr(Get(s0.mem, rb), ro), RootHeight(Get(s0.mem, rb), ro), RootAddr(Get(s1.mem, rb), ro);
    var free, levels := FreeBlocks(s0.mem, s0.pos), if a == 0 then 0 else newHeight - h;
    && (r == 0 <==> levels <= free)
    && (r == 0 ==> FreeBlocks(s1.mem, s1.pos) == free - levels && Stacked(s0.mem, a, h, s1.mem, a', newHeight, n))
    && (r == 0 && a != 0 ==> a' !in s0.pos)
    && (r != 0 ==> Get(s1.mem, rb) == Get(s0.mem, rb) && SameShape(s0.mem, s1.mem, a, h, 0, n))
  }

  /** A tree that was built on top of the old one, and is then stored in the root. */
  lemma RaisedTree(s0: Snap, s1: Snap, s2: Snap, t: nat, rb: nat, ro: nat, newHeight: nat, n: nat, newAddr: nat)
    requires ro < 511 && newHeight < 8 && newAddr < 0x2000_0000_0000_0000 && rb in s0.pos && s0.pos[rb].tree != t && rb in s1.mem
    requires Nbytes(Get(s0.mem, rb), ro) == n > 0 && RootHeight(Get(s0.mem, rb), ro) < newHeight && RootAddr(Get(s0.mem, rb), ro) != 0
    requires newHeight - RootHeight(Get(s0.mem, rb), ro) <= FreeBlocks(s0.mem, s0.pos) && newAddr != 0 && newAddr !in s0.pos
    requires FreeBlocks(s1.mem, s1.pos) == FreeBlocks(s0.mem, s0.pos) - (newHeight - RootHeight(Get(s0.mem, rb), ro))
    requires Grown(s0, s1, t) && newAddr in s1.pos && Proper(s1.mem, s1.pos, s1.freed, t, newAddr, newHeight, 0, n)
    requires Stacked(s0.mem, RootAddr(Get(s0.mem, rb), ro), RootHeight(Get(s0.mem, rb), ro), s1.mem, newAddr, newHeight, n)
    requires s2.pos == s1.pos && s2.mem == s1.mem[rb := Get(s1.mem, rb)[ro := HaWord(newHeight, newAddr)]]
    ensures Raised(s0, s2, t, rb, ro, newHeight, n, 0)
  {
    HaRoundTrip(newHeight, newAddr);
    assert Get(s1.mem, rb) == Get(s0.mem, rb) && rb in s1.pos && s1.pos[rb].tree != t;
    SameFree(s1.mem, s2.mem, s1.pos);
    ShapeFrame(s1.mem, s2.mem, s1.pos, s1.freed, t, newAddr, newHeight, 0, n);
    hide Proper, Grown, SameShape, FreeBlocks, HaWord, Stacked;
    StackedShape(s0.mem, RootAddr(Get(s0.mem, rb), ro), RootHeight(Get(s0.mem, rb), ro), s1.mem, s2.mem, newAddr, newHeight, n);
  }

  lemma RaisedHole(s0: Snap, s2: Snap, t: nat, rb: nat, ro: nat, newHeight: nat, n: nat)
    requires ro < 511 && newHeight < 8 && RootHeight(Get(s0.mem, rb), ro) <= newHeight
    requires RootAddr(Get(s0.mem, rb), ro) == 0 && rb in s0.mem
    requires s2.pos == s0.pos && s2.mem == s0.mem[rb := Get(s0.mem, rb)[ro := HaWord(newHeight, 0)]]
    ensures Raised(s0, s2, t, rb, ro, newHeight, n, 0)
  {
    HaRoundTrip(newHeight, 0);
    SameFree(s0.mem, s2.mem, s0.pos);
  }

  /** tree_change_height towards a greater height: contents, size and every other word stay. */
  method RaiseHeight(fs: Bpram, rb: nat, ro: nat, newHeight: nat, ghost t: nat, ghost f: seq<Byte>) returns (r: int)
    requires fs.Valid() && ro < 511 && rb in fs.used && fs.pos[rb].tree != t
    requires FileShows(fs.mem, rb, ro, f) && FileProper(Now(fs), fs.freed, t, rb, ro)
    requires RootHeight(Get(fs.mem, rb), ro) < newHeight < 8
    modifies fs
    ensures fs.Valid()
    ensures r == 0 || r == ENOSPC
    ensures TreeFrame(old(Now(fs)), Now(fs), t, rb, ro) && FileCrashes(old(Now(fs)), Now(fs), t, rb, ro, f, f, false)
    ensures FileShows(fs.mem, rb, ro, f) && FileProper(Now(fs), fs.freed, t, rb, ro) && fs.freed == old(fs.freed)
    ensures r == 0 ==> HaHeight(Get(fs.mem, rb), ro) == newHeight
    ensures r != 0 ==> Get(fs.mem, rb) == old(Get(fs.mem, rb))
    ensures rb in fs.pos && fs.pos[rb] == old(fs.pos)[rb]
    ensures Raised(old(Now(fs)), Now(fs), t, rb, ro, newHeight, |f|, r)
  {
    ghost var s0 := Now(fs);
    var blk := Get(fs.mem, rb);
    var height, nbytes, addr := RootHeight(blk, ro), Nbytes(blk, ro), RootAddr(blk, ro);
    RaiseFacts(s0, t, rb, ro, newHeight, f);
    hide *;
    var newAddr := 0;
    if nbytes > 0 && addr != 0 {
      r, newAddr := AddLevels(fs, addr, height, newHeight, nbytes, t, f);
      GrownFrame(s0, Now(fs), t, rb, ro, f);
      if r != 0 {
        RaiseFailed(s0, Now(fs), t, rb, ro, newHeight, |f|, r);
        return;
      }
    } else {
      GrownSelf(s0, t);
      GrownFrame(s0, s0, t, rb, ro, f);
    }
    ghost var s1 := Now(fs);
    BlockSmall(fs, newAddr);
    BlockSmall(fs, rb);
    fs.StoreWord(rb, ro, HaWord(newHeight, newAddr));
    RaiseStored(s1, Now(fs), t, rb, ro, newHeight, newAddr, f);
    TreeFrameTrans(s0, s1, Now(fs), t, rb, ro);
    FileCrashesTrans(s0, s1, Now(fs), t, rb, ro, f, f, false);
    if addr != 0 {
      RaisedTree(s0, s1, Now(fs), t, rb, ro, newHeight, |f|, newAddr);
    } else {
      RaisedHole(s0, Now(fs), t, rb, ro, newHeight, |f|);
    }
    r := 0;
  }

  lemma BlockSmall(fs: Bpram, b: nat)
    requires fs.Valid()
    ensures b == 0 || b in fs.used ==> b < 0x2000_0000_0000_0000
    ensures b in fs.used ==> b in fs.mem && b in fs.pos
    ensures fs.freed <= fs.pos.Keys
  {
  }

  /** What raising uses of the file it finds. */
  lemma RaiseFacts(s: Snap, t: nat, rb: nat, ro: nat, newHeight: nat, f: seq<Byte>)
    requires ro < 511 && FileShows(s.mem, rb, ro, f) && FileProper(s, s.freed, t, rb, ro) && RootHeight(Get(s.mem, rb), ro) < newHeight
    ensures var a, h := RootAddr(Get(s.mem, rb), ro), RootHeight(Get(s.mem, rb), ro);
      && Nbytes(Get(s.mem, rb), ro) == |f| && (a != 0 ==> |f| > 0 && a in s.pos)
      && Proper(s.mem, s.pos, s.freed, t, a, h, 0, |f|) && Shows(s.mem, a, h, 0, f)
      && (a == 0 ==> Proper(s.mem, s.pos, s.freed, t, 0, newHeight, 0, |f|) && Shows(s.mem, 0, newHeight, 0, f))
      && (forall x: nat {:trigger f[x]} | Cap(h) <= x < |f| :: f[x] == 0)
      && (forall x: nat {:trigger f[x]} | Cap(newHeight) <= x < |f| :: f[x] == 0)
  {
    var a, h := RootAddr(Get(s.mem, rb), ro), RootHeight(Get(s.mem, rb), ro);
    FileShowsTree(s.mem, rb, ro, f);
    CapMono(h, newHeight);
    if a == 0 {
      HoleZero(s.mem, h, 0, f);
      HoleZero(s.mem, newHeight, 0, f);
      HoleProper(s, s.freed, t, newHeight, 0, |f|);
    } else {
      RootInUse(s, s.freed, t, a, h, |f|);
    }
  }

  lemma RaiseFailed(s0: Snap, s: Snap, t: nat, rb: nat, ro: nat, newHeight: nat, n: nat, r: int)
    requires ro < 511 && Grown(s0, s, t) && Get(s.mem, rb) == Get(s0.mem, rb) && r != 0 && RootAddr(Get(s0.mem, rb), ro) != 0
    requires Proper(s0.mem, s0.pos, s0.freed, t, RootAddr(Get(s0.mem, rb), ro), RootHeight(Get(s0.mem, rb), ro), 0, n)
    requires newHeight - RootHeight(Get(s0.mem, rb), ro) > FreeBlocks(s0.mem, s0.pos)
    ensures Raised(s0, s, t, rb, ro, newHeight, n, r)
  {
    ShapeFrame(s0.mem, s.mem, s0.pos, s0.freed, t, RootAddr(Get(s0.mem, rb), ro), RootHeight(Get(s0.mem, rb), ro), 0, n);
  }

  lemma RootInUse(s: Snap, freed: set<nat>, t: nat, a: nat, h: nat, end: nat)
    requires a != 0 && Proper(s.mem, s.pos, freed, t, a, h, 0, end)
    ensures a in s.pos
  {
  }
}
