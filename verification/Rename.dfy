/**
 * Two writes committed together: what crawl_data_2 changes, and when a subtree shows the old or the new contents.
 * The same crawl runs over the inode tree and, below it, over the trees of the two files.
 */
module RenameSpec {
  import opened Words
  import opened Geometry
  import opened Tree
  import opened Bpram
  import opened WriteSpec
  import opened WriteCrawl
  import opened CrawlSlots
  import opened Root
  import opened Height
  import opened TreeSpace
  import opened Volume

  /** What is crawled: the tree of a file or the inode tree, with the contents before and after. The files with
      an index in dirs have no holes; the heights of the files' trees stay. */
  datatype Ctx =
    | FileCtx(t: nat, was: seq<Byte>, now: seq<Byte>)
    | InodeCtx(v: Vol, old0: map<nat, File>, new0: map<nat, File>, size: nat, dirs: set<nat>, heights: map<nat, nat>)

  predicate CtxOk(c: Ctx) {
    match c
    case FileCtx(t, was, now) => t > 0 && |now| == |was|
    case InodeCtx(v, old0, new0, size, dirs, heights) => VolOk(v) && old0.Keys == v.live && new0.Keys == v.live && heights.Keys == v.live && forall i | i in v.live :: InodeOff(i) + 128 <= size
  }

  function TreeOf(c: Ctx): nat {
    if c.FileCtx? then c.t else 0
  }

  function End(c: Ctx): nat {
    if c.FileCtx? then |c.was| else c.size
  }

  function FileOf(c: Ctx, i: nat, fin: bool): File
    requires c.InodeCtx? && CtxOk(c) && i in c.v.live
  {
    if fin then c.new0[i] else c.old0[i]
  }

  /** Block b holds the inode with index i, and the inode's file is f, with a tree of that height, without a hole if whole. */
  ghost predicate InodeHere(s: Snap, freed: set<nat>, i: nat, b: nat, f: File, whole: bool, height: nat) {
    && b != 0 && InodeShows(s.mem, b, i, f)
    && HaHeight(Get(s.mem, b), RootWordOf(i)) == height <= 5 && FileProper(s, freed, i + 1, b, RootWordOf(i))
    && (whole ==> Whole(s.mem, b, RootWordOf(i)))
  }

  predicate Inside(i: nat, h: nat, base: nat) {
    base <= InodeOff(i) < base + Cap(h)
  }

  ghost predicate InodesHere(s: Snap, freed: set<nat>, c: Ctx, a: nat, h: nat, base: nat, fin: bool)
    requires c.InodeCtx? && CtxOk(c)
  {
    forall i {:trigger FileOf(c, i, fin)} | i in c.v.live && Inside(i, h, base) ::
      InodeHere(s, freed, i, LeafOf(s.mem, a, h, base, InodeOff(i)), FileOf(c, i, fin), i in c.dirs, c.heights[i])
  }

  /** No leaf is missing below end. */
  ghost predicate Dense(m: Mem, a: nat, h: nat, base: nat, end: nat) {
    forall x: nat {:trigger LeafOf(m, a, h, base, x)} | base <= x < base + Cap(h) && x < end :: LeafOf(m, a, h, base, x) != 0
  }

  /** The subtree rooted at a is proper, has no hole and shows the contents before or, when fin, after. */
  ghost predicate Holds(s: Snap, freed: set<nat>, c: Ctx, a: nat, h: nat, base: nat, fin: bool) {
    && CtxOk(c) && Proper(s.mem, s.pos, freed, TreeOf(c), a, h, base, End(c)) && Dense(s.mem, a, h, base, End(c))
    && (c.FileCtx? ==> Shows(s.mem, a, h, base, if fin then c.now else c.was))
    && (c.InodeCtx? ==> InodesHere(s, freed, c, a, h, base, fin))
  }

  /** A position that belongs to the subtree: in the inode tree also the files of its inodes. */
  predicate Owned(c: Ctx, l: Label, h: nat, base: nat) {
    In(l, TreeOf(c), h, base) || (c.InodeCtx? && l.tree > 0 && l.tree - 1 in c.v.live && Inside(l.tree - 1, h, base))
  }

  lemma InodeHereFrame(s: Snap, s': Snap, freed: set<nat>, freed': set<nat>, i: nat, b: nat, f: File, whole: bool, height: nat)
    requires InodeHere(s, freed, i, b, f, whole, height) && Extends(s.pos, s'.pos) && Get(s'.mem, b) == Get(s.mem, b)
    requires forall x {:trigger Get(s'.mem, x)} | x in s.pos && s.pos[x].tree == i + 1 :: Get(s'.mem, x) == Get(s.mem, x)
    requires forall x {:trigger x in freed'} | x in s.pos && s.pos[x].tree == i + 1 && x in freed' :: x in freed
    ensures InodeHere(s', freed', i, b, f, whole, height)
  {
    hide RootWordOf, FileShows, FileProper, HaHeight, Whole;
    FileKeptHere(s, s', freed, freed', i, b, f.bytes);
    if whole {
      WholeKept(s, s'.mem, freed, i + 1, b, b, RootWordOf(i));
    }
  }

  /** A file whose root words and indirect blocks are unchanged has no hole if it had none. */
  lemma WholeKept(s: Snap, m': Mem, freed: set<nat>, t: nat, rb: nat, rb': nat, ro: nat)
    requires ro < 511 && FileProper(s, freed, t, rb, ro) && Whole(s.mem, rb, ro)
    requires Get(m', rb')[ro] == Get(s.mem, rb)[ro] && Get(m', rb')[ro + 1] == Get(s.mem, rb)[ro + 1]
    requires forall b {:trigger Get(m', b)} | b in s.pos && s.pos[b].tree == t :: Get(m', b) == Get(s.mem, b)
    ensures Whole(m', rb', ro)
  {
    FillsKept(s, m', freed, t, rb, rb', ro);
    hide FileProper, Whole, FileFills;
    WholeFills(s.mem, rb, m', rb', ro, 0, 0);
  }

  lemma FileKeptHere(s: Snap, s': Snap, freed: set<nat>, freed': set<nat>, i: nat, b: nat, f: seq<Byte>)
    requires FileShows(s.mem, b, RootWordOf(i), f) && FileProper(s, freed, i + 1, b, RootWordOf(i))
    requires Extends(s.pos, s'.pos) && Get(s'.mem, b) == Get(s.mem, b)
    requires forall x {:trigger Get(s'.mem, x)} | x in s.pos && s.pos[x].tree == i + 1 :: Get(s'.mem, x) == Get(s.mem, x)
    requires forall x {:trigger x in freed'} | x in s.pos && s.pos[x].tree == i + 1 && x in freed' :: x in freed
    ensures FileShows(s'.mem, b, RootWordOf(i), f) && FileProper(s', freed', i + 1, b, RootWordOf(i))
  {
    hide RootWordOf;
    FileMoved(s, s'.mem, freed, i + 1, b, b, RootWordOf(i), f);
    var blk, ro := Get(s.mem, b), RootWordOf(i);
    ProperFrame(s.mem, s'.mem, s.pos, s'.pos, freed, freed', i + 1, RootAddr(blk, ro), RootHeight(blk, ro), 0, Nbytes(blk, ro));
  }

  /** A subtree shows what it did while none of its blocks changes or is freed. */
  lemma HoldsFrame(s: Snap, s': Snap, freed: set<nat>, freed': set<nat>, c: Ctx, a: nat, h: nat, base: nat, fin: bool)
    requires Holds(s, freed, c, a, h, base, fin) && Extends(s.pos, s'.pos) && base % 4096 == 0
    requires forall b {:trigger Get(s'.mem, b)} {:trigger b in freed'} | b in s.pos && Owned(c, s.pos[b], h, base) ::
      Get(s'.mem, b) == Get(s.mem, b) && (b in freed' ==> b in freed)
    ensures Holds(s', freed', c, a, h, base, fin)
  {
    assert Kept(s.mem, s'.mem, s.pos, freed, freed', TreeOf(c), h, base);
    ProperFrame(s.mem, s'.mem, s.pos, s'.pos, freed, freed', TreeOf(c), a, h, base, End(c));
    DenseFrame(s, s'.mem, freed, TreeOf(c), a, h, base, End(c));
    if c.InodeCtx? {
      hide Proper, Shows, Dense;
      forall i {:trigger FileOf(c, i, fin)} | i in c.v.live && Inside(i, h, base)
        ensures InodeHere(s', freed', i, LeafOf(s'.mem, a, h, base, InodeOff(i)), FileOf(c, i, fin), i in c.dirs, c.heights[i])
      {
        InodesFrame(s, s', freed, freed', c, a, h, base, fin, i);
      }
    }
  }

  lemma InodesFrame(s: Snap, s': Snap, freed: set<nat>, freed': set<nat>, c: Ctx, a: nat, h: nat, base: nat, fin: bool, i: nat)
    requires Holds(s, freed, c, a, h, base, fin) && Extends(s.pos, s'.pos) && base % 4096 == 0 && c.InodeCtx?
    requires forall b {:trigger Get(s'.mem, b)} {:trigger b in freed'} | b in s.pos && Owned(c, s.pos[b], h, base) ::
      Get(s'.mem, b) == Get(s.mem, b) && (b in freed' ==> b in freed)
    requires i in c.v.live && Inside(i, h, base)
    ensures InodeHere(s', freed', i, LeafOf(s'.mem, a, h, base, InodeOff(i)), FileOf(c, i, fin), i in c.dirs, c.heights[i])
  {
    var x := InodeOff(i);
    var b := LeafOf(s.mem, a, h, base, x);
    assert InodeHere(s, freed, i, b, FileOf(c, i, fin), i in c.dirs, c.heights[i]);
    InodesIn(s, freed, a, h, base, End(c), x);
    hide InodeHere, Proper, InodesHere, Dense;
    InodeHereFrame(s, s', freed, freed', i, b, FileOf(c, i, fin), i in c.dirs, c.heights[i]);
    LeafStays(s, s'.mem, freed, 0, a, h, base, End(c), x);
  }

  /** The leaf of an offset belongs to the subtree. */
  lemma InodesIn(s: Snap, freed: set<nat>, a: nat, h: nat, base: nat, end: nat, x: nat)
    requires Proper(s.mem, s.pos, freed, 0, a, h, base, end) && base <= x < base + Cap(h) && x < end && base % 4096 == 0
    ensures var b := LeafOf(s.mem, a, h, base, x); b != 0 ==> b in s.pos && b !in freed && s.pos[b] == Label(0, 0, LeafStart(x)) && In(s.pos[b], 0, h, base)
  {
    if LeafOf(s.mem, a, h, base, x) != 0 {
      LeafLabel(s, freed, 0, a, h, base, end, x);
      AlignedIn(x, base);
    }
  }

  lemma AlignedIn(x: nat, base: nat)
    requires base % 4096 == 0 && base <= x
    ensures base <= LeafStart(x)
  {
  }

  lemma DenseFrame(s: Snap, m': Mem, freed: set<nat>, t: nat, a: nat, h: nat, base: nat, end: nat)
    requires Proper(s.mem, s.pos, freed, t, a, h, base, end) && Dense(s.mem, a, h, base, end)
    requires forall b {:trigger Get(m', b)} | b in s.pos && In(s.pos[b], t, h, base) :: Get(m', b) == Get(s.mem, b)
    ensures Dense(m', a, h, base, end)
  {
    hide Proper;
    forall x: nat {:trigger LeafOf(m', a, h, base, x)} | base <= x < base + Cap(h) && x < end
      ensures LeafOf(m', a, h, base, x) != 0
    {
      LeafStays(s, m', freed, t, a, h, base, end, x);
    }
  }

  lemma LeafStays(s: Snap, m': Mem, freed: set<nat>, t: nat, a: nat, h: nat, base: nat, end: nat, x: nat)
    requires Proper(s.mem, s.pos, freed, t, a, h, base, end) && base <= x < base + Cap(h) && x < end
    requires forall b {:trigger Get(m', b)} | b in s.pos && In(s.pos[b], t, h, base) :: Get(m', b) == Get(s.mem, b)
    ensures LeafOf(m', a, h, base, x) == LeafOf(s.mem, a, h, base, x)
    decreases h
  {
    if a != 0 && h > 0 {
      var k := Slot(h, base, x);
      assert ProperSlots(s.mem, s.pos, freed, t, Get(s.mem, a), h, base, end);
      InSlot(h, base, k);
      LeafStays(s, m', freed, t, Addr(Get(s.mem, a), k), h - 1, ChildBase(h, base, k), end, x);
    }
  }

  /** What lies in a child lies in its parent. */
  lemma InSlot(h: nat, base: nat, k: nat)
    requires h > 0 && k < 512
    ensures base <= ChildBase(h, base, k) && ChildBase(h, base, k) + Cap(h - 1) <= base + Cap(h)
  {
    ChildBaseMul(h, base, k);
    assert k * Cap(h - 1) <= 511 * Cap(h - 1) by { MulMono(k, 511, Cap(h - 1)); }
  }

  lemma DenseSlot(m: Mem, a: nat, h: nat, base: nat, end: nat, k: nat)
    requires h > 0 && k < 512 && a != 0 && Dense(m, a, h, base, end)
    ensures Dense(m, Addr(Get(m, a), k), h - 1, ChildBase(h, base, k), end)
  {
    var b, cb := Addr(Get(m, a), k), ChildBase(h, base, k);
    InSlot(h, base, k);
    forall x: nat {:trigger LeafOf(m, b, h - 1, cb, x)} | cb <= x < cb + Cap(h - 1) && x < end
      ensures LeafOf(m, b, h - 1, cb, x) != 0
    {
      SlotUnique(h, base, x, k);
      assert LeafOf(m, a, h, base, x) == LeafOf(m, b, h - 1, cb, x);
    }
  }

  /** A subtree that starts below the end has a root. */
  lemma HoldsRoot(s: Snap, freed: set<nat>, c: Ctx, a: nat, h: nat, base: nat, fin: bool)
    requires Holds(s, freed, c, a, h, base, fin) && base < End(c)
    ensures a != 0
  {
    hide Proper, Shows, InodesHere;
    assert LeafOf(s.mem, a, h, base, base) != 0;
  }

  /** Every entry of a table that shows something shows its part. */
  lemma HoldsSlot(s: Snap, freed: set<nat>, c: Ctx, a: nat, h: nat, base: nat, fin: bool, k: nat)
    requires h > 0 && a != 0 && Holds(s, freed, c, a, h, base, fin) && k < 512 && ChildBase(h, base, k) < End(c)
    ensures Holds(s, freed, c, Addr(Get(s.mem, a), k), h - 1, ChildBase(h, base, k), fin)
  {
    var b, cb := Addr(Get(s.mem, a), k), ChildBase(h, base, k);
    assert ProperSlots(s.mem, s.pos, freed, TreeOf(c), Get(s.mem, a), h, base, End(c));
    InSlot(h, base, k);
    DenseSlot(s.mem, a, h, base, End(c), k);
    hide Proper, ProperSlots, Dense;
    if c.FileCtx? {
      var f := if fin then c.now else c.was;
      forall x: nat {:trigger Read(s.mem, b, h - 1, cb, x)} | cb <= x < cb + Cap(h - 1) && x < |f|
        ensures Read(s.mem, b, h - 1, cb, x) == f[x]
      {
        ReadSlot(s.mem, a, h, base, k, x);
      }
    } else {
      hide InodeHere;
      forall i {:trigger FileOf(c, i, fin)} | i in c.v.live && Inside(i, h - 1, cb)
        ensures InodeHere(s, freed, i, LeafOf(s.mem, b, h - 1, cb, InodeOff(i)), FileOf(c, i, fin), i in c.dirs, c.heights[i])
      {
        SlotUnique(h, base, InodeOff(i), k);
        assert InodeHere(s, freed, i, LeafOf(s.mem, a, h, base, InodeOff(i)), FileOf(c, i, fin), i in c.dirs, c.heights[i]);
      }
    }
  }

  ghost predicate SlotHolds(s: Snap, freed: set<nat>, c: Ctx, tbl: Block, h: nat, base: nat, k: nat, fin: bool)
    requires h > 0 && k < 512
  {
    Holds(s, freed, c, Addr(tbl, k), h - 1, ChildBase(h, base, k), fin)
  }

  /** A table whose entries all show their parts shows the whole. */
  lemma HoldsTable(s: Snap, freed: set<nat>, c: Ctx, a: nat, h: nat, base: nat, fin: bool)
    requires CtxOk(c) && h > 0 && a != 0 && a in s.pos && s.pos[a] == Label(TreeOf(c), h, base) && a !in freed
    requires forall k: nat {:trigger ChildBase(h, base, k)} | k < 512 && ChildBase(h, base, k) < End(c) :: SlotHolds(s, freed, c, Get(s.mem, a), h, base, k, fin)
    ensures Holds(s, freed, c, a, h, base, fin)
  {
    var tbl := Get(s.mem, a);
    assert ProperSlots(s.mem, s.pos, freed, TreeOf(c), tbl, h, base, End(c));
    forall x: nat {:trigger LeafOf(s.mem, a, h, base, x)} | base <= x < base + Cap(h) && x < End(c)
      ensures LeafOf(s.mem, a, h, base, x) != 0
    {
      var k := Slot(h, base, x);
      assert SlotHolds(s, freed, c, tbl, h, base, k, fin);
      assert LeafOf(s.mem, Addr(tbl, k), h - 1, ChildBase(h, base, k), x) != 0;
    }
    hide Dense;
    if c.FileCtx? {
      var f := if fin then c.now else c.was;
      forall x: nat {:trigger Read(s.mem, a, h, base, x)} | base <= x < base + Cap(h) && x < |f|
        ensures Read(s.mem, a, h, base, x) == f[x]
      {
        var k := Slot(h, base, x);
        assert SlotHolds(s, freed, c, tbl, h, base, k, fin);
        ReadSlot(s.mem, a, h, base, k, x);
      }
    } else {
      hide InodeHere, Proper, ProperSlots;
      forall i {:trigger FileOf(c, i, fin)} | i in c.v.live && Inside(i, h, base)
        ensures InodeHere(s, freed, i, LeafOf(s.mem, a, h, base, InodeOff(i)), FileOf(c, i, fin), i in c.dirs, c.heights[i])
      {
        var k := Slot(h, base, InodeOff(i));
        assert SlotHolds(s, freed, c, tbl, h, base, k, fin);
        assert InodeHere(s, freed, i, LeafOf(s.mem, Addr(tbl, k), h - 1, ChildBase(h, base, k), InodeOff(i)), FileOf(c, i, fin), i in c.dirs, c.heights[i]);
      }
    }
  }

  /** Before and after are the same in the subtree. */
  ghost predicate Agree(c: Ctx, h: nat, base: nat) {
    CtxOk(c) &&
    match c
    case FileCtx(t, was, now) => forall x: nat {:trigger now[x]} | base <= x < base + Cap(h) && x < |was| :: now[x] == was[x]
    case InodeCtx(v, old0, new0, size, dirs, heights) => forall i {:trigger new0[i]} | i in v.live && Inside(i, h, base) :: new0[i] == old0[i]
  }

  lemma HoldsAgree(s: Snap, freed: set<nat>, c: Ctx, a: nat, h: nat, base: nat)
    requires Holds(s, freed, c, a, h, base, false) && Agree(c, h, base)
    ensures Holds(s, freed, c, a, h, base, true)
  {
    hide Proper, InodeHere, Dense;
    if c.InodeCtx? {
      forall i {:trigger FileOf(c, i, true)} | i in c.v.live && Inside(i, h, base)
        ensures InodeHere(s, freed, i, LeafOf(s.mem, a, h, base, InodeOff(i)), FileOf(c, i, true), i in c.dirs, c.heights[i])
      {
        assert FileOf(c, i, true) == FileOf(c, i, false);
      }
    }
  }

  /** From s0 to s1 nothing that was in use has been written, in any crash either; only blocks of the subtree were freed. */
  ghost predicate Fresh(s0: Snap, s1: Snap, c: Ctx, h: nat, base: nat) {
    && s1.mem.Keys == s0.mem.Keys && Extends(s0.pos, s1.pos) && Intact(s0, s1.mem)
    && s0.freed <= s1.freed && s0.crashes <= s1.crashes
    && (forall b {:trigger b in s1.freed} | b in s1.freed && b !in s0.freed :: b in s1.pos && Owned(c, s1.pos[b], h, base))
    && (forall m' {:trigger m' in s1.crashes} | m' in s1.crashes :: m' in s0.crashes || Intact(s0, m'))
  }

  /** From s0 to s1 only the subtree was written; every crash shows what was in use as it was, or is s1. */
  ghost predicate Stored(s0: Snap, s1: Snap, c: Ctx, h: nat, base: nat) {
    && s1.mem.Keys == s0.mem.Keys && Extends(s0.pos, s1.pos)
    && (forall b {:trigger Get(s1.mem, b)} | b in s0.pos && !Owned(c, s0.pos[b], h, base) :: Get(s1.mem, b) == Get(s0.mem, b))
    && s0.freed <= s1.freed && s0.crashes <= s1.crashes
    && (forall b {:trigger b in s1.freed} | b in s1.freed && b !in s0.freed :: b in s1.pos && Owned(c, s1.pos[b], h, base))
    && (forall m' {:trigger m' in s1.crashes} | m' in s1.crashes :: m' in s0.crashes || Intact(s0, m') || m' == s1.mem)
  }

  /** What a crawl of a subtree leaves. Without a commit nothing in use has changed, and a' shows the new contents. */
  ghost predicate Outcome(s0: Snap, s1: Snap, c: Ctx, a: nat, h: nat, base: nat, r: int, a': nat, committed: bool) {
    && (r == 0 || r == ENOSPC) && (committed ==> r == 0 && a' == a)
    && (if committed then Stored(s0, s1, c, h, base) else Fresh(s0, s1, c, h, base))
    && (r == 0 ==> a' != 0 && Holds(s1, s1.freed, c, a', h, base, true) && (a' != a ==> a' !in s0.pos))
  }

  lemma FreshStored(s0: Snap, s1: Snap, c: Ctx, h: nat, base: nat)
    requires Fresh(s0, s1, c, h, base)
    ensures Stored(s0, s1, c, h, base)
  {
  }

  lemma FreshSame(s: Snap, c: Ctx, h: nat, base: nat)
    ensures Fresh(s, s, c, h, base)
  {
  }

  lemma IntactTrans(s0: Snap, s1: Snap, m': Mem)
    requires Extends(s0.pos, s1.pos) && Intact(s0, s1.mem) && Intact(s1, m')
    ensures Intact(s0, m')
  {
    forall b {:trigger Get(m', b)} | b in s0.pos
      ensures Get(m', b) == Get(s0.mem, b)
    {
      assert Get(s1.mem, b) == Get(s0.mem, b);
    }
  }

  lemma FreshTrans(s0: Snap, s1: Snap, s2: Snap, c: Ctx, h: nat, base: nat)
    requires Fresh(s0, s1, c, h, base) && Fresh(s1, s2, c, h, base)
    ensures Fresh(s0, s2, c, h, base)
  {
    IntactTrans(s0, s1, s2.mem);
    forall m' {:trigger m' in s2.crashes} | m' in s2.crashes && m' !in s0.crashes
      ensures Intact(s0, m')
    {
      if m' !in s1.crashes {
        IntactTrans(s0, s1, m');
      }
    }
    hide Owned;
    forall b {:trigger b in s2.freed} | b in s2.freed && b !in s0.freed
      ensures b in s2.pos && Owned(c, s2.pos[b], h, base)
    {
      if b in s1.freed {
        assert b in s1.pos;
      }
    }
  }

  /** What a child owns its parent owns. */
  lemma OwnedUp(c: Ctx, l: Label, h: nat, base: nat, k: nat)
    requires h > 0 && k < 512 && Owned(c, l, h - 1, ChildBase(h, base, k))
    ensures Owned(c, l, h, base)
  {
    InSlot(h, base, k);
  }

  lemma FreshUp(s0: Snap, s1: Snap, c: Ctx, h: nat, base: nat, k: nat)
    requires h > 0 && k < 512 && Fresh(s0, s1, c, h - 1, ChildBase(h, base, k))
    ensures Fresh(s0, s1, c, h, base)
  {
    hide Owned;
    forall b {:trigger b in s1.freed} | b in s1.freed && b !in s0.freed
      ensures b in s1.pos && Owned(c, s1.pos[b], h, base)
    {
      OwnedUp(c, s1.pos[b], h, base, k);
    }
  }

  lemma StoredUp(s0: Snap, s1: Snap, c: Ctx, h: nat, base: nat, k: nat)
    requires h > 0 && k < 512 && Stored(s0, s1, c, h - 1, ChildBase(h, base, k))
    ensures Stored(s0, s1, c, h, base)
  {
    hide Owned;
    forall b {:trigger b in s1.freed} | b in s1.freed && b !in s0.freed
      ensures b in s1.pos && Owned(c, s1.pos[b], h, base)
    {
      OwnedUp(c, s1.pos[b], h, base, k);
    }
    forall b {:trigger Get(s1.mem, b)} | b in s0.pos && !Owned(c, s0.pos[b], h, base)
      ensures Get(s1.mem, b) == Get(s0.mem, b)
    {
      if Owned(c, s0.pos[b], h - 1, ChildBase(h, base, k)) {
        OwnedUp(c, s0.pos[b], h, base, k);
      }
    }
  }

  /** Two children own nothing in common. */
  lemma OwnedApart(c: Ctx, l: Label, h: nat, base: nat, k: nat, k': nat)
    requires h > 0 && k < 512 && k' < 512 && k != k' && Owned(c, l, h - 1, ChildBase(h, base, k))
    ensures !Owned(c, l, h - 1, ChildBase(h, base, k'))
  {
    ChildBaseOrder(h, base);
  }

  /** A crawl of entry no leaves what the other entries show. */
  lemma SiblingHolds(s: Snap, s': Snap, c: Ctx, h: nat, base: nat, tbl: Block, no: nat, k: nat, fin: bool)
    requires h > 0 && no < 512 && k < 512 && k != no && base % 4096 == 0 && SlotHolds(s, s.freed, c, tbl, h, base, k, fin)
    requires Stored(s, s', c, h - 1, ChildBase(h, base, no))
    ensures SlotHolds(s', s'.freed, c, tbl, h, base, k, fin)
  {
    var cb := ChildBase(h, base, k);
    ChildAligned(h, base, k);
    hide Owned, Holds;
    forall b {:trigger Get(s'.mem, b)} {:trigger b in s'.freed} | b in s.pos && Owned(c, s.pos[b], h - 1, cb)
      ensures Get(s'.mem, b) == Get(s.mem, b) && (b in s'.freed ==> b in s.freed)
    {
      OwnedApart(c, s.pos[b], h, base, k, no);
    }
    HoldsFrame(s, s', s.freed, s'.freed, c, Addr(tbl, k), h - 1, cb, fin);
  }
}

/** The loop over the entries of an indirect block. */
module RenameLoop {
  import opened Words
  import opened Geometry
  import opened Tree
  import opened Bpram
  import opened WriteSpec
  import opened WriteCrawl
  import opened CrawlSlots
  import opened Height
  import opened Volume
  import opened RenameSpec

  /** Before and after differ only in the range. */
  ghost predicate Local(c: Ctx, lo: nat, hi: nat) {
    CtxOk(c) && lo < hi <= End(c) &&
    match c
    case FileCtx(t, was, now) => forall x: nat {:trigger now[x]} | x < |was| && now[x] != was[x] :: LeafStart(lo) <= x < LeafStart(hi - 1) + 4096
    case InodeCtx(v, old0, new0, size, dirs, heights) => forall i {:trigger new0[i]} | i in v.live && new0[i] != old0[i] :: lo <= InodeOff(i) < hi
  }

  lemma LocalAgree(c: Ctx, lo: nat, hi: nat, h: nat, base: nat)
    requires Local(c, lo, hi) && base % 4096 == 0 && (base + Cap(h) <= lo || hi <= base)
    ensures Agree(c, h, base)
  {
    CapAligned(h);
    SumAligned(base, Cap(h));
    hide Cap, LeafStart, InodeOff, CtxOk;
    if base + Cap(h) <= lo {
      LeafBefore(base + Cap(h), lo);
    } else {
      LeafAfter(base, hi - 1);
    }
  }

  lemma SumAligned(x: nat, y: nat)
    requires x % 4096 == 0 && y % 4096 == 0
    ensures (x + y) % 4096 == 0
  {
  }

  lemma LeafBefore(e: nat, lo: nat)
    requires e % 4096 == 0 && e <= lo
    ensures e <= LeafStart(lo)
  {
  }

  lemma LeafAfter(e: nat, x: nat)
    requires e % 4096 == 0 && x < e
    ensures LeafStart(x) + 4096 <= e
  {
  }

  /** An indirect block while its entries first to no - 1 have been crawled: blockno is prev or its copy. */
  ghost predicate LoopOk(s0: Snap, s: Snap, c: Ctx, prev: nat, blockno: nat, h: nat, base: nat, first: nat, no: nat)
    requires h > 0
  {
    && Fresh(s0, s, c, h, base)
    && prev != 0 && prev in s0.pos && s0.pos[prev] == Label(TreeOf(c), h, base) && prev !in s0.freed
    && blockno != 0 && blockno in s.pos && s.pos[blockno] == Label(TreeOf(c), h, base) && blockno !in s.freed
    && (blockno != prev ==> blockno !in s0.pos)
    && (forall k: nat {:trigger ChildBase(h, base, k)} | k < 512 && ChildBase(h, base, k) < End(c) :: EntryOk(s0, s, c, prev, blockno, h, base, first, no, k))
  }

  ghost predicate EntryOk(s0: Snap, s: Snap, c: Ctx, prev: nat, blockno: nat, h: nat, base: nat, first: nat, no: nat, k: nat)
    requires h > 0 && k < 512
  {
    var tbl := Get(s.mem, blockno);
    && SlotHolds(s, s.freed, c, tbl, h, base, k, first <= k < no)
    && (!(first <= k < no) ==> Addr(tbl, k) == Addr(Get(s0.mem, prev), k))
  }

  lemma LoopStart(s0: Snap, c: Ctx, prev: nat, h: nat, base: nat, first: nat)
    requires h > 0 && prev != 0 && Holds(s0, s0.freed, c, prev, h, base, false)
    ensures LoopOk(s0, s0, c, prev, prev, h, base, first, first)
  {
    FreshSame(s0, c, h, base);
    forall k: nat {:trigger ChildBase(h, base, k)} | k < 512 && ChildBase(h, base, k) < End(c)
      ensures EntryOk(s0, s0, c, prev, prev, h, base, first, first, k)
    {
      HoldsSlot(s0, s0.freed, c, prev, h, base, false, k);
    }
  }

  /** The next entry is as it was. */
  lemma LoopChild(s0: Snap, s: Snap, c: Ctx, prev: nat, blockno: nat, h: nat, base: nat, first: nat, no: nat)
    requires h > 0 && first <= no < 512 && LoopOk(s0, s, c, prev, blockno, h, base, first, no) && ChildBase(h, base, no) < End(c)
    ensures Holds(s, s.freed, c, Addr(Get(s.mem, blockno), no), h - 1, ChildBase(h, base, no), false)
  {
    assert EntryOk(s0, s, c, prev, blockno, h, base, first, no, no);
    hide Holds;
  }

  /** The table after entry no has been crawled, with the entry's new block in tbl'. */
  ghost predicate Awaiting(s0: Snap, s: Snap, c: Ctx, prev: nat, blockno: nat, h: nat, base: nat, first: nat, no: nat, cnew: nat)
    requires h > 0 && no < 512
  {
    && Fresh(s0, s, c, h, base)
    && prev != 0 && prev in s0.pos && s0.pos[prev] == Label(TreeOf(c), h, base) && prev !in s0.freed
    && blockno != 0 && blockno in s.pos && s.pos[blockno] == Label(TreeOf(c), h, base) && blockno !in s.freed
    && (blockno != prev ==> blockno !in s0.pos)
    && cnew < 0x1_0000_0000_0000_0000
    && (forall k: nat {:trigger ChildBase(h, base, k)} | k < 512 && ChildBase(h, base, k) < End(c) ::
          AwaitingEntry(s0, s, c, prev, Get(s.mem, blockno)[no := ToWord(cnew)], h, base, first, no, k))
  }

  ghost predicate AwaitingEntry(s0: Snap, s: Snap, c: Ctx, prev: nat, tbl: Block, h: nat, base: nat, first: nat, no: nat, k: nat)
    requires h > 0 && k < 512
  {
    && SlotHolds(s, s.freed, c, tbl, h, base, k, first <= k <= no)
    && (!(first <= k <= no) ==> Addr(tbl, k) == Addr(Get(s0.mem, prev), k))
  }

  lemma LoopPending(s0: Snap, s1: Snap, s2: Snap, c: Ctx, prev: nat, blockno: nat, h: nat, base: nat, first: nat, no: nat, cnew: nat)
    requires h > 0 && first <= no < 512 && base % 4096 == 0 && LoopOk(s0, s1, c, prev, blockno, h, base, first, no)
    requires Outcome(s1, s2, c, Addr(Get(s1.mem, blockno), no), h - 1, ChildBase(h, base, no), 0, cnew, false)
    requires cnew < 0x1_0000_0000_0000_0000
    ensures Awaiting(s0, s2, c, prev, blockno, h, base, first, no, cnew)
  {
    hide Holds, Owned;
    var cb, tbl := ChildBase(h, base, no), Get(s1.mem, blockno);
    FreshUp(s1, s2, c, h, base, no);
    FreshTrans(s0, s1, s2, c, h, base);
    FreshStored(s1, s2, c, h - 1, cb);
    WordRoundTrip(cnew);
    assert Get(s2.mem, blockno) == tbl;
    NotFreed(s1, s2, c, blockno, h, base, no);
    forall k: nat {:trigger ChildBase(h, base, k)} | k < 512 && ChildBase(h, base, k) < End(c)
      ensures AwaitingEntry(s0, s2, c, prev, tbl[no := ToWord(cnew)], h, base, first, no, k)
    {
      assert EntryOk(s0, s1, c, prev, blockno, h, base, first, no, k);
      if k != no {
        SiblingHolds(s1, s2, c, h, base, tbl, no, k, first <= k < no);
      }
    }
  }

  lemma NotFreed(s1: Snap, s2: Snap, c: Ctx, b: nat, h: nat, base: nat, no: nat)
    requires h > 0 && no < 512 && Fresh(s1, s2, c, h - 1, ChildBase(h, base, no))
    requires b in s1.pos && s1.pos[b] == Label(TreeOf(c), h, base) && b !in s1.freed
    ensures b in s2.pos && s2.pos[b] == s1.pos[b] && b !in s2.freed
  {
  }

  lemma LoopKept(s0: Snap, s1: Snap, s2: Snap, c: Ctx, prev: nat, blockno: nat, h: nat, base: nat, first: nat, no: nat)
    requires h > 0 && first <= no < 512 && base % 4096 == 0 && LoopOk(s0, s1, c, prev, blockno, h, base, first, no)
    requires Outcome(s1, s2, c, Addr(Get(s1.mem, blockno), no), h - 1, ChildBase(h, base, no), 0, Addr(Get(s1.mem, blockno), no), false)
    ensures LoopOk(s0, s2, c, prev, blockno, h, base, first, no + 1)
  {
    hide Holds, Owned;
    var cb, tbl := ChildBase(h, base, no), Get(s1.mem, blockno);
    FreshUp(s1, s2, c, h, base, no);
    FreshTrans(s0, s1, s2, c, h, base);
    FreshStored(s1, s2, c, h - 1, cb);
    assert Get(s2.mem, blockno) == tbl;
    NotFreed(s1, s2, c, blockno, h, base, no);
    forall k: nat {:trigger ChildBase(h, base, k)} | k < 512 && ChildBase(h, base, k) < End(c)
      ensures EntryOk(s0, s2, c, prev, blockno, h, base, first, no + 1, k)
    {
      assert EntryOk(s0, s1, c, prev, blockno, h, base, first, no, k);
      if k != no {
        SiblingHolds(s1, s2, c, h, base, tbl, no, k, first <= k < no);
      }
    }
  }

  /** A store to the table itself, or to a new block, leaves what its entries show. */
  lemma LevelHolds(s: Snap, s': Snap, c: Ctx, h: nat, base: nat, tbl: Block, b: nat, k: nat, fin: bool)
    requires h > 0 && k < 512 && base % 4096 == 0 && SlotHolds(s, s.freed, c, tbl, h, base, k, fin)
    requires Extends(s.pos, s'.pos) && OnlyBlock(s.mem, s'.mem, b) && (b in s.pos ==> s.pos[b] == Label(TreeOf(c), h, base))
    requires forall x {:trigger x in s'.freed} | x in s'.freed && x in s.pos && x !in s.freed :: s.pos[x] == Label(TreeOf(c), h, base)
    ensures SlotHolds(s', s'.freed, c, tbl, h, base, k, fin)
  {
    ChildAligned(h, base, k);
    hide Holds;
    HoldsFrame(s, s', s.freed, s'.freed, c, Addr(tbl, k), h - 1, ChildBase(h, base, k), fin);
  }

  /** Copying the table before it is changed. */
  lemma TableCopied(s0: Snap, s: Snap, s': Snap, c: Ctx, prev: nat, h: nat, base: nat, first: nat, no: nat, cnew: nat, b': nat)
    requires h > 0 && no < 512 && base % 4096 == 0 && Awaiting(s0, s, c, prev, prev, h, base, first, no, cnew)
    requires b' != 0 && b' !in s.pos && s'.pos == s.pos[b' := s.pos[prev]] && s'.freed == s.freed + {prev} && s.freed <= s.pos.Keys
    requires s'.mem.Keys == s.mem.Keys && Get(s'.mem, b') == Get(s.mem, prev) && OnlyBlock(s.mem, s'.mem, b')
    requires s.crashes <= s'.crashes
    requires forall m' {:trigger m' in s'.crashes} | m' in s'.crashes :: m' in s.crashes || OnlyBlock(s.mem, m', b')
    ensures Awaiting(s0, s', c, prev, b', h, base, first, no, cnew)
  {
    hide Holds;
    FreshCopy(s0, s, s', c, h, base, prev, b');
    var tbl := Get(s.mem, prev)[no := ToWord(cnew)];
    forall k: nat {:trigger ChildBase(h, base, k)} | k < 512 && ChildBase(h, base, k) < End(c)
      ensures AwaitingEntry(s0, s', c, prev, tbl, h, base, first, no, k)
    {
      assert AwaitingEntry(s0, s, c, prev, tbl, h, base, first, no, k);
      LevelHolds(s, s', c, h, base, tbl, b', k, first <= k <= no);
    }
  }

  lemma FreshCopy(s0: Snap, s: Snap, s': Snap, c: Ctx, h: nat, base: nat, b: nat, b': nat)
    requires Fresh(s0, s, c, h, base) && b in s.pos && Owned(c, s.pos[b], h, base)
    requires b' !in s.pos && s'.pos == s.pos[b' := s.pos[b]] && s'.freed == s.freed + {b}
    requires s'.mem.Keys == s.mem.Keys && OnlyBlock(s.mem, s'.mem, b') && s.crashes <= s'.crashes
    requires forall m' {:trigger m' in s'.crashes} | m' in s'.crashes :: m' in s.crashes || OnlyBlock(s.mem, m', b')
    ensures Fresh(s0, s', c, h, base)
  {
    hide Owned;
    assert Extends(s0.pos, s'.pos);
    forall m': Mem | OnlyBlock(s.mem, m', b')
      ensures Intact(s0, m')
    {
      FreshOnly(s0, s, m', c, h, base, b');
    }
  }

  /** A block that was not in use does not count. */
  lemma FreshOnly(s0: Snap, s: Snap, m': Mem, c: Ctx, h: nat, base: nat, b: nat)
    requires Fresh(s0, s, c, h, base) && b !in s0.pos && OnlyBlock(s.mem, m', b)
    ensures Intact(s0, m')
  {
    forall x {:trigger Get(m', x)} | x in s0.pos
      ensures Get(m', x) == Get(s0.mem, x)
    {
      assert Get(s.mem, x) == Get(s0.mem, x);
    }
  }

  /** Storing the entry in a copy. */
  lemma StoreQuiet(s0: Snap, s: Snap, s': Snap, c: Ctx, prev: nat, blockno: nat, h: nat, base: nat, first: nat, no: nat, cnew: nat)
    requires h > 0 && no < 512 && base % 4096 == 0 && Awaiting(s0, s, c, prev, blockno, h, base, first, no, cnew) && blockno != prev
    requires blockno in s.mem && s' == Snap(s.mem[blockno := Get(s.mem, blockno)[no := ToWord(cnew)]], s.pos, s.freed, s.crashes + iset{s'.mem})
    ensures LoopOk(s0, s', c, prev, blockno, h, base, first, no + 1)
  {
    hide Holds;
    assert OnlyBlock(s.mem, s'.mem, blockno) && s'.mem.Keys == s.mem.Keys;
    FreshOnly(s0, s, s'.mem, c, h, base, blockno);
    var tbl := Get(s.mem, blockno)[no := ToWord(cnew)];
    forall k: nat {:trigger ChildBase(h, base, k)} | k < 512 && ChildBase(h, base, k) < End(c)
      ensures EntryOk(s0, s', c, prev, blockno, h, base, first, no + 1, k)
    {
      assert AwaitingEntry(s0, s, c, prev, tbl, h, base, first, no, k);
      LevelHolds(s, s', c, h, base, tbl, blockno, k, first <= k <= no);
    }
  }

  /** The entries outside first to last have nothing to change. */
  ghost predicate Idle(c: Ctx, h: nat, base: nat, first: nat, last: nat)
    requires h > 0
  {
    forall k: nat {:trigger ChildBase(h, base, k)} | k < 512 && !(first <= k <= last) :: Agree(c, h - 1, ChildBase(h, base, k))
  }

  /** Storing the only changed entry in place commits. */
  lemma EntryStored(s0: Snap, s: Snap, s': Snap, c: Ctx, prev: nat, h: nat, base: nat, no: nat, cnew: nat)
    requires h > 0 && no < 512 && base % 4096 == 0 && Awaiting(s0, s, c, prev, prev, h, base, no, no, cnew) && Idle(c, h, base, no, no)
    requires prev in s.mem && s' == Snap(s.mem[prev := Get(s.mem, prev)[no := ToWord(cnew)]], s.pos, s.freed, s.crashes + iset{s'.mem})
    requires CtxOk(c)
    ensures Stored(s0, s', c, h, base) && Holds(s', s'.freed, c, prev, h, base, true)
  {
    var tbl := Get(s.mem, prev)[no := ToWord(cnew)];
    assert OnlyBlock(s.mem, s'.mem, prev) && s'.mem.Keys == s.mem.Keys;
    forall k: nat {:trigger ChildBase(h, base, k)} | k < 512 && ChildBase(h, base, k) < End(c)
      ensures SlotHolds(s', s'.freed, c, tbl, h, base, k, true)
    {
      hide Holds, Agree;
      assert AwaitingEntry(s0, s, c, prev, tbl, h, base, no, no, k);
      LevelHolds(s, s', c, h, base, tbl, prev, k, no <= k <= no);
      if k != no {
        HoldsAgree(s', s'.freed, c, Addr(tbl, k), h - 1, ChildBase(h, base, k));
      }
    }
    HoldsTable(s', s'.freed, c, prev, h, base, true);
    hide Holds, SlotHolds, Idle;
    StoredIn(s0, s, s', c, h, base, prev);
  }

  lemma StoredIn(s0: Snap, s: Snap, s': Snap, c: Ctx, h: nat, base: nat, b: nat)
    requires Fresh(s0, s, c, h, base) && b in s0.pos && Owned(c, s0.pos[b], h, base) && OnlyBlock(s.mem, s'.mem, b) && s'.mem.Keys == s.mem.Keys
    requires s'.pos == s.pos && s'.freed == s.freed && s'.crashes == s.crashes + iset{s'.mem}
    ensures Stored(s0, s', c, h, base)
  {
    forall x {:trigger Get(s'.mem, x)} | x in s0.pos && !Owned(c, s0.pos[x], h, base)
      ensures Get(s'.mem, x) == Get(s0.mem, x)
    {
      assert Get(s.mem, x) == Get(s0.mem, x);
    }
  }

  /** All entries have been crawled. */
  lemma EntriesDone(s0: Snap, s: Snap, c: Ctx, prev: nat, blockno: nat, h: nat, base: nat, first: nat, last: nat)
    requires h > 0 && LoopOk(s0, s, c, prev, blockno, h, base, first, last + 1) && Idle(c, h, base, first, last) && CtxOk(c)
    ensures Outcome(s0, s, c, prev, h, base, 0, blockno, false)
  {
    var tbl := Get(s.mem, blockno);
    forall k: nat {:trigger ChildBase(h, base, k)} | k < 512 && ChildBase(h, base, k) < End(c)
      ensures SlotHolds(s, s.freed, c, tbl, h, base, k, true)
    {
      hide Holds, Agree;
      assert EntryOk(s0, s, c, prev, blockno, h, base, first, last + 1, k);
      if !(first <= k <= last) {
        HoldsAgree(s, s.freed, c, Addr(tbl, k), h - 1, ChildBase(h, base, k));
      }
    }
    hide Holds, SlotHolds, Idle, Fresh;
    HoldsTable(s, s.freed, c, blockno, h, base, true);
  }

  /** The entry committed in place: so has the table. */
  lemma ChildCommits(s0: Snap, s1: Snap, c: Ctx, prev: nat, h: nat, base: nat, no: nat)
    requires h > 0 && no < 512 && base % 4096 == 0 && prev != 0 && Holds(s0, s0.freed, c, prev, h, base, false) && Idle(c, h, base, no, no)
    requires Outcome(s0, s1, c, Addr(Get(s0.mem, prev), no), h - 1, ChildBase(h, base, no), 0, Addr(Get(s0.mem, prev), no), true)
    ensures Outcome(s0, s1, c, prev, h, base, 0, prev, true)
  {
    LoopStart(s0, c, prev, h, base, no);
    var tbl, cb := Get(s0.mem, prev), ChildBase(h, base, no);
    assert prev in s0.pos && s0.pos[prev] == Label(TreeOf(c), h, base) && prev !in s0.freed && CtxOk(c);
    forall k: nat {:trigger ChildBase(h, base, k)} | k < 512 && ChildBase(h, base, k) < End(c)
      ensures SlotHolds(s1, s1.freed, c, tbl, h, base, k, true)
    {
      hide Holds, Agree, Stored;
      if k != no {
        assert EntryOk(s0, s0, c, prev, prev, h, base, no, no, k);
        SiblingHolds(s0, s1, c, h, base, tbl, no, k, false);
        HoldsAgree(s1, s1.freed, c, Addr(tbl, k), h - 1, ChildBase(h, base, k));
      }
    }
    assert Get(s1.mem, prev) == tbl;
    StoredUp(s0, s1, c, h, base, no);
    NotFreedStored(s0, s1, c, prev, h, base, no);
    hide Holds, SlotHolds, Idle, Stored, LoopOk;
    HoldsTable(s1, s1.freed, c, prev, h, base, true);
  }

  lemma NotFreedStored(s1: Snap, s2: Snap, c: Ctx, b: nat, h: nat, base: nat, no: nat)
    requires h > 0 && no < 512 && Stored(s1, s2, c, h - 1, ChildBase(h, base, no))
    requires b in s1.pos && s1.pos[b] == Label(TreeOf(c), h, base) && b !in s1.freed
    ensures b in s2.pos && s2.pos[b] == s1.pos[b] && b !in s2.freed
  {
  }
}

/** crawl_data_2: two words, in one file or in two, are replaced by one commit. */
module RenameCrawl {
  import opened Words
  import opened Geometry
  import opened Tree
  import opened Bpram
  import opened WriteSpec
  import opened WriteCrawl
  import opened CrawlArithmetic
  import opened CrawlSlots
  import opened WriteIndir
  import opened Root
  import opened Height
  import opened TreeSpace
  import opened Volume
  import opened RenameSpec
  import opened RenameLoop
  import opened SpaceSpec
  import opened RenameSpace

  /** The two words: index of the inode, offset in its file, new value; in ascending order. */
  datatype Two = Two(k0: nat, x0: nat, w0: Word, k1: nat, x1: nat, w1: Word)

  /** What a crawl is over: the inode tree, one file for both words, or one file for one of them. */
  datatype What = Inodes | Both | One(second: bool)

  function Put(f: seq<Byte>, x: nat, w: Word): (g: seq<Byte>)
    requires x + 8 <= |f|
    ensures |g| == |f| && forall y {:trigger g[y]} | 0 <= y < |f| :: g[y] == if x <= y < x + 8 then w[y - x] else f[y]
  {
    f[..x] + w + f[x + 8..]
  }

  predicate TwoOk(q: Two) {
    q.x0 % 8 == 0 && q.x1 % 8 == 0 && (q.k0 < q.k1 || (q.k0 == q.k1 && q.x0 < q.x1))
  }

  predicate TwoFit(q: Two, files: map<nat, File>) {
    && TwoOk(q) && q.k0 in files && q.k1 in files
    && q.x0 + 8 <= |files[q.k0].bytes| && q.x1 + 8 <= |files[q.k1].bytes|
  }

  /** The volume with both words replaced. */
  function Replaced(files: map<nat, File>, q: Two): map<nat, File>
    requires TwoFit(q, files)
  {
    var files1 := WithBytes(files, q.k0, Put(files[q.k0].bytes, q.x0, q.w0));
    WithBytes(files1, q.k1, Put(files1[q.k1].bytes, q.x1, q.w1))
  }

  predicate OneFor(q: Two, second: bool, t: nat, was: seq<Byte>, now: seq<Byte>) {
    if second then t == q.k1 + 1 && q.x1 + 8 <= |was| && now == Put(was, q.x1, q.w1)
    else t == q.k0 + 1 && q.x0 + 8 <= |was| && now == Put(was, q.x0, q.w0)
  }

  ghost predicate CtxFor(q: Two, what: What, c: Ctx) {
    CtxOk(c) && TwoOk(q) &&
    match what
    case Inodes => c.InodeCtx? && TwoFit(q, c.old0) && c.new0 == Replaced(c.old0, q) && q.k0 in c.dirs && q.k1 in c.dirs
    case Both => c.FileCtx? && c.t == q.k0 + 1 && q.k0 == q.k1 && q.x1 + 8 <= |c.was| && c.now == Put(Put(c.was, q.x0, q.w0), q.x1, q.w1)
    case One(second) => c.FileCtx? && OneFor(q, second, c.t, c.was, c.now)
  }

  function Lo(q: Two, what: What): nat {
    match what
    case Inodes => InodeOff(q.k0)
    case Both => q.x0
    case One(second) => if second then q.x1 else q.x0
  }

  function Hi(q: Two, what: What): nat {
    match what
    case Inodes => InodeOff(q.k1) + 128
    case Both => q.x1 + 1
    case One(second) => (if second then q.x1 else q.x0) + 1
  }

  /** The words of one file: a changed leaf is copied. */
  function FileEnds(q: Two, what: What): Ends {
    Ends(Lo(q, what), Hi(q, what) - 1, 1, 1, Bill(1, true), 1)
  }

  /** What a crawl of a file costs, with the copy of the block of its root if that must move. */
  function RootPrice(q: Two, what: What, h: nat, commit: Commit, refed: bool): nat {
    var p := Price(FileEnds(q, what), h, 0, commit);
    p.cost + if p.moved && commit != Atomic && refed then 1 else 0
  }

  function HeightOf(c: Ctx, k: nat): nat {
    if c.InodeCtx? && k in c.heights then c.heights[k] else 0
  }

  /** The inodes of the two files. Two in one block are changed one after the other in the same copy of it. */
  function InodeEnds(q: Two, c: Ctx): Ends {
    var h0, h1 := HeightOf(c, q.k0), HeightOf(c, q.k1);
    var cx, cy := RootPrice(q, One(false), h0, CopyOnly, true), RootPrice(q, One(true), h1, CopyOnly, true);
    var both := cx + RootPrice(q, One(true), h1, CopyOnly, false);
    if q.k0 == q.k1 then
      Ends(InodeOff(q.k0), InodeOff(q.k0), cx, cx, Bill(RootPrice(q, Both, h0, Atomic, true), false), RootPrice(q, Both, h0, CopyOnly, true))
    else Ends(InodeOff(q.k0), InodeOff(q.k1), cx, cy, Bill(both, true), both)
  }

  function EndsOf(q: Two, what: What, c: Ctx): Ends {
    if what.Inodes? then InodeEnds(q, c) else FileEnds(q, what)
  }

  /** The crawl from s0 to s1 cost that much, and its root moved from a to a' if it should. */
  ghost predicate Charged(s0: Snap, s1: Snap, b: Bill, r: int, a: nat, a': nat) {
    Spent(s0, s1, b.cost, r) && (r == 0 ==> (a' != a <==> b.moved))
  }

  lemma ChargedNone(s: Snap, a: nat)
    ensures Charged(s, s, Bill(0, false), 0, a, a)
  {
  }

  /** One block taken, or none free. */
  lemma CopyTaken(s0: Snap, s1: Snap, b: nat)
    requires b in s0.mem && b !in s0.pos && b in s1.pos && s1.pos == s0.pos[b := s1.pos[b]] && s1.mem.Keys == s0.mem.Keys
    ensures Room(s0) == Room(s1) + 1
  {
    OneTaken(s0.mem, s0.pos, b, s1.pos[b]);
    SameFree(s0.mem, s1.mem, s1.pos);
  }

  lemma SameRoom(s0: Snap, s1: Snap)
    requires s1.pos == s0.pos && s1.mem.Keys == s0.mem.Keys
    ensures Room(s1) == Room(s0)
  {
    SameFree(s0.mem, s1.mem, s0.pos);
  }

  /** The leaf of a file. */
  lemma FileLeafPrice(q: Two, what: What, base: nat, commit: Commit)
    requires base % 4096 == 0 && !what.Inodes?
    ensures var has := LeafStart(Lo(q, what)) == base || LeafStart(Hi(q, what) - 1) == base;
      Price(FileEnds(q, what), 0, base, commit) == Bill(if has then 1 else 0, has)
  {
    InLeaf(Lo(q, what), base);
    InLeaf(Hi(q, what) - 1, base);
  }

  /** The job j describes the range of a crawl. */
  ghost predicate Task(q: Two, what: What, c: Ctx, j: Job) {
    && CtxFor(q, what, c) && Local(c, Lo(q, what), Hi(q, what))
    && j.lo == Lo(q, what) && j.Hi() == Hi(q, what) && |j.was| == End(c)
  }

  lemma WordInLeaf(x: nat)
    requires x % 8 == 0
    ensures LeafStart(x) <= x && x + 8 <= LeafStart(x) + 4096
  {
  }

  lemma LeafStartMono(x: nat, y: nat)
    requires x <= y
    ensures LeafStart(x) <= LeafStart(y)
  {
  }

  lemma TaskMade(q: Two, what: What, c: Ctx, j: Job)
    requires CtxFor(q, what, c) && j.lo == Lo(q, what) && j.Hi() == Hi(q, what) && |j.was| == End(c)
    ensures Task(q, what, c, j)
  {
    WordInLeaf(q.x0);
    WordInLeaf(q.x1);
    if what.Both? {
      LeafStartMono(q.x0, q.x1);
    }
  }

  /** Replaces a word in a copy of the block, or in place when the block is a copy already. */
  method SetWord(fs: Bpram, blockno: nat, i: nat, w: Word, copy: bool) returns (r: int, newno: nat)
    requires fs.Valid() && blockno in fs.used && blockno != 0 && i < 512
    modifies fs
    ensures fs.Valid() && fs.mem.Keys == old(fs.mem.Keys) && (r == 0 || r == ENOSPC)
    ensures r != 0 ==> copy && Now(fs) == old(Now(fs))
    ensures r == 0 && copy ==>
      && newno != 0 && newno !in old(fs.pos) && fs.pos == old(fs.pos)[newno := old(fs.pos)[blockno]] && fs.freed == old(fs.freed) + {blockno}
    ensures r == 0 && !copy ==> newno == blockno && fs.pos == old(fs.pos) && fs.freed == old(fs.freed)
    ensures r == 0 ==> Get(fs.mem, newno) == Get(old(fs.mem), blockno)[i := w] && OnlyStores(old(Now(fs)), Now(fs), newno)
    ensures Charged(old(Now(fs)), Now(fs), Bill(if copy then 1 else 0, copy), r, blockno, newno)
  {
    hide *;
    NoSpaceCode();
    r, newno := 0, blockno;
    ghost var s0 := Now(fs);
    SameOnly(s0, blockno);
    InUse(fs, blockno);
    if copy {
      newno := fs.CowBlockEntire(blockno);
      if newno == 0 {
        NoRoom(s0, blockno);
        return ENOSPC, 0;
      }
      CopyTaken(s0, Now(fs), newno);
    }
    ghost var s := Now(fs);
    InUse(fs, newno);
    fs.StoreWord(newno, i, w);
    StoredOnly(s0, s, Now(fs), newno, i, w);
    SameRoom(s, Now(fs));
    ChargedCopy(s0, Now(fs), copy, blockno, newno);
  }

  lemma NoRoom(s: Snap, b: nat)
    requires FreeBlocks(s.mem, s.pos) == 0
    ensures Charged(s, s, Bill(1, true), ENOSPC, b, 0)
  {
  }

  lemma ChargedCopy(s0: Snap, s1: Snap, copy: bool, b: nat, b': nat)
    requires Room(s0) == Room(s1) + (if copy then 1 else 0) && (b' != b <==> copy)
    ensures Charged(s0, s1, Bill(if copy then 1 else 0, copy), 0, b, b')
  {
  }

  /** Since s0 at most block b was written. */
  ghost predicate OnlyStores(s0: Snap, s: Snap, b: nat) {
    && OnlyBlock(s0.mem, s.mem, b) && s0.crashes <= s.crashes
    && forall m' {:trigger m' in s.crashes} | m' in s.crashes :: m' in s0.crashes || OnlyBlock(s0.mem, m', b)
  }

  lemma SameOnly(s: Snap, b: nat)
    ensures OnlyStores(s, s, b)
  {
  }

  lemma InUse(fs: Bpram, b: nat)
    requires fs.Valid() && (b in fs.used || b in fs.pos)
    ensures b in fs.used && b in fs.mem && b in fs.pos
  {
  }

  lemma StoredOnly(s0: Snap, s: Snap, s': Snap, b: nat, i: nat, w: Word)
    requires i < 512 && b in s.mem && s'.mem == s.mem[b := Get(s.mem, b)[i := w]] && s'.crashes == s.crashes + iset{s'.mem} && OnlyStores(s0, s, b)
    ensures Get(s'.mem, b) == Get(s.mem, b)[i := w] && OnlyStores(s0, s', b) && s'.mem.Keys == s.mem.Keys
  {
    forall c {:trigger Get(s'.mem, c)} | c != b
      ensures Get(s'.mem, c) == Get(s0.mem, c)
    {
      assert Get(s'.mem, c) == Get(s.mem, c);
    }
  }

  /** Word of its block where offset x starts. */
  function WordOf(x: nat): (i: nat)
    ensures i < 512
  {
    x % 4096 / 8
  }

  lemma ByteOfWord(x: nat, y: nat, base: nat)
    requires x % 8 == 0 && LeafStart(x) == base && base <= y < base + 4096
    ensures (y - base) / 8 == WordOf(x) <==> x <= y < x + 8
    ensures x <= y < x + 8 ==> (y - base) % 8 == y - x
  {
  }

  /** Replacing a word of a leaf. */
  lemma LeafPut(m: Mem, m': Mem, a: nat, a': nat, base: nat, f: seq<Byte>, x: nat, w: Word)
    requires a != 0 && a' != 0 && Shows(m, a, 0, base, f) && x % 8 == 0 && LeafStart(x) == base && x + 8 <= |f|
    requires Get(m', a') == Get(m, a)[WordOf(x) := w]
    ensures Shows(m', a', 0, base, Put(f, x, w))
  {
    var g := Put(f, x, w);
    hide WordOf, LeafStart;
    forall y: nat {:trigger Read(m', a', 0, base, y)} | base <= y < base + Cap(0) && y < |g|
      ensures Read(m', a', 0, base, y) == g[y]
    {
      ByteOfWord(x, y, base);
      assert Read(m, a, 0, base, y) == f[y];
    }
  }

  /** The words that lie in the leaf at base replaced. */
  function Edited(f: seq<Byte>, q: Two, base: nat): (g: seq<Byte>)
    requires q.x0 + 8 <= |f| && q.x1 + 8 <= |f|
    ensures |g| == |f|
  {
    var f0 := if LeafStart(q.x0) == base then Put(f, q.x0, q.w0) else f;
    if LeafStart(q.x1) == base then Put(f0, q.x1, q.w1) else f0
  }

  lemma EditedNow(m: Mem, a: nat, q: Two, c: Ctx, base: nat)
    requires CtxFor(q, Both, c) && base % 4096 == 0 && Shows(m, a, 0, base, Edited(c.was, q, base))
    ensures Shows(m, a, 0, base, c.now)
  {
    hide LeafStart;
    var g := Edited(c.was, q, base);
    forall y: nat {:trigger Read(m, a, 0, base, y)} | base <= y < base + Cap(0) && y < |c.now|
      ensures Read(m, a, 0, base, y) == c.now[y]
    {
      LeafStartAt(q.x0, y, base);
      LeafStartAt(q.x1, y, base);
      assert Read(m, a, 0, base, y) == g[y];
    }
  }

  lemma LeafStartAt(x: nat, y: nat, base: nat)
    requires x % 8 == 0 && base % 4096 == 0 && base <= y < base + 4096
    ensures x <= y < x + 8 ==> LeafStart(x) == base
  {
    WordInLeaf(x);
    hide LeafStart;
    if x <= y < x + 8 {
      SameLeaf(LeafStart(x), base, y);
    }
  }

  lemma SameLeaf(a: nat, b: nat, y: nat)
    requires a % 4096 == 0 && b % 4096 == 0 && a <= y < a + 4096 && b <= y < b + 4096
    ensures a == b
  {
  }

  /** Which of the two words a piece of the range shows to contain. */
  lemma Masks(q: Two, what: What, c: Ctx, j: Job, base: nat, blockoff: nat, off: nat, size: nat, valid: nat)
    requires Task(q, what, c, j) && Share(j, 0, base, blockoff, off, size, valid) && !what.Inodes?
    ensures blockoff * 4096 == base
    ensures what.Both? ==> (blockoff * 4096 + off == q.x0 <==> LeafStart(q.x0) == base)
    ensures what.Both? ==> (blockoff * 4096 + off + size == q.x1 + 1 <==> LeafStart(q.x1) == base)
    ensures what.One? ==> LeafStart(Lo(q, what)) == base
  {
    ShareFacts(j, 0, base, blockoff, off, size, valid);
    InLeaf(q.x0, base);
    InLeaf(q.x1, base);
  }

  lemma InLeaf(x: nat, base: nat)
    requires base % 4096 == 0
    ensures LeafStart(x) == base <==> base <= x < base + 4096
  {
  }

  /** One replacement in a copy of the leaf. */
  lemma LeafCopied(s0: Snap, s1: Snap, c: Ctx, g: seq<Byte>, a: nat, a': nat, base: nat, x: nat, w: Word)
    requires c.FileCtx? && Holds(s0, s0.freed, c, a, 0, base, false) && a != 0 && s0.freed <= s0.pos.Keys
    requires x % 8 == 0 && LeafStart(x) == base && x + 8 <= |c.was| && g == Put(c.was, x, w)
    requires a' != 0 && a' !in s0.pos && s1.pos == s0.pos[a' := s0.pos[a]] && s1.freed == s0.freed + {a} && s1.mem.Keys == s0.mem.Keys
    requires Get(s1.mem, a') == Get(s0.mem, a)[WordOf(x) := w] && OnlyBlock(s0.mem, s1.mem, a') && s0.crashes <= s1.crashes
    requires forall m' {:trigger m' in s1.crashes} | m' in s1.crashes :: m' in s0.crashes || OnlyBlock(s0.mem, m', a')
    ensures Fresh(s0, s1, c, 0, base) && Shows(s1.mem, a', 0, base, g)
    ensures a' in s1.pos && s1.pos[a'] == Label(c.t, 0, base) && a' !in s1.freed
  {
    LeafPut(s0.mem, s1.mem, a, a', base, c.was, x, w);
    FreshSame(s0, c, 0, base);
    hide Shows, Fresh, Get;
    FreshCopy(s0, s0, s1, c, 0, base, a, a');
  }

  lemma LeafDone(s0: Snap, s1: Snap, c: Ctx, a: nat, a': nat, base: nat)
    requires c.FileCtx? && CtxOk(c) && Fresh(s0, s1, c, 0, base) && Shows(s1.mem, a', 0, base, c.now)
    requires a' != 0 && a' in s1.pos && s1.pos[a'] == Label(c.t, 0, base) && a' !in s1.freed && (a' != a ==> a' !in s0.pos)
    ensures Outcome(s0, s1, c, a, 0, base, 0, a', false)
  {
  }

  /** The second replacement, in the copy that the first one made. */
  lemma LeafAgain(s0: Snap, s1: Snap, s2: Snap, c: Ctx, g: seq<Byte>, a: nat, base: nat, x: nat, w: Word)
    requires c.FileCtx? && Fresh(s0, s1, c, 0, base) && Shows(s1.mem, a, 0, base, g) && a != 0 && a !in s0.pos
    requires x % 8 == 0 && LeafStart(x) == base && x + 8 <= |g|
    requires s2.pos == s1.pos && s2.freed == s1.freed && s2.mem.Keys == s1.mem.Keys && s1.crashes <= s2.crashes
    requires Get(s2.mem, a) == Get(s1.mem, a)[WordOf(x) := w] && OnlyBlock(s1.mem, s2.mem, a)
    requires forall m' {:trigger m' in s2.crashes} | m' in s2.crashes :: m' in s1.crashes || OnlyBlock(s1.mem, m', a)
    ensures Fresh(s0, s2, c, 0, base) && Shows(s2.mem, a, 0, base, Put(g, x, w))
  {
    LeafPut(s1.mem, s2.mem, a, a, base, g, x, w);
    forall m': Mem | OnlyBlock(s1.mem, m', a)
      ensures Intact(s0, m')
    {
      FreshOnly(s0, s1, m', c, 0, base, a);
    }
  }

  /** The callbacks for a leaf of a file: callback_set_dirent_ino, directly or through callback_crawl_data_2_tree. */
  method FileLeaf(fs: Bpram, prev: nat, blockoff: nat, off: nat, size: nat, q: Two, what: What,
                  ghost commit: Commit, ghost c: Ctx, ghost j: Job, ghost base: nat, ghost valid: nat) returns (r: int, newno: nat)
    requires fs.Valid() && !what.Inodes? && Task(q, what, c, j) && Share(j, 0, base, blockoff, off, size, valid)
    requires prev != 0 && Holds(Now(fs), fs.freed, c, prev, 0, base, false)
    modifies fs
    ensures fs.Valid() && Outcome(old(Now(fs)), Now(fs), c, prev, 0, base, r, newno, false)
    ensures what.One? && r == 0 ==> newno != prev
    ensures Charged(old(Now(fs)), Now(fs), Price(FileEnds(q, what), 0, base, commit), r, prev, newno)
  {
    ghost var s0 := Now(fs);
    LeafFacts(fs, c, prev, base, j, blockoff, off, size, valid, q, what);
    hide *;
    Masks(q, what, c, j, base, blockoff, off, size, valid);
    FileLeafPrice(q, what, base, commit);
    LeafEnds(q, what);
    newno := prev;
    if what.One? {
      var x, w := if what.second then q.x1 else q.x0, if what.second then q.w1 else q.w0;
      r, newno := SetWord(fs, prev, WordOf(x), w, true);
      if r != 0 {
        Unchanged(s0, Now(fs), c, prev, 0, base, r, newno);
        return;
      }
      LeafCopied(s0, Now(fs), c, c.now, prev, newno, base, x, w);
      LeafDone(s0, Now(fs), c, prev, newno, base);
    } else {
      var first := blockoff * 4096 + off == q.x0;
      var last := blockoff * 4096 + off + size == q.x1 + 1;
      r, newno := BothLeaf(fs, prev, first, last, q, c, base);
    }
  }

  lemma LeafEnds(q: Two, what: What)
    ensures what.Both? ==> Lo(q, what) == q.x0 && Hi(q, what) == q.x1 + 1
    ensures what.One? ==> Lo(q, what) == (if what.second then q.x1 else q.x0) && Hi(q, what) - 1 == Lo(q, what)
  {
  }

  /** What the callbacks use of the leaf they find. */
  lemma LeafFacts(fs: Bpram, c: Ctx, prev: nat, base: nat, j: Job, blockoff: nat, off: nat, size: nat, valid: nat, q: Two, what: What)
    requires fs.Valid() && !what.Inodes? && Task(q, what, c, j) && Share(j, 0, base, blockoff, off, size, valid)
    requires prev != 0 && Holds(Now(fs), fs.freed, c, prev, 0, base, false)
    ensures prev in fs.used && prev in fs.pos && c.FileCtx? && fs.pos[prev] == Label(c.t, 0, base) && prev !in fs.freed && CtxOk(c) && base % 4096 == 0
    ensures Shows(fs.mem, prev, 0, base, c.was) && CtxFor(q, what, c)
    ensures what.One? ==> c.now == Put(c.was, Lo(q, what), if what.second then q.w1 else q.w0) && Lo(q, what) + 8 <= |c.was| && Lo(q, what) % 8 == 0
  {
    hide Shows, LeafStart;
  }

  /** callback_crawl_data_2_tree, once it is known which of the two words lie in the leaf. */
  method BothLeaf(fs: Bpram, prev: nat, first: bool, last: bool, q: Two, ghost c: Ctx, ghost base: nat) returns (r: int, newno: nat)
    requires fs.Valid() && CtxFor(q, Both, c) && base % 4096 == 0 && prev != 0 && Holds(Now(fs), fs.freed, c, prev, 0, base, false)
    requires first == (LeafStart(q.x0) == base) && last == (LeafStart(q.x1) == base)
    modifies fs
    ensures fs.Valid() && Outcome(old(Now(fs)), Now(fs), c, prev, 0, base, r, newno, false)
    ensures Charged(old(Now(fs)), Now(fs), Bill(if first || last then 1 else 0, first || last), r, prev, newno)
  {
    ghost var s0 := Now(fs);
    FreshSame(s0, c, 0, base);
    ChargedNone(s0, prev);
    assert prev in fs.pos && fs.pos[prev] == Label(c.t, 0, base) && prev !in fs.freed && CtxOk(c) && Shows(s0.mem, prev, 0, base, c.was);
    ghost var f0 := if first then Put(c.was, q.x0, q.w0) else c.was;
    hide Holds, Outcome, Fresh, Shows, LeafStart, WordOf, FreeBlocks;
    r, newno := 0, prev;
    if first {
      r, newno := SetWord(fs, prev, WordOf(q.x0), q.w0, true);
      if r != 0 {
        Unchanged(s0, Now(fs), c, prev, 0, base, r, newno);
        return;
      }
      LeafCopied(s0, Now(fs), c, f0, prev, newno, base, q.x0, q.w0);
    }
    if last {
      ghost var s1, b1 := Now(fs), newno;
      r, newno := SetWord(fs, newno, WordOf(q.x1), q.w1, newno == prev);
      if r != 0 {
        Unchanged(s0, Now(fs), c, prev, 0, base, r, newno);
        return;
      }
      if first {
        LeafAgain(s0, s1, Now(fs), c, f0, b1, base, q.x1, q.w1);
      } else {
        LeafCopied(s0, Now(fs), c, Put(f0, q.x1, q.w1), prev, newno, base, q.x1, q.w1);
      }
    }
    EditedNow(fs.mem, newno, q, c, base);
    LeafDone(s0, Now(fs), c, prev, newno, base);
  }

  lemma Unchanged(s0: Snap, s1: Snap, c: Ctx, a: nat, h: nat, base: nat, r: int, a': nat)
    requires s1 == s0 && r == ENOSPC
    ensures Outcome(s0, s1, c, a, h, base, r, a', false)
  {
    FreshSame(s0, c, h, base);
  }

  /** What a crawl of one file leaves: rb' holds the inode, and the file is as it should become. */
  ghost predicate RootDone(s0: Snap, s1: Snap, k: nat, rb: nat, rb': nat, now: seq<Byte>, refed: bool, r: int, committed: bool) {
    var ro := RootWordOf(k);
    && rb in s0.pos && (r == 0 || r == ENOSPC) && (committed ==> refed && r == 0 && rb' == rb)
    && s1.mem.Keys == s0.mem.Keys && Extends(s0.pos, s1.pos) && s0.freed <= s1.freed && s0.crashes <= s1.crashes
    && (forall b {:trigger b in s1.freed} | b in s1.freed && b !in s0.freed :: b in s1.pos && (s1.pos[b].tree == k + 1 || (refed && b == rb)))
    && (forall b {:trigger Get(s1.mem, b)} | b in s0.pos && b != rb && !(committed && s0.pos[b].tree == k + 1) :: Get(s1.mem, b) == Get(s0.mem, b))
    && (!committed && refed ==> Get(s1.mem, rb) == Get(s0.mem, rb))
    && (forall m' {:trigger m' in s1.crashes} | m' in s1.crashes ::
          m' in s0.crashes || IntactBut(s0, m', rb, !refed) || (committed && m' == s1.mem))
    && (r == 0 ==>
          && rb' != 0 && rb' in s1.pos && s1.pos[rb'] == s0.pos[rb] && rb' !in s1.freed
          && (rb' != rb ==> refed && rb' !in s0.pos)
          && (forall i {:trigger Get(s1.mem, rb')[i]} | 0 <= i < 512 && i != ro :: Get(s1.mem, rb')[i] == Get(s0.mem, rb)[i])
          && FileShows(s1.mem, rb', ro, now) && FileProper(s1, s1.freed, k + 1, rb', ro) && HaHeight(Get(s1.mem, rb'), ro) == HaHeight(Get(s0.mem, rb), ro)
          && Whole(s1.mem, rb', ro))
  }

  /** Nothing that was in use has changed, save perhaps rb. */
  ghost predicate IntactBut(s: Snap, m': Mem, rb: nat, but: bool) {
    forall b {:trigger Get(m', b)} | b in s.pos && !(but && b == rb) :: Get(m', b) == Get(s.mem, b)
  }

  /** Only the file of inode k is to change. */
  ghost predicate OneInode(c: Ctx, k: nat, now: seq<Byte>) {
    c.InodeCtx? && CtxOk(c) && k in c.v.live && c.new0 == WithBytes(c.old0, k, now)
  }

  lemma WordsApart(blk: Block, blk': Block, i: nat, k: nat)
    requires i != k && LeafStart(InodeOff(i)) == LeafStart(InodeOff(k))
    requires forall n {:trigger blk'[n]} | 0 <= n < 512 && n != RootWordOf(k) :: blk'[n] == blk[n]
    ensures forall j {:trigger InodeWord(blk', i, j)} | 0 <= j < 16 :: InodeWord(blk', i, j) == InodeWord(blk, i, j)
  {
    forall j {:trigger InodeWord(blk', i, j)} | 0 <= j < 16
      ensures InodeWord(blk', i, j) == InodeWord(blk, i, j)
    {
      InodesApart(i, k, j);
      hide RootWordOf, LeafStart;
    }
  }

  /** The other inodes of the block. */
  lemma OtherInode(s0: Snap, s1: Snap, c: Ctx, k: nat, rb: nat, rb': nat, now: seq<Byte>, refed: bool, committed: bool, base: nat, i: nat)
    requires OneInode(c, k, now) && Inside(k, 0, base) && base % 4096 == 0 && Holds(s0, s0.freed, c, rb, 0, base, false) && rb != 0
    requires RootDone(s0, s1, k, rb, rb', now, refed, 0, committed)
    requires i in c.v.live && i != k && Inside(i, 0, base)
    ensures InodeHere(s1, s1.freed, i, rb', c.old0[i], i in c.dirs, c.heights[i])
  {
    hide InodeShows, FileProper, FileShows, HaHeight, RootWordOf, InodeWord, Holds, Inside, Whole, Get;
    OtherBefore(s0, c, rb, base, i);
    OtherWordsHere(s0, s1, k, rb, rb', now, refed, committed, base, i);
    OtherHeight(Get(s0.mem, rb), Get(s1.mem, rb'), i);
    assert rb' != 0 && Extends(s0.pos, s1.pos);
    InodeMovedTo(s0, s1, c.old0[i], i, rb, rb');
    if i in c.dirs {
      RootWords(Get(s0.mem, rb), i);
      RootWords(Get(s1.mem, rb'), i);
      WholeKept(s0, s1.mem, s0.freed, i + 1, rb, rb', RootWordOf(i));
    }
  }

  lemma OtherHeight(blk: Block, blk': Block, i: nat)
    requires forall j {:trigger InodeWord(blk', i, j)} | 0 <= j < 16 :: InodeWord(blk', i, j) == InodeWord(blk, i, j)
    ensures RootWordOf(i) < 511 && HaHeight(blk', RootWordOf(i)) == HaHeight(blk, RootWordOf(i))
  {
    RootWords(blk, i);
    RootWords(blk', i);
    hide InodeWord;
  }

  lemma OtherBefore(s0: Snap, c: Ctx, rb: nat, base: nat, i: nat)
    requires c.InodeCtx? && Holds(s0, s0.freed, c, rb, 0, base, false) && rb != 0 && i in c.v.live && Inside(i, 0, base)
    ensures InodeHere(s0, s0.freed, i, rb, c.old0[i], i in c.dirs, c.heights[i]) && rb in s0.pos && s0.pos[rb].tree == 0
  {
    assert FileOf(c, i, false) == c.old0[i] && InodeHere(s0, s0.freed, i, rb, c.old0[i], i in c.dirs, c.heights[i]);
    hide InodeHere, LeafStart;
  }

  lemma OtherWordsHere(s0: Snap, s1: Snap, k: nat, rb: nat, rb': nat, now: seq<Byte>, refed: bool, committed: bool, base: nat, i: nat)
    requires base % 4096 == 0 && Inside(k, 0, base) && Inside(i, 0, base) && i != k
    requires RootDone(s0, s1, k, rb, rb', now, refed, 0, committed)
    ensures forall j {:trigger InodeWord(Get(s1.mem, rb'), i, j)} | 0 <= j < 16 :: InodeWord(Get(s1.mem, rb'), i, j) == InodeWord(Get(s0.mem, rb), i, j)
  {
    hide LeafStart, InodeShows, FileProper, FileShows, HaHeight, RootWordOf, InodeOff, InodeWord;
    InLeaf(InodeOff(i), base);
    InLeaf(InodeOff(k), base);
    WordsApart(Get(s0.mem, rb), Get(s1.mem, rb'), i, k);
  }

  /** The inode whose file changed. */
  lemma ThisInode(s0: Snap, s1: Snap, c: Ctx, k: nat, rb: nat, rb': nat, now: seq<Byte>, refed: bool, committed: bool, base: nat)
    requires OneInode(c, k, now) && Inside(k, 0, base) && Holds(s0, s0.freed, c, rb, 0, base, false) && rb != 0
    requires RootDone(s0, s1, k, rb, rb', now, refed, 0, committed)
    ensures InodeHere(s1, s1.freed, k, rb', c.new0[k], k in c.dirs, c.heights[k])
  {
    assert FileOf(c, k, false) == c.old0[k] && InodeHere(s0, s0.freed, k, rb, c.old0[k], k in c.dirs, c.heights[k]);
    hide Holds, FileProper, FileShows, HaHeight, Whole;
    forall j {:trigger InodeWord(Get(s1.mem, rb'), k, j)} | 0 <= j < 16 && j != 4 && j != 5
      ensures InodeWord(Get(s1.mem, rb'), k, j) == c.new0[k].words[j]
    {
      assert InodeWord(Get(s0.mem, rb), k, j) == c.old0[k].words[j];
    }
  }

  lemma LeafHolds(s0: Snap, s1: Snap, c: Ctx, k: nat, rb: nat, rb': nat, now: seq<Byte>, refed: bool, committed: bool, base: nat)
    requires OneInode(c, k, now) && Inside(k, 0, base) && base % 4096 == 0 && Holds(s0, s0.freed, c, rb, 0, base, false) && rb != 0
    requires RootDone(s0, s1, k, rb, rb', now, refed, 0, committed)
    ensures Holds(s1, s1.freed, c, rb', 0, base, true)
  {
    assert s0.pos[rb] == Label(0, 0, base) && rb' in s1.pos && rb' !in s1.freed && s1.pos[rb'] == s0.pos[rb];
    assert Proper(s1.mem, s1.pos, s1.freed, 0, rb', 0, base, End(c));
    hide InodeHere, RootDone, Proper;
    forall i {:trigger FileOf(c, i, true)} | i in c.v.live && Inside(i, 0, base)
      ensures InodeHere(s1, s1.freed, i, LeafOf(s1.mem, rb', 0, base, InodeOff(i)), FileOf(c, i, true), i in c.dirs, c.heights[i])
    {
      if i == k {
        ThisInode(s0, s1, c, k, rb, rb', now, refed, committed, base);
      } else {
        OtherInode(s0, s1, c, k, rb, rb', now, refed, committed, base, i);
      }
    }
  }

  lemma RootFresh(s0: Snap, s1: Snap, c: Ctx, k: nat, rb: nat, rb': nat, now: seq<Byte>, r: int, committed: bool, base: nat)
    requires c.InodeCtx? && k in c.v.live && Inside(k, 0, base) && rb in s0.pos && s0.pos[rb] == Label(0, 0, base)
    requires RootDone(s0, s1, k, rb, rb', now, true, r, committed)
    ensures if committed then Stored(s0, s1, c, 0, base) else Fresh(s0, s1, c, 0, base)
  {
    hide FileShows, FileProper, HaHeight, RootWordOf, InodeOff;
  }

  /** A file before the crawl. */
  ghost predicate FileReady(s: Snap, c: Ctx, rb: nat, k: nat, lo: nat, hi: nat) {
    && c.FileCtx? && CtxOk(c) && c.t == k + 1 && lo < hi <= |c.was|
    && rb != 0 && rb in s.pos && s.pos[rb].tree == 0 && rb !in s.freed
    && FileShows(s.mem, rb, RootWordOf(k), c.was) && FileProper(s, s.freed, k + 1, rb, RootWordOf(k))
    && HaHeight(Get(s.mem, rb), RootWordOf(k)) <= 5 && Whole(s.mem, rb, RootWordOf(k))
  }

  /** Its tree. */
  lemma FileStart(s: Snap, c: Ctx, rb: nat, k: nat, lo: nat, hi: nat)
    requires FileReady(s, c, rb, k, lo, hi)
    ensures var blk, ro := Get(s.mem, rb), RootWordOf(k); var a, h := RootAddr(blk, ro), RootHeight(blk, ro);
      && Nbytes(blk, ro) == |c.was| <= Cap(h) && h == HaHeight(blk, ro) <= 5
      && Holds(s, s.freed, c, a, h, 0, false) && a != 0
      && a == Decode(blk[ro]) / 8
  {
    var blk, ro := Get(s.mem, rb), RootWordOf(k);
    hide RootWordOf;
    FileShowsTree(s.mem, rb, ro, c.was);
    hide Proper, Shows;
    assert InTree(s.mem, rb, ro, |c.was| - 1);
    forall x: nat {:trigger LeafOf(s.mem, RootAddr(blk, ro), RootHeight(blk, ro), 0, x)} | x < Cap(RootHeight(blk, ro)) && x < |c.was|
      ensures LeafOf(s.mem, RootAddr(blk, ro), RootHeight(blk, ro), 0, x) != 0
    {
      assert InTree(s.mem, rb, ro, x);
    }
    HoldsRoot(s, s.freed, c, RootAddr(blk, ro), RootHeight(blk, ro), 0, false);
  }

  /** The new tree under a root word makes the new file. */
  lemma FileMade(s: Snap, m': Mem, m: Mem, freed: set<nat>, c: Ctx, q: Two, what: What, rb: nat, rb': nat, k: nat, a': nat)
    requires CtxFor(q, what, c) && c.FileCtx? && CtxOk(c) && FileShows(m, rb, RootWordOf(k), c.was) && Hi(q, what) <= Cap(RootHeight(Get(m, rb), RootWordOf(k)))
    requires var blk, blk', ro := Get(m, rb), Get(m', rb'), RootWordOf(k);
      && Nbytes(blk', ro) == Nbytes(blk, ro) && Nbytes(blk, ro) > 0 && HaHeight(blk', ro) == HaHeight(blk, ro) && RootAddr(blk', ro) == a'
      && Shows(m', a', HaHeight(blk, ro), 0, c.now)
    ensures FileShows(m', rb', RootWordOf(k), c.now)
  {
    var ro := RootWordOf(k);
    var h := RootHeight(Get(m, rb), ro);
    hide RootWordOf;
    FileShowsTree(m, rb, ro, c.was);
    CapAligned(h);
    EditsBelow(q, what, c, Cap(h));
    FileShowsTree(m', rb', ro, c.now);
  }

  lemma EditsBelow(q: Two, what: What, c: Ctx, cap: nat)
    requires CtxFor(q, what, c) && c.FileCtx? && Hi(q, what) <= cap && cap % 4096 == 0
    ensures forall x: nat {:trigger c.now[x]} | cap <= x < |c.was| :: c.now[x] == c.was[x]
  {
    WordInLeaf(q.x0);
    WordInLeaf(q.x1);
    assert !what.Inodes?;
    if what.Both? {
      assert q.x1 < cap ==> LeafStart(q.x1) + 4096 <= cap;
      assert q.x0 < q.x1;
    } else {
      assert Lo(q, what) < cap ==> LeafStart(Lo(q, what)) + 4096 <= cap;
    }
  }

  /** The file as a crawl found it, its tree being a of height h. */
  ghost predicate Crawling(s0: Snap, c: Ctx, q: Two, what: What, rb: nat, k: nat, a: nat, h: nat) {
    && CtxFor(q, what, c) && FileReady(s0, c, rb, k, Lo(q, what), Hi(q, what))
    && a == RootAddr(Get(s0.mem, rb), RootWordOf(k)) && h == RootHeight(Get(s0.mem, rb), RootWordOf(k))
  }

  /** The block that holds the root is not part of the file's tree. */
  lemma RootBlockKept(s0: Snap, s1: Snap, c: Ctx, q: Two, what: What, rb: nat, k: nat, a: nat, h: nat, committed: bool)
    requires Crawling(s0, c, q, what, rb, k, a, h) && if committed then Stored(s0, s1, c, h, 0) else Fresh(s0, s1, c, h, 0)
    ensures Get(s1.mem, rb) == Get(s0.mem, rb) && rb in s1.pos && s1.pos[rb] == s0.pos[rb] && rb !in s1.freed
    ensures forall b {:trigger b in s1.freed} | b in s1.freed && b !in s0.freed :: b in s1.pos && s1.pos[b].tree == k + 1
    ensures forall b {:trigger Get(s1.mem, b)} | b in s0.pos && !(committed && s0.pos[b].tree == k + 1) :: Get(s1.mem, b) == Get(s0.mem, b)
  {
    hide FileShows, FileProper, Whole, RootWordOf, CtxFor;
  }

  lemma RootFails(s0: Snap, s1: Snap, c: Ctx, q: Two, what: What, rb: nat, k: nat, a: nat, h: nat, refed: bool, a': nat)
    requires Crawling(s0, c, q, what, rb, k, a, h) && Outcome(s0, s1, c, a, h, 0, ENOSPC, a', false)
    ensures RootDone(s0, s1, k, rb, 0, c.now, refed, ENOSPC, false)
  {
    hide FileShows, FileProper, Whole, RootWordOf, CtxFor, Holds;
    RootBlockKept(s0, s1, c, q, what, rb, k, a, h, false);
  }

  /** The file where root word and tree are as they should become. */
  lemma RootFile(s0: Snap, s: Snap, c: Ctx, q: Two, what: What, rb: nat, rb': nat, k: nat, a: nat, a': nat, h: nat)
    requires Crawling(s0, c, q, what, rb, k, a, h) && Holds(s, s.freed, c, a', h, 0, true)
    requires var blk, blk', ro := Get(s0.mem, rb), Get(s.mem, rb'), RootWordOf(k);
      blk'[ro + 1] == blk[ro + 1] && Decode(blk'[ro]) % 8 == h && Decode(blk'[ro]) / 8 == a'
    ensures FileShows(s.mem, rb', RootWordOf(k), c.now) && FileProper(s, s.freed, k + 1, rb', RootWordOf(k))
    ensures HaHeight(Get(s.mem, rb'), RootWordOf(k)) == HaHeight(Get(s0.mem, rb), RootWordOf(k)) && Whole(s.mem, rb', RootWordOf(k))
  {
    hide RootWordOf;
    FileStart(s0, c, rb, k, Lo(q, what), Hi(q, what));
    hide FileShows, Proper, Shows;
    FileMade(s, s.mem, s0.mem, s.freed, c, q, what, rb, rb', k, a');
    var blk', ro := Get(s.mem, rb'), RootWordOf(k);
    assert RootAddr(blk', ro) == a' && RootHeight(blk', ro) == h && Nbytes(blk', ro) == |c.was|;
    forall x: nat {:trigger InTree(s.mem, rb', ro, x)} | x < |c.was|
      ensures InTree(s.mem, rb', ro, x)
    {
      assert LeafOf(s.mem, a', h, 0, x) != 0;
    }
  }

  /** The tree kept its root. */
  lemma RootStays(s0: Snap, s1: Snap, c: Ctx, q: Two, what: What, rb: nat, k: nat, a: nat, h: nat, refed: bool, committed: bool)
    requires Crawling(s0, c, q, what, rb, k, a, h) && Outcome(s0, s1, c, a, h, 0, 0, a, committed) && (committed ==> refed)
    ensures RootDone(s0, s1, k, rb, rb, c.now, refed, 0, committed)
  {
    RootBlockKept(s0, s1, c, q, what, rb, k, a, h, committed);
    FileStart(s0, c, rb, k, Lo(q, what), Hi(q, what));
    RootFile(s0, s1, c, q, what, rb, rb, k, a, a, h);
    hide FileShows, FileProper, Whole, RootWordOf, CtxFor, Holds, Owned;
  }

  /** The new root word leads to the new tree. */
  lemma RootWordSet(s0: Snap, s1: Snap, s2: Snap, c: Ctx, q: Two, what: What, rb: nat, rb': nat, k: nat, a: nat, a': nat, h: nat)
    requires Crawling(s0, c, q, what, rb, k, a, h) && Holds(s1, s1.freed, c, a', h, 0, true) && h < 8 && a' < 0x2000_0000_0000_0000
    requires Get(s2.mem, rb') == Get(s0.mem, rb)[RootWordOf(k) := HaWord(h, a')]
    requires Extends(s1.pos, s2.pos) && OnlyBlock(s1.mem, s2.mem, rb') && (rb' in s1.pos ==> s1.pos[rb'].tree == 0)
    requires forall b {:trigger b in s2.freed} | b in s2.freed && b in s1.pos && b !in s1.freed :: s1.pos[b].tree == 0
    ensures FileShows(s2.mem, rb', RootWordOf(k), c.now) && FileProper(s2, s2.freed, k + 1, rb', RootWordOf(k))
    ensures HaHeight(Get(s2.mem, rb'), RootWordOf(k)) == HaHeight(Get(s0.mem, rb), RootWordOf(k)) && Whole(s2.mem, rb', RootWordOf(k))
    ensures forall i {:trigger Get(s2.mem, rb')[i]} | 0 <= i < 512 && i != RootWordOf(k) :: Get(s2.mem, rb')[i] == Get(s0.mem, rb)[i]
  {
    hide RootWordOf, Holds, HaWord, FileShows, FileProper, CtxFor, Whole;
    HaRoundTrip(h, a');
    HoldsFrame(s1, s2, s1.freed, s2.freed, c, a', h, 0, true);
    RootFile(s0, s2, c, q, what, rb, rb', k, a, a', h);
  }

  /** The root word is stored where the inode is: the commit, or a change of a block that is a copy already. */
  lemma RootStored(s0: Snap, s1: Snap, s2: Snap, c: Ctx, q: Two, what: What, rb: nat, k: nat, a: nat, a': nat, h: nat, refed: bool)
    requires Crawling(s0, c, q, what, rb, k, a, h) && Outcome(s0, s1, c, a, h, 0, 0, a', false) && h < 8 && a' < 0x2000_0000_0000_0000
    requires rb in s1.mem && s2 == Snap(s1.mem[rb := Get(s1.mem, rb)[RootWordOf(k) := HaWord(h, a')]], s1.pos, s1.freed, s1.crashes + iset{s2.mem})
    ensures RootDone(s0, s2, k, rb, rb, c.now, refed, 0, refed)
  {
    hide RootWordOf, Holds, HaWord, FileShows, FileProper, CtxFor, Whole, Owned, HaHeight;
    assert OnlyBlock(s1.mem, s2.mem, rb) && s2.mem.Keys == s1.mem.Keys && Get(s2.mem, rb) == Get(s1.mem, rb)[RootWordOf(k) := HaWord(h, a')];
    RootBlockKept(s0, s1, c, q, what, rb, k, a, h, false);
    RootWordSet(s0, s1, s2, c, q, what, rb, rb, k, a, a', h);
    hide FileReady, Get;
    StoreIntact(s0, s1, s2, c, h, rb, refed);
  }

  lemma StoreIntact(s0: Snap, s1: Snap, s2: Snap, c: Ctx, h: nat, rb: nat, refed: bool)
    requires Fresh(s0, s1, c, h, 0) && OnlyBlock(s1.mem, s2.mem, rb) && s2.crashes == s1.crashes + iset{s2.mem}
    ensures IntactBut(s0, s2.mem, rb, true)
    ensures forall m' {:trigger m' in s2.crashes} | m' in s2.crashes :: m' in s0.crashes || IntactBut(s0, m', rb, !refed) || (refed && m' == s2.mem)
  {
    forall b {:trigger Get(s2.mem, b)} | b in s0.pos && b != rb
      ensures Get(s2.mem, b) == Get(s0.mem, b)
    {
      assert Get(s1.mem, b) == Get(s0.mem, b);
    }
  }

  /** The root word is stored in a copy of the block. */
  lemma RootCopied(s0: Snap, s1: Snap, s2: Snap, c: Ctx, q: Two, what: What, rb: nat, nb: nat, k: nat, a: nat, a': nat, h: nat)
    requires Crawling(s0, c, q, what, rb, k, a, h) && Outcome(s0, s1, c, a, h, 0, 0, a', false) && h < 8 && a' < 0x2000_0000_0000_0000
    requires nb != 0 && nb !in s1.pos && rb in s1.pos && s2.pos == s1.pos[nb := s1.pos[rb]] && s2.freed == s1.freed + {rb} && s1.freed <= s1.pos.Keys
    requires s2.mem.Keys == s1.mem.Keys && Get(s2.mem, nb) == Get(s1.mem, rb)[RootWordOf(k) := HaWord(h, a')] && OnlyStores(s1, s2, nb)
    ensures RootDone(s0, s2, k, rb, nb, c.now, true, 0, false)
  {
    hide RootWordOf, Holds, HaWord, FileShows, FileProper, CtxFor, Whole, Owned, HaHeight;
    RootBlockKept(s0, s1, c, q, what, rb, k, a, h, false);
    RootWordSet(s0, s1, s2, c, q, what, rb, nb, k, a, a', h);
    hide FileReady, Get;
    CopyIntact(s0, s1, s2, c, h, nb);
  }

  lemma CopyIntact(s0: Snap, s1: Snap, s2: Snap, c: Ctx, h: nat, nb: nat)
    requires Fresh(s0, s1, c, h, 0) && nb !in s1.pos && OnlyBlock(s1.mem, s2.mem, nb)
    requires forall m' {:trigger m' in s2.crashes} | m' in s2.crashes :: m' in s1.crashes || OnlyBlock(s1.mem, m', nb)
    ensures Intact(s0, s2.mem) && nb !in s0.pos
    ensures forall m' {:trigger m' in s2.crashes} | m' in s2.crashes :: m' in s0.crashes || Intact(s0, m')
  {
    hide Owned;
    FreshOnly(s0, s1, s2.mem, c, h, 0, nb);
    forall m' {:trigger m' in s2.crashes} | m' in s2.crashes && m' !in s0.crashes
      ensures Intact(s0, m')
    {
      if m' !in s1.crashes {
        FreshOnly(s0, s1, m', c, h, 0, nb);
      }
    }
  }

  /** Where the entries from first to last lie. */
  lemma EntryBounds(j: Job, h: nat, base: nat, blockoff: nat, off: nat, size: nat, valid: nat, first: nat, last: nat)
    requires h > 0 && Share(j, h, base, blockoff, off, size, valid)
    requires first == FirstNo(off, Cap(h - 1)) && last == LastNo(off, size, Cap(h - 1))
    ensures first <= last < 512
    ensures base <= j.lo || first > 0 ==> ChildBase(h, base, first) <= j.lo
    ensures j.Hi() <= base + Cap(h) || last < 511 ==> j.Hi() <= ChildBase(h, base, last) + Cap(h - 1)
    ensures forall k: nat {:trigger ChildBase(h, base, k)} | first <= k <= last :: ChildBase(h, base, k) < j.Hi()
  {
    Setup(j, h, base, blockoff, off, size, valid, first, last, ValidNo(valid, Cap(h - 1)), CopyOnly);
    FullTable(h, base);
    forall k: nat {:trigger ChildBase(h, base, k)} | first <= k <= last
      ensures ChildBase(h, base, k) < j.Hi()
    {
      ShareChild(j, h, base, blockoff, off, size, valid, k, Cap(h - 1), first, last);
    }
  }

  lemma FullTable(h: nat, base: nat)
    requires h > 0
    ensures ChildBase(h, base, 0) == base && ChildBase(h, base, 511) + Cap(h - 1) == base + Cap(h)
  {
    ChildBaseMul(h, base, 0);
    ChildBaseMul(h, base, 511);
  }

  /** The range passes over the entries from first to last and no others. */
  lemma EntriesFor(q: Two, what: What, c: Ctx, j: Job, h: nat, base: nat, blockoff: nat, off: nat, size: nat, valid: nat, first: nat, last: nat)
    requires h > 0 && Task(q, what, c, j) && Share(j, h, base, blockoff, off, size, valid)
    requires first == FirstNo(off, Cap(h - 1)) && last == LastNo(off, size, Cap(h - 1))
    ensures first <= last < 512 && Idle(c, h, base, first, last)
    ensures first == last && base <= j.lo && j.Hi() <= base + Cap(h) ==>
      ChildBase(h, base, first) <= j.lo && j.Hi() <= ChildBase(h, base, first) + Cap(h - 1)
    ensures forall k: nat {:trigger ChildBase(h, base, k)} | first <= k <= last :: ChildBase(h, base, k) < End(c)
  {
    EntryBounds(j, h, base, blockoff, off, size, valid, first, last);
    assert base % 4096 == 0 && Local(c, Lo(q, what), Hi(q, what)) && Hi(q, what) <= End(c);
    hide Share, FirstNo, LastNo, Agree, Local, CtxFor;
    forall k: nat {:trigger ChildBase(h, base, k)} | k < 512 && !(first <= k <= last)
      ensures Agree(c, h - 1, ChildBase(h, base, k))
    {
      EntryApart(h, base, k, first);
      EntryApart(h, base, k, last);
      ChildAligned(h, base, k);
      hide ChildBase, Cap;
      LocalAgree(c, Lo(q, what), Hi(q, what), h - 1, ChildBase(h, base, k));
    }
  }

  lemma EntryApart(h: nat, base: nat, k: nat, k': nat)
    requires h > 0 && k < 512 && k' < 512
    ensures k < k' ==> ChildBase(h, base, k) + Cap(h - 1) <= ChildBase(h, base, k')
    ensures k' < k ==> ChildBase(h, base, k') + Cap(h - 1) <= ChildBase(h, base, k)
  {
    ChildBaseOrder(h, base);
  }

  // The leaves of the inode tree.

  /** The inodes that a piece of the range shows to contain. */
  lemma InodeMasks(q: Two, c: Ctx, j: Job, base: nat, blockoff: nat, off: nat, size: nat, valid: nat)
    requires Task(q, Inodes, c, j) && Share(j, 0, base, blockoff, off, size, valid)
    ensures blockoff * 4096 + off == InodeOff(q.k0) <==> Inside(q.k0, 0, base)
    ensures blockoff * 4096 + off + size == InodeOff(q.k1) + 128 <==> Inside(q.k1, 0, base)
    ensures base <= j.lo && j.Hi() <= base + Cap(0) ==> Inside(q.k0, 0, base) && Inside(q.k1, 0, base)
    ensures base % 4096 == 0
  {
    ShareFacts(j, 0, base, blockoff, off, size, valid);
    InodeInLeaf(q.k0, base);
    InodeInLeaf(q.k1, base);
  }

  lemma InodeInLeaf(k: nat, base: nat)
    requires base % 4096 == 0
    ensures base < InodeOff(k) + 128 ==> base <= InodeOff(k)
    ensures InodeOff(k) < base + 4096 ==> InodeOff(k) + 128 <= base + 4096
  {
  }

  /** The file context of a crawl below inode k, which is to become now. */
  function FileFor(c: Ctx, k: nat, now: seq<Byte>): Ctx
    requires c.InodeCtx? && k in c.old0
  {
    FileCtx(k + 1, c.old0[k].bytes, now)
  }

  /** The same inodes with only the file of k to change. */
  function Only(c: Ctx, k: nat, now: seq<Byte>): Ctx
    requires c.InodeCtx? && k in c.old0
  {
    c.(new0 := WithBytes(c.old0, k, now))
  }

  lemma OnlyOk(s: Snap, freed: set<nat>, c: Ctx, a: nat, h: nat, base: nat, k: nat, now: seq<Byte>)
    requires Holds(s, freed, c, a, h, base, false) && c.InodeCtx? && k in c.v.live
    ensures OneInode(Only(c, k, now), k, now) && Holds(s, freed, Only(c, k, now), a, h, base, false)
  {
    var c' := Only(c, k, now);
    hide InodeHere, Proper;
    forall i {:trigger FileOf(c', i, false)} | i in c'.v.live && Inside(i, h, base)
      ensures InodeHere(s, freed, i, LeafOf(s.mem, a, h, base, InodeOff(i)), FileOf(c', i, false), i in c'.dirs, c'.heights[i])
    {
      assert FileOf(c, i, false) == FileOf(c', i, false);
    }
  }

  /** Contexts that agree on the inodes of a subtree. */
  lemma HoldsSame(s: Snap, freed: set<nat>, c: Ctx, c': Ctx, a: nat, h: nat, base: nat, fin: bool, fin': bool)
    requires Holds(s, freed, c, a, h, base, fin) && c.InodeCtx? && c'.InodeCtx? && CtxOk(c') && c'.v == c.v && c'.size == c.size && c'.dirs == c.dirs && c'.heights == c.heights
    requires forall i {:trigger FileOf(c', i, fin')} | i in c.v.live && Inside(i, h, base) :: FileOf(c', i, fin') == FileOf(c, i, fin)
    ensures Holds(s, freed, c', a, h, base, fin')
  {
    hide InodeHere, Proper;
    forall i {:trigger FileOf(c', i, fin')} | i in c'.v.live && Inside(i, h, base)
      ensures InodeHere(s, freed, i, LeafOf(s.mem, a, h, base, InodeOff(i)), FileOf(c', i, fin'), i in c'.dirs, c'.heights[i])
    {
      assert FileOf(c', i, fin') == FileOf(c, i, fin);
    }
  }

  /** A file below a leaf of the inode tree is ready to be crawled. */
  lemma FileReadyAt(s: Snap, c: Ctx, rb: nat, base: nat, k: nat, now: seq<Byte>, lo: nat, hi: nat)
    requires Holds(s, s.freed, c, rb, 0, base, false) && c.InodeCtx? && rb != 0 && k in c.v.live && Inside(k, 0, base)
    requires lo < hi <= |c.old0[k].bytes| == |now| && k in c.dirs
    ensures FileReady(s, FileFor(c, k, now), rb, k, lo, hi)
  {
    assert FileOf(c, k, false) == c.old0[k];
    assert InodeHere(s, s.freed, k, rb, c.old0[k], true, c.heights[k]);
    hide FileShows, FileProper, Whole, RootWordOf;
  }

  /** One file below a leaf has been crawled. */
  lemma LeafOutcome(s0: Snap, s1: Snap, c: Ctx, c': Ctx, k: nat, rb: nat, rb': nat, now: seq<Byte>, r: int, committed: bool, base: nat)
    requires c.InodeCtx? && base % 4096 == 0 && Holds(s0, s0.freed, c, rb, 0, base, false) && rb != 0 && k in c.v.live && Inside(k, 0, base)
    requires c' == Only(c, k, now) && RootDone(s0, s1, k, rb, rb', now, true, r, committed)
    ensures Outcome(s0, s1, c', rb, 0, base, r, rb', committed)
  {
    OnlyOk(s0, s0.freed, c, rb, 0, base, k, now);
    assert rb in s0.pos && s0.pos[rb] == Label(0, 0, base);
    RootFresh(s0, s1, c', k, rb, rb', now, r, committed, base);
    hide Holds, Fresh, Stored;
    if r == 0 {
      LeafHolds(s0, s1, c', k, rb, rb', now, true, committed, base);
    }
  }

  lemma OutcomeSame(s0: Snap, s1: Snap, c: Ctx, c': Ctx, a: nat, h: nat, base: nat, r: int, a': nat, committed: bool)
    requires Outcome(s0, s1, c', a, h, base, r, a', committed) && c.InodeCtx? && c'.InodeCtx? && CtxOk(c) && CtxOk(c') && c.v == c'.v && c.size == c'.size && c.dirs == c'.dirs && c.heights == c'.heights
    requires r == 0 ==> forall i {:trigger FileOf(c, i, true)} | i in c.v.live && Inside(i, h, base) :: c.new0[i] == c'.new0[i]
    ensures Outcome(s0, s1, c, a, h, base, r, a', committed)
  {
    hide Holds;
    assert Fresh(s0, s1, c', h, base) ==> Fresh(s0, s1, c, h, base);
    assert Stored(s0, s1, c', h, base) ==> Stored(s0, s1, c, h, base);
    if r == 0 {
      HoldsSame(s1, s1.freed, c', c, a', h, base, true, true);
    }
  }

  /** The job that describes the range of a crawl. */
  ghost function Span(q: Two, what: What, c: Ctx): Job
    requires Lo(q, what) <= Hi(q, what)
  {
    Job(TreeOf(c), seq<Byte>(End(c), _ => 0), Lo(q, what), seq<Byte>(Hi(q, what) - Lo(q, what), _ => 0))
  }

  lemma SpanTask(q: Two, what: What, c: Ctx, h: nat)
    requires CtxFor(q, what, c) && Hi(q, what) <= Cap(h)
    ensures Lo(q, what) < Hi(q, what) && Task(q, what, c, Span(q, what, c))
    ensures Share(Span(q, what, c), h, 0, Lo(q, what) / 4096, Lo(q, what), Hi(q, what) - Lo(q, what), Min(End(c), Cap(h)))
  {
    TaskMade(q, what, c, Span(q, what, c));
  }

  /** crawl_tree_ref for a file whose size and height stay: refed tells whether the block with its root is in use. */
  method FileTree(fs: Bpram, k: nat, rb: nat, q: Two, what: What, commit: Commit, refed: bool, ghost c: Ctx)
    returns (r: int, nb: nat, ghost committed: bool)
    requires fs.Valid() && !what.Inodes? && CtxFor(q, what, c) && FileReady(Now(fs), c, rb, k, Lo(q, what), Hi(q, what))
    requires commit != Free && (commit == Atomic ==> refed)
    modifies fs
    ensures fs.Valid() && RootDone(old(Now(fs)), Now(fs), k, rb, nb, c.now, refed, r, committed)
    ensures committed ==> commit == Atomic
    ensures what.One? && commit == CopyOnly && refed && r == 0 ==> nb != rb
    ensures var h := RootHeight(Get(old(fs.mem), rb), RootWordOf(k));
      && Spent(old(Now(fs)), Now(fs), RootPrice(q, what, h, commit, refed), r)
      && (r == 0 ==> (nb != rb <==> Price(FileEnds(q, what), h, 0, commit).moved && commit != Atomic && refed))
    decreases 1, 0, 0
  {
    hide *;
    ghost var s0 := Now(fs);
    FileSetup(s0, c, q, what, rb, k);
    var blk, ro := Get(fs.mem, rb), RootWordOf(k);
    var lo, size := Lo(q, what), Hi(q, what) - Lo(q, what);
    var h, a := RootHeight(blk, ro), RootAddr(blk, ro);
    ghost var j := Span(q, what, c);
    var requested := TreeHeight((lo + size + 4095) / 4096);
    NoGrowth(lo + size, h, requested);
    assert requested <= h;
    var max := TreeMaxNblocks(h);
    var valid := Min(Nbytes(blk, ro), max * 4096);
    CapBlocks(h, Nbytes(blk, ro), max);
    var a';
    committed := false;
    if h == 0 {
      r, a' := FileLeaf(fs, a, 0, lo, size, q, what, commit, c, j, 0, valid);
    } else {
      r, a', committed := CrawlIndir2(fs, a, lo / 4096, lo, size, valid, commit, h, max, q, what, c, j, 0);
    }
    ghost var s1 := Now(fs);
    EndsFile(q, what, c);
    if r != 0 {
      FailedCode(s0, s1, c, a, h, 0, r, a', committed);
      RootFails(s0, s1, c, q, what, rb, k, a, h, refed, a');
      RootShort(s0, s1, q, what, h, commit, refed, r, a, a');
      return r, 0, false;
    }
    nb := rb;
    if a' == a {
      ChargedNone(s1, rb);
      RootCharged(s0, s1, s1, q, what, h, commit, refed, a, a', rb, rb, 0, false);
      RootStays(s0, s1, c, q, what, rb, k, a, h, refed, committed);
      return;
    }
    NotCommitted(s0, s1, c, q, what, rb, k, a, h, r, a', committed);
    AddrFits(fs, c, a', h, 0, true);
    InMemory(fs, rb);
    var w := HaWord(h, a');
    if commit == Atomic || !refed {
      fs.StoreWord(rb, ro, w);
      RootStored(s0, s1, Now(fs), c, q, what, rb, k, a, a', h, refed);
      committed := refed;
      ChargedStore(s1, Now(fs), rb);
      RootCharged(s0, s1, Now(fs), q, what, h, commit, refed, a, a', rb, rb, 0, false);
    } else {
      r, nb := SetWord(fs, rb, ro, w, true);
      RootCharged(s0, s1, Now(fs), q, what, h, commit, refed, a, a', rb, nb, r, true);
      if r != 0 {
        FailAnyway(s0, s1, c, a, h, 0, a');
        RootFails(s0, s1, c, q, what, rb, k, a, h, refed, a');
        return r, 0, false;
      }
      RootCopied(s0, s1, Now(fs), c, q, what, rb, nb, k, a, a', h);
    }
  }

  lemma EndsFile(q: Two, what: What, c: Ctx)
    requires !what.Inodes?
    ensures EndsOf(q, what, c) == FileEnds(q, what)
  {
  }

  lemma ChargedStore(s: Snap, s': Snap, b: nat)
    requires s'.pos == s.pos && s'.mem.Keys == s.mem.Keys
    ensures Charged(s, s', Bill(0, false), 0, b, b)
  {
    SameRoom(s, s');
  }

  /** The crawl below the root ran out of space. */
  lemma RootShort(s0: Snap, s1: Snap, q: Two, what: What, h: nat, commit: Commit, refed: bool, r: int, a: nat, a': nat)
    requires Charged(s0, s1, Price(FileEnds(q, what), h, 0, commit), r, a, a') && r != 0
    ensures Spent(s0, s1, RootPrice(q, what, h, commit, refed), r)
  {
    hide Price;
  }

  /** The root word was stored in place, or in a copy of its block. */
  lemma RootCharged(s0: Snap, s1: Snap, s2: Snap, q: Two, what: What, h: nat, commit: Commit, refed: bool, a: nat, a': nat, rb: nat, nb: nat, r: int, copy: bool)
    requires Charged(s0, s1, Price(FileEnds(q, what), h, 0, commit), 0, a, a') && copy == (a' != a && commit != Atomic && refed)
    requires Charged(s1, s2, Bill(if copy then 1 else 0, copy), r, rb, nb)
    ensures Spent(s0, s2, RootPrice(q, what, h, commit, refed), r)
    ensures r == 0 ==> (nb != rb <==> Price(FileEnds(q, what), h, 0, commit).moved && commit != Atomic && refed)
  {
    hide Price, FreeBlocks;
  }

  lemma InMemory(fs: Bpram, b: nat)
    requires fs.Valid() && b in fs.pos
    ensures b in fs.used && b in fs.mem && fs.freed <= fs.pos.Keys
  {
  }

  lemma FileSetup(s0: Snap, c: Ctx, q: Two, what: What, rb: nat, k: nat)
    requires !what.Inodes? && CtxFor(q, what, c) && FileReady(s0, c, rb, k, Lo(q, what), Hi(q, what))
    ensures rb in s0.pos && Lo(q, what) < Hi(q, what) && RootWordOf(k) < 511
    ensures var (blk, ro, j) := (Get(s0.mem, rb), RootWordOf(k), Span(q, what, c)); var (h, a) := (RootHeight(blk, ro), RootAddr(blk, ro));
      && Crawling(s0, c, q, what, rb, k, a, h) && a != 0 && h < 8 && Nbytes(blk, ro) == End(c) && Hi(q, what) <= Cap(h) && j.Hi() <= Cap(h)
      && Holds(s0, s0.freed, c, a, h, 0, false) && Task(q, what, c, j)
      && Share(j, h, 0, Lo(q, what) / 4096, Lo(q, what), Hi(q, what) - Lo(q, what), Min(End(c), Cap(h)))
  {
    hide Holds, CtxFor, RootWordOf, Cap, HaHeight, FileShows, FileProper;
    FileStart(s0, c, rb, k, Lo(q, what), Hi(q, what));
    SpanTask(q, what, c, RootHeight(Get(s0.mem, rb), RootWordOf(k)));
  }

  /** The height of a tree that has the leaf stays. */
  lemma NoGrowth(end: nat, h: nat, requested: nat)
    requires 0 < end <= Cap(h)
    requires forall g: nat | (end + 4095) / 4096 <= MaxBlocks(g) :: requested <= g
    ensures requested <= h
  {
    assert (end + 4095) / 4096 <= MaxBlocks(h);
  }

  lemma CapBlocks(h: nat, n: nat, max: nat)
    requires max == MaxBlocks(h)
    ensures Min(n, max * 4096) == Min(n, Cap(h)) && Cap(0) == 4096 && (h == 0 ==> max * 4096 == 4096)
  {
  }

  lemma FailedCode(s0: Snap, s1: Snap, c: Ctx, a: nat, h: nat, base: nat, r: int, a': nat, committed: bool)
    requires Outcome(s0, s1, c, a, h, base, r, a', committed) && r != 0
    ensures r == ENOSPC && !committed
  {
  }

  /** A new root of the tree has not been committed; the block with the old one is as it was. */
  lemma NotCommitted(s0: Snap, s1: Snap, c: Ctx, q: Two, what: What, rb: nat, k: nat, a: nat, h: nat, r: int, a': nat, committed: bool)
    requires Crawling(s0, c, q, what, rb, k, a, h) && Outcome(s0, s1, c, a, h, 0, r, a', committed) && a' != a && r == 0
    ensures !committed && Holds(s1, s1.freed, c, a', h, 0, true) && a' != 0 && Get(s1.mem, rb) == Get(s0.mem, rb) && rb in s1.pos && rb != 0
  {
    assert rb in s0.pos && rb != 0;
    hide Holds, FileReady;
  }

  lemma FailAnyway(s0: Snap, s1: Snap, c: Ctx, a: nat, h: nat, base: nat, a': nat)
    requires Outcome(s0, s1, c, a, h, base, 0, a', false)
    ensures Outcome(s0, s1, c, a, h, base, ENOSPC, a', false)
  {
  }

  lemma AddrFits(fs: Bpram, c: Ctx, a: nat, h: nat, base: nat, fin: bool)
    requires fs.Valid() && Holds(Now(fs), fs.freed, c, a, h, base, fin) && a != 0
    ensures a in fs.used && a in fs.mem && a < 0x2000_0000_0000_0000 && a < 0x1_0000_0000_0000_0000
  {
  }

  /** crawl_indir: the entries that the range passes over are crawled; a changed table is copied unless its store commits. */
  method CrawlIndir2(fs: Bpram, prev: nat, blockoff: nat, off: nat, size: nat, valid: nat, commit: Commit, h: nat, maxNblocks: nat,
                     q: Two, what: What, ghost c: Ctx, ghost j: Job, ghost base: nat) returns (r: int, newno: nat, ghost committed: bool)
    requires fs.Valid() && h > 0 && maxNblocks == MaxBlocks(h) && commit != Free
    requires Task(q, what, c, j) && Share(j, h, base, blockoff, off, size, valid) && Holds(Now(fs), fs.freed, c, prev, h, base, false)
    requires commit == Atomic ==> base <= j.lo && j.Hi() <= base + Cap(h)
    modifies fs
    ensures fs.Valid() && Outcome(old(Now(fs)), Now(fs), c, prev, h, base, r, newno, committed)
    ensures committed ==> commit == Atomic
    ensures what.One? && commit == CopyOnly && r == 0 ==> newno != prev
    ensures Charged(old(Now(fs)), Now(fs), Price(EndsOf(q, what, c), h, base, commit), r, prev, newno)
    decreases if what.Inodes? then 2 else 0, h, 1
  {
    hide *;
    ghost var s0 := Now(fs);
    ChildBlocks(maxNblocks, h);
    var childMaxNblocks := maxNblocks / 512;
    var cap := childMaxNblocks * 4096;
    LoopSetup(s0, q, what, c, j, prev, h, base, blockoff, off, size, valid, cap, commit);
    var first := FirstNo(off, cap);
    var last := LastNo(off, size, cap);
    var childCommit := ChildCommit(commit, first, last, off >= valid);
    var blockno := prev;
    var no := first;
    committed := false;
    ghost var e := EndsOf(q, what, c);
    SpansFor(q, what, c, j, h, base, blockoff, off, size, valid, first, last, commit);
    PriceNone(s0, e, h, base, commit, first, last, prev);
    while no <= last
      invariant fs.Valid() && first <= no <= last + 1
      invariant Charged(s0, Now(fs), PriceTo(e, h, base, commit, first, last, no), 0, prev, blockno)
      invariant no <= last ==> !committed && (first == last ==> Now(fs) == s0 && blockno == prev)
      invariant !committed ==> LoopOk(s0, Now(fs), c, prev, blockno, h, base, first, no)
      invariant committed ==> commit == Atomic && blockno == prev && Outcome(s0, Now(fs), c, prev, h, base, 0, prev, true)
      invariant what.One? && commit == CopyOnly && no > first ==> blockno != prev
    {
      ShareChild(j, h, base, blockoff, off, size, valid, no, cap, first, last);
      EntryHere(q, what, c, j, h, base, blockoff, off, size, valid, first, no, last);
      var childOff := ChildOff(off, cap, no, first);
      var childSize := ChildSize(off, size, cap, no, first, last);
      var childValid := ChildValid(valid, cap, no);
      var childBlockoff := ChildBlockoff(blockoff, off, cap, childMaxNblocks, no, first);
      r, blockno, committed := CrawlEntry2(fs, prev, blockno, no, first, last, childBlockoff, childOff, childSize, childValid,
                                           commit, childCommit, h, childMaxNblocks, q, what, c, j, base, s0);
      if r != 0 {
        FailedLoop(s0, Now(fs), c, prev, h, base, r, 0);
        FailedCharge(s0, Now(fs), e, h, base, commit, first, last, no, r, prev, blockno);
        return r, 0, false;
      }
      no := no + 1;
    }
    PriceWhole(e, h, base, commit, first, last);
    r, newno := 0, blockno;
    if !committed {
      EntriesDone(s0, Now(fs), c, prev, blockno, h, base, first, last);
    }
  }

  /** The range passes over the entries of both words. */
  lemma SpansFor(q: Two, what: What, c: Ctx, j: Job, h: nat, base: nat, blockoff: nat, off: nat, size: nat, valid: nat, first: nat, last: nat, commit: Commit)
    requires h > 0 && Task(q, what, c, j) && Share(j, h, base, blockoff, off, size, valid) && commit != Free
    requires first == FirstNo(off, Cap(h - 1)) && last == LastNo(off, size, Cap(h - 1))
    requires commit == Atomic ==> base <= j.lo && j.Hi() <= base + Cap(h)
    ensures Spans(EndsOf(q, what, c), h, base, commit, first, last)
  {
    hide RootPrice, InodeEnds, FileEnds, EndsOf, CtxFor, Local, Cap, ChildBase;
    var e := EndsOf(q, what, c);
    EntryBounds(j, h, base, blockoff, off, size, valid, first, last);
    EndsBetween(q, what, c);
    ShareEnds(j, h, base, blockoff, off, size, valid);
    hide Share, Task;
    SlotBetween(j, h, base, first, last, e.x);
    SlotBetween(j, h, base, first, last, e.y);
    if commit == Atomic {
      EntryEnds(q, what, c, h, base, Slot(h, base, j.Hi() - 1));
      SlotUnique(h, base, e.y, Slot(h, base, j.Hi() - 1));
    }
  }

  lemma ShareEnds(j: Job, h: nat, base: nat, blockoff: nat, off: nat, size: nat, valid: nat)
    requires h > 0 && Share(j, h, base, blockoff, off, size, valid)
    ensures base % 4096 == 0
    ensures base <= j.lo && j.Hi() <= base + Cap(h) ==>
      j.lo < j.Hi() && Slot(h, base, j.lo) == FirstNo(off, Cap(h - 1)) && Slot(h, base, j.Hi() - 1) == LastNo(off, size, Cap(h - 1))
  {
  }

  lemma SlotBetween(j: Job, h: nat, base: nat, first: nat, last: nat, x: nat)
    requires h > 0 && first <= last < 512 && j.lo <= x < j.Hi()
    requires first > 0 ==> ChildBase(h, base, first) <= j.lo
    requires last < 511 ==> j.Hi() <= ChildBase(h, base, last) + Cap(h - 1)
    ensures At(x, h, base) ==> first <= Slot(h, base, x) <= last
  {
    ChildBaseOrder(h, base);
    hide Slot, ChildBase, Cap;
  }

  lemma EndsBetween(q: Two, what: What, c: Ctx)
    requires CtxFor(q, what, c)
    ensures var e := EndsOf(q, what, c); Lo(q, what) == e.x <= e.y < Hi(q, what)
  {
    hide RootPrice;
  }

  /** The last inode does not cross the start of an entry. */
  lemma EntryEnds(q: Two, what: What, c: Ctx, h: nat, base: nat, s: nat)
    requires CtxFor(q, what, c) && h > 0 && base % 4096 == 0 && s < 512 && ChildBase(h, base, s) < Hi(q, what)
    ensures ChildBase(h, base, s) <= EndsOf(q, what, c).y
  {
    ChildAligned(h, base, s);
    hide RootPrice, ChildBase;
    InodeInLeaf(q.k1, ChildBase(h, base, s));
  }

  lemma PriceNone(s: Snap, e: Ends, h: nat, base: nat, commit: Commit, first: nat, last: nat, a: nat)
    requires h > 0
    ensures Charged(s, s, PriceTo(e, h, base, commit, first, last, first), 0, a, a)
  {
  }

  lemma FailedCharge(s0: Snap, s1: Snap, e: Ends, h: nat, base: nat, commit: Commit, first: nat, last: nat, no: nat, r: int, a: nat, a': nat)
    requires h > 0 && Spans(e, h, base, commit, first, last) && first <= no <= last && r != 0
    requires Charged(s0, s1, PriceTo(e, h, base, commit, first, last, no + 1), r, a, a')
    ensures Charged(s0, s1, Price(e, h, base, commit), r, a, 0)
  {
    PriceToMono(e, h, base, commit, first, last, no + 1, last + 1);
    PriceWhole(e, h, base, commit, first, last);
    hide PriceTo, Price, Spans;
  }

  /** One pass of its loop. */
  method CrawlEntry2(fs: Bpram, prev: nat, blockno: nat, no: nat, first: nat, last: nat,
                     childBlockoff: nat, childOff: nat, childSize: nat, childValid: nat, commit: Commit, childCommit: Commit,
                     h: nat, childMaxNblocks: nat, q: Two, what: What, ghost c: Ctx, ghost j: Job, ghost base: nat, ghost s0: Snap)
    returns (r: int, newno: nat, ghost committed: bool)
    requires fs.Valid() && h > 0 && childMaxNblocks == MaxBlocks(h - 1) && commit != Free && childCommit != Free
    requires Task(q, what, c, j) && Share(j, h - 1, ChildBase(h, base, no), childBlockoff, childOff, childSize, childValid)
    requires first <= no <= last < 512 && base % 4096 == 0 && childValid > 0 && ChildBase(h, base, no) < End(c) && CtxOk(c)
    requires LoopOk(s0, Now(fs), c, prev, blockno, h, base, first, no) && Holds(s0, s0.freed, c, prev, h, base, false) && Idle(c, h, base, first, last)
    requires first == last ==> Now(fs) == s0 && blockno == prev
    requires childCommit == if commit == Atomic && first != last then CopyOnly else commit
    requires childCommit == Atomic ==> ChildBase(h, base, no) <= j.lo && j.Hi() <= ChildBase(h, base, no) + Cap(h - 1)
    requires what.One? ==> first == last
    requires Charged(s0, Now(fs), PriceTo(EndsOf(q, what, c), h, base, commit, first, last, no), 0, prev, blockno)
    modifies fs
    ensures Charged(s0, Now(fs), PriceTo(EndsOf(q, what, c), h, base, commit, first, last, no + 1), r, prev, newno)
    ensures fs.Valid() && (r == 0 || r == ENOSPC)
    ensures r == 0 && !committed ==> LoopOk(s0, Now(fs), c, prev, newno, h, base, first, no + 1)
    ensures committed ==> r == 0 && first == last && commit == Atomic && newno == prev && Outcome(s0, Now(fs), c, prev, h, base, 0, prev, true)
    ensures r != 0 ==> Fresh(s0, Now(fs), c, h, base)
    ensures what.One? && commit == CopyOnly && r == 0 ==> newno != prev
    decreases if what.Inodes? then 2 else 0, h, 0
  {
    hide *;
    ghost var s1 := Now(fs);
    LoopChild(s0, s1, c, prev, blockno, h, base, first, no);
    HoldsRoot(s1, s1.freed, c, Addr(Get(s1.mem, blockno), no), h - 1, ChildBase(h, base, no), false);
    var child := Addr(Get(fs.mem, blockno), no);
    var childNew;
    committed := false;
    ghost var e, cb := EndsOf(q, what, c), ChildBase(h, base, no);
    ModeBelow(commit, first, last);
    if h == 1 {
      EndsFor(q, what, c);
      if what.Inodes? {
        r, childNew, committed := InodeLeaf(fs, child, childBlockoff, childOff, childSize, childCommit, q, c, j, ChildBase(h, base, no), childValid);
      } else {
        r, childNew := FileLeaf(fs, child, childBlockoff, childOff, childSize, q, what, childCommit, c, j, ChildBase(h, base, no), childValid);
      }
    } else {
      r, childNew, committed := CrawlIndir2(fs, child, childBlockoff, childOff, childSize, childValid, childCommit, h - 1, childMaxNblocks,
                                            q, what, c, j, ChildBase(h, base, no));
    }
    ghost var s2 := Now(fs);
    ghost var b := Price(e, h - 1, cb, childCommit);
    if r != 0 {
      EntryFails(s0, s1, s2, c, prev, blockno, h, base, first, no, r, child, childNew, committed);
      EntryShort2(s0, s1, s2, e, h, base, commit, first, last, no, b, r, prev, blockno, child, childNew);
      return r, 0, false;
    }
    newno := blockno;
    CommittedSame(s1, s2, c, child, h - 1, ChildBase(h, base, no), r, childNew, committed);
    if child == childNew {
      if committed {
        LoopRoot(s0, s1, c, prev, blockno, h, base, first, no);
        EntryCommits(s0, s2, c, q, what, prev, h, base, no, child, childNew);
      } else {
        LoopKept(s0, s1, s2, c, prev, blockno, h, base, first, no);
      }
      EntryKept2(s0, s1, s2, e, h, base, commit, first, last, no, b, prev, blockno, child);
      return;
    }
    ChildFits(fs, s1, c, child, childNew, h - 1, ChildBase(h, base, no));
    LoopPending(s0, s1, s2, c, prev, blockno, h, base, first, no, childNew);
    r, newno, committed := SetEntry2(fs, prev, blockno, no, childNew, childValid, commit, first == last, c, h, base, s0, first);
    EntrySet2(s0, s1, s2, Now(fs), e, h, base, commit, first, last, no, b, r, prev, blockno, newno, child, childNew);
  }

  lemma ModeBelow(commit: Commit, first: nat, last: nat)
    ensures Below2(commit, first == last) == if commit == Atomic && first != last then CopyOnly else commit
  {
  }

  lemma EndsFor(q: Two, what: What, c: Ctx)
    ensures EndsOf(q, what, c) == if what.Inodes? then InodeEnds(q, c) else FileEnds(q, what)
  {
  }

  /** An entry that runs out of space, stays, or is set. */
  lemma EntryShort2(s0: Snap, s1: Snap, s2: Snap, e: Ends, h: nat, base: nat, commit: Commit, first: nat, last: nat, no: nat, b: Bill, r: int,
                    prev: nat, blockno: nat, child: nat, childNew: nat)
    requires h > 0 && first <= no && b == Price(e, h - 1, ChildBase(h, base, no), Below2(commit, first == last)) && r != 0
    requires Charged(s0, s1, PriceTo(e, h, base, commit, first, last, no), 0, prev, blockno) && Charged(s1, s2, b, r, child, childNew)
    ensures Charged(s0, s2, PriceTo(e, h, base, commit, first, last, no + 1), r, prev, 0)
  {
    hide Price, Below2, FreeBlocks;
  }

  lemma EntryKept2(s0: Snap, s1: Snap, s2: Snap, e: Ends, h: nat, base: nat, commit: Commit, first: nat, last: nat, no: nat, b: Bill, prev: nat, blockno: nat, child: nat)
    requires h > 0 && first <= no && b == Price(e, h - 1, ChildBase(h, base, no), Below2(commit, first == last))
    requires Charged(s0, s1, PriceTo(e, h, base, commit, first, last, no), 0, prev, blockno) && Charged(s1, s2, b, 0, child, child)
    ensures Charged(s0, s2, PriceTo(e, h, base, commit, first, last, no + 1), 0, prev, blockno)
  {
    hide Price, Below2, FreeBlocks;
  }

  lemma EntrySet2(s0: Snap, s1: Snap, s2: Snap, s3: Snap, e: Ends, h: nat, base: nat, commit: Commit, first: nat, last: nat, no: nat, b: Bill, r: int,
                  prev: nat, blockno: nat, newno: nat, child: nat, childNew: nat)
    requires h > 0 && first <= no && b == Price(e, h - 1, ChildBase(h, base, no), Below2(commit, first == last)) && childNew != child
    requires Charged(s0, s1, PriceTo(e, h, base, commit, first, last, no), 0, prev, blockno) && Charged(s1, s2, b, 0, child, childNew)
    requires Charged(s2, s3, SetBill(prev, blockno, commit, first == last), r, prev, newno)
    ensures Charged(s0, s3, PriceTo(e, h, base, commit, first, last, no + 1), r, prev, newno)
  {
    hide Price, Below2, FreeBlocks;
  }

  /** A store into a table costs a copy, unless it is one already or the store commits. */
  function SetBill(prev: nat, blockno: nat, commit: Commit, single: bool): Bill {
    if prev == blockno && !(commit == Atomic && single) then Bill(1, true) else Bill(0, prev != blockno)
  }

  /** Stores a changed entry: in place when that is the commit, else in a copy of the table. */
  method SetEntry2(fs: Bpram, prev: nat, blockno: nat, no: nat, cnew: nat, childValid: nat, commit: Commit, single: bool,
                   ghost c: Ctx, ghost h: nat, ghost base: nat, ghost s0: Snap, ghost first: nat) returns (r: int, newno: nat, ghost committed: bool)
    requires fs.Valid() && h > 0 && no < 512 && base % 4096 == 0 && childValid > 0 && CtxOk(c)
    requires Awaiting(s0, Now(fs), c, prev, blockno, h, base, first, no, cnew)
    requires single ==> first == no && Idle(c, h, base, no, no)
    modifies fs
    ensures fs.Valid() && (r == 0 || r == ENOSPC)
    ensures r == 0 && !committed ==> LoopOk(s0, Now(fs), c, prev, newno, h, base, first, no + 1)
    ensures committed ==> r == 0 && single && commit == Atomic && newno == prev && Outcome(s0, Now(fs), c, prev, h, base, 0, prev, true)
    ensures r != 0 ==> Fresh(s0, Now(fs), c, h, base)
    ensures commit == CopyOnly && r == 0 ==> newno != prev
    ensures Charged(old(Now(fs)), Now(fs), SetBill(prev, blockno, commit, single), r, prev, newno)
  {
    hide *;
    ghost var s1 := Now(fs);
    NoSpaceCode();
    AwaitFacts(fs, s0, c, prev, blockno, h, base, first, no, cnew);
    r, newno, committed := 0, blockno, false;
    if !(prev != blockno || (commit == Atomic && single) || childValid == 0) {
      newno := fs.CowBlockEntire(blockno);
      if newno == 0 {
        SetShort(s1, prev, blockno, commit, single);
        return ENOSPC, 0, false;
      }
      TableCopied(s0, s1, Now(fs), c, prev, h, base, first, no, cnew, newno);
      CopyTaken(s1, Now(fs), newno);
    }
    ghost var s2 := Now(fs);
    InUse(fs, newno);
    fs.StoreWord(newno, no, ToWord(cnew));
    SameRoom(s2, Now(fs));
    SetCharged(s1, Now(fs), prev, blockno, newno, commit, single);
    if newno == prev {
      committed := true;
      EntryStored(s0, s2, Now(fs), c, prev, h, base, no, cnew);
      CommitOutcome(s0, Now(fs), c, prev, h, base);
    } else {
      StoreQuiet(s0, s2, Now(fs), c, prev, newno, h, base, first, no, cnew);
    }
  }

  lemma AwaitFacts(fs: Bpram, s0: Snap, c: Ctx, prev: nat, blockno: nat, h: nat, base: nat, first: nat, no: nat, cnew: nat)
    requires fs.Valid() && h > 0 && no < 512 && Awaiting(s0, Now(fs), c, prev, blockno, h, base, first, no, cnew)
    ensures prev != 0 && blockno != 0 && blockno in fs.used && blockno in fs.pos && fs.freed <= fs.pos.Keys && 0 !in fs.mem
    ensures Fresh(s0, Now(fs), c, h, base) && cnew < 0x1_0000_0000_0000_0000
  {
    hide Fresh, AwaitingEntry;
  }

  lemma SetShort(s: Snap, prev: nat, blockno: nat, commit: Commit, single: bool)
    requires FreeBlocks(s.mem, s.pos) == 0 && prev == blockno && !(commit == Atomic && single)
    ensures Charged(s, s, SetBill(prev, blockno, commit, single), ENOSPC, prev, 0)
  {
  }

  lemma SetCharged(s: Snap, s': Snap, prev: nat, blockno: nat, newno: nat, commit: Commit, single: bool)
    requires if prev == blockno && !(commit == Atomic && single) then Room(s) == Room(s') + 1 && newno != prev else Room(s) == Room(s') && newno == blockno
    ensures Charged(s, s', SetBill(prev, blockno, commit, single), 0, prev, newno)
  {
  }

  lemma CommitOutcome(s0: Snap, s1: Snap, c: Ctx, a: nat, h: nat, base: nat)
    requires Stored(s0, s1, c, h, base) && Holds(s1, s1.freed, c, a, h, base, true) && a != 0
    ensures Outcome(s0, s1, c, a, h, base, 0, a, true)
  {
  }

  lemma LoopSetup(s0: Snap, q: Two, what: What, c: Ctx, j: Job, prev: nat, h: nat, base: nat,
                  blockoff: nat, off: nat, size: nat, valid: nat, cap: nat, commit: Commit)
    requires h > 0 && Task(q, what, c, j) && Share(j, h, base, blockoff, off, size, valid) && Holds(s0, s0.freed, c, prev, h, base, false) && cap == Cap(h - 1)
    ensures cap > 0 && size > 0 && prev != 0 && base % 4096 == 0 && CtxOk(c) && off < valid
    ensures var (first, last) := (FirstNo(off, cap), LastNo(off, size, cap));
      && first <= last < 512 && Idle(c, h, base, first, last) && LoopOk(s0, s0, c, prev, prev, h, base, first, first)
      && (what.One? ==> first == last)
      && ChildCommit(commit, first, last, off >= valid) == if commit == Atomic && first != last then CopyOnly else commit
  {
    EntriesFor(q, what, c, j, h, base, blockoff, off, size, valid, FirstNo(off, cap), LastNo(off, size, cap));
    HoldsRoot(s0, s0.freed, c, prev, h, base, false);
    LoopStart(s0, c, prev, h, base, FirstNo(off, cap));
    assert what.One? ==> size == 1;
    hide LoopOk, Idle, Holds;
  }

  lemma EntryHere(q: Two, what: What, c: Ctx, j: Job, h: nat, base: nat, blockoff: nat, off: nat, size: nat, valid: nat, first: nat, no: nat, last: nat)
    requires h > 0 && Task(q, what, c, j) && Share(j, h, base, blockoff, off, size, valid)
    requires first == FirstNo(off, Cap(h - 1)) && last == LastNo(off, size, Cap(h - 1)) && first <= no <= last
    ensures ChildBase(h, base, no) < End(c) && ChildValid(valid, Cap(h - 1), no) > 0
    ensures first == last && base <= j.lo && j.Hi() <= base + Cap(h) ==> ChildBase(h, base, no) <= j.lo && j.Hi() <= ChildBase(h, base, no) + Cap(h - 1)
  {
    EntriesFor(q, what, c, j, h, base, blockoff, off, size, valid, first, last);
    ShareChild(j, h, base, blockoff, off, size, valid, no, Cap(h - 1), first, last);
    hide ChildValid, Idle, FirstNo, LastNo, ChildOff, ChildSize, ChildBlockoff, CtxFor, Local;
  }

  lemma FailedLoop(s0: Snap, s1: Snap, c: Ctx, a: nat, h: nat, base: nat, r: int, a': nat)
    requires Fresh(s0, s1, c, h, base) && r == ENOSPC
    ensures Outcome(s0, s1, c, a, h, base, r, a', false)
  {
  }

  lemma EntryFails(s0: Snap, s1: Snap, s2: Snap, c: Ctx, prev: nat, blockno: nat, h: nat, base: nat, first: nat, no: nat, r: int, child: nat, childNew: nat, committed: bool)
    requires h > 0 && no < 512 && LoopOk(s0, s1, c, prev, blockno, h, base, first, no) && r != 0
    requires Outcome(s1, s2, c, child, h - 1, ChildBase(h, base, no), r, childNew, committed)
    ensures r == ENOSPC && Fresh(s0, s2, c, h, base)
  {
    hide Fresh, Holds, EntryOk;
    FreshUp(s1, s2, c, h, base, no);
    FreshTrans(s0, s1, s2, c, h, base);
  }

  lemma EntryCommits(s0: Snap, s2: Snap, c: Ctx, q: Two, what: What, prev: nat, h: nat, base: nat, no: nat, child: nat, childNew: nat)
    requires h > 0 && no < 512 && base % 4096 == 0 && Holds(s0, s0.freed, c, prev, h, base, false) && Idle(c, h, base, no, no) && prev != 0
    requires child == Addr(Get(s0.mem, prev), no) && Outcome(s0, s2, c, child, h - 1, ChildBase(h, base, no), 0, childNew, true)
    ensures Outcome(s0, s2, c, prev, h, base, 0, prev, true)
  {
    hide Idle, Holds, Stored;
    ChildCommits(s0, s2, c, prev, h, base, no);
  }

  lemma ChildFits(fs: Bpram, s1: Snap, c: Ctx, child: nat, childNew: nat, h: nat, base: nat)
    requires fs.Valid() && Outcome(s1, Now(fs), c, child, h, base, 0, childNew, false)
    ensures childNew < 0x1_0000_0000_0000_0000
  {
    hide Holds, Fresh;
    AddrFits(fs, c, childNew, h, base, true);
  }

  lemma CommittedSame(s0: Snap, s1: Snap, c: Ctx, a: nat, h: nat, base: nat, r: int, a': nat, committed: bool)
    requires Outcome(s0, s1, c, a, h, base, r, a', committed)
    ensures committed ==> a' == a
  {
  }

  lemma LoopRoot(s0: Snap, s: Snap, c: Ctx, prev: nat, blockno: nat, h: nat, base: nat, first: nat, no: nat)
    requires h > 0 && LoopOk(s0, s, c, prev, blockno, h, base, first, no)
    ensures prev != 0
  {
  }

  /** callback_crawl_data_2: the files whose inodes lie in the leaf are crawled. */
  method InodeLeaf(fs: Bpram, prev: nat, blockoff: nat, off: nat, size: nat, commit: Commit, q: Two,
                   ghost c: Ctx, ghost j: Job, ghost base: nat, ghost valid: nat) returns (r: int, newno: nat, ghost committed: bool)
    requires fs.Valid() && commit != Free && prev != 0 && Task(q, Inodes, c, j) && Share(j, 0, base, blockoff, off, size, valid)
    requires Holds(Now(fs), fs.freed, c, prev, 0, base, false)
    requires commit == Atomic ==> base <= j.lo && j.Hi() <= base + Cap(0)
    modifies fs
    ensures fs.Valid() && Outcome(old(Now(fs)), Now(fs), c, prev, 0, base, r, newno, committed)
    ensures committed ==> commit == Atomic
    ensures Charged(old(Now(fs)), Now(fs), Price(InodeEnds(q, c), 0, base, commit), r, prev, newno)
    decreases 2, 0, 0
  {
    ghost var s0 := Now(fs);
    InodeMasks(q, c, j, base, blockoff, off, size, valid);
    var first := blockoff * 4096 + off == InodeOff(q.k0);
    var last := blockoff * 4096 + off + size == InodeOff(q.k1) + 128;
    assert CtxFor(q, Inodes, c);
    hide *;
    if first && last && q.k0 == q.k1 {
      r, newno, committed := SameInode(fs, prev, commit, q, c, base);
    } else if first && last {
      committed := false;
      r, newno := SameBlock(fs, prev, q, commit, c, base);
    } else if first || last {
      assert commit == CopyOnly;
      committed := false;
      r, newno := OneOfTwo(fs, prev, last, q, commit, c, base);
    } else {
      NeitherHere(s0, c, q, prev, base);
      NeitherPrice(s0, c, q, prev, base, commit);
      r, newno, committed := 0, prev, false;
    }
  }

  lemma NeitherPrice(s: Snap, c: Ctx, q: Two, prev: nat, base: nat, commit: Commit)
    requires !Inside(q.k0, 0, base) && !Inside(q.k1, 0, base)
    ensures Charged(s, s, Price(InodeEnds(q, c), 0, base, commit), 0, prev, prev)
  {
    hide RootPrice;
  }

  method SameInode(fs: Bpram, prev: nat, commit: Commit, q: Two, ghost c: Ctx, ghost base: nat) returns (r: int, newno: nat, ghost committed: bool)
    requires fs.Valid() && commit != Free && prev != 0 && CtxFor(q, Inodes, c) && q.k0 == q.k1 && Inside(q.k0, 0, base) && base % 4096 == 0
    requires Holds(Now(fs), fs.freed, c, prev, 0, base, false)
    modifies fs
    ensures fs.Valid() && Outcome(old(Now(fs)), Now(fs), c, prev, 0, base, r, newno, committed)
    ensures committed ==> commit == Atomic
    ensures Charged(old(Now(fs)), Now(fs), Price(InodeEnds(q, c), 0, base, commit), r, prev, newno)
    decreases 1, 0, 1
  {
    ghost var s0 := Now(fs);
    hide *;
    ghost var now := BothFacts(s0, c, q, prev, base);
    r, newno, committed := FileTree(fs, q.k0, prev, q, Both, commit, true, FileFor(c, q.k0, now));
    SamePrice(s0, Now(fs), c, q, prev, newno, base, commit, r);
    FileForNow(c, q.k0, now);
    LeafOutcome(s0, Now(fs), c, c, q.k0, prev, newno, now, r, committed, base);
  }

  /** The leaf price for one inode with both words. */
  lemma SamePrice(s0: Snap, s1: Snap, c: Ctx, q: Two, prev: nat, newno: nat, base: nat, commit: Commit, r: int)
    requires q.k0 == q.k1 && Inside(q.k0, 0, base) && commit != Free && q.x0 < Cap(HeightOf(c, q.k0))
    requires Spent(s0, s1, RootPrice(q, Both, HeightOf(c, q.k0), commit, true), r)
    requires r == 0 ==> (newno != prev <==> Price(FileEnds(q, Both), HeightOf(c, q.k0), 0, commit).moved && commit != Atomic && true)
    ensures Charged(s0, s1, Price(InodeEnds(q, c), 0, base, commit), r, prev, newno)
  {
    MeetSame(0, base, InodeOff(q.k0));
    assert commit == CopyOnly ==> Price(FileEnds(q, Both), HeightOf(c, q.k0), 0, commit).moved;
    hide FreeBlocks, RootPrice, HeightOf, Meet;
  }

  lemma FileForNow(c: Ctx, k: nat, now: seq<Byte>)
    requires c.InodeCtx? && k in c.old0
    ensures FileFor(c, k, now).now == now
  {
  }

  lemma BothFacts(s0: Snap, c: Ctx, q: Two, prev: nat, base: nat) returns (now: seq<Byte>)
    requires CtxFor(q, Inodes, c) && q.k0 == q.k1 && Inside(q.k0, 0, base) && Holds(s0, s0.freed, c, prev, 0, base, false) && prev != 0
    ensures c.InodeCtx? && q.k0 in c.old0 && q.k0 in c.v.live && Holds(s0, s0.freed, c, prev, 0, base, false) && c == Only(c, q.k0, now)
    ensures CtxFor(q, Both, FileFor(c, q.k0, now)) && FileReady(s0, FileFor(c, q.k0, now), prev, q.k0, Lo(q, Both), Hi(q, Both))
    ensures RootHeight(Get(s0.mem, prev), RootWordOf(q.k0)) == HeightOf(c, q.k0) && q.x0 < Cap(HeightOf(c, q.k0))
  {
    var k := q.k0;
    HeightHere(s0, c, prev, base, k);
    now := Put(Put(c.old0[k].bytes, q.x0, q.w0), q.x1, q.w1);
    assert k in c.old0.Keys;
    assert c.new0 == WithBytes(c.old0, k, now);
    hide Holds, Replaced;
    FileReadyAt(s0, c, prev, base, k, now, q.x0, q.x1 + 1);
    FileStart(s0, FileFor(c, k, now), prev, k, q.x0, q.x1 + 1);
  }

  /** The height of a file below a leaf of the inode tree. */
  lemma HeightHere(s: Snap, c: Ctx, rb: nat, base: nat, k: nat)
    requires Holds(s, s.freed, c, rb, 0, base, false) && c.InodeCtx? && rb != 0 && k in c.v.live && Inside(k, 0, base) && |c.old0[k].bytes| > 0
    ensures RootHeight(Get(s.mem, rb), RootWordOf(k)) == HeightOf(c, k)
  {
    assert FileOf(c, k, false) == c.old0[k];
    assert InodeHere(s, s.freed, k, rb, c.old0[k], k in c.dirs, c.heights[k]);
    hide FileProper, Whole, RootWordOf;
  }

  /** The file of one of two inodes. */
  lemma OneFacts(s0: Snap, c: Ctx, q: Two, second: bool, prev: nat, base: nat) returns (now: seq<Byte>)
    requires CtxFor(q, Inodes, c) && q.k0 != q.k1 && Inside(if second then q.k1 else q.k0, 0, base) && Holds(s0, s0.freed, c, prev, 0, base, false) && prev != 0
    ensures c.InodeCtx? && CtxOk(c) && Holds(s0, s0.freed, c, prev, 0, base, false)
    ensures var k := if second then q.k1 else q.k0;
      && k in c.old0 && k in c.v.live
      && CtxFor(q, One(second), FileFor(c, k, now)) && FileReady(s0, FileFor(c, k, now), prev, k, Lo(q, One(second)), Hi(q, One(second)))
      && CtxOk(Only(c, k, now)) && k in c.new0 && c.new0[k] == File(c.old0[k].words, now)
      && RootHeight(Get(s0.mem, prev), RootWordOf(k)) == HeightOf(c, k) && Lo(q, One(second)) < Cap(HeightOf(c, k))
  {
    var k, x, w := if second then q.k1 else q.k0, if second then q.x1 else q.x0, if second then q.w1 else q.w0;
    assert k in c.old0.Keys;
    now := Put(c.old0[k].bytes, x, w);
    HeightHere(s0, c, prev, base, k);
    hide Holds;
    FileReadyAt(s0, c, prev, base, k, now, x, x + 1);
    FileStart(s0, FileFor(c, k, now), prev, k, x, x + 1);
  }

  lemma NeitherHere(s0: Snap, c: Ctx, q: Two, prev: nat, base: nat)
    requires CtxFor(q, Inodes, c) && !Inside(q.k0, 0, base) && !Inside(q.k1, 0, base) && Holds(s0, s0.freed, c, prev, 0, base, false) && prev != 0
    ensures Outcome(s0, s0, c, prev, 0, base, 0, prev, false)
  {
    assert Agree(c, 0, base);
    hide Holds, Agree;
    HoldsAgree(s0, s0.freed, c, prev, 0, base);
    FreshSame(s0, c, 0, base);
  }

  method OneOfTwo(fs: Bpram, prev: nat, second: bool, q: Two, ghost commit: Commit, ghost c: Ctx, ghost base: nat) returns (r: int, newno: nat)
    requires fs.Valid() && prev != 0 && CtxFor(q, Inodes, c) && q.k0 != q.k1 && base % 4096 == 0
    requires Inside(if second then q.k1 else q.k0, 0, base) && !Inside(if second then q.k0 else q.k1, 0, base)
    requires Holds(Now(fs), fs.freed, c, prev, 0, base, false)
    modifies fs
    ensures fs.Valid() && Outcome(old(Now(fs)), Now(fs), c, prev, 0, base, r, newno, false)
    ensures Charged(old(Now(fs)), Now(fs), Price(InodeEnds(q, c), 0, base, commit), r, prev, newno)
    decreases 1, 0, 1
  {
    ghost var s0 := Now(fs);
    hide *;
    ghost var now := OneFacts(s0, c, q, second, prev, base);
    var k := if second then q.k1 else q.k0;
    ghost var committed;
    r, newno, committed := FileTree(fs, k, prev, q, One(second), CopyOnly, true, FileFor(c, k, now));
    OnePrice(s0, Now(fs), c, q, second, prev, newno, base, commit, r);
    FileForNow(c, k, now);
    LeafOutcome(s0, Now(fs), c, Only(c, k, now), k, prev, newno, now, r, committed, base);
    OneOutcome(s0, Now(fs), c, q, second, now, prev, base, r, newno, committed);
  }

  lemma OneOutcome(s0: Snap, s1: Snap, c: Ctx, q: Two, second: bool, now: seq<Byte>, prev: nat, base: nat, r: int, newno: nat, committed: bool)
    requires CtxFor(q, Inodes, c) && q.k0 != q.k1 && !Inside(if second then q.k0 else q.k1, 0, base)
    requires var k := if second then q.k1 else q.k0;
      && k in c.old0 && k in c.new0 && c.new0[k] == File(c.old0[k].words, now) && CtxOk(Only(c, k, now))
      && Outcome(s0, s1, Only(c, k, now), prev, 0, base, r, newno, committed)
    ensures Outcome(s0, s1, c, prev, 0, base, r, newno, committed)
  {
    OthersSame(c, q, second, now, base);
    hide CtxFor, Holds, Fresh, Stored, Outcome, CtxOk, Inside;
    var c' := Only(c, if second then q.k1 else q.k0, now);
    forall i | i in c.v.live && Inside(i, 0, base)
      ensures c.new0[i] == c'.new0[i]
    {
      assert FileOf(c, i, true) == FileOf(c, i, true);
    }
    OutcomeSame(s0, s1, c, c', prev, 0, base, r, newno, committed);
  }

  lemma OnePrice(s0: Snap, s1: Snap, c: Ctx, q: Two, second: bool, prev: nat, newno: nat, base: nat, commit: Commit, r: int)
    requires q.k0 != q.k1 && Inside(if second then q.k1 else q.k0, 0, base) && !Inside(if second then q.k0 else q.k1, 0, base)
    requires Spent(s0, s1, RootPrice(q, One(second), HeightOf(c, if second then q.k1 else q.k0), CopyOnly, true), r) && (r == 0 ==> newno != prev)
    ensures Charged(s0, s1, Price(InodeEnds(q, c), 0, base, commit), r, prev, newno)
  {
    hide FreeBlocks, RootPrice, HeightOf, Meet;
  }

  lemma OthersSame(c: Ctx, q: Two, second: bool, now: seq<Byte>, base: nat)
    requires CtxFor(q, Inodes, c) && q.k0 != q.k1 && !Inside(if second then q.k0 else q.k1, 0, base)
    requires var k := if second then q.k1 else q.k0; k in c.old0 && c.new0[k] == File(c.old0[k].words, now) && CtxOk(Only(c, k, now))
    ensures var c' := Only(c, if second then q.k1 else q.k0, now);
      && c'.InodeCtx? && c'.v == c.v && c'.size == c.size && c'.dirs == c.dirs && c'.heights == c.heights && c.InodeCtx? && CtxOk(c)
      && forall i {:trigger FileOf(c, i, true)} | i in c.v.live && Inside(i, 0, base) :: c.new0[i] == c'.new0[i]
  {
  }

  /** Two files whose inodes share a block: the second crawl works in the copy that the first one made. */
  method SameBlock(fs: Bpram, prev: nat, q: Two, ghost commit: Commit, ghost c: Ctx, ghost base: nat) returns (r: int, newno: nat)
    requires fs.Valid() && prev != 0 && CtxFor(q, Inodes, c) && q.k0 != q.k1 && base % 4096 == 0
    requires Inside(q.k0, 0, base) && Inside(q.k1, 0, base) && Holds(Now(fs), fs.freed, c, prev, 0, base, false)
    modifies fs
    ensures fs.Valid() && Outcome(old(Now(fs)), Now(fs), c, prev, 0, base, r, newno, false)
    ensures Charged(old(Now(fs)), Now(fs), Price(InodeEnds(q, c), 0, base, commit), r, prev, newno)
    decreases 1, 0, 1
  {
    ghost var s0 := Now(fs);
    hide *;
    ghost var now0 := OneFacts(s0, c, q, false, prev, base);
    ghost var c0 := Only(c, q.k0, now0);
    ghost var committed;
    r, newno, committed := FileTree(fs, q.k0, prev, q, One(false), CopyOnly, true, FileFor(c, q.k0, now0));
    FileForNow(c, q.k0, now0);
    ghost var s1 := Now(fs);
    LeafOutcome(s0, s1, c, c0, q.k0, prev, newno, now0, r, committed, base);
    if r != 0 {
      OnlyFacts(c, q.k0, now0);
      OutcomeSame(s0, s1, c, c0, prev, 0, base, r, newno, committed);
      FirstShort(s0, s1, c, q, prev, newno, base, commit, r);
      return;
    }
    assert newno != prev;
    var nb := newno;
    FirstMade(s0, s1, c, q, prev, nb, base, now0);
    ghost var now1 := SecondFacts(s0, s1, c, q, prev, nb, base, now0);
    ghost var c1 := Between(c, q.k0, now0);
    r, newno, committed := FileTree(fs, q.k1, nb, q, One(true), CopyOnly, false, FileFor(c1, q.k1, now1));
    FileForNow(c1, q.k1, now1);
    BothPrice(s0, s1, Now(fs), c, q, prev, nb, newno, base, commit, r);
    SecondDone(s0, s1, Now(fs), c, q, prev, nb, base, now0, now1, r, newno);
  }

  lemma FirstShort(s0: Snap, s1: Snap, c: Ctx, q: Two, prev: nat, newno: nat, base: nat, commit: Commit, r: int)
    requires q.k0 != q.k1 && Inside(q.k0, 0, base) && Inside(q.k1, 0, base) && r != 0
    requires Spent(s0, s1, RootPrice(q, One(false), HeightOf(c, q.k0), CopyOnly, true), r)
    ensures Charged(s0, s1, Price(InodeEnds(q, c), 0, base, commit), r, prev, newno)
  {
    hide FreeBlocks, RootPrice, HeightOf;
  }

  /** Two inodes of one leaf. */
  lemma BothPrice(s0: Snap, s1: Snap, s2: Snap, c: Ctx, q: Two, prev: nat, nb: nat, newno: nat, base: nat, commit: Commit, r: int)
    requires q.k0 != q.k1 && Inside(q.k0, 0, base) && Inside(q.k1, 0, base) && nb != prev && (r == 0 ==> newno == nb)
    requires Spent(s0, s1, RootPrice(q, One(false), HeightOf(c, q.k0), CopyOnly, true), 0)
    requires Spent(s1, s2, RootPrice(q, One(true), HeightOf(c, q.k1), CopyOnly, false), r)
    ensures Charged(s0, s2, Price(InodeEnds(q, c), 0, base, commit), r, prev, newno)
  {
    hide FreeBlocks, RootPrice, HeightOf;
  }

  lemma OnlyFacts(c: Ctx, k: nat, now: seq<Byte>)
    requires c.InodeCtx? && CtxOk(c) && k in c.old0
    ensures var c' := Only(c, k, now); c'.InodeCtx? && CtxOk(c') && c'.v == c.v && c'.size == c.size && c'.dirs == c.dirs && c'.heights == c.heights
  {
  }

  /** After the first file, with its words in copy nb of the block. */
  ghost predicate FirstDone(s0: Snap, s1: Snap, c: Ctx, q: Two, prev: nat, nb: nat, base: nat, now0: seq<Byte>) {
    && CtxFor(q, Inodes, c) && q.k0 != q.k1 && base % 4096 == 0 && prev != 0 && nb != prev
    && Inside(q.k0, 0, base) && Inside(q.k1, 0, base) && Holds(s0, s0.freed, c, prev, 0, base, false)
    && now0 == c.new0[q.k0].bytes
    && RootDone(s0, s1, q.k0, prev, nb, now0, true, 0, false) && Outcome(s0, s1, Only(c, q.k0, now0), prev, 0, base, 0, nb, false)
  }

  lemma FirstMade(s0: Snap, s1: Snap, c: Ctx, q: Two, prev: nat, nb: nat, base: nat, now0: seq<Byte>)
    requires CtxFor(q, Inodes, c) && q.k0 != q.k1 && base % 4096 == 0 && prev != 0 && nb != prev
    requires Inside(q.k0, 0, base) && Inside(q.k1, 0, base) && Holds(s0, s0.freed, c, prev, 0, base, false)
    requires q.k0 in c.new0 && c.new0[q.k0] == File(c.old0[q.k0].words, now0)
    requires RootDone(s0, s1, q.k0, prev, nb, now0, true, 0, false) && Outcome(s0, s1, Only(c, q.k0, now0), prev, 0, base, 0, nb, false)
    ensures FirstDone(s0, s1, c, q, prev, nb, base, now0)
  {
  }

  /** The contents between the two. */
  function Between(c: Ctx, k: nat, now: seq<Byte>): Ctx
    requires c.InodeCtx? && k in c.old0
  {
    c.(old0 := WithBytes(c.old0, k, now))
  }

  lemma BetweenHolds(s: Snap, freed: set<nat>, c: Ctx, q: Two, a: nat, base: nat, now0: seq<Byte>)
    requires CtxFor(q, Inodes, c) && q.k0 != q.k1 && now0 == c.new0[q.k0].bytes && q.k0 in c.old0
    requires Holds(s, freed, Only(c, q.k0, now0), a, 0, base, true)
    ensures Holds(s, freed, Between(c, q.k0, now0), a, 0, base, false)
    ensures OneInode(Between(c, q.k0, now0), q.k1, c.new0[q.k1].bytes)
  {
    var c0, c1 := Only(c, q.k0, now0), Between(c, q.k0, now0);
    assert q.k1 in c.old0.Keys && q.k0 in c.old0.Keys;
    assert c1.new0 == WithBytes(c1.old0, q.k1, c.new0[q.k1].bytes);
    hide Holds;
    HoldsSame(s, freed, c0, c1, a, 0, base, true, false);
  }

  lemma SecondFacts(s0: Snap, s1: Snap, c: Ctx, q: Two, prev: nat, nb: nat, base: nat, now0: seq<Byte>) returns (now1: seq<Byte>)
    requires FirstDone(s0, s1, c, q, prev, nb, base, now0)
    ensures c.InodeCtx? && q.k0 in c.old0 && q.k1 in c.new0 && now1 == c.new0[q.k1].bytes
    ensures var c1 := Between(c, q.k0, now0);
      && c1.InodeCtx? && q.k1 in c1.old0 && CtxFor(q, One(true), FileFor(c1, q.k1, now1))
      && FileReady(s1, FileFor(c1, q.k1, now1), nb, q.k1, Lo(q, One(true)), Hi(q, One(true)))
    ensures RootHeight(Get(s1.mem, nb), RootWordOf(q.k1)) == HeightOf(c, q.k1)
  {
    var c1 := Between(c, q.k0, now0);
    now1 := c.new0[q.k1].bytes;
    assert q.k1 in c.old0.Keys && q.k0 in c.old0.Keys;
    BetweenHolds(s1, s1.freed, c, q, nb, base, now0);
    HeightHere(s1, c1, nb, base, q.k1);
    hide Holds, RootDone;
    FileReadyAt(s1, c1, nb, base, q.k1, now1, q.x1, q.x1 + 1);
  }

  lemma SecondFresh(s0: Snap, s1: Snap, s2: Snap, c: Ctx, q: Two, prev: nat, nb: nat, base: nat, now0: seq<Byte>, now1: seq<Byte>, r: int, newno: nat)
    requires FirstDone(s0, s1, c, q, prev, nb, base, now0) && RootDone(s1, s2, q.k1, nb, newno, now1, false, r, false)
    ensures Fresh(s0, s2, c, 0, base) && nb !in s0.pos
  {
    assert Fresh(s0, s1, Only(c, q.k0, now0), 0, base) && nb !in s0.pos && q.k1 in c.v.live;
    hide CtxFor, Holds, Whole, FileShows, FileProper, HaHeight, RootWordOf;
    forall m': Mem | IntactBut(s1, m', nb, true)
      ensures Intact(s0, m')
    {
      forall b {:trigger Get(m', b)} | b in s0.pos
        ensures Get(m', b) == Get(s0.mem, b)
      {
        assert Get(s1.mem, b) == Get(s0.mem, b);
      }
    }
    assert IntactBut(s1, s2.mem, nb, true);
  }

  lemma SecondDone(s0: Snap, s1: Snap, s2: Snap, c: Ctx, q: Two, prev: nat, nb: nat, base: nat, now0: seq<Byte>, now1: seq<Byte>, r: int, newno: nat)
    requires FirstDone(s0, s1, c, q, prev, nb, base, now0) && RootDone(s1, s2, q.k1, nb, newno, now1, false, r, false)
    requires now1 == c.new0[q.k1].bytes
    ensures Outcome(s0, s2, c, prev, 0, base, r, newno, false)
  {
    SecondFresh(s0, s1, s2, c, q, prev, nb, base, now0, now1, r, newno);
    if r == 0 {
      assert q.k1 in c.old0.Keys && q.k0 in c.old0.Keys;
      BetweenHolds(s1, s1.freed, c, q, nb, base, now0);
      var c1 := Between(c, q.k0, now0);
      assert nb != 0 && newno == nb && CtxOk(c);
      hide Holds, RootDone, Fresh, CtxFor;
      LeafHolds(s1, s2, c1, q.k1, nb, newno, now1, false, false, base);
      HoldsSame(s2, s2.freed, c1, c, newno, 0, base, true, true);
    }
  }
}

/** The whole volume while two words are replaced. */
module Rename {
  import opened Words
  import opened Geometry
  import opened Tree
  import opened Bpram
  import opened WriteSpec
  import opened WriteCrawl
  import opened Root
  import opened Height
  import opened Volume
  import opened RenameSpec
  import opened RenameLoop
  import opened RenameCrawl
  import opened RenameSpace
  import opened SpaceSpec
  import opened TreeSpace

  /** The heights of the files' trees. */
  function Heights(m: Mem, v: Vol): map<nat, nat>
    requires VolOk(v)
  {
    map i | i in v.live :: HaHeight(Get(m, InodeBlock(m, v, i)), RootWordOf(i))
  }

  /** The level at which the ways to two bytes of a tree part. */
  function Parting(h: nat, x: nat, y: nat): nat {
    if At(x, h, 0) && At(y, h, 0) then Meet(h, 0, x, y) else 0
  }

  /** The blocks that the replacement of two words takes. In one file these are the blocks on the ways to them up to where the ways
      meet. In two files they are the ways in both files, the blocks of the inodes, and the ways to these up to where they meet. */
  function RenameCost(m: Mem, v: Vol, k0: nat, x0: nat, k1: nat, x1: nat): nat
    requires VolOk(v) && k0 in v.live && k1 in v.live
  {
    var h0, h1 := Heights(m, v)[k0], Heights(m, v)[k1];
    if k0 == k1 then 2 * Parting(h0, x0, x1) + 1
    else h0 + h1 + 3 + 2 * Parting(v.h, InodeOff(k0), InodeOff(k1))
  }

  lemma RenameCostSwap(m: Mem, v: Vol, k0: nat, x0: nat, k1: nat, x1: nat)
    requires VolOk(v) && k0 in v.live && k1 in v.live
    ensures RenameCost(m, v, k0, x0, k1, x1) == RenameCost(m, v, k1, x1, k0, x0)
  {
    hide HaHeight, InodeBlock, RootWordOf, InodeOff, Meet;
    var h := Heights(m, v)[k0];
    if At(x0, h, 0) && At(x1, h, 0) {
      MeetSwap(h, 0, x0, x1);
    }
    if At(InodeOff(k0), v.h, 0) && At(InodeOff(k1), v.h, 0) {
      MeetSwap(v.h, 0, InodeOff(k0), InodeOff(k1));
    }
  }

  /** It never takes more than both ways from the top down, so that many free blocks are enough. */
  lemma RenameCostBound(m: Mem, v: Vol, k0: nat, x0: nat, k1: nat, x1: nat)
    requires VolOk(v) && k0 in v.live && k1 in v.live
    ensures RenameCost(m, v, k0, x0, k1, x1) <= Heights(m, v)[k0] + Heights(m, v)[k1] + 2 * v.h + 3
  {
    hide HaHeight, InodeBlock, RootWordOf, InodeOff;
  }

  /** The price of one file. */
  lemma OneRootPrice(q: Two, second: bool, h: nat, refed: bool)
    requires At(Lo(q, One(second)), h, 0)
    ensures RootPrice(q, One(second), h, CopyOnly, refed) == h + 1 + if refed then 1 else 0
  {
    MeetSame(h, 0, Lo(q, One(second)));
  }

  lemma BothRootPrice(q: Two, h: nat)
    requires At(q.x0, h, 0) && At(q.x1, h, 0)
    ensures RootPrice(q, Both, h, Atomic, true) == 2 * Meet(h, 0, q.x0, q.x1) + 1
  {
  }

  /** What the crawl of the inode tree is charged is that cost. */
  lemma RenamePrice(m: Mem, v: Vol, q: Two, c: Ctx)
    requires VolOk(v) && q.k0 in v.live && q.k1 in v.live && c.InodeCtx? && c.heights == Heights(m, v)
    requires At(q.x0, c.heights[q.k0], 0) && At(q.x1, c.heights[q.k1], 0) && Inside(q.k0, v.h, 0) && Inside(q.k1, v.h, 0)
    ensures Price(EndsOf(q, Inodes, c), v.h, 0, Atomic).cost == RenameCost(m, v, q.k0, q.x0, q.k1, q.x1)
  {
    assert q.k0 in c.heights && q.k1 in c.heights;
    hide RootPrice, Heights, InodeOff, Meet;
    OneRootPrice(q, false, c.heights[q.k0], true);
    OneRootPrice(q, true, c.heights[q.k1], true);
    OneRootPrice(q, true, c.heights[q.k1], false);
    if q.k0 == q.k1 {
      BothRootPrice(q, c.heights[q.k0]);
      MeetSame(v.h, 0, InodeOff(q.k0));
    }
  }

  /** The words of directories lie in their trees. */
  lemma WordsFit(s0: Snap, v: Vol, q: Two, files: map<nat, File>, dirs: set<nat>)
    requires VolProper(s0, v) && VolShows(s0.mem, v, files) && TwoFit(q, files) && Solid(s0.mem, v, dirs) && q.k0 in dirs && q.k1 in dirs
    ensures VolOk(v) && q.k0 in v.live && q.k1 in v.live
    ensures At(q.x0, Heights(s0.mem, v)[q.k0], 0) && At(q.x1, Heights(s0.mem, v)[q.k1], 0) && Inside(q.k0, v.h, 0) && Inside(q.k1, v.h, 0)
  {
    assert q.k0 in files.Keys && q.k1 in files.Keys;
    InodeFits(v, q.k0);
    InodeFits(v, q.k1);
    WordFits(s0, v, q.k0, q.x0, files, dirs);
    WordFits(s0, v, q.k1, q.x1, files, dirs);
  }

  lemma WordFits(s: Snap, v: Vol, k: nat, x: nat, files: map<nat, File>, dirs: set<nat>)
    requires VolProper(s, v) && VolShows(s.mem, v, files) && k in files && x + 8 <= |files[k].bytes| && Solid(s.mem, v, dirs) && k in dirs && k in v.live
    ensures At(x, Heights(s.mem, v)[k], 0)
  {
    var rb, ro := InodeBlock(s.mem, v, k), RootWordOf(k);
    assert InodeShows(s.mem, rb, k, files[k]) && Whole(s.mem, rb, ro);
    hide VolProper, VolShows, Solid, InodeBlock, RootWordOf, LeafOf, Cap;
    assert InTree(s.mem, rb, ro, x);
  }

  /** The inode tree of a volume as a crawl sees it. */
  ghost function VolCtx(m: Mem, v: Vol, files: map<nat, File>, files': map<nat, File>, dirs: set<nat>): Ctx
    requires VolOk(v)
  {
    InodeCtx(v, files, files', Nbytes(Get(m, v.irb), 0), dirs, Heights(m, v))
  }

  lemma VolHolds(s: Snap, v: Vol, files: map<nat, File>, files': map<nat, File>, dirs: set<nat>)
    requires VolProper(s, v) && VolShows(s.mem, v, files) && files'.Keys == v.live && Solid(s.mem, v, dirs)
    ensures Holds(s, s.freed, VolCtx(s.mem, v, files, files', dirs), RootAddr(Get(s.mem, v.irb), 0), v.h, 0, false)
  {
    var c := VolCtx(s.mem, v, files, files', dirs);
    TreeDense(s, v, dirs);
    hide Proper, InodeShows, FileProper, HaHeight, Dense, Whole;
    forall i | i in v.live
      ensures InodeOff(i) + 128 <= c.size
    {
      assert InodeProper(s, v, i);
    }
    forall i {:trigger FileOf(c, i, false)} | i in v.live && Inside(i, v.h, 0)
      ensures InodeHere(s, s.freed, i, LeafOf(s.mem, RootAddr(Get(s.mem, v.irb), 0), v.h, 0, InodeOff(i)), FileOf(c, i, false), i in c.dirs, c.heights[i])
    {
      assert InodeProper(s, v, i);
      assert i in files.Keys && InodeShows(s.mem, InodeBlock(s.mem, v, i), i, files[i]);
    }
  }

  /** The inode tree of a solid volume. */
  lemma TreeDense(s: Snap, v: Vol, dirs: set<nat>)
    requires VolProper(s, v) && Solid(s.mem, v, dirs)
    ensures Dense(s.mem, RootAddr(Get(s.mem, v.irb), 0), v.h, 0, Nbytes(Get(s.mem, v.irb), 0)) && Nbytes(Get(s.mem, v.irb), 0) <= Cap(v.h)
  {
    var a, n := RootAddr(Get(s.mem, v.irb), 0), Nbytes(Get(s.mem, v.irb), 0);
    assert RootHeight(Get(s.mem, v.irb), 0) == v.h && InTree(s.mem, v.irb, 0, n - 1);
    hide Proper, InodeProper, LeafOf;
    forall x: nat {:trigger LeafOf(s.mem, a, v.h, 0, x)} | x < Cap(v.h) && x < n
      ensures LeafOf(s.mem, a, v.h, 0, x) != 0
    {
      assert InTree(s.mem, v.irb, 0, x);
    }
  }

  /** The block that holds the root of the inode tree says where the tree is. */
  ghost predicate RootIs(s: Snap, v: Vol, a: nat, size: nat) {
    && v.irb in s.pos && s.pos[v.irb].tree !in (set k | k in v.live :: k + 1) + {0}
    && Nbytes(Get(s.mem, v.irb), 0) == size > 0 && HaHeight(Get(s.mem, v.irb), 0) == v.h && RootAddr(Get(s.mem, v.irb), 0) == a
  }

  predicate Sized(c: Ctx)
    requires c.InodeCtx?
  {
    c.dirs <= c.v.live && c.size <= Cap(c.v.h)
  }

  lemma HoldsVol(s: Snap, freed: set<nat>, c: Ctx, a: nat, fin: bool)
    requires c.InodeCtx? && Holds(s, freed, c, a, c.v.h, 0, fin) && RootIs(s, c.v, a, c.size) && c.v.irb !in freed
    requires Sized(c)
    ensures VolProper(s.(freed := freed), c.v) && VolShows(s.mem, c.v, if fin then c.new0 else c.old0) && Solid(s.mem, c.v, c.dirs)
  {
    var v, s', files := c.v, s.(freed := freed), if fin then c.new0 else c.old0;
    HoldsSolid(s, freed, c, a, fin);
    hide Proper, InodeShows, FileProper, HaHeight, Whole, Dense;
    forall i {:trigger files[i]} {:trigger InodeProper(s', v, i)} | i in v.live
      ensures InodeShows(s.mem, InodeBlock(s.mem, v, i), i, files[i]) && InodeProper(s', v, i)
    {
      assert FileOf(c, i, fin) == files[i];
      InodeFits(v, i);
      SnapFile(s, s', freed, i + 1, InodeBlock(s.mem, v, i), RootWordOf(i));
    }
  }

  lemma HoldsSolid(s: Snap, freed: set<nat>, c: Ctx, a: nat, fin: bool)
    requires c.InodeCtx? && Holds(s, freed, c, a, c.v.h, 0, fin) && RootIs(s, c.v, a, c.size)
    requires Sized(c)
    ensures Solid(s.mem, c.v, c.dirs)
  {
    var v := c.v;
    assert RootHeight(Get(s.mem, v.irb), 0) == v.h;
    hide Proper, InodeShows, FileProper, HaHeight, LeafOf, Cap;
    forall x: nat {:trigger InTree(s.mem, v.irb, 0, x)} | x < c.size
      ensures InTree(s.mem, v.irb, 0, x)
    {
      assert LeafOf(s.mem, a, v.h, 0, x) != 0;
    }
    hide Whole, Dense;
    forall i {:trigger InodeBlock(s.mem, v, i)} | i in c.dirs
      ensures Whole(s.mem, InodeBlock(s.mem, v, i), RootWordOf(i))
    {
      InodeFits(v, i);
      assert FileOf(c, i, fin) == FileOf(c, i, fin);
    }
  }

  lemma InodeFits(v: Vol, i: nat)
    requires VolOk(v) && i in v.live
    ensures Inside(i, v.h, 0)
  {
  }

  lemma SnapFile(s: Snap, s': Snap, freed: set<nat>, t: nat, rb: nat, ro: nat)
    requires ro < 511 && s'.mem == s.mem && s'.pos == s.pos
    ensures FileProper(s', freed, t, rb, ro) == FileProper(s, freed, t, rb, ro)
  {
  }

  /** The root block of the inode tree is outside every tree. */
  lemma RootOutside(s: Snap, v: Vol, c: Ctx)
    requires VolProper(s, v) && c.InodeCtx? && c.v == v
    ensures v.irb in s.pos && v.irb !in s.freed && !Owned(c, s.pos[v.irb], v.h, 0) && RootIs(s, v, RootAddr(Get(s.mem, v.irb), 0), Nbytes(Get(s.mem, v.irb), 0))
  {
    forall k | k in v.live
      ensures s.pos[v.irb].tree != k + 1
    {
      RootApart(s, v, k);
    }
  }

  /** A crash that leaves what was in use alone shows the old volume. */
  lemma IntactVol(s0: Snap, s: Snap, c: Ctx)
    requires c.InodeCtx? && VolProper(s0, c.v) && c.size == Nbytes(Get(s0.mem, c.v.irb), 0) && Extends(s0.pos, s.pos) && Intact(s0, s.mem)
    requires Holds(s0, s0.freed, c, RootAddr(Get(s0.mem, c.v.irb), 0), c.v.h, 0, false) && Sized(c)
    ensures VolShows(s.mem, c.v, c.old0) && VolProper(Rolled(s0, s), c.v) && Solid(s.mem, c.v, c.dirs)
  {
    RootOutside(s0, c.v, c);
    hide Holds, Solid, VolProper, VolShows, HaHeight, Nbytes, RootAddr, Owned;
    assert Get(s.mem, c.v.irb) == Get(s0.mem, c.v.irb);
    var s' := Rolled(s0, s);
    HoldsFrame(s0, s', s0.freed, s0.freed, c, RootAddr(Get(s0.mem, c.v.irb), 0), c.v.h, 0, false);
    HoldsVol(s', s0.freed, c, RootAddr(Get(s0.mem, c.v.irb), 0), false);
    assert s'.(freed := s0.freed) == s';
  }

  /** What the replacement of both words leaves: all of it or nothing, at every crash. If it fails, an abort gives back a proper
      volume, since nothing new has been linked. */
  ghost predicate AllOrNothing(s0: Snap, s1: Snap, v: Vol, files: map<nat, File>, files': map<nat, File>, dirs: set<nat>, r: int) {
    && s0.crashes <= s1.crashes && Extends(s0.pos, s1.pos) && (r == 0 || r == ENOSPC) && Solid(s1.mem, v, dirs)
    && (r == 0 ==> VolProper(s1, v) && VolShows(s1.mem, v, files'))
    && (r != 0 ==> VolProper(Rolled(s0, s1), v) && VolShows(s1.mem, v, files))
    && forall m' {:trigger m' in s1.crashes} | m' in s1.crashes ::
         m' in s0.crashes || VolShows(m', v, files) || (r == 0 && m' == s1.mem)
  }

  lemma CrashVol(s0: Snap, m': Mem, c: Ctx)
    requires c.InodeCtx? && VolProper(s0, c.v) && c.size == Nbytes(Get(s0.mem, c.v.irb), 0) && Intact(s0, m')
    requires Holds(s0, s0.freed, c, RootAddr(Get(s0.mem, c.v.irb), 0), c.v.h, 0, false) && Sized(c)
    ensures VolShows(m', c.v, c.old0)
  {
    hide Holds, Solid, VolProper, VolShows, Nbytes, RootAddr;
    IntactVol(s0, s0.(mem := m'), c);
  }

  /** The crawl failed, or left the root of the inode tree where it was. */
  lemma TreeStays(s0: Snap, s1: Snap, c: Ctx, a: nat, r: int, a': nat, committed: bool)
    requires c.InodeCtx? && VolProper(s0, c.v) && c.size == Nbytes(Get(s0.mem, c.v.irb), 0) && a == RootAddr(Get(s0.mem, c.v.irb), 0)
    requires Holds(s0, s0.freed, c, a, c.v.h, 0, false) && Outcome(s0, s1, c, a, c.v.h, 0, r, a', committed) && (r == 0 ==> a' == a) && Sized(c)
    ensures AllOrNothing(s0, s1, c.v, c.old0, c.new0, c.dirs, r)
  {
    RootOutside(s0, c.v, c);
    hide Holds, Solid, VolProper, VolShows, HaHeight, Nbytes, RootAddr, Owned;
    assert Get(s1.mem, c.v.irb) == Get(s0.mem, c.v.irb);
    if r == 0 {
      HoldsVol(s1, s1.freed, c, a, true);
      assert s1.(freed := s1.freed) == s1;
    } else {
      IntactVol(s0, s1, c);
    }
    forall m' {:trigger m' in s1.crashes} | m' in s1.crashes && m' !in s0.crashes && !(r == 0 && m' == s1.mem)
      ensures VolShows(m', c.v, c.old0)
    {
      CrashVol(s0, m', c);
    }
  }

  /** The store of the new root of the inode tree commits. */
  lemma TreeStored(s0: Snap, s1: Snap, s2: Snap, c: Ctx, a: nat, a': nat)
    requires c.InodeCtx? && VolProper(s0, c.v) && c.size == Nbytes(Get(s0.mem, c.v.irb), 0) && a == RootAddr(Get(s0.mem, c.v.irb), 0)
    requires Holds(s0, s0.freed, c, a, c.v.h, 0, false) && Outcome(s0, s1, c, a, c.v.h, 0, 0, a', false) && c.v.h < 8 && a' < 0x2000_0000_0000_0000 && Sized(c)
    requires s2 == Snap(s1.mem[c.v.irb := Get(s1.mem, c.v.irb)[0 := HaWord(c.v.h, a')]], s1.pos, s1.freed, s1.crashes + iset{s2.mem})
    ensures AllOrNothing(s0, s2, c.v, c.old0, c.new0, c.dirs, 0)
  {
    var v := c.v;
    RootOutside(s0, v, c);
    HaRoundTrip(v.h, a');
    RootMoved(s0, s1, s2, c, a');
    hide Holds, Solid, VolProper, VolShows, Owned, HaWord, RootIs;
    HoldsVol(s2, s2.freed, c, a', true);
    assert s2.(freed := s2.freed) == s2;
    forall m' {:trigger m' in s2.crashes} | m' in s2.crashes && m' !in s0.crashes && m' != s2.mem
      ensures VolShows(m', v, c.old0)
    {
      CrashVol(s0, m', c);
    }
  }

  lemma RootMoved(s0: Snap, s1: Snap, s2: Snap, c: Ctx, a': nat)
    requires c.InodeCtx? && VolProper(s0, c.v) && c.size == Nbytes(Get(s0.mem, c.v.irb), 0) && c.v.h < 8 && a' < 0x2000_0000_0000_0000
    requires Fresh(s0, s1, c, c.v.h, 0) && Holds(s1, s1.freed, c, a', c.v.h, 0, true)
    requires s2.mem == s1.mem[c.v.irb := Get(s1.mem, c.v.irb)[0 := HaWord(c.v.h, a')]] && s2.pos == s1.pos && s2.freed == s1.freed
    ensures RootIs(s2, c.v, a', c.size) && Holds(s2, s2.freed, c, a', c.v.h, 0, true)
  {
    RootOutside(s0, c.v, c);
    HaRoundTrip(c.v.h, a');
    hide Holds, VolProper, Owned, HaWord;
    assert Get(s1.mem, c.v.irb) == Get(s0.mem, c.v.irb);
    assert OnlyBlock(s1.mem, s2.mem, c.v.irb);
    HoldsFrame(s1, s2, s1.freed, s2.freed, c, a', c.v.h, 0, true);
  }

  lemma VolStart(s0: Snap, v: Vol, q: Two, files: map<nat, File>, dirs: set<nat>)
    requires VolProper(s0, v) && VolShows(s0.mem, v, files) && TwoFit(q, files) && Solid(s0.mem, v, dirs) && q.k0 in dirs && q.k1 in dirs
    ensures var c := VolCtx(s0.mem, v, files, Replaced(files, q), dirs);
      && c.InodeCtx? && c.v == v && c.old0 == files && c.new0 == Replaced(files, q) && c.size == End(c) == Nbytes(Get(s0.mem, v.irb), 0) && c.dirs == dirs
      && Holds(s0, s0.freed, c, RootAddr(Get(s0.mem, v.irb), 0), v.h, 0, false) && RootAddr(Get(s0.mem, v.irb), 0) != 0 && Sized(c)
    ensures RootHeight(Get(s0.mem, v.irb), 0) == v.h && v.h < 8 && VolOk(v)
  {
    assert dirs <= v.live;
    hide VolProper, VolShows, Holds, Solid, Replaced, HaHeight, Cap, TwoFit, CtxOk, CtxFor, Lo, Hi;
    VolTask(s0, v, q, files, dirs);
    VolHolds(s0, v, files, Replaced(files, q), dirs);
    TreeDense(s0, v, dirs);
    var c := VolCtx(s0.mem, v, files, Replaced(files, q), dirs);
    HoldsRoot(s0, s0.freed, c, RootAddr(Get(s0.mem, v.irb), 0), v.h, 0, false);
  }

  lemma VolSpan(s0: Snap, v: Vol, q: Two, files: map<nat, File>, dirs: set<nat>)
    requires VolProper(s0, v) && VolShows(s0.mem, v, files) && TwoFit(q, files) && q.k0 in dirs && q.k1 in dirs
    ensures Lo(q, Inodes) < Hi(q, Inodes)
    ensures var c := VolCtx(s0.mem, v, files, Replaced(files, q), dirs);
      && Task(q, Inodes, c, Span(q, Inodes, c)) && Span(q, Inodes, c).Hi() <= Cap(v.h)
      && Share(Span(q, Inodes, c), v.h, 0, Lo(q, Inodes) / 4096, Lo(q, Inodes), Hi(q, Inodes) - Lo(q, Inodes), Min(End(c), Cap(v.h)))
  {
    assert VolOk(v);
    hide VolProper, VolShows, Replaced, Share, Task, Cap, TwoFit, CtxOk, CtxFor, Lo, Hi;
    VolTask(s0, v, q, files, dirs);
    SpanTask(q, Inodes, VolCtx(s0.mem, v, files, Replaced(files, q), dirs), v.h);
  }

  lemma VolTask(s0: Snap, v: Vol, q: Two, files: map<nat, File>, dirs: set<nat>)
    requires VolProper(s0, v) && VolShows(s0.mem, v, files) && TwoFit(q, files) && q.k0 in dirs && q.k1 in dirs
    ensures var c := VolCtx(s0.mem, v, files, Replaced(files, q), dirs); CtxFor(q, Inodes, c) && Hi(q, Inodes) <= Cap(v.h)
    ensures Nbytes(Get(s0.mem, v.irb), 0) > 0 && HaHeight(Get(s0.mem, v.irb), 0) == v.h && v.h < 8 && Replaced(files, q).Keys == v.live
  {
    assert q.k1 in files.Keys && q.k0 in files.Keys;
    hide Proper, InodeShows, InodeBlock, FileProper;
    forall i | i in v.live
      ensures InodeOff(i) + 128 <= Nbytes(Get(s0.mem, v.irb), 0)
    {
      assert InodeProper(s0, v, i);
    }
  }

  lemma TreeMoves(fs: Bpram, s0: Snap, c: Ctx, a: nat, a': nat, committed: bool)
    requires fs.Valid() && c.InodeCtx? && VolProper(s0, c.v) && Outcome(s0, Now(fs), c, a, c.v.h, 0, 0, a', committed) && a' != a
    ensures !committed && a' < 0x2000_0000_0000_0000 && c.v.irb in fs.used
  {
    assert c.v.irb in s0.pos;
    hide VolProper, Holds;
    AddrFits(fs, c, a', c.v.h, 0, true);
  }

  /** crawl_data_2 on the volume, with the words in ascending order, both in directories. */
  method CrawlData2(fs: Bpram, v: Vol, q: Two, ghost files: map<nat, File>, ghost dirs: set<nat>) returns (r: int)
    requires fs.Valid() && VolProper(Now(fs), v) && VolShows(fs.mem, v, files) && TwoFit(q, files)
    requires Solid(fs.mem, v, dirs) && q.k0 in dirs && q.k1 in dirs
    modifies fs
    ensures fs.Valid() && AllOrNothing(old(Now(fs)), Now(fs), v, files, Replaced(files, q), dirs, r)
    ensures VolOk(v) && q.k0 in v.live && q.k1 in v.live && Afforded(old(Now(fs)), Now(fs), RenameCost(old(fs.mem), v, q.k0, q.x0, q.k1, q.x1), r)
  {
    hide *;
    ghost var s0 := Now(fs);
    WordsFit(s0, v, q, files, dirs);
    VolStart(s0, v, q, files, dirs);
    VolSpan(s0, v, q, files, dirs);
    ghost var c := VolCtx(fs.mem, v, files, Replaced(files, q), dirs);
    ghost var j := Span(q, Inodes, c);
    var blk := Get(fs.mem, v.irb);
    var h, a := RootHeight(blk, 0), RootAddr(blk, 0);
    var lo, size := Lo(q, Inodes), Hi(q, Inodes) - Lo(q, Inodes);
    var max := TreeMaxNblocks(h);
    var valid := Min(Nbytes(blk, 0), max * 4096);
    CapBlocks(h, Nbytes(blk, 0), max);
    var a';
    ghost var committed;
    if h == 0 {
      r, a', committed := InodeLeaf(fs, a, lo / 4096, lo, size, Atomic, q, c, j, 0, valid);
    } else {
      r, a', committed := CrawlIndir2(fs, a, lo / 4096, lo, size, valid, Atomic, h, max, q, Inodes, c, j, 0);
    }
    ghost var s1 := Now(fs);
    CtxHeights(s0.mem, v, files, Replaced(files, q), dirs);
    EndsFor(q, Inodes, c);
    RenamePrice(s0.mem, v, q, c);
    ChargedAfforded(s0, s1, Price(EndsOf(q, Inodes, c), h, 0, Atomic), r, a, a');
    if r != 0 || a' == a {
      TreeStays(s0, s1, c, a, r, a', committed);
      return;
    }
    TreeMoves(fs, s0, c, a, a', committed);
    InUse(fs, v.irb);
    fs.StoreWord(v.irb, 0, HaWord(h, a'));
    SameRoom(s1, Now(fs));
    AffordedSame(s0, s1, Now(fs), RenameCost(s0.mem, v, q.k0, q.x0, q.k1, q.x1), r);
    TreeStored(s0, s1, Now(fs), c, a, a');
  }

  /** It succeeds exactly when there are enough free blocks, and then takes that many. */
  ghost predicate Afforded(s0: Snap, s1: Snap, cost: nat, r: int) {
    && (r == 0 <==> cost <= FreeBlocks(s0.mem, s0.pos))
    && (r == 0 ==> FreeBlocks(s1.mem, s1.pos) == FreeBlocks(s0.mem, s0.pos) - cost)
  }

  lemma ChargedAfforded(s0: Snap, s1: Snap, b: Bill, r: int, a: nat, a': nat)
    requires Charged(s0, s1, b, r, a, a')
    ensures Afforded(s0, s1, b.cost, r)
  {
  }

  lemma AffordedSame(s0: Snap, s1: Snap, s2: Snap, cost: nat, r: int)
    requires Afforded(s0, s1, cost, r) && Room(s2) == Room(s1)
    ensures Afforded(s0, s2, cost, r)
  {
  }

  lemma CtxHeights(m: Mem, v: Vol, files: map<nat, File>, files': map<nat, File>, dirs: set<nat>)
    requires VolOk(v)
    ensures VolCtx(m, v, files, files', dirs).heights == Heights(m, v)
  {
  }

  /** A word to replace: index of the inode, offset in its file, new value. */
  datatype Dirent = Dirent(k: nat, x: nat, w: Word)

  predicate InFile(d: Dirent, files: map<nat, File>) {
    d.x % 8 == 0 && d.k in files && d.x + 8 <= |files[d.k].bytes|
  }

  function SetOne(files: map<nat, File>, d: Dirent): (files': map<nat, File>)
    requires InFile(d, files)
    ensures forall e {:trigger InFile(e, files')} | InFile(e, files) :: InFile(e, files')
  {
    WithBytes(files, d.k, Put(files[d.k].bytes, d.x, d.w))
  }

  /** The order in which crawl_data_2 takes the two. */
  function InOrder(d: Dirent, e: Dirent): Two {
    if d.k < e.k || (d.k == e.k && d.x <= e.x) then Two(d.k, d.x, d.w, e.k, e.x, e.w) else Two(e.k, e.x, e.w, d.k, d.x, d.w)
  }

  /** The order does not matter. */
  lemma OrderIrrelevant(files: map<nat, File>, d: Dirent, e: Dirent)
    requires InFile(d, files) && InFile(e, files) && (d.k != e.k || d.x != e.x)
    ensures TwoFit(InOrder(d, e), files) && Replaced(files, InOrder(d, e)) == SetOne(SetOne(files, d), e)
  {
    var a, b := SetOne(SetOne(files, d), e), SetOne(SetOne(files, e), d);
    if d.k == e.k {
      assert a[d.k].bytes == b[d.k].bytes;
    }
    assert a == b;
  }

  /** fuse_rename's step: dst gets the inode number and src loses it, both or neither. */
  method SetDirents(fs: Bpram, v: Vol, dst: Dirent, src: Dirent, ghost files: map<nat, File>, ghost dirs: set<nat>) returns (r: int)
    requires fs.Valid() && VolProper(Now(fs), v) && VolShows(fs.mem, v, files)
    requires InFile(dst, files) && InFile(src, files) && (dst.k != src.k || dst.x != src.x)
    requires Solid(fs.mem, v, dirs) && dst.k in dirs && src.k in dirs
    modifies fs
    ensures fs.Valid() && AllOrNothing(old(Now(fs)), Now(fs), v, files, SetOne(SetOne(files, dst), src), dirs, r)
    ensures VolOk(v) && dst.k in v.live && src.k in v.live && Afforded(old(Now(fs)), Now(fs), RenameCost(old(fs.mem), v, dst.k, dst.x, src.k, src.x), r)
  {
    ghost var m := fs.mem;
    OrderIrrelevant(files, dst, src);
    hide AllOrNothing, VolProper, VolShows, Solid, Replaced, RenameCost, Afforded;
    r := CrawlData2(fs, v, InOrder(dst, src), files, dirs);
    RenameCostSwap(m, v, dst.k, dst.x, src.k, src.x);
  }
}
