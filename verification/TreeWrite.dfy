/** What a write to a file costs, and whether an abort can undo it. */
module TreeSpace {
  import opened Words
  import opened Geometry
  import opened Tree
  import opened Bpram
  import opened WriteSpec
  import opened SpaceSpec
  import opened Root
  import opened Height

  /** The commit mode of the crawl below the root: bytes and size that must change together change on copies. */
  function TreeCommit(off: nat, end: nat, nbytes: nat): Commit {
    if off < nbytes < end then CopyOnly else Atomic
  }

  /** The least height from h on whose trees address n blocks. */
  function HeightFrom(n: nat, h: nat): (r: nat)
    ensures h <= r && n <= MaxBlocks(r) && forall k: nat {:trigger MaxBlocks(k)} | h <= k < r :: MaxBlocks(k) < n
    decreases n - MaxBlocks(h)
  {
    if n <= MaxBlocks(h) then h else HeightFrom(n, h + 1)
  }

  /** The height that a write ending at end asks for. */
  function HeightFor(end: nat): nat {
    HeightFrom((end + 4095) / 4096, 0)
  }

  /** A write that ends at hi needs a taller tree. */
  predicate Taller(m: Mem, rb: nat, ro: nat, hi: nat)
    requires ro < 511
  {
    RootHeight(Get(m, rb), ro) < HeightFor(hi)
  }

  lemma HeightIs(end: nat, requested: nat)
    requires (end + 4095) / 4096 <= MaxBlocks(requested) && forall h: nat {:trigger MaxBlocks(h)} | (end + 4095) / 4096 <= MaxBlocks(h) :: requested <= h
    ensures requested == HeightFor(end) && end <= Cap(requested)
  {
    var n := (end + 4095) / 4096;
    assert n <= MaxBlocks(HeightFor(end)) && n <= MaxBlocks(requested);
    assert 4096 * MaxBlocks(requested) == Cap(requested);
  }

  function FileAsk(m: Mem, rb: nat, ro: nat, lo: nat, hi: nat): Ask
    requires ro < 511
  {
    Ask(lo, hi, Nbytes(Get(m, rb), ro))
  }

  /** The height of the tree that a write ending at hi crawls. */
  function TopHeight(m: Mem, rb: nat, ro: nat, hi: nat): nat
    requires ro < 511
  {
    if Taller(m, rb, ro, hi) then HeightFor(hi) else HaHeight(Get(m, rb), ro)
  }

  lemma TallEnough(m: Mem, rb: nat, ro: nat, lo: nat, hi: nat)
    requires ro < 511 && lo < hi
    ensures hi <= Cap(TopHeight(m, rb, ro, hi)) && Touches(FileAsk(m, rb, ro, lo, hi), TopHeight(m, rb, ro, hi), 0)
  {
    var h := HeightFor(hi);
    assert 4096 * MaxBlocks(h) == Cap(h) && (hi + 4095) / 4096 <= MaxBlocks(h);
    CapMono(h, TopHeight(m, rb, ro, hi));
  }

  /** The levels that it puts on top of the tree. */
  function NewLevels(m: Mem, rb: nat, ro: nat, hi: nat): nat
    requires ro < 511
  {
    if RootAddr(Get(m, rb), ro) != 0 && Taller(m, rb, ro, hi) then HeightFor(hi) - RootHeight(Get(m, rb), ro) else 0
  }

  /** What a crawl needs in a tree of height top that has the tree at a, of height h, under new levels that lead nowhere else. */
  function RaisedNeed(m: Mem, a: nat, h: nat, top: nat, q: Ask, commit: Commit): Bill
    requires Touches(q, top, 0)
    decreases top, 1, 0
  {
    if a == 0 || top <= h then Need(m, a, top, 0, q, commit)
    else
      EntriesOf(q, top, 0);
      RaisedTo(m, a, h, top, q, commit, Last(q, top, 0) + 1)
  }

  /** The same for the entries before no of the topmost table. */
  function RaisedTo(m: Mem, a: nat, h: nat, top: nat, q: Ask, commit: Commit, no: nat): Bill
    requires h < top && Touches(q, top, 0) && First(q, top, 0) <= no <= Last(q, top, 0) + 1
    decreases top, 0, no
  {
    if no == First(q, top, 0) then Bill(0, false)
    else
      EntriesOf(q, top, 0);
      Add(RaisedTo(m, a, h, top, q, commit, no - 1),
          RaisedEntry(m, a, h, top, q, Below(q, top, 0, commit), no - 1),
          Copies(q, top, 0, commit, no - 1))
  }

  /** The first entry leads to the level below; the others are holes. */
  function RaisedEntry(m: Mem, a: nat, h: nat, top: nat, q: Ask, commit: Commit, k: nat): Bill
    requires h < top && Touches(q, top - 1, ChildBase(top, 0, k))
    decreases top, 0, 0
  {
    if k == 0 then RaisedNeed(m, a, h, top - 1, q, commit) else Need(m, 0, top - 1, ChildBase(top, 0, k), q, commit)
  }

  /** Once the levels are there, that is what the crawl needs. */
  lemma {:induction false} StackedNeed(m: Mem, a: nat, h: nat, m': Mem, a': nat, h': nat, q: Ask, commit: Commit)
    requires Stacked(m, a, h, m', a', h', q.n) && Touches(q, h', 0) && (a != 0 ==> q.n > 0)
    ensures Need(m', a', h', 0, q, commit) == RaisedNeed(m, a, h, h', q, commit)
    decreases h', 1, 0
  {
    if a == 0 || h' <= h {
      NeedShape(m, m', a, h', 0, q, commit);
    } else {
      EntriesOf(q, h', 0);
      StackedTo(m, a, h, m', a', h', q, commit, Last(q, h', 0) + 1);
    }
  }

  lemma {:induction false} StackedTo(m: Mem, a: nat, h: nat, m': Mem, a': nat, h': nat, q: Ask, commit: Commit, no: nat)
    requires a != 0 && h < h' && Stacked(m, a, h, m', a', h', q.n) && Touches(q, h', 0) && q.n > 0
    requires First(q, h', 0) <= no <= Last(q, h', 0) + 1
    ensures NeedTo(m', a', h', 0, q, commit, no) == RaisedTo(m, a, h, h', q, commit, no)
    decreases h', 0, no
  {
    if no > First(q, h', 0) {
      EntriesOf(q, h', 0);
      StackedTo(m, a, h, m', a', h', q, commit, no - 1);
      if no == 1 {
        assert ChildBase(h', 0, 0) == 0;
        StackedNeed(m, a, h, m', Addr(Get(m', a'), 0), h' - 1, q, Below(q, h', 0, commit));
      } else {
        assert Child(m', a', h', 0, q, no - 1) == 0;
        NeedShape(m, m', 0, h' - 1, ChildBase(h', 0, no - 1), q, Below(q, h', 0, commit));
      }
    }
  }

  /** What the crawl below the root needs, once the tree is tall enough. */
  function TreeNeed(m: Mem, rb: nat, ro: nat, lo: nat, hi: nat): Bill
    requires ro < 511 && lo < hi
  {
    var blk := Get(m, rb);
    TallEnough(m, rb, ro, lo, hi);
    RaisedNeed(m, RootAddr(blk, ro), RootHeight(blk, ro), TopHeight(m, rb, ro, hi), FileAsk(m, rb, ro, lo, hi), TreeCommit(lo, hi, Nbytes(blk, ro)))
  }

  /** The blocks that a write takes: those of new levels, those of the crawl, and a copy of the root's block, if address and size
      must change together. */
  function WriteCost(m: Mem, rb: nat, ro: nat, lo: nat, hi: nat): nat
    requires ro < 511 && lo < hi
  {
    var need := TreeNeed(m, rb, ro, lo, hi);
    NewLevels(m, rb, ro, hi) + need.cost + if need.moved && lo < Nbytes(Get(m, rb), ro) < hi then 1 else 0
  }

  /** A failed write has already replaced a pointer that a reader of the old file follows: its root address, when the tree was
      raised, or the pointer to a hole at the end of the file, when an append plugged it. */
  predicate Loses(m: Mem, rb: nat, ro: nat, lo: nat, hi: nat, free: nat)
    requires ro < 511 && lo < hi
  {
    var blk, levels := Get(m, rb), NewLevels(m, rb, ro, hi);
    TallEnough(m, rb, ro, lo, hi);
    if levels > 0 then levels <= free
    else Plugs(m, RootAddr(blk, ro), TopHeight(m, rb, ro, hi), 0, FileAsk(m, rb, ro, lo, hi), TreeCommit(lo, hi, Nbytes(blk, ro)), free)
  }

  /** What a caller can check before a write: it needs no taller tree, or there is none yet, and if it appends the last block of
      the file exists. */
  predicate Guarded(m: Mem, rb: nat, ro: nat, lo: nat, hi: nat)
    requires ro < 511
  {
    var blk := Get(m, rb);
    && (RootAddr(blk, ro) == 0 || !Taller(m, rb, ro, hi))
    && (lo < Nbytes(blk, ro) || Nbytes(blk, ro) == 0 || InTree(m, rb, ro, Nbytes(blk, ro) - 1))
  }

  /** A guarded write that replaces such a pointer succeeds. */
  lemma GuardedWrite(m: Mem, rb: nat, ro: nat, lo: nat, hi: nat, free: nat)
    requires ro < 511 && lo < hi && Guarded(m, rb, ro, lo, hi) && Loses(m, rb, ro, lo, hi, free)
    ensures WriteCost(m, rb, ro, lo, hi) <= free
  {
    var n := Nbytes(Get(m, rb), ro);
    var a, h, q := RootAddr(Get(m, rb), ro), TopHeight(m, rb, ro, hi), Ask(lo, hi, n);
    hide *;
    GuardedPlug(m, rb, ro, lo, hi, free);
    var commit := TreeCommit(lo, hi, n);
    if n <= lo {
      GuardedLast(m, rb, ro, lo, hi);
      AppendKeeps(m, a, h, 0, q, commit, free);
    } else if hi <= n {
      InsideDone(m, a, h, 0, q, commit, free);
      InsideCost(m, rb, ro, lo, hi);
    } else {
      CopiesKeep(m, a, h, 0, q, lo, hi, free);
    }
  }

  lemma GuardedPlug(m: Mem, rb: nat, ro: nat, lo: nat, hi: nat, free: nat)
    requires ro < 511 && lo < hi && Guarded(m, rb, ro, lo, hi) && Loses(m, rb, ro, lo, hi, free)
    ensures var n := Nbytes(Get(m, rb), ro);
      && NewLevels(m, rb, ro, hi) == 0 && Touches(Ask(lo, hi, n), TopHeight(m, rb, ro, hi), 0)
      && Plugs(m, RootAddr(Get(m, rb), ro), TopHeight(m, rb, ro, hi), 0, Ask(lo, hi, n), TreeCommit(lo, hi, n), free)
  {
    hide Taller, Plugs, InTree, TopHeight;
    TallEnough(m, rb, ro, lo, hi);
  }

  lemma GuardedLast(m: Mem, rb: nat, ro: nat, lo: nat, hi: nat)
    requires ro < 511 && Guarded(m, rb, ro, lo, hi) && Nbytes(Get(m, rb), ro) <= lo
    ensures LastThere(m, RootAddr(Get(m, rb), ro), TopHeight(m, rb, ro, hi), 0, Nbytes(Get(m, rb), ro))
  {
    hide Taller, Cap;
    HeightOrNone(m, rb, ro);
  }

  lemma InsideCost(m: Mem, rb: nat, ro: nat, lo: nat, hi: nat)
    requires ro < 511 && lo < hi <= Nbytes(Get(m, rb), ro) && NewLevels(m, rb, ro, hi) == 0
    ensures var n := Nbytes(Get(m, rb), ro);
      Touches(Ask(lo, hi, n), TopHeight(m, rb, ro, hi), 0) &&
      WriteCost(m, rb, ro, lo, hi) == Need(m, RootAddr(Get(m, rb), ro), TopHeight(m, rb, ro, hi), 0, Ask(lo, hi, n), TreeCommit(lo, hi, n)).cost
  {
    TallEnough(m, rb, ro, lo, hi);
    hide Need, HeightFor, Touches;
  }

  lemma CopiesKeep(m: Mem, a: nat, h: nat, base: nat, q: Ask, lo: nat, hi: nat, free: nat)
    requires Touches(q, h, base) && lo < q.n < hi
    ensures !Plugs(m, a, h, base, q, TreeCommit(lo, hi, q.n), free)
  {
  }

  /** The state before the crawl: the tree was raised if it had to be, or there was no space for that. */
  ghost predicate Prepared(s0: Snap, s1: Snap, rb: nat, ro: nat, hi: nat, n: nat, r: int)
    requires ro < 511
  {
    var blk, blk', free, levels := Get(s0.mem, rb), Get(s1.mem, rb), FreeBlocks(s0.mem, s0.pos), NewLevels(s0.mem, rb, ro, hi);
    var a, h, a', h' := RootAddr(blk, ro), RootHeight(blk, ro), RootAddr(blk', ro), HaHeight(blk', ro);
    && (r == 0 <==> levels <= free)
    && (r == 0 ==> FreeBlocks(s1.mem, s1.pos) == free - levels && h' == TopHeight(s0.mem, rb, ro, hi) && Stacked(s0.mem, a, h, s1.mem, a', h', n))
    && (r == 0 && levels > 0 ==> a' !in s0.pos)
    && (!Taller(s0.mem, rb, ro, hi) ==> s1.pos == s0.pos && blk' == blk)
    && (r != 0 ==> blk' == blk && SameShape(s0.mem, s1.mem, a, h, 0, n))
  }

  /** Afterwards every leaf of the range written exists, and every one that did. */
  ghost predicate FileFills(m: Mem, rb: nat, m': Mem, rb': nat, ro: nat, lo: nat, hi: nat)
    requires ro < 511
  {
    var blk, blk' := Get(m, rb), Get(m', rb');
    forall x: nat {:trigger InTree(m', rb', ro, x)} | lo <= x < hi || (x < Nbytes(blk, ro) && InTree(m, rb, ro, x)) :: InTree(m', rb', ro, x)
  }

  /** The block with byte x of the file exists. */
  predicate InTree(m: Mem, rb: nat, ro: nat, x: nat)
    requires ro < 511
  {
    var blk := Get(m, rb);
    x < Cap(RootHeight(blk, ro)) && LeafOf(m, RootAddr(blk, ro), RootHeight(blk, ro), 0, x) != 0
  }

  /** The file has no hole. */
  ghost predicate Whole(m: Mem, rb: nat, ro: nat)
    requires ro < 511
  {
    forall x: nat {:trigger InTree(m, rb, ro, x)} | x < Nbytes(Get(m, rb), ro) :: InTree(m, rb, ro, x)
  }

  /** A write that starts inside the file or at its end leaves no hole where there was none. */
  lemma WholeFills(m: Mem, rb: nat, m': Mem, rb': nat, ro: nat, lo: nat, hi: nat)
    requires ro < 511 && Whole(m, rb, ro) && FileFills(m, rb, m', rb', ro, lo, hi)
    requires lo <= Nbytes(Get(m, rb), ro) && Nbytes(Get(m', rb'), ro) <= Max(Nbytes(Get(m, rb), ro), hi)
    ensures Whole(m', rb', ro)
  {
    hide InTree;
    forall x: nat {:trigger InTree(m', rb', ro, x)} | x < Nbytes(Get(m', rb'), ro)
      ensures InTree(m', rb', ro, x)
    {
      if x < Nbytes(Get(m, rb), ro) {
        assert InTree(m, rb, ro, x);
      }
    }
  }

  /** The state an abort leaves: the memory of now with the blocks in use of before. */
  ghost function Rolled(s0: Snap, s1: Snap): Snap {
    Snap(s1.mem, s0.pos, s0.freed, s1.crashes)
  }

  /** After a write that failed, the old file is whole in that state exactly if the write did not lose a pointer. */
  ghost predicate Undone(s0: Snap, s1: Snap, t: nat, rb: nat, ro: nat, loses: bool)
    requires ro < 511
  {
    && (FileProper(Rolled(s0, s1), s0.freed, t, rb, ro) <==> !loses)
    && (!loses ==> FileFills(s0.mem, rb, s1.mem, rb, ro, 0, 0))
  }

  /** Raising failed, or was not needed and nothing else changed a pointer. */
  lemma UndoneShape(s0: Snap, s1: Snap, t: nat, rb: nat, ro: nat)
    requires ro < 511 && FileProper(s0, s0.freed, t, rb, ro) && Get(s1.mem, rb)[ro] == Get(s0.mem, rb)[ro] && Get(s1.mem, rb)[ro + 1] == Get(s0.mem, rb)[ro + 1]
    requires SameShape(s0.mem, s1.mem, RootAddr(Get(s0.mem, rb), ro), RootHeight(Get(s0.mem, rb), ro), 0, Nbytes(Get(s0.mem, rb), ro))
    ensures Undone(s0, s1, t, rb, ro, false)
  {
    var blk := Get(s0.mem, rb);
    hide Proper, SameShape, LeafOf;
    ShapeProper(s0.mem, s1.mem, s0.pos, s0.freed, t, RootAddr(blk, ro), RootHeight(blk, ro), 0, Nbytes(blk, ro));
    forall x: nat {:trigger InTree(s1.mem, rb, ro, x)} | x < Nbytes(blk, ro) && InTree(s0.mem, rb, ro, x)
      ensures InTree(s1.mem, rb, ro, x)
    {
      ShapeLeaf(s0.mem, s1.mem, RootAddr(blk, ro), RootHeight(blk, ro), 0, Nbytes(blk, ro), x);
    }
  }

  lemma UndoneLost(s0: Snap, s1: Snap, t: nat, rb: nat, ro: nat)
    requires ro < 511 && RootAddr(Get(s1.mem, rb), ro) != 0 && RootAddr(Get(s1.mem, rb), ro) !in s0.pos
    ensures Undone(s0, s1, t, rb, ro, true)
  {
  }

  lemma UndoneHole(s0: Snap, s1: Snap, t: nat, rb: nat, ro: nat)
    requires ro < 511 && RootAddr(Get(s0.mem, rb), ro) == 0 && RootAddr(Get(s1.mem, rb), ro) == 0
    ensures Undone(s0, s1, t, rb, ro, false)
  {
  }

  /** The root's height is the stored one, unless there is no tree. */
  lemma HeightOrNone(m: Mem, rb: nat, ro: nat)
    requires ro < 511
    ensures RootHeight(Get(m, rb), ro) == HaHeight(Get(m, rb), ro) || (RootAddr(Get(m, rb), ro) == 0 && Nbytes(Get(m, rb), ro) == 0)
  {
  }

  /** What preparing and crawling leaves to an abort. */
  lemma CrawlUndone(s0: Snap, s1: Snap, s2: Snap, t: nat, rb: nat, ro: nat, lo: nat, hi: nat, n: nat, r: int, cnew: nat)
    requires ro < 511 && Prepared(s0, s1, rb, ro, hi, n, 0) && FileProper(s0, s0.freed, t, rb, ro) && s1.freed == s0.freed
    requires n == Nbytes(Get(s0.mem, rb), ro) == Nbytes(Get(s1.mem, rb), ro) && Get(s2.mem, rb) == Get(s1.mem, rb)
    requires lo < hi && Touches(Ask(lo, hi, n), HaHeight(Get(s1.mem, rb), ro), 0)
    requires Accounts(s1, s2, t, RootAddr(Get(s1.mem, rb), ro), HaHeight(Get(s1.mem, rb), ro), 0, Ask(lo, hi, n), TreeCommit(lo, hi, n), r, cnew)
    ensures Undone(s0, s2, t, rb, ro, Loses(s0.mem, rb, ro, lo, hi, FreeBlocks(s0.mem, s0.pos)))
  {
    hide *;
    if Taller(s0.mem, rb, ro, hi) {
      TallUndone(s0, s1, s2, t, rb, ro, lo, hi, n);
    } else {
      PlainShape(s0, s1, rb, ro, hi, n);
      PlainUndone(s0, s1, s2, t, rb, ro, lo, hi, n, r, cnew);
    }
  }

  lemma TallUndone(s0: Snap, s1: Snap, s2: Snap, t: nat, rb: nat, ro: nat, lo: nat, hi: nat, n: nat)
    requires ro < 511 && lo < hi && Taller(s0.mem, rb, ro, hi) && Prepared(s0, s1, rb, ro, hi, n, 0)
    requires Nbytes(Get(s0.mem, rb), ro) == Nbytes(Get(s1.mem, rb), ro) && Get(s2.mem, rb) == Get(s1.mem, rb)
    ensures Undone(s0, s2, t, rb, ro, Loses(s0.mem, rb, ro, lo, hi, FreeBlocks(s0.mem, s0.pos)))
  {
    hide HeightFor, FreeBlocks, SameShape, Undone, Need;
    if RootAddr(Get(s0.mem, rb), ro) == 0 {
      var q := FileAsk(s0.mem, rb, ro, lo, hi);
      TallEnough(s0.mem, rb, ro, lo, hi);
      assert !PlugsBelow(s0.mem, 0, HeightFor(hi), 0, q, TreeCommit(lo, hi, q.n), FreeBlocks(s0.mem, s0.pos));
      UndoneHole(s0, s2, t, rb, ro);
    } else {
      UndoneLost(s0, s2, t, rb, ro);
    }
  }

  lemma PlainShape(s0: Snap, s1: Snap, rb: nat, ro: nat, hi: nat, n: nat)
    requires ro < 511 && !Taller(s0.mem, rb, ro, hi) && Prepared(s0, s1, rb, ro, hi, n, 0)
    ensures s1.pos == s0.pos && Get(s1.mem, rb) == Get(s0.mem, rb) && FreeBlocks(s1.mem, s1.pos) == FreeBlocks(s0.mem, s0.pos)
    ensures SameShape(s0.mem, s1.mem, RootAddr(Get(s0.mem, rb), ro), HaHeight(Get(s0.mem, rb), ro), 0, n)
  {
    hide Taller, FreeBlocks, SameShape;
    HeightOrNone(s0.mem, rb, ro);
  }

  lemma PlainUndone(s0: Snap, s1: Snap, s2: Snap, t: nat, rb: nat, ro: nat, lo: nat, hi: nat, n: nat, r: int, cnew: nat)
    requires ro < 511 && !Taller(s0.mem, rb, ro, hi) && FileProper(s0, s0.freed, t, rb, ro) && s1.freed == s0.freed && lo < hi
    requires n == Nbytes(Get(s0.mem, rb), ro) && Get(s1.mem, rb) == Get(s0.mem, rb) && Get(s2.mem, rb) == Get(s0.mem, rb)
    requires s1.pos == s0.pos && FreeBlocks(s1.mem, s1.pos) == FreeBlocks(s0.mem, s0.pos)
    requires SameShape(s0.mem, s1.mem, RootAddr(Get(s0.mem, rb), ro), HaHeight(Get(s0.mem, rb), ro), 0, n)
    requires Touches(Ask(lo, hi, n), HaHeight(Get(s0.mem, rb), ro), 0)
    requires Accounts(s1, s2, t, RootAddr(Get(s0.mem, rb), ro), HaHeight(Get(s0.mem, rb), ro), 0, Ask(lo, hi, n), TreeCommit(lo, hi, n), r, cnew)
    ensures Undone(s0, s2, t, rb, ro, Loses(s0.mem, rb, ro, lo, hi, FreeBlocks(s0.mem, s0.pos)))
  {
    var blk, q, commit := Get(s0.mem, rb), Ask(lo, hi, n), TreeCommit(lo, hi, n);
    var a, h := RootAddr(blk, ro), HaHeight(blk, ro);
    HeightOrNone(s0.mem, rb, ro);
    PlugsShape(s0.mem, s1.mem, a, h, 0, q, commit, FreeBlocks(s0.mem, s0.pos));
    hide Taller, HeightFor, FreeBlocks, Paid, Need, Plugs, Fills, Touches;
    if Plugs(s0.mem, a, h, 0, q, commit, FreeBlocks(s0.mem, s0.pos)) {
      hide Proper, SameShape;
    } else {
      ShapeTrans(s0.mem, s1.mem, s2.mem, a, h, 0, n);
      hide Proper;
      UndoneShape(s0, s2, t, rb, ro);
    }
  }

  lemma PreparedPlain(s0: Snap, s1: Snap, rb: nat, ro: nat, hi: nat, n: nat)
    requires ro < 511 && !Taller(s0.mem, rb, ro, hi) && n == Nbytes(Get(s0.mem, rb), ro)
    requires s1.pos == s0.pos && s1.mem.Keys == s0.mem.Keys && Get(s1.mem, rb) == Get(s0.mem, rb)
    requires SameShape(s0.mem, s1.mem, RootAddr(Get(s0.mem, rb), ro), RootHeight(Get(s0.mem, rb), ro), 0, n)
    ensures Prepared(s0, s1, rb, ro, hi, n, 0)
  {
    hide Taller, FreeBlocks;
    SameFree(s0.mem, s1.mem, s0.pos);
    HeightOrNone(s0.mem, rb, ro);
  }

  lemma PreparedRaised(s0: Snap, s: Snap, s1: Snap, t: nat, rb: nat, ro: nat, hi: nat, n: nat)
    requires ro < 511 && Taller(s0.mem, rb, ro, hi) && Raised(s0, s, t, rb, ro, HeightFor(hi), n, 0) && HaHeight(Get(s.mem, rb), ro) == HeightFor(hi)
    requires s1.pos == s.pos && s1.mem.Keys == s.mem.Keys && Get(s1.mem, rb) == Get(s.mem, rb) && n == Nbytes(Get(s0.mem, rb), ro) == Nbytes(Get(s.mem, rb), ro)
    requires SameShape(s.mem, s1.mem, RootAddr(Get(s.mem, rb), ro), RootHeight(Get(s.mem, rb), ro), 0, n)
    ensures Prepared(s0, s1, rb, ro, hi, n, 0)
  {
    hide HeightFor, FreeBlocks, Decode, Get;
    var blk, blk' := Get(s0.mem, rb), Get(s.mem, rb);
    SameFree(s.mem, s1.mem, s.pos);
    if n > 0 {
      hide SameShape, Stacked;
      StackedShape(s0.mem, RootAddr(blk, ro), RootHeight(blk, ro), s.mem, s1.mem, RootAddr(blk', ro), HaHeight(blk', ro), n);
    }
  }

  lemma PreparedNot(s0: Snap, s1: Snap, t: nat, rb: nat, ro: nat, lo: nat, hi: nat, n: nat, r: int)
    requires ro < 511 && lo < hi && FileProper(s0, s0.freed, t, rb, ro) && n == Nbytes(Get(s0.mem, rb), ro) && r != 0 && Prepared(s0, s1, rb, ro, hi, n, r)
    ensures Undone(s0, s1, t, rb, ro, Loses(s0.mem, rb, ro, lo, hi, FreeBlocks(s0.mem, s0.pos)))
  {
    hide FreeBlocks, SameShape, Proper, TopHeight, HeightFor;
    UndoneShape(s0, s1, t, rb, ro);
  }

  lemma PreparedLeaf(s0: Snap, s1: Snap, rb: nat, ro: nat, hi: nat, n: nat, x: nat)
    requires ro < 511 && Prepared(s0, s1, rb, ro, hi, n, 0) && n == Nbytes(Get(s0.mem, rb), ro) && x < n && InTree(s0.mem, rb, ro, x)
    ensures x < Cap(HaHeight(Get(s1.mem, rb), ro)) && LeafOf(s1.mem, RootAddr(Get(s1.mem, rb), ro), HaHeight(Get(s1.mem, rb), ro), 0, x) != 0
  {
    hide FreeBlocks, LeafOf, Stacked, HeightFor, SameShape;
    StackedLeaf(s0.mem, RootAddr(Get(s0.mem, rb), ro), RootHeight(Get(s0.mem, rb), ro), s1.mem, RootAddr(Get(s1.mem, rb), ro), HaHeight(Get(s1.mem, rb), ro), n, x);
  }

  /** The crawl's result is stored in the root, in place or in a copy of its block. */
  ghost predicate Placed(s2: Snap, s3: Snap, rb: nat, newrb: nat, ro: nat, cnew: nat)
    requires ro < 511
  {
    && RootAddr(Get(s3.mem, newrb), ro) == cnew && Nbytes(Get(s3.mem, newrb), ro) > 0
    && HaHeight(Get(s3.mem, newrb), ro) == HaHeight(Get(s2.mem, rb), ro)
    && OnlyBlock(s2.mem, s3.mem, newrb) && s3.mem.Keys == s2.mem.Keys
    && (if newrb == rb then s3.pos == s2.pos else newrb !in s2.pos && newrb in s2.mem && rb in s2.pos && s3.pos == s2.pos[newrb := s2.pos[rb]])
  }

  /** All that was there and all that was written is found from the root. */
  lemma PlacedFills(s0: Snap, s1: Snap, s2: Snap, s3: Snap, t: nat, rb: nat, newrb: nat, ro: nat, lo: nat, hi: nat, n: nat, cnew: nat, end: nat)
    requires ro < 511 && Prepared(s0, s1, rb, ro, hi, n, 0) && n == Nbytes(Get(s0.mem, rb), ro) && Get(s2.mem, rb) == Get(s1.mem, rb)
    requires n <= end && hi <= end && hi <= Cap(HaHeight(Get(s1.mem, rb), ro))
    requires Fills(s1.mem, s2.mem, RootAddr(Get(s1.mem, rb), ro), cnew, HaHeight(Get(s1.mem, rb), ro), 0, Ask(lo, hi, n))
    requires Proper(s2.mem, s2.pos, s2.freed, t, cnew, HaHeight(Get(s1.mem, rb), ro), 0, end) && rb in s2.pos && s2.pos[rb].tree != t
    requires Placed(s2, s3, rb, newrb, ro, cnew)
    ensures FileFills(s0.mem, rb, s3.mem, newrb, ro, lo, hi)
  {
    var h := HaHeight(Get(s1.mem, rb), ro);
    ShapeFrame(s2.mem, s3.mem, s2.pos, s2.freed, t, cnew, h, 0, end);
    hide Proper, SameShape, LeafOf, Prepared, OnlyBlock;
    forall x: nat {:trigger InTree(s3.mem, newrb, ro, x)} | lo <= x < hi || (x < n && InTree(s0.mem, rb, ro, x))
      ensures InTree(s3.mem, newrb, ro, x)
    {
      if x < n && InTree(s0.mem, rb, ro, x) {
        PreparedLeaf(s0, s1, rb, ro, hi, n, x);
      }
      assert LeafOf(s2.mem, cnew, h, 0, x) != 0;
      ShapeLeaf(s2.mem, s3.mem, cnew, h, 0, end, x);
    }
  }

  /** The space that a write from s0 to s1 took. It succeeds exactly when there is enough; when it fails, an abort undoes it
      exactly if no pointer was lost. */
  ghost predicate TreePaid(s0: Snap, s1: Snap, t: nat, rb: nat, newrb: nat, ro: nat, lo: nat, hi: nat, r: int) {
    var free := FreeBlocks(s0.mem, s0.pos);
    && ro < 511 && lo < hi
    && (r == 0 <==> WriteCost(s0.mem, rb, ro, lo, hi) <= free)
    && (r == 0 ==> FreeBlocks(s1.mem, s1.pos) == free - WriteCost(s0.mem, rb, ro, lo, hi) && FileFills(s0.mem, rb, s1.mem, newrb, ro, lo, hi))
    && (r != 0 ==> Undone(s0, s1, t, rb, ro, Loses(s0.mem, rb, ro, lo, hi, free)))
  }

  lemma UnpaidRaise(s0: Snap, s1: Snap, t: nat, rb: nat, ro: nat, lo: nat, hi: nat, n: nat, r: int)
    requires ro < 511 && lo < hi && FileProper(s0, s0.freed, t, rb, ro) && n == Nbytes(Get(s0.mem, rb), ro) && r != 0 && Prepared(s0, s1, rb, ro, hi, n, r)
    ensures TreePaid(s0, s1, t, rb, 0, ro, lo, hi, r)
  {
    hide FileProper, Undone, Loses, FreeBlocks, TreeNeed, NewLevels, Stacked;
    PreparedNot(s0, s1, t, rb, ro, lo, hi, n, r);
  }

  lemma UnpaidCrawl(s0: Snap, s1: Snap, s2: Snap, t: nat, rb: nat, ro: nat, lo: nat, hi: nat, n: nat, r: int, cnew: nat, commit: Commit)
    requires ro < 511 && lo < hi && Prepared(s0, s1, rb, ro, hi, n, 0) && FileProper(s0, s0.freed, t, rb, ro) && s1.freed == s0.freed && r != 0
    requires n == Nbytes(Get(s0.mem, rb), ro) == Nbytes(Get(s1.mem, rb), ro) && Get(s2.mem, rb) == Get(s1.mem, rb) && commit == TreeCommit(lo, hi, n)
    requires Touches(Ask(lo, hi, n), HaHeight(Get(s1.mem, rb), ro), 0)
    requires Accounts(s1, s2, t, RootAddr(Get(s1.mem, rb), ro), HaHeight(Get(s1.mem, rb), ro), 0, Ask(lo, hi, n), commit, r, cnew)
    ensures TreePaid(s0, s2, t, rb, 0, ro, lo, hi, r)
  {
    hide Prepared, FileProper, Undone, Loses, FreeBlocks, Taller, TreeNeed, NewLevels, Touches, Accounts;
    CrawlUndone(s0, s1, s2, t, rb, ro, lo, hi, n, r, cnew);
    CrawlPaid(s0, s1, s2, t, rb, ro, lo, hi, n, r, cnew);
  }

  lemma CrawlPaid(s0: Snap, s1: Snap, s2: Snap, t: nat, rb: nat, ro: nat, lo: nat, hi: nat, n: nat, r: int, cnew: nat)
    requires ro < 511 && lo < hi && Prepared(s0, s1, rb, ro, hi, n, 0) && n == Nbytes(Get(s0.mem, rb), ro)
    requires Touches(Ask(lo, hi, n), HaHeight(Get(s1.mem, rb), ro), 0)
    requires Accounts(s1, s2, t, RootAddr(Get(s1.mem, rb), ro), HaHeight(Get(s1.mem, rb), ro), 0, Ask(lo, hi, n), TreeCommit(lo, hi, n), r, cnew)
    ensures var need, levels, free := TreeNeed(s0.mem, rb, ro, lo, hi), NewLevels(s0.mem, rb, ro, hi), FreeBlocks(s0.mem, s0.pos);
      && (r == 0 <==> levels + need.cost <= free)
      && (r == 0 ==> FreeBlocks(s2.mem, s2.pos) == free - levels - need.cost && (cnew != RootAddr(Get(s1.mem, rb), ro) <==> need.moved))
  {
    var blk, blk' := Get(s0.mem, rb), Get(s1.mem, rb);
    StackedNeed(s0.mem, RootAddr(blk, ro), RootHeight(blk, ro), s1.mem, RootAddr(blk', ro), HaHeight(blk', ro), Ask(lo, hi, n), TreeCommit(lo, hi, n));
    hide FreeBlocks, Taller, Need, RaisedNeed, Plugs, Touches, Undoable, Fills, Stacked, NewLevels;
  }

  lemma PaidCrawl(s0: Snap, s1: Snap, s2: Snap, s3: Snap, t: nat, rb: nat, newrb: nat, ro: nat, lo: nat, hi: nat, n: nat, r: int, cnew: nat, commit: Commit, end: nat)
    requires ro < 511 && lo < hi && Prepared(s0, s1, rb, ro, hi, n, 0) && FileProper(s0, s0.freed, t, rb, ro) && s1.freed == s0.freed
    requires n == Nbytes(Get(s0.mem, rb), ro) == Nbytes(Get(s1.mem, rb), ro) && Get(s2.mem, rb) == Get(s1.mem, rb) && commit == TreeCommit(lo, hi, n)
    requires hi <= Cap(HaHeight(Get(s1.mem, rb), ro)) && n <= end && hi <= end
    requires Touches(Ask(lo, hi, n), HaHeight(Get(s1.mem, rb), ro), 0)
    requires Accounts(s1, s2, t, RootAddr(Get(s1.mem, rb), ro), HaHeight(Get(s1.mem, rb), ro), 0, Ask(lo, hi, n), commit, 0, cnew)
    requires Proper(s2.mem, s2.pos, s2.freed, t, cnew, HaHeight(Get(s1.mem, rb), ro), 0, end) && rb in s2.pos && s2.pos[rb].tree != t
    requires r == 0 <==> !(cnew != RootAddr(Get(s1.mem, rb), ro) && lo < n < hi) || FreeBlocks(s2.mem, s2.pos) > 0
    requires r != 0 ==> s3 == s2
    requires r == 0 ==> Placed(s2, s3, rb, newrb, ro, cnew) && (newrb != rb <==> cnew != RootAddr(Get(s1.mem, rb), ro) && lo < n < hi)
    ensures TreePaid(s0, s3, t, rb, newrb, ro, lo, hi, r)
  {
    hide Prepared, FileProper, Undone, Loses, FreeBlocks, Taller, TreeNeed, NewLevels, Touches, Paid, Undoable, Plugs, Fills, Proper, Placed;
    CrawlUndone(s0, s1, s2, t, rb, ro, lo, hi, n, 0, cnew);
    CrawlPaid(s0, s1, s2, t, rb, ro, lo, hi, n, 0, cnew);
    hide Accounts;
    if r == 0 {
      PlacedRoom(s2, s3, rb, newrb, ro, cnew);
      PlacedFills(s0, s1, s2, s3, t, rb, newrb, ro, lo, hi, n, cnew, end);
    }
  }

  lemma PlacedRoom(s2: Snap, s3: Snap, rb: nat, newrb: nat, ro: nat, cnew: nat)
    requires ro < 511 && Placed(s2, s3, rb, newrb, ro, cnew)
    ensures FreeBlocks(s2.mem, s2.pos) == FreeBlocks(s3.mem, s3.pos) + if newrb == rb then 0 else 1
  {
    if newrb != rb {
      OneTaken(s2.mem, s2.pos, newrb, s2.pos[rb]);
    }
    SameFree(s2.mem, s3.mem, s3.pos);
  }

  /** A write that needs a taller tree needs a block beyond the old one besides. */
  lemma RaiseCosts(m: Mem, rb: nat, ro: nat, lo: nat, hi: nat)
    requires ro < 511 && lo < hi && NewLevels(m, rb, ro, hi) > 0
    ensures WriteCost(m, rb, ro, lo, hi) > NewLevels(m, rb, ro, hi)
  {
    var blk, q := Get(m, rb), FileAsk(m, rb, ro, lo, hi);
    TallEnough(m, rb, ro, lo, hi);
    LastBeyond(q, HeightFor(hi));
    hide HeightFor, Touches, Last, RaisedNeed;
    RaisedNeeds(m, RootAddr(blk, ro), RootHeight(blk, ro), HeightFor(hi), q, TreeCommit(lo, hi, Nbytes(blk, ro)));
  }

  lemma RaisedNeeds(m: Mem, a: nat, h: nat, top: nat, q: Ask, commit: Commit)
    requires a != 0 && h < top && Touches(q, top, 0) && Last(q, top, 0) >= 1
    ensures RaisedNeed(m, a, h, top, q, commit).cost > 0
  {
    EntriesOf(q, top, 0);
    var k := Last(q, top, 0);
    hide Touches, First, Last, Need, ChildBase;
    HoleNeeds(m, top - 1, ChildBase(top, 0, k), q, Below(q, top, 0, commit));
    assert RaisedTo(m, a, h, top, q, commit, k + 1).cost > 0;
  }

  lemma LastBeyond(q: Ask, h: nat)
    requires h > 0 && Touches(q, h, 0) && h == HeightFor(q.hi) && q.hi <= Cap(h)
    ensures Last(q, h, 0) >= 1
  {
    var c := Cap(h - 1);
    assert MaxBlocks(h - 1) < (q.hi + 4095) / 4096 && 4096 * MaxBlocks(h - 1) == c;
    assert OffIn(q, 0) + SizeIn(q, h, 0) == q.hi && q.hi > c;
    hide HeightFor, MaxBlocks, Cap;
    DivAtLeast(q.hi - 1, c, 1);
  }
}

/** crawl_tree_ref for a write in MODE_BPFS: raise the tree, zero the gap, crawl, and commit in the root. */
module TreeWrite {
  import opened Words
  import opened Geometry
  import opened Tree
  import opened Bpram
  import opened WriteSpec
  import opened WriteCrawl
  import opened CrawlSlots
  import opened WriteIndir
  import opened Root
  import opened Height
  import opened ZeroFill
  import opened SpaceSpec
  import opened TreeSpace

  /** The root of a file is well formed and the file holds f. */
  ghost predicate FileIs(s: Snap, freed: set<nat>, t: nat, rb: nat, ro: nat, f: seq<Byte>) {
    && ro < 511 && rb in s.pos && s.pos[rb].tree != t
    && HaHeight(Get(s.mem, rb), ro) <= 5
    && FileShows(s.mem, rb, ro, f) && FileProper(s, freed, t, rb, ro)
  }

  /** What a write leaves: the new file under newrb; before the commit every crash shows the old one. */
  ghost predicate Written(s0: Snap, s1: Snap, t: nat, rb: nat, ro: nat, was: seq<Byte>, now: seq<Byte>, r: int, newrb: nat) {
    && ro < 511 && TreeFrame(s0, s1, t, rb, ro)
    && FileCrashes(s0, s1, t, rb, ro, was, now, r == 0 && newrb == rb)
    && (r == 0 || r == ENOSPC)
    && (r != 0 || newrb != rb ==> FileShows(s1.mem, rb, ro, was))
    && (r != 0 ==> FileIs(s1, s0.freed, t, rb, ro, was))
    && (r == 0 ==> FileIs(s1, s1.freed, t, newrb, ro, now) && newrb !in s1.freed)
    && (r == 0 && newrb != rb ==>
          && newrb !in s0.pos && s1.pos[newrb] == s0.pos[rb] && rb in s1.freed
          && forall i | 0 <= i < 512 && i != ro && i != ro + 1 :: Get(s1.mem, newrb)[i] == Get(s0.mem, rb)[i])
  }

  /** The tree is ready for the crawl: tall enough, proper and zero up to the start of the write. */
  ghost predicate Ready(s: Snap, j: Job, rb: nat, ro: nat) {
    && ro < 511 && rb in s.pos && s.pos[rb].tree != j.t
    && HaHeight(Get(s.mem, rb), ro) <= 5
    && j.Hi() <= Cap(HaHeight(Get(s.mem, rb), ro))
    && FileShows(s.mem, rb, ro, j.was) && FileProper(s, s.freed, j.t, rb, ro)
    && Before(s, j, RootAddr(Get(s.mem, rb), ro), HaHeight(Get(s.mem, rb), ro), 0)
  }

  lemma ReadyNoGap(s: Snap, j: Job, rb: nat, ro: nat)
    requires j.Ok() && ro < 511 && rb in s.pos && s.pos[rb].tree != j.t && HaHeight(Get(s.mem, rb), ro) <= 5
    requires j.Hi() <= Cap(HaHeight(Get(s.mem, rb), ro))
    requires FileShows(s.mem, rb, ro, j.was) && FileProper(s, s.freed, j.t, rb, ro)
    requires |j.was| == 0 || j.lo <= |j.was| ||
      (Proper(s.mem, s.pos, s.freed, j.t, RootAddr(Get(s.mem, rb), ro), RootHeight(Get(s.mem, rb), ro), 0, j.lo)
       && Shows(s.mem, RootAddr(Get(s.mem, rb), ro), RootHeight(Get(s.mem, rb), ro), 0, Padded(j.was, j.lo)))
    ensures Ready(s, j, rb, ro)
  {
    var blk := Get(s.mem, rb);
    FileShowsTree(s.mem, rb, ro, j.was);
    if |j.was| == 0 {
      HoleZero(s.mem, HaHeight(blk, ro), 0, j.Pad());
    } else if j.lo <= |j.was| {
      assert j.Pad() == j.was;
    }
  }

  /** The write is sure to be made in place: it needs no preparation and no new block. */
  predicate FileSure(m: Mem, j: Job, rb: nat, ro: nat)
    requires ro < 511
  {
    Sure(m, j, RootAddr(Get(m, rb), ro), RootHeight(Get(m, rb), ro), 0, Atomic)
  }

  lemma SureFits(j: Job, h: nat)
    requires j.OneStore() && j.lo < Cap(h)
    ensures j.Hi() <= Cap(h) && (j.Hi() + 4095) / 4096 <= MaxBlocks(h)
  {
    CapAligned(h);
    assert Cap(h) == 4096 * MaxBlocks(h);
    hide Cap, MaxBlocks;
  }

  /** Raise the tree when the write ends beyond it, and zero the gap when it starts beyond the end of the file. */
  method Prepare(fs: Bpram, rb: nat, ro: nat, off: nat, end: nat, ghost j: Job) returns (r: int)
    requires fs.Valid() && FileIs(Now(fs), fs.freed, j.t, rb, ro, j.was) && j.Ok()
    requires off == j.lo && end == j.Hi() <= MAX_SIZE
    modifies fs
    ensures fs.Valid() && fs.freed == old(fs.freed)
    ensures r == 0 || r == ENOSPC
    ensures TreeFrame(old(Now(fs)), Now(fs), j.t, rb, ro) && FileCrashes(old(Now(fs)), Now(fs), j.t, rb, ro, j.was, j.was, false)
    ensures FileIs(Now(fs), fs.freed, j.t, rb, ro, j.was)
    ensures r == 0 ==> Ready(Now(fs), j, rb, ro)
    ensures FileSure(old(fs.mem), j, rb, ro) ==> r == 0 && Now(fs) == old(Now(fs))
    ensures Prepared(old(Now(fs)), Now(fs), rb, ro, end, |j.was|, r)
  {
    hide TreeFrame, FileCrashes, FileShows, FileProper, Proper, Shows, Before, FileSure, HeightFor, SameShape, Stacked, FreeBlocks, Prepared, Raised;
    ghost var s0 := Now(fs);
    var prevHeight := RootHeight(Get(fs.mem, rb), ro);
    var requested := TreeHeight((end + 4095) / 4096);
    HeightBound(end, requested);
    HeightIs(end, requested);
    SizeIs(s0, rb, ro, j.was);
    SureHere(s0, j, rb, ro, requested);
    GrownSelf(s0, j.t);
    GrownFrame(s0, s0, j.t, rb, ro, j.was);
    hide Cap, MaxBlocks;
    ShapeRefl(s0.mem, RootAddr(Get(fs.mem, rb), ro), prevHeight, 0, |j.was|);
    if prevHeight < requested {
      r := RaiseHeight(fs, rb, ro, requested, j.t, j.was);
      SizeIs(Now(fs), rb, ro, j.was);
      if r != 0 {
        PreparedFails(s0, Now(fs), j.t, rb, ro, end, |j.was|, r);
        return;
      }
      ShapeRefl(fs.mem, RootAddr(Get(fs.mem, rb), ro), RootHeight(Get(fs.mem, rb), ro), 0, |j.was|);
    } else {
      CapMono(requested, prevHeight);
      CapMono(requested, HaHeight(Get(fs.mem, rb), ro));
    }
    ghost var s1 := Now(fs);
    assert end <= Cap(HaHeight(Get(fs.mem, rb), ro));
    if Nbytes(Get(fs.mem, rb), ro) < off {
      TruncateBlockZero(fs, rb, ro, off, j.t, j.was);
      FrameKeys(s1, Now(fs), j.t, rb, ro);
      TreeFrameTrans(s0, s1, Now(fs), j.t, rb, ro);
      FileCrashesTrans(s0, s1, Now(fs), j.t, rb, ro, j.was, j.was, false);
    }
    SizeIs(Now(fs), rb, ro, j.was);
    ReadyNoGap(Now(fs), j, rb, ro);
    if prevHeight < requested {
      PreparedRaised(s0, s1, Now(fs), j.t, rb, ro, end, |j.was|);
    } else {
      PreparedPlain(s0, Now(fs), rb, ro, end, |j.was|);
    }
    r := 0;
  }

  lemma PreparedFails(s0: Snap, s1: Snap, t: nat, rb: nat, ro: nat, hi: nat, n: nat, r: int)
    requires ro < 511 && Taller(s0.mem, rb, ro, hi) && Raised(s0, s1, t, rb, ro, HeightFor(hi), n, r) && r != 0
    ensures Prepared(s0, s1, rb, ro, hi, n, r)
  {
    hide SameShape, FreeBlocks, HeightFor, Stacked;
  }

  lemma FrameKeys(s0: Snap, s1: Snap, t: nat, rb: nat, ro: nat)
    requires ro < 511 && TreeFrame(s0, s1, t, rb, ro)
    ensures s1.mem.Keys == s0.mem.Keys
  {
  }

  lemma SureHere(s: Snap, j: Job, rb: nat, ro: nat, requested: nat)
    requires ro < 511 && forall h: nat | (j.Hi() + 4095) / 4096 <= MaxBlocks(h) :: requested <= h
    ensures FileSure(s.mem, j, rb, ro) ==> requested <= RootHeight(Get(s.mem, rb), ro) && j.lo < |j.was|
  {
    if FileSure(s.mem, j, rb, ro) {
      SureFits(j, RootHeight(Get(s.mem, rb), ro));
    }
  }

  lemma SizeIs(s: Snap, rb: nat, ro: nat, f: seq<Byte>)
    requires ro < 511 && FileShows(s.mem, rb, ro, f)
    ensures Nbytes(Get(s.mem, rb), ro) == |f|
  {
  }

  /** A tree of height h rooted at a holds the new contents. */
  ghost predicate Holds(s: Snap, j: Job, h: nat, a: nat) {
    && h < 8 && a != 0 && a < 0x2000_0000_0000_0000
    && Proper(s.mem, s.pos, s.freed, j.t, a, h, 0, |j.New()|) && Shows(s.mem, a, h, 0, j.New())
    && forall x: nat {:trigger j.New()[x]} | Cap(h) <= x < |j.New()| :: j.New()[x] == 0
  }

  lemma HoldsKept(s: Snap, s': Snap, j: Job, h: nat, a: nat)
    requires Holds(s, j, h, a) && Extends(s.pos, s'.pos)
    requires forall b {:trigger Get(s'.mem, b)} {:trigger b in s'.freed} | b in s.pos && s.pos[b].tree == j.t ::
      Get(s'.mem, b) == Get(s.mem, b) && (b in s'.freed ==> b in s.freed)
    ensures Holds(s', j, h, a)
  {
    ProperFrame(s.mem, s'.mem, s.pos, s'.pos, s.freed, s'.freed, j.t, a, h, 0, |j.New()|);
  }

  /** A root that points at the new tree while the size is still old shows what the old size lets a reader see. */
  lemma LinkedShows(s: Snap, j: Job, rb: nat, ro: nat, h: nat, a: nat)
    requires ro < 511 && j.Ok() && Holds(s, j, h, a) && Get(s.mem, rb)[ro] == HaWord(h, a) && Nbytes(Get(s.mem, rb), ro) == |j.was|
    ensures FileShows(s.mem, rb, ro, j.Seen()) && FileProper(s, s.freed, j.t, rb, ro)
    ensures HaHeight(Get(s.mem, rb), ro) == h
  {
    HaRoundTrip(h, a);
    WasPrefix(j);
    if |j.was| == 0 {
      EmptyFile(s.mem, rb, ro);
      assert j.Seen() == [];
    } else {
      ProperEnd(s.mem, s.pos, s.freed, j.t, a, h, 0, |j.New()|, |j.was|);
      ShowsPrefix(s.mem, a, h, 0, j.New(), j.Seen());
      RootStored(s, s, j.t, rb, ro, h, a, j.Seen());
    }
  }

  /** A root that points at the new tree and has the new size shows the new file. */
  lemma LinkedNew(s: Snap, j: Job, rb: nat, ro: nat, h: nat, a: nat)
    requires ro < 511 && j.Ok() && Holds(s, j, h, a) && Get(s.mem, rb)[ro] == HaWord(h, a) && Nbytes(Get(s.mem, rb), ro) == |j.New()|
    ensures FileShows(s.mem, rb, ro, j.New()) && FileProper(s, s.freed, j.t, rb, ro)
    ensures HaHeight(Get(s.mem, rb), ro) == h
  {
    RootStored(s, s, j.t, rb, ro, h, a, j.New());
  }

  lemma SeenIs(j: Job)
    requires j.Ok()
    ensures j.Hi() <= |j.was| ==> j.Seen() == j.New()
    ensures |j.was| <= j.lo ==> j.Seen() == j.was
  {
  }

  /** What the crawl of the tree means for the file. */
  ghost predicate Crawled(s1: Snap, s2: Snap, j: Job, rb: nat, ro: nat, commit: Commit, r: int, cnew: nat) {
    && ro < 511
    && TreeFrame(s1, s2, j.t, rb, ro) && Get(s2.mem, rb) == Get(s1.mem, rb) && rb !in s2.freed - s1.freed
    && (var a := RootAddr(Get(s1.mem, rb), ro);
        var inside := commit == Atomic && r == 0 && cnew == a && j.lo < |j.was|;
        && FileCrashes(s1, s2, j.t, rb, ro, j.was, j.New(), inside)
        && (!inside ==> FileIs(s2, s1.freed, j.t, rb, ro, j.was))
        && (r == 0 || r == ENOSPC)
        && (r == 0 ==> Holds(s2, j, HaHeight(Get(s1.mem, rb), ro), cnew))
        && (r == 0 && commit == CopyOnly && j.lo < |j.was| ==> cnew != a)
        && (r == 0 && cnew == a ==> a != 0))
  }

  lemma CrashedFile(s1: Snap, m': Mem, j: Job, rb: nat, ro: nat, f: seq<Byte>)
    requires Ready(s1, j, rb, ro) && |f| == |j.was|
    requires FrameOut(s1.mem, m', s1.pos, j.t, HaHeight(Get(s1.mem, rb), ro), 0)
    requires Shows(m', RootAddr(Get(s1.mem, rb), ro), HaHeight(Get(s1.mem, rb), ro), 0, f)
    requires forall x: nat {:trigger f[x]} | Cap(HaHeight(Get(s1.mem, rb), ro)) <= x < |f| :: f[x] == j.was[x]
    ensures RootFrame(s1, m', j.t, rb, ro) && FileShows(m', rb, ro, f) && Get(m', rb) == Get(s1.mem, rb)
  {
    assert Get(m', rb) == Get(s1.mem, rb);
    if |f| == 0 {
      EmptyFile(m', rb, ro);
    } else {
      FileShowsTree(s1.mem, rb, ro, j.was);
      FileShowsTree(m', rb, ro, f);
    }
  }

  /** Beyond the tree's capacity both the old and the new file are zero. */
  lemma BeyondTree(s1: Snap, j: Job, rb: nat, ro: nat)
    requires Ready(s1, j, rb, ro)
    ensures forall x: nat {:trigger j.was[x]} | Cap(HaHeight(Get(s1.mem, rb), ro)) <= x < |j.was| :: j.was[x] == 0
    ensures forall x: nat {:trigger j.New()[x]} | Cap(HaHeight(Get(s1.mem, rb), ro)) <= x < |j.New()| :: j.New()[x] == 0
    ensures forall x: nat {:trigger j.Seen()[x]} | Cap(HaHeight(Get(s1.mem, rb), ro)) <= x < |j.Seen()| :: j.Seen()[x] == j.was[x]
  {
    FileShowsTree(s1.mem, rb, ro, j.was);
  }

  lemma CrawlCrashes(s1: Snap, s2: Snap, j: Job, rb: nat, ro: nat, commit: Commit, r: int, cnew: nat)
    requires Ready(s1, j, rb, ro)
    requires CrashesSafe(s1, s2, j, RootAddr(Get(s1.mem, rb), ro), HaHeight(Get(s1.mem, rb), ro), 0,
      commit == Atomic && r == 0 && cnew == RootAddr(Get(s1.mem, rb), ro))
    requires commit == Atomic ==> j.Hi() <= |j.was| || |j.was| <= j.lo
    ensures FileCrashes(s1, s2, j.t, rb, ro, j.was, j.New(),
      commit == Atomic && r == 0 && cnew == RootAddr(Get(s1.mem, rb), ro) && j.lo < |j.was|)
  {
    var blk := Get(s1.mem, rb);
    var a, h := RootAddr(blk, ro), HaHeight(blk, ro);
    SeenIs(j);
    BeyondTree(s1, j, rb, ro);
    hide Shows, Ready;
    forall m' {:trigger m' in s2.crashes} | m' in s2.crashes && m' !in s1.crashes
      ensures RootFrame(s1, m', j.t, rb, ro)
      ensures FileShows(m', rb, ro, j.was)
        || (commit == Atomic && r == 0 && cnew == a && j.lo < |j.was| && FileShows(m', rb, ro, j.New()))
    {
      if Shows(m', a, h, 0, j.was) {
        CrashedFile(s1, m', j, rb, ro, j.was);
      } else {
        CrashedFile(s1, m', j, rb, ro, j.Seen());
      }
    }
  }

  /** Until the commit the root still leads to the old file. */
  lemma CrawlQuiet(s1: Snap, s2: Snap, j: Job, rb: nat, ro: nat)
    requires Ready(s1, j, rb, ro) && Frame(s1, s2, j.t, HaHeight(Get(s1.mem, rb), ro), 0)
    requires Proper(s2.mem, s2.pos, s1.freed, j.t, RootAddr(Get(s1.mem, rb), ro), HaHeight(Get(s1.mem, rb), ro), 0, |j.was|)
    requires Shows(s2.mem, RootAddr(Get(s1.mem, rb), ro), HaHeight(Get(s1.mem, rb), ro), 0, j.was)
    ensures FileIs(s2, s1.freed, j.t, rb, ro, j.was)
  {
    CrashedFile(s1, s2.mem, j, rb, ro, j.was);
    SizeIs(s1, rb, ro, j.was);
    if |j.was| == 0 {
      HoleProper(s2, s1.freed, j.t, 0, 0, 0);
    }
  }

  lemma CrawlFile(s1: Snap, s2: Snap, j: Job, rb: nat, ro: nat, commit: Commit, r: int, cnew: nat)
    requires Ready(s1, j, rb, ro)
    requires After(s1, s2, j, RootAddr(Get(s1.mem, rb), ro), HaHeight(Get(s1.mem, rb), ro), 0, commit, r, cnew)
    requires commit == Atomic ==> j.Hi() <= |j.was| || |j.was| <= j.lo
    requires r == 0 ==> cnew < 0x2000_0000_0000_0000
    ensures Crawled(s1, s2, j, rb, ro, commit, r, cnew)
  {
    var blk := Get(s1.mem, rb);
    var a, h := RootAddr(blk, ro), HaHeight(blk, ro);
    SeenIs(j);
    BeyondTree(s1, j, rb, ro);
    CrawlCrashes(s1, s2, j, rb, ro, commit, r, cnew);
    CrawlFrame(s1, s2, j, rb, ro, h);
    hide Proper, Shows, TreeFrame, FileCrashes;
    if !(commit == Atomic && r == 0 && cnew == a && j.lo < |j.was|) {
      if commit == Atomic && r == 0 && cnew == a {
        WasPrefix(j);
        ShowsPrefix(s2.mem, a, h, 0, j.New(), j.Seen());
      }
      CrawlQuiet(s1, s2, j, rb, ro);
    }
  }

  lemma CrawlFrame(s1: Snap, s2: Snap, j: Job, rb: nat, ro: nat, h: nat)
    requires ro < 511 && rb in s1.pos && s1.pos[rb].tree != j.t && Frame(s1, s2, j.t, h, 0)
    ensures TreeFrame(s1, s2, j.t, rb, ro) && rb !in s2.freed - s1.freed && Get(s2.mem, rb) == Get(s1.mem, rb)
  {
    assert Get(s2.mem, rb) == Get(s1.mem, rb);
  }

  /** Storing the new address in the root: invisible below the old size, or the commit when the size stays. */
  lemma AddrStored(s1: Snap, s2: Snap, s3: Snap, j: Job, rb: nat, ro: nat, cnew: nat)
    requires Crawled(s1, s2, j, rb, ro, Atomic, 0, cnew) && j.Ok() && rb in s2.mem
    requires Nbytes(Get(s2.mem, rb), ro) == |j.was| && (j.Hi() <= |j.was| || |j.was| <= j.lo)
    requires s3 == Snap(s2.mem[rb := Get(s2.mem, rb)[ro := HaWord(HaHeight(Get(s2.mem, rb), ro), cnew)]], s2.pos, s2.freed, s2.crashes + iset{s3.mem})
    ensures TreeFrame(s2, s3, j.t, rb, ro) && FileCrashes(s2, s3, j.t, rb, ro, j.was, j.New(), j.Hi() <= |j.was|)
    ensures Holds(s3, j, HaHeight(Get(s2.mem, rb), ro), cnew)
    ensures FileShows(s3.mem, rb, ro, j.Seen()) && FileProper(s3, s3.freed, j.t, rb, ro)
    ensures HaHeight(Get(s3.mem, rb), ro) == HaHeight(Get(s2.mem, rb), ro)
  {
    var h := HaHeight(Get(s2.mem, rb), ro);
    HoldsKept(s2, s3, j, h, cnew);
    LinkedShows(s3, j, rb, ro, h, cnew);
    SeenIs(j);
    RootStoreFrame(s2, s3, j.t, rb, ro, ro, HaWord(h, cnew), j.was, j.New(), j.Hi() <= |j.was|);
  }

  /** Storing the new size in the root commits an append. */
  lemma SizeStored(s3: Snap, s4: Snap, j: Job, rb: nat, ro: nat, a: nat)
    requires ro < 511 && rb in s3.pos && s3.pos[rb].tree != j.t && rb in s3.mem && j.Ok() && |j.New()| < 0x1_0000_0000_0000_0000
    requires Holds(s3, j, HaHeight(Get(s3.mem, rb), ro), a) && Decode(Get(s3.mem, rb)[ro]) == HaHeight(Get(s3.mem, rb), ro) + 8 * a
    requires s4 == Snap(s3.mem[rb := Get(s3.mem, rb)[ro + 1 := ToWord(|j.New()|)]], s3.pos, s3.freed, s3.crashes + iset{s4.mem})
    ensures TreeFrame(s3, s4, j.t, rb, ro) && FileCrashes(s3, s4, j.t, rb, ro, j.was, j.New(), true)
    ensures FileShows(s4.mem, rb, ro, j.New()) && FileProper(s4, s4.freed, j.t, rb, ro)
    ensures HaHeight(Get(s4.mem, rb), ro) == HaHeight(Get(s3.mem, rb), ro)
  {
    var h := HaHeight(Get(s3.mem, rb), ro);
    HoldsKept(s3, s4, j, h, a);
    WordRoundTrip(|j.New()|);
    FileShowsTree(s4.mem, rb, ro, j.New());
    RootStoreFrame(s3, s4, j.t, rb, ro, ro + 1, ToWord(|j.New()|), j.was, j.New(), true);
  }

  lemma RootWord(blk: Block, ro: nat)
    requires ro < 511 && Nbytes(blk, ro) > 0
    ensures Decode(blk[ro]) == HaHeight(blk, ro) + 8 * RootAddr(blk, ro)
  {
  }

  /** The crawl wrote the new bytes in place and neither address nor size changes. */
  lemma WrittenInside(s1: Snap, s2: Snap, j: Job, rb: nat, ro: nat, commit: Commit)
    requires Ready(s1, j, rb, ro) && rb !in s1.freed && j.Hi() <= |j.was|
    requires Crawled(s1, s2, j, rb, ro, commit, 0, RootAddr(Get(s1.mem, rb), ro))
    ensures Written(s1, s2, j.t, rb, ro, j.was, j.New(), 0, rb)
  {
    var blk := Get(s1.mem, rb);
    assert Nbytes(blk, ro) == |j.was| by { SizeIs(s1, rb, ro, j.was); }
    FileShowsTree(s2.mem, rb, ro, j.New());
  }

  lemma AddrCommits(s1: Snap, s2: Snap, s3: Snap, j: Job, rb: nat, ro: nat, cnew: nat)
    requires Ready(s1, j, rb, ro) && Crawled(s1, s2, j, rb, ro, Atomic, 0, cnew) && rb in s2.mem && rb !in s2.freed
    requires cnew != RootAddr(Get(s1.mem, rb), ro) && j.Hi() <= |j.was|
    requires s3 == Snap(s2.mem[rb := Get(s2.mem, rb)[ro := HaWord(HaHeight(Get(s2.mem, rb), ro), cnew)]], s2.pos, s2.freed, s2.crashes + iset{s3.mem})
    ensures Written(s1, s3, j.t, rb, ro, j.was, j.New(), 0, rb)
  {
    SizeIs(s1, rb, ro, j.was);
    AddrStored(s1, s2, s3, j, rb, ro, cnew);
    SeenIs(j);
    assert rb in s3.pos && s3.pos[rb] == s1.pos[rb];
    hide FileCrashes, FileShows, FileProper, Holds, TreeFrame, HaHeight;
    TreeFrameTrans(s1, s2, s3, j.t, rb, ro);
    FileCrashesTrans(s1, s2, s3, j.t, rb, ro, j.was, j.New(), true);
  }

  /** The root is ready for its new size. */
  ghost predicate Sized(s1: Snap, s3: Snap, j: Job, rb: nat, ro: nat, a: nat) {
    && ro < 511 && TreeFrame(s1, s3, j.t, rb, ro) && FileCrashes(s1, s3, j.t, rb, ro, j.was, j.was, false)
    && rb in s3.pos && s3.pos[rb].tree != j.t && rb !in s3.freed && HaHeight(Get(s3.mem, rb), ro) <= 5
    && Holds(s3, j, HaHeight(Get(s3.mem, rb), ro), a)
    && Decode(Get(s3.mem, rb)[ro]) == HaHeight(Get(s3.mem, rb), ro) + 8 * a
  }

  lemma AddrQuiet(s1: Snap, s2: Snap, s3: Snap, j: Job, rb: nat, ro: nat, cnew: nat)
    requires Ready(s1, j, rb, ro) && Crawled(s1, s2, j, rb, ro, Atomic, 0, cnew) && rb in s2.mem && rb !in s2.freed
    requires cnew != RootAddr(Get(s1.mem, rb), ro) && |j.was| <= j.lo
    requires s3 == Snap(s2.mem[rb := Get(s2.mem, rb)[ro := HaWord(HaHeight(Get(s2.mem, rb), ro), cnew)]], s2.pos, s2.freed, s2.crashes + iset{s3.mem})
    ensures Sized(s1, s3, j, rb, ro, cnew)
  {
    SizeIs(s1, rb, ro, j.was);
    AddrStored(s1, s2, s3, j, rb, ro, cnew);
    SeenIs(j);
    HaRoundTrip(HaHeight(Get(s2.mem, rb), ro), cnew);
    assert Get(s3.mem, rb)[ro] == HaWord(HaHeight(Get(s2.mem, rb), ro), cnew);
    assert rb in s3.pos && s3.pos[rb] == s1.pos[rb];
    FileCrashesFalse(s2, s3, j, rb, ro);
    hide FileCrashes, FileShows, FileProper, Holds, TreeFrame;
    TreeFrameTrans(s1, s2, s3, j.t, rb, ro);
    FileCrashesTrans(s1, s2, s3, j.t, rb, ro, j.was, j.was, false);
  }

  lemma FileCrashesFalse(s2: Snap, s3: Snap, j: Job, rb: nat, ro: nat)
    requires ro < 511 && FileCrashes(s2, s3, j.t, rb, ro, j.was, j.New(), j.Hi() <= |j.was|) && j.Ok() && |j.was| <= j.lo
    ensures FileCrashes(s2, s3, j.t, rb, ro, j.was, j.was, false)
  {
  }

  lemma SizeQuiet(s1: Snap, s2: Snap, j: Job, rb: nat, ro: nat, cnew: nat)
    requires Ready(s1, j, rb, ro) && Crawled(s1, s2, j, rb, ro, Atomic, 0, cnew) && rb !in s2.freed
    requires cnew == RootAddr(Get(s1.mem, rb), ro) && |j.was| <= j.lo
    ensures Sized(s1, s2, j, rb, ro, cnew)
  {
    SizeIs(s1, rb, ro, j.was);
    RootWord(Get(s1.mem, rb), ro);
  }

  lemma SizeCommits(s1: Snap, s3: Snap, s4: Snap, j: Job, rb: nat, ro: nat, a: nat)
    requires Sized(s1, s3, j, rb, ro, a) && rb in s3.mem && j.Ok() && |j.New()| < 0x1_0000_0000_0000_0000
    requires s4 == Snap(s3.mem[rb := Get(s3.mem, rb)[ro + 1 := ToWord(|j.New()|)]], s3.pos, s3.freed, s3.crashes + iset{s4.mem})
    ensures Written(s1, s4, j.t, rb, ro, j.was, j.New(), 0, rb)
  {
    SizeStored(s3, s4, j, rb, ro, a);
    hide FileCrashes, FileShows, FileProper, Holds, TreeFrame, HaHeight;
    TreeFrameTrans(s1, s3, s4, j.t, rb, ro);
    FileCrashesTrans(s1, s3, s4, j.t, rb, ro, j.was, j.New(), true);
  }

  /** Commit in the root, in place: the address, the size, or first the one and then the other. */
  method CommitInPlace(fs: Bpram, rb: nat, ro: nat, cnew: nat, changeAddr: bool, changeSize: bool, end: nat, ghost j: Job, ghost s1: Snap)
    requires fs.Valid() && Ready(s1, j, rb, ro) && Crawled(s1, Now(fs), j, rb, ro, Atomic, 0, cnew)
    requires rb in fs.used && rb in fs.mem && rb !in fs.freed && ro < 511
    requires changeAddr == (cnew != RootAddr(Get(s1.mem, rb), ro)) && changeSize == (end > |j.was|) && (changeAddr || changeSize)
    requires end == j.Hi() <= MAX_SIZE && (j.Hi() <= |j.was| || |j.was| <= j.lo) && j.Ok()
    requires HaHeight(Get(fs.mem, rb), ro) < 8 && cnew < 0x2000_0000_0000_0000
    modifies fs`mem, fs`crashes
    ensures fs.Valid() && Written(s1, Now(fs), j.t, rb, ro, j.was, j.New(), 0, rb)
    ensures Placed(old(Now(fs)), Now(fs), rb, rb, ro, cnew)
  {
    assert changeSize ==> |j.New()| == end < 0x1_0000_0000_0000_0000;
    InPlaceFacts(s1, Now(fs), j, rb, ro, cnew, changeAddr, changeSize);
    hide *;
    ghost var s2 := Now(fs);
    if changeAddr {
      fs.StoreWord(rb, ro, HaWord(HaHeight(Get(fs.mem, rb), ro), cnew));
      if changeSize {
        AddrQuiet(s1, s2, Now(fs), j, rb, ro, cnew);
      } else {
        AddrCommits(s1, s2, Now(fs), j, rb, ro, cnew);
      }
    } else {
      SizeQuiet(s1, s2, j, rb, ro, cnew);
    }
    ghost var s3 := Now(fs);
    if changeSize {
      fs.StoreWord(rb, ro + 1, ToWord(end));
      SizeCommits(s1, s3, Now(fs), j, rb, ro, cnew);
    }
    StoredInPlace(s2, s3, Now(fs), rb, ro, cnew, changeAddr, changeSize, end);
  }

  lemma InPlaceFacts(s1: Snap, s2: Snap, j: Job, rb: nat, ro: nat, cnew: nat, changeAddr: bool, changeSize: bool)
    requires Ready(s1, j, rb, ro) && Crawled(s1, s2, j, rb, ro, Atomic, 0, cnew) && ro < 511
    requires changeAddr == (cnew != RootAddr(Get(s1.mem, rb), ro)) && changeSize == (j.Hi() > |j.was|) && j.Ok()
    ensures cnew != 0 && Get(s2.mem, rb) == Get(s1.mem, rb) && Nbytes(Get(s2.mem, rb), ro) == |j.was|
    ensures !changeAddr ==> RootAddr(Get(s2.mem, rb), ro) == cnew && Nbytes(Get(s2.mem, rb), ro) > 0
    ensures !changeSize ==> |j.was| > 0
  {
    SizeIs(s1, rb, ro, j.was);
    hide Proper, Shows, FileShows, FileProper, TreeFrame, FileCrashes, Before;
  }

  lemma StoredInPlace(s2: Snap, s3: Snap, s4: Snap, rb: nat, ro: nat, cnew: nat, changeAddr: bool, changeSize: bool, end: nat)
    requires ro < 511 && rb in s2.mem && 0 < end < 0x1_0000_0000_0000_0000 && HaHeight(Get(s2.mem, rb), ro) < 8 && cnew < 0x2000_0000_0000_0000
    requires s3.pos == s2.pos == s4.pos
    requires s3.mem == if changeAddr then s2.mem[rb := Get(s2.mem, rb)[ro := HaWord(HaHeight(Get(s2.mem, rb), ro), cnew)]] else s2.mem
    requires s4.mem == if changeSize then s3.mem[rb := Get(s3.mem, rb)[ro + 1 := ToWord(end)]] else s3.mem
    requires !changeAddr ==> RootAddr(Get(s2.mem, rb), ro) == cnew && Nbytes(Get(s2.mem, rb), ro) > 0
    requires !changeSize ==> Nbytes(Get(s2.mem, rb), ro) > 0
    ensures Placed(s2, s4, rb, rb, ro, cnew)
  {
    HaRoundTrip(HaHeight(Get(s2.mem, rb), ro), cnew);
    WordRoundTrip(end);
    hide HaWord, ToWord, Decode;
  }

  lemma StoredOnCopy(s2: Snap, s: Snap, s3: Snap, s4: Snap, rb: nat, newrb: nat, ro: nat, cnew: nat, end: nat)
    requires ro < 511 && rb in s2.pos && newrb in s2.mem && newrb !in s2.pos && 0 < end < 0x1_0000_0000_0000_0000 && HaHeight(Get(s2.mem, rb), ro) < 8 && cnew < 0x2000_0000_0000_0000
    requires s.mem.Keys == s2.mem.Keys && OnlyBlock(s2.mem, s.mem, newrb) && s.pos == s2.pos[newrb := s2.pos[rb]] && s3.pos == s.pos == s4.pos
    requires s3.mem == s.mem[newrb := Get(s.mem, newrb)[ro := HaWord(HaHeight(Get(s2.mem, rb), ro), cnew)]]
    requires s4.mem == s3.mem[newrb := Get(s3.mem, newrb)[ro + 1 := ToWord(end)]]
    ensures Placed(s2, s4, rb, newrb, ro, cnew)
  {
    HaRoundTrip(HaHeight(Get(s2.mem, rb), ro), cnew);
    WordRoundTrip(end);
    hide HaWord, ToWord, Decode;
    forall c {:trigger Get(s4.mem, c)} | c != newrb
      ensures Get(s4.mem, c) == Get(s2.mem, c)
    {
      assert Get(s4.mem, c) == Get(s.mem, c);
    }
  }

  /** While only a copy of the root's block is written, the file stays as it was. */
  ghost predicate Copying(s1: Snap, s: Snap, j: Job, rb: nat, ro: nat, b: nat, h: nat, a: nat) {
    && ro < 511 && TreeFrame(s1, s, j.t, rb, ro) && FileCrashes(s1, s, j.t, rb, ro, j.was, j.was, false)
    && FileShows(s.mem, rb, ro, j.was) && FileProper(s, s1.freed, j.t, rb, ro)
    && b != rb && b in s.mem && b !in s1.pos && b in s.pos && s.pos[b] == s1.pos[rb] && b !in s.freed && rb in s.freed
    && h <= 5 && Holds(s, j, h, a)
    && (forall i | 0 <= i < 512 && i != ro && i != ro + 1 :: Get(s.mem, b)[i] == Get(s1.mem, rb)[i])
  }

  lemma CopyMade(s1: Snap, s2: Snap, s3: Snap, j: Job, rb: nat, ro: nat, b: nat, cnew: nat)
    requires Ready(s1, j, rb, ro) && Crawled(s1, s2, j, rb, ro, CopyOnly, 0, cnew) && s2.freed <= s2.pos.Keys
    requires b in s2.mem && b !in s2.pos && s3.pos == s2.pos[b := s2.pos[rb]] && s3.freed == s2.freed + {rb} && rb in s2.pos
    requires s3.mem.Keys == s2.mem.Keys && Get(s3.mem, b) == Get(s2.mem, rb) && OnlyBlock(s2.mem, s3.mem, b) && s2.crashes <= s3.crashes
    requires forall m' {:trigger m' in s3.crashes} | m' in s3.crashes :: m' in s2.crashes || OnlyBlock(s2.mem, m', b)
    ensures Copying(s1, s3, j, rb, ro, b, HaHeight(Get(s1.mem, rb), ro), cnew)
  {
    hide Proper, Shows, Before;
    HoldsKept(s2, s3, j, HaHeight(Get(s1.mem, rb), ro), cnew);
    CopyFrame(s1, s2, s3, j, rb, ro, b);
  }

  /** Stores to a block that no reader of the file reaches. */
  lemma CopyFrame(s1: Snap, s2: Snap, s3: Snap, j: Job, rb: nat, ro: nat, b: nat)
    requires ro < 511 && TreeFrame(s1, s2, j.t, rb, ro) && FileCrashes(s1, s2, j.t, rb, ro, j.was, j.was, false)
    requires FileShows(s2.mem, rb, ro, j.was) && FileProper(s2, s1.freed, j.t, rb, ro)
    requires b != rb && b !in s1.pos && (b in s2.pos ==> s2.pos[b].tree != j.t) && Extends(s2.pos, s3.pos) && s2.freed <= s3.freed && s3.freed <= s2.freed + {rb}
    requires forall c | c in s3.pos && c !in s2.pos :: s3.pos[c] == s1.pos[rb]
    requires s3.mem.Keys == s2.mem.Keys && OnlyBlock(s2.mem, s3.mem, b) && s2.crashes <= s3.crashes
    requires forall m' {:trigger m' in s3.crashes} | m' in s3.crashes :: m' in s2.crashes || OnlyBlock(s2.mem, m', b)
    ensures TreeFrame(s1, s3, j.t, rb, ro) && FileCrashes(s1, s3, j.t, rb, ro, j.was, j.was, false)
    ensures FileShows(s3.mem, rb, ro, j.was) && FileProper(s3, s1.freed, j.t, rb, ro)
  {
    FileKept(s2, s3.mem, s1.freed, j.t, rb, ro, j.was);
    CopyRootFrame(s1, s2, s3.mem, j, rb, ro, b);
    forall m' {:trigger m' in s3.crashes} | m' in s3.crashes && m' !in s2.crashes
      ensures RootFrame(s1, m', j.t, rb, ro) && FileShows(m', rb, ro, j.was)
    {
      FileKept(s2, m', s1.freed, j.t, rb, ro, j.was);
      CopyRootFrame(s1, s2, m', j, rb, ro, b);
    }
  }

  lemma CopyRootFrame(s1: Snap, s2: Snap, m': Mem, j: Job, rb: nat, ro: nat, b: nat)
    requires ro < 511 && TreeFrame(s1, s2, j.t, rb, ro) && b != rb && b !in s1.pos && OnlyBlock(s2.mem, m', b)
    ensures RootFrame(s1, m', j.t, rb, ro)
  {
    forall c | c in s1.pos && c != rb && s1.pos[c].tree != j.t
      ensures Get(m', c) == Get(s1.mem, c)
    {
      assert Get(s2.mem, c) == Get(s1.mem, c);
    }
    assert Get(m', rb) == Get(s2.mem, rb);
  }

  lemma CopyStored(s1: Snap, s: Snap, s': Snap, j: Job, rb: nat, ro: nat, b: nat, h: nat, a: nat, i: nat, w: Word)
    requires Copying(s1, s, j, rb, ro, b, h, a) && (i == ro || i == ro + 1)
    requires s' == Snap(s.mem[b := Get(s.mem, b)[i := w]], s.pos, s.freed, s.crashes + iset{s'.mem})
    ensures Copying(s1, s', j, rb, ro, b, h, a)
  {
    assert s1.pos[rb].tree != j.t;
    hide Proper, Shows;
    HoldsKept(s, s', j, h, a);
    CopyFrame(s1, s, s', j, rb, ro, b);
  }

  lemma CopyDone(s1: Snap, s: Snap, j: Job, rb: nat, ro: nat, b: nat, h: nat, a: nat)
    requires Copying(s1, s, j, rb, ro, b, h, a) && j.Ok()
    requires Get(s.mem, b)[ro] == HaWord(h, a) && Nbytes(Get(s.mem, b), ro) == |j.New()|
    ensures Written(s1, s, j.t, rb, ro, j.was, j.New(), 0, b)
  {
    LinkedNew(s, j, b, ro, h, a);
    assert s1.pos[rb].tree != j.t;
  }

  /** Commit an overwrite that also extends the file: both root words change on a copy of their block. */
  method CommitOnCopy(fs: Bpram, rb: nat, ro: nat, cnew: nat, end: nat, ghost j: Job, ghost s1: Snap) returns (r: int, newrb: nat)
    requires fs.Valid() && Ready(s1, j, rb, ro) && Crawled(s1, Now(fs), j, rb, ro, CopyOnly, 0, cnew)
    requires rb in fs.used && rb in fs.mem && ro < 511 && HaHeight(Get(fs.mem, rb), ro) <= 5 && cnew < 0x2000_0000_0000_0000
    requires HaHeight(Get(fs.mem, rb), ro) == HaHeight(Get(s1.mem, rb), ro)
    requires end == |j.New()| <= MAX_SIZE && j.Ok()
    modifies fs
    ensures fs.Valid() && (r == 0 || r == ENOSPC)
    ensures r == 0 ==> Written(s1, Now(fs), j.t, rb, ro, j.was, j.New(), 0, newrb)
    ensures r != 0 ==> Now(fs) == old(Now(fs))
    ensures r == 0 <==> FreeBlocks(old(fs.mem), old(fs.pos)) > 0
    ensures r == 0 ==> newrb != rb && Placed(old(Now(fs)), Now(fs), rb, newrb, ro, cnew)
  {
    NoSpaceCode();
    assert 0 < end < 0x1_0000_0000_0000_0000;
    CopyFacts(fs, s1, j, rb, ro, cnew);
    hide *;
    var h := HaHeight(Get(fs.mem, rb), ro);
    ghost var s2 := Now(fs);
    newrb := fs.CowBlockEntire(rb);
    if newrb == 0 {
      return ENOSPC, 0;
    }
    CopyMade(s1, s2, Now(fs), j, rb, ro, newrb, cnew);
    CopyThere(fs, newrb);
    StoreRoot(fs, rb, newrb, ro, h, cnew, end, j, s1, s2);
    r := 0;
  }

  lemma CopyFacts(fs: Bpram, s1: Snap, j: Job, rb: nat, ro: nat, cnew: nat)
    requires fs.Valid() && Crawled(s1, Now(fs), j, rb, ro, CopyOnly, 0, cnew) && rb in fs.used
    ensures rb in fs.pos && fs.freed <= fs.pos.Keys && 0 !in fs.pos
  {
  }

  /** Store the new address and the new size in the copy of the root's block. */
  method StoreRoot(fs: Bpram, ghost rb: nat, newrb: nat, ro: nat, h: nat, cnew: nat, end: nat, ghost j: Job, ghost s1: Snap, ghost s2: Snap)
    requires fs.Valid() && newrb in fs.used && ro < 511 && h < 8 && cnew < 0x2000_0000_0000_0000 && j.Ok()
    requires Copying(s1, Now(fs), j, rb, ro, newrb, h, cnew) && 0 < end == |j.New()| < 0x1_0000_0000_0000_0000
    requires rb in s2.pos && newrb in s2.mem && newrb !in s2.pos && h == HaHeight(Get(s2.mem, rb), ro)
    requires fs.mem.Keys == s2.mem.Keys && OnlyBlock(s2.mem, fs.mem, newrb) && fs.pos == s2.pos[newrb := s2.pos[rb]]
    modifies fs`mem, fs`crashes
    ensures fs.Valid() && Written(s1, Now(fs), j.t, rb, ro, j.was, j.New(), 0, newrb) && Placed(s2, Now(fs), rb, newrb, ro, cnew)
  {
    hide *;
    ghost var s3 := Now(fs);
    fs.StoreWord(newrb, ro, HaWord(h, cnew));
    CopyStored(s1, s3, Now(fs), j, rb, ro, newrb, h, cnew, ro, HaWord(h, cnew));
    ghost var s4 := Now(fs);
    fs.StoreWord(newrb, ro + 1, ToWord(end));
    CopyStored(s1, s4, Now(fs), j, rb, ro, newrb, h, cnew, ro + 1, ToWord(end));
    StoredWords(s3.mem, s4.mem, fs.mem, newrb, ro, HaWord(h, cnew), end);
    CopyDone(s1, Now(fs), j, rb, ro, newrb, h, cnew);
    StoredOnCopy(s2, s3, s4, Now(fs), rb, newrb, ro, cnew, end);
  }

  lemma StoredWords(m: Mem, m': Mem, m'': Mem, b: nat, ro: nat, w: Word, n: nat)
    requires ro < 511 && n < 0x1_0000_0000_0000_0000
    requires m' == m[b := Get(m, b)[ro := w]] && m'' == m'[b := Get(m', b)[ro + 1 := ToWord(n)]]
    ensures Get(m'', b)[ro] == w && Nbytes(Get(m'', b), ro) == n
  {
    WordRoundTrip(n);
  }

  /** Preparing and then writing is one write. */
  lemma WrittenTrans(s0: Snap, s1: Snap, s2: Snap, t: nat, rb: nat, ro: nat, was: seq<Byte>, now: seq<Byte>, r: int, newrb: nat)
    requires ro < 511 && TreeFrame(s0, s1, t, rb, ro) && FileCrashes(s0, s1, t, rb, ro, was, was, false) && s1.freed == s0.freed
    requires Written(s1, s2, t, rb, ro, was, now, r, newrb)
    ensures Written(s0, s2, t, rb, ro, was, now, r, newrb)
  {
    TreeFrameTrans(s0, s1, s2, t, rb, ro);
    FileCrashesTrans(s0, s1, s2, t, rb, ro, was, now, r == 0 && newrb == rb);
    if r == 0 && newrb != rb {
      forall i | 0 <= i < 512 && i != ro && i != ro + 1
        ensures Get(s2.mem, newrb)[i] == Get(s0.mem, rb)[i]
      {
        assert Get(s1.mem, rb)[i] == Get(s0.mem, rb)[i];
      }
    }
  }

  lemma WrittenFails(s1: Snap, s2: Snap, j: Job, rb: nat, ro: nat, commit: Commit, r: int, cnew: nat)
    requires Ready(s1, j, rb, ro) && Crawled(s1, s2, j, rb, ro, commit, r, cnew)
    requires commit == CopyOnly || r != 0
    ensures Written(s1, s2, j.t, rb, ro, j.was, j.New(), ENOSPC, 0)
  {
  }

  lemma RootShare(j: Job, h: nat)
    requires j.Ok() && j.Hi() <= Cap(h)
    ensures Share(j, h, 0, j.lo / 4096, j.lo, |j.buf|, Min(|j.was|, Cap(h)))
    ensures h == 0 ==> j.lo / 4096 == 0
  {
  }

  /** The facts about the state before the crawl that the method itself uses. */
  lemma ReadyFacts(s: Snap, j: Job, rb: nat, ro: nat)
    requires Ready(s, j, rb, ro)
    ensures ro < 511 && rb in s.pos && HaHeight(Get(s.mem, rb), ro) <= 5 && j.Ok()
    ensures Nbytes(Get(s.mem, rb), ro) == |j.was| && j.Hi() <= Cap(HaHeight(Get(s.mem, rb), ro))
    ensures Before(s, j, RootAddr(Get(s.mem, rb), ro), HaHeight(Get(s.mem, rb), ro), 0)
  {
  }

  lemma CrawledFacts(s1: Snap, s2: Snap, j: Job, rb: nat, ro: nat, commit: Commit, r: int, cnew: nat)
    requires Crawled(s1, s2, j, rb, ro, commit, r, cnew)
    ensures Get(s2.mem, rb) == Get(s1.mem, rb) && rb in s2.pos && (rb in s2.freed ==> rb in s1.freed)
    ensures r == 0 && commit == CopyOnly && j.lo < |j.was| ==> cnew != RootAddr(Get(s1.mem, rb), ro)
  {
  }

  lemma NewInUse(fs: Bpram, s1: Snap, j: Job, a: nat, h: nat, commit: Commit, r: int, cnew: nat)
    requires fs.Valid() && After(s1, Now(fs), j, a, h, 0, commit, r, cnew)
    ensures r == 0 || r == ENOSPC
    ensures r == 0 ==> cnew < 0x2000_0000_0000_0000
  {
    if r == 0 {
      RootInUse(Now(fs), fs.freed, j.t, cnew, h, |j.New()|);
      assert cnew in fs.mem;
    }
  }

  lemma ReadySame(s: Snap, j: Job, j': Job, rb: nat, ro: nat)
    requires Ready(s, j, rb, ro) && Delivered(j, j')
    ensures Ready(s, j', rb, ro) && j'.t == j.t && j'.was == j.was && j'.lo == j.lo && j'.Hi() == j.Hi() && j'.Ok()
  {
    BeforeSame(s, j, j', RootAddr(Get(s.mem, rb), ro), HaHeight(Get(s.mem, rb), ro), 0);
    hide Before;
  }

  /** The crawl below the root. The write done is j'. */
  method CrawlBelow(fs: Bpram, rb: nat, ro: nat, off: nat, buf: seq<Byte>, commit: Commit, ghost j: Job) returns (r: int, cnew: nat, ghost j': Job)
    requires fs.Valid() && Ready(Now(fs), j, rb, ro) && ro < 511 && buf == j.buf && off == j.lo && j.Ok()
    requires commit == TreeCommit(off, j.Hi(), |j.was|)
    modifies fs
    ensures fs.Valid() && Delivered(j, j') && Crawled(old(Now(fs)), Now(fs), j', rb, ro, commit, r, cnew)
    ensures r == 0 || r == ENOSPC
    ensures r == 0 ==> cnew < 0x2000_0000_0000_0000
    ensures FileSure(old(fs.mem), j, rb, ro) ==> r == 0 && cnew == RootAddr(Get(old(fs.mem), rb), ro) && j' == j.InPlace()
    ensures Touches(AskOf(j), HaHeight(Get(old(fs.mem), rb), ro), 0)
    ensures Accounts(old(Now(fs)), Now(fs), j.t, RootAddr(Get(old(fs.mem), rb), ro), HaHeight(Get(old(fs.mem), rb), ro), 0, AskOf(j), commit, r, cnew)
  {
    ghost var s1 := Now(fs);
    ReadyFacts(s1, j, rb, ro);
    assert commit == Atomic ==> j.Hi() <= |j.was| || |j.was| <= j.lo;
    SureHeight(s1, j, rb, ro);
    hide Ready, Before, After, Crawled, Share, HaHeight, RootAddr, Nbytes, FileSure, Sure, Accounts, Touches;
    var blk := Get(fs.mem, rb);
    var height, nbytes, addr := HaHeight(blk, ro), Nbytes(blk, ro), RootAddr(blk, ro);
    var maxNblocks := TreeMaxNblocks(height);
    var valid := Min(nbytes, maxNblocks * 4096);
    RootShare(j, height);
    if height == 0 {
      r, cnew, j' := CrawlLeaf(fs, addr, 0, off, |buf|, valid, off, commit, buf, j);
    } else {
      r, cnew, j' := CrawlIndir(fs, addr, off / 4096, off, |buf|, valid, off, commit, height, maxNblocks, buf, j, 0);
    }
    ReadySame(s1, j, j', rb, ro);
    NewInUse(fs, s1, j', addr, height, commit, r, cnew);
    CrawlFile(s1, Now(fs), j', rb, ro, commit, r, cnew);
  }

  lemma SureHeight(s: Snap, j: Job, rb: nat, ro: nat)
    requires Ready(s, j, rb, ro) && ro < 511
    ensures FileSure(s.mem, j, rb, ro) ==>
      && TreeCommit(j.lo, j.Hi(), |j.was|) == Atomic
      && Sure(s.mem, j, RootAddr(Get(s.mem, rb), ro), HaHeight(Get(s.mem, rb), ro), 0, Atomic)
  {
    SizeIs(s, rb, ro, j.was);
  }

  /** crawl_tree with COMMIT_ATOMIC and callback_write: the file rooted at words ro, ro + 1 of block rb. The bytes written are got. */
  method CrawlTree(fs: Bpram, rb: nat, ro: nat, off: nat, buf: seq<Byte>, ghost t: nat, ghost was: seq<Byte>) returns (r: int, newrb: nat, ghost got: seq<Byte>)
    requires fs.Valid() && FileIs(Now(fs), fs.freed, t, rb, ro, was) && rb !in fs.freed && ro < 511
    requires |buf| > 0 && off + |buf| <= MAX_SIZE
    modifies fs
    ensures fs.Valid() && Delivered(Job(t, was, off, buf), Job(t, was, off, got))
    ensures Written(old(Now(fs)), Now(fs), t, rb, ro, was, FlatWrite(was, off, got), r, newrb)
    ensures FileSure(old(fs.mem), Job(t, was, off, buf), rb, ro) ==> r == 0 && Job(t, was, off, got) == Job(t, was, off, buf).InPlace()
    ensures TreePaid(old(Now(fs)), Now(fs), t, rb, newrb, ro, off, off + |buf|, r)
  {
    hide *;
    ghost var j := Job(t, was, off, buf);
    ghost var s0 := Now(fs);
    var end := off + |buf|;
    JobFacts(t, was, off, buf);
    FileFacts(s0, t, rb, ro, was);
    r := Prepare(fs, rb, ro, off, end, j);
    if r != 0 {
      PrepareFails(s0, Now(fs), j, rb, ro);
      UnpaidRaise(s0, Now(fs), t, rb, ro, off, end, |was|, r);
      NoSpace(r);
      return r, 0, buf;
    }
    ghost var s1 := Now(fs);
    r, newrb, got := WriteReady(fs, rb, ro, off, buf, end, j, s0);
    WrittenTrans(s0, s1, Now(fs), t, rb, ro, was, Job(t, was, off, got).New(), r, newrb);
  }

  lemma NoSpace(r: int)
    ensures ENOSPC != 0 && (r == ENOSPC ==> r != 0)
  {
  }

  lemma JobFacts(t: nat, was: seq<Byte>, off: nat, buf: seq<Byte>)
    ensures var j := Job(t, was, off, buf); Delivered(j, j) && j.Hi() == off + |buf| && (j.Ok() <==> |buf| > 0) && j.New() == FlatWrite(was, off, buf)
    ensures AskOf(Job(t, was, off, buf)) == Ask(off, off + |buf|, |was|)
    ensures forall got: seq<Byte> {:trigger Job(t, was, off, got).New()} :: Job(t, was, off, got).New() == FlatWrite(was, off, got)
  {
  }

  /** The crawl and its commit, once the tree is ready for it. */
  method WriteReady(fs: Bpram, rb: nat, ro: nat, off: nat, buf: seq<Byte>, end: nat, ghost j: Job, ghost s0: Snap) returns (r: int, newrb: nat, ghost got: seq<Byte>)
    requires fs.Valid() && Ready(Now(fs), j, rb, ro) && ro < 511 && buf == j.buf && off == j.lo && end == j.Hi() <= MAX_SIZE && j.Ok() && rb !in fs.freed
    requires Prepared(s0, Now(fs), rb, ro, end, |j.was|, 0) && FileProper(s0, s0.freed, j.t, rb, ro) && fs.freed == s0.freed && Nbytes(Get(s0.mem, rb), ro) == |j.was|
    modifies fs
    ensures fs.Valid() && Delivered(j, j.(buf := got)) && Written(old(Now(fs)), Now(fs), j.t, rb, ro, j.was, j.(buf := got).New(), r, newrb)
    ensures FileSure(old(fs.mem), j, rb, ro) ==> r == 0 && j.(buf := got) == j.InPlace()
    ensures TreePaid(s0, Now(fs), j.t, rb, newrb, ro, off, end, r)
  {
    hide *;
    ghost var s1 := Now(fs);
    ReadyFacts(s1, j, rb, ro);
    var nbytes := Nbytes(Get(fs.mem, rb), ro);
    var commit := TreeCommit(off, end, nbytes);
    var cnew;
    ghost var j';
    r, cnew, j' := CrawlBelow(fs, rb, ro, off, buf, commit, j);
    ReadySame(s1, j, j', rb, ro);
    got := j'.buf;
    DeliveredJob(j, j');
    ghost var s2 := Now(fs);
    CrawledFacts(s1, s2, j', rb, ro, commit, r, cnew);
    AskIs(j, off, end, |j.was|);
    if r != 0 {
      WrittenFails(s1, Now(fs), j', rb, ro, commit, r, cnew);
      UnpaidCrawl(s0, s1, s2, j.t, rb, ro, off, end, |j.was|, r, cnew, commit);
      return r, 0, got;
    }
    SureFacts(s1.mem, j, rb, ro);
    r, newrb := CommitRoot(fs, rb, ro, off, end, nbytes, cnew, commit, j', s1);
    CrawledTree(s1, s2, j', rb, ro, commit, cnew);
    PaidCrawl(s0, s1, s2, Now(fs), j.t, rb, newrb, ro, off, end, |j.was|, r, cnew, commit, |j'.New()|);
  }

  lemma DeliveredJob(j: Job, j': Job)
    requires Delivered(j, j')
    ensures j' == j.(buf := j'.buf)
  {
  }

  lemma SureFacts(m: Mem, j: Job, rb: nat, ro: nat)
    requires ro < 511
    ensures FileSure(m, j, rb, ro) ==> j.Hi() <= |j.was|
  {
  }

  lemma FileFacts(s: Snap, t: nat, rb: nat, ro: nat, f: seq<Byte>)
    requires FileIs(s, s.freed, t, rb, ro, f)
    ensures ro < 511 && FileProper(s, s.freed, t, rb, ro) && Nbytes(Get(s.mem, rb), ro) == |f| && rb in s.pos && s.pos[rb].tree != t
  {
  }

  lemma AskIs(j: Job, lo: nat, hi: nat, n: nat)
    requires lo == j.lo && hi == j.Hi() && n == |j.was| && j.Ok()
    ensures AskOf(j) == Ask(lo, hi, n) && lo < hi
  {
  }

  lemma CrawledTree(s1: Snap, s2: Snap, j: Job, rb: nat, ro: nat, commit: Commit, cnew: nat)
    requires ro < 511 && Crawled(s1, s2, j, rb, ro, commit, 0, cnew)
    ensures Proper(s2.mem, s2.pos, s2.freed, j.t, cnew, HaHeight(Get(s1.mem, rb), ro), 0, |j.New()|)
    ensures |j.was| <= |j.New()| && j.Hi() <= |j.New()| && rb in s2.pos && s2.pos[rb].tree != j.t
  {
    hide Proper, FileShows, FileProper, FileCrashes;
  }

  /** The root after the crawl: nothing to do, a commit in place, or a commit on a copy. */
  method CommitRoot(fs: Bpram, rb: nat, ro: nat, off: nat, end: nat, nbytes: nat, cnew: nat, commit: Commit, ghost j: Job, ghost s1: Snap) returns (r: int, newrb: nat)
    requires fs.Valid() && Ready(s1, j, rb, ro) && Crawled(s1, Now(fs), j, rb, ro, commit, 0, cnew) && ro < 511 && rb !in s1.freed
    requires off == j.lo && end == j.Hi() <= MAX_SIZE && nbytes == |j.was| && commit == TreeCommit(off, end, nbytes) && cnew < 0x2000_0000_0000_0000
    modifies fs
    ensures fs.Valid() && (r == 0 || r == ENOSPC) && Written(s1, Now(fs), j.t, rb, ro, j.was, j.New(), r, newrb)
    ensures r == 0 <==> !(cnew != RootAddr(Get(s1.mem, rb), ro) && off < nbytes < end) || FreeBlocks(old(fs.mem), old(fs.pos)) > 0
    ensures r != 0 ==> Now(fs) == old(Now(fs))
    ensures r == 0 ==> Placed(old(Now(fs)), Now(fs), rb, newrb, ro, cnew)
    ensures r == 0 ==> (newrb != rb <==> cnew != RootAddr(Get(s1.mem, rb), ro) && off < nbytes < end)
  {
    ReadyFacts(s1, j, rb, ro);
    CrawledFacts(s1, Now(fs), j, rb, ro, commit, 0, cnew);
    ghost var s2 := Now(fs);
    assert rb in fs.used && rb in fs.mem;
    CommitFacts(s1, s2, j, rb, ro, commit, cnew);
    hide Written, Ready, Crawled, FlatWrite, HaHeight, RootAddr, Nbytes, FreeBlocks, Placed;
    var changeAddr := RootAddr(Get(fs.mem, rb), ro) != cnew;
    var changeSize := end > nbytes;
    r := 0;
    newrb := rb;
    if !changeAddr && !changeSize {
      WrittenInside(s1, Now(fs), j, rb, ro, commit);
    } else if changeAddr && off < nbytes && changeSize {
      NewSize(j);
      r, newrb := CommitOnCopy(fs, rb, ro, cnew, end, j, s1);
      if r != 0 {
        WrittenFails(s1, s2, j, rb, ro, commit, 0, cnew);
        newrb := 0;
      }
    } else {
      CommitInPlace(fs, rb, ro, cnew, changeAddr, changeSize, end, j, s1);
    }
  }

  lemma CommitFacts(s1: Snap, s2: Snap, j: Job, rb: nat, ro: nat, commit: Commit, cnew: nat)
    requires ro < 511 && Ready(s1, j, rb, ro) && Crawled(s1, s2, j, rb, ro, commit, 0, cnew)
    ensures cnew == RootAddr(Get(s1.mem, rb), ro) && j.Hi() <= |j.was| ==> Placed(s2, s2, rb, rb, ro, cnew)
  {
    SizeIs(s1, rb, ro, j.was);
    hide Proper, Shows, FileShows, FileProper, TreeFrame, FileCrashes, Before;
  }

  lemma NewSize(j: Job)
    requires j.Hi() > |j.was|
    ensures |j.New()| == j.Hi()
  {
  }

  lemma PrepareFails(s0: Snap, s1: Snap, j: Job, rb: nat, ro: nat)
    requires ro < 511 && TreeFrame(s0, s1, j.t, rb, ro) && FileCrashes(s0, s1, j.t, rb, ro, j.was, j.was, false)
    requires FileIs(s1, s1.freed, j.t, rb, ro, j.was) && s1.freed == s0.freed
    ensures Written(s0, s1, j.t, rb, ro, j.was, j.New(), ENOSPC, 0)
  {
  }
}
