/** How many blocks a write needs, block by block of the tree it crawls, and which pointers it replaces on the way. */
module SpaceSpec {
  import opened Words
  import opened Geometry
  import opened Tree
  import opened Bpram
  import opened WriteSpec
  import opened CrawlArithmetic

  /** A write of bytes [lo, hi) to a file of n bytes. */
  datatype Ask = Ask(lo: nat, hi: nat, n: nat)

  function AskOf(j: Job): Ask {
    Ask(j.lo, j.Hi(), |j.was|)
  }

  /** Part of the write lies in the subtree. */
  predicate Touches(q: Ask, h: nat, base: nat) {
    q.lo < q.hi && base < q.hi && q.lo < base + Cap(h)
  }

  function OffIn(q: Ask, base: nat): nat {
    Max(q.lo, base) - base
  }

  function SizeIn(q: Ask, h: nat, base: nat): nat
    requires Touches(q, h, base)
  {
    Min(q.hi, base + Cap(h)) - Max(q.lo, base)
  }

  /** The entries the write touches. */
  function First(q: Ask, h: nat, base: nat): nat
    requires h > 0 && Touches(q, h, base)
  {
    FirstNo(OffIn(q, base), Cap(h - 1))
  }

  function Last(q: Ask, h: nat, base: nat): nat
    requires h > 0 && Touches(q, h, base)
  {
    LastNo(OffIn(q, base), SizeIn(q, h, base), Cap(h - 1))
  }

  lemma EntryOf(q: Ask, h: nat, base: nat, off: nat, size: nat, k: nat)
    requires h > 0 && Touches(q, h, base) && off == OffIn(q, base) && size == SizeIn(q, h, base) && size > 0
    requires FirstNo(off, Cap(h - 1)) <= k <= LastNo(off, size, Cap(h - 1))
    ensures FirstNo(off, Cap(h - 1)) <= LastNo(off, size, Cap(h - 1)) < 512 && Touches(q, h - 1, ChildBase(h, base, k))
  {
    assert FirstNo(off, Cap(h - 1)) == off / Cap(h - 1) && LastNo(off, size, Cap(h - 1)) == (off + size - 1) / Cap(h - 1);
    hide FirstNo, LastNo, Cap, ChildBase;
    SizeShare(q.lo, q.hi, h, base, off, size, k);
  }

  lemma FirstThere(off: nat, size: nat, c: nat)
    requires c > 0 && size > 0
    ensures FirstNo(off, c) <= LastNo(off, size, c)
  {
    DivBounds(off, c);
    DivBounds(off + size - 1, c);
    var x, y := off / c, (off + size - 1) / c;
    if y < x {
      MulMono(y + 1, x, c);
    }
  }

  lemma EntriesOf(q: Ask, h: nat, base: nat)
    requires h > 0 && Touches(q, h, base)
    ensures First(q, h, base) <= Last(q, h, base) < 512
    ensures forall k: nat {:trigger ChildBase(h, base, k)} | First(q, h, base) <= k <= Last(q, h, base) :: Touches(q, h - 1, ChildBase(h, base, k))
  {
    var off, size := OffIn(q, base), SizeIn(q, h, base);
    assert size > 0;
    hide FirstNo, LastNo, Cap, ChildBase, OffIn, SizeIn, Touches;
    FirstThere(off, size, Cap(h - 1));
    EntryOf(q, h, base, off, size, FirstNo(off, Cap(h - 1)));
    forall k: nat {:trigger ChildBase(h, base, k)} | First(q, h, base) <= k <= Last(q, h, base)
      ensures Touches(q, h - 1, ChildBase(h, base, k))
    {
      EntryOf(q, h, base, off, size, k);
    }
  }

  /** The commit mode that crawl_indir passes to the entries it visits. */
  function ChildCommit(commit: Commit, first: nat, last: nat, onlyInvalid: bool): Commit {
    if commit == Atomic && !(first == last || onlyInvalid) then CopyOnly else commit
  }

  function Below(q: Ask, h: nat, base: nat, commit: Commit): Commit
    requires h > 0 && Touches(q, h, base)
  {
    ChildCommit(commit, First(q, h, base), Last(q, h, base), OffIn(q, base) >= Within(q.n, base, Cap(h)))
  }

  /** The block found below entry k: none below an entry without valid bytes, or of a missing table. */
  function Child(m: Mem, a: nat, h: nat, base: nat, q: Ask, k: nat): nat
    requires h > 0 && k < 512
  {
    if a != 0 && ChildBase(h, base, k) < q.n then Addr(Get(m, a), k) else 0
  }

  /** What the crawl of a subtree takes: the blocks it allocates, and whether its root becomes another block. */
  datatype Bill = Bill(cost: nat, moved: bool)

  function LeafBill(a: nat, base: nat, q: Ask, commit: Commit): Bill
    requires Touches(q, 0, base)
  {
    if a != 0 && commit == Atomic && (CanAtomicWrite(OffIn(q, base), SizeIn(q, 0, base)) || OffIn(q, base) >= Within(q.n, base, 4096))
    then Bill(0, false) else Bill(1, true)
  }

  /** One more entry: its own bill, and a copy of the table if a pointer must change that may not be changed in place. */
  function Add(p: Bill, b: Bill, copies: bool): Bill {
    if copies && b.moved && !p.moved then Bill(p.cost + b.cost + 1, true) else Bill(p.cost + b.cost, p.moved)
  }

  /** A changed pointer in entry k asks for a copy of the table. */
  predicate Copies(q: Ask, h: nat, base: nat, commit: Commit, k: nat)
    requires h > 0 && Touches(q, h, base)
  {
    ChildBase(h, base, k) < q.n && !(commit == Atomic && First(q, h, base) == Last(q, h, base))
  }

  function Need(m: Mem, a: nat, h: nat, base: nat, q: Ask, commit: Commit): Bill
    requires Touches(q, h, base)
    decreases h, 1, 0
  {
    if h == 0 then LeafBill(a, base, q, commit)
    else
      EntriesOf(q, h, base);
      NeedTo(m, a, h, base, q, commit, Last(q, h, base) + 1)
  }

  /** The same for the entries before no. */
  function NeedTo(m: Mem, a: nat, h: nat, base: nat, q: Ask, commit: Commit, no: nat): Bill
    requires h > 0 && Touches(q, h, base) && First(q, h, base) <= no <= Last(q, h, base) + 1
    decreases h, 0, no
  {
    if no == First(q, h, base) then Bill(if a == 0 then 1 else 0, a == 0)
    else
      EntriesOf(q, h, base);
      Add(NeedTo(m, a, h, base, q, commit, no - 1),
          Need(m, Child(m, a, h, base, q, no - 1), h - 1, ChildBase(h, base, no - 1), q, Below(q, h, base, commit)),
          Copies(q, h, base, commit, no - 1))
  }

  /** With that many free blocks the crawl replaces, in place, a pointer that a reader of the old file follows. */
  predicate Plugs(m: Mem, a: nat, h: nat, base: nat, q: Ask, commit: Commit, free: nat)
    requires Touches(q, h, base)
    decreases h, 1
  {
    PlugsHere(m, a, h, base, q, commit, free) || PlugsBelow(m, a, h, base, q, commit, free)
  }

  /** In the table itself, whose only entry in the range is visible. */
  predicate PlugsHere(m: Mem, a: nat, h: nat, base: nat, q: Ask, commit: Commit, free: nat)
    requires Touches(q, h, base)
  {
    h > 0 && a != 0 && commit == Atomic && First(q, h, base) == Last(q, h, base) &&
    var k := First(q, h, base);
    EntriesOf(q, h, base);
    && ChildBase(h, base, k) < q.n
    && var need := Need(m, Addr(Get(m, a), k), h - 1, ChildBase(h, base, k), q, Atomic);
    && need.moved && need.cost <= free
  }

  /** In a table below its first entry in the range. */
  predicate PlugsBelow(m: Mem, a: nat, h: nat, base: nat, q: Ask, commit: Commit, free: nat)
    requires Touches(q, h, base)
    decreases h, 0
  {
    h > 0 && a != 0 && commit == Atomic && Below(q, h, base, commit) == Atomic &&
    var k := First(q, h, base);
    EntriesOf(q, h, base);
    ChildBase(h, base, k) < q.n && Plugs(m, Addr(Get(m, a), k), h - 1, ChildBase(h, base, k), q, Atomic, free)
  }

  ghost function Room(s: Snap): nat {
    FreeBlocks(s.mem, s.pos)
  }

  /** The crawl of a subtree from s0 to s1 took what it needs, and failed exactly when there was less. */
  ghost predicate Paid(s0: Snap, s1: Snap, a: nat, h: nat, base: nat, q: Ask, commit: Commit, r: int, newno: nat)
    requires Touches(q, h, base)
  {
    var need := Need(s0.mem, a, h, base, q, commit);
    && (r == 0 <==> need.cost <= Room(s0))
    && (r == 0 ==> Room(s1) == Room(s0) - need.cost && (newno != a <==> need.moved))
  }

  /** As seen with the blocks in use before, the old tree is still there exactly if no visible pointer was replaced. */
  ghost predicate Undoable(s0: Snap, s1: Snap, t: nat, a: nat, h: nat, base: nat, n: nat, plugged: bool) {
    if plugged then !Proper(s1.mem, s0.pos, s0.freed, t, a, h, base, n) else SameShape(s0.mem, s1.mem, a, h, base, n)
  }

  /** No leaf that was there is missing, and none in the range written. */
  ghost predicate Fills(m: Mem, m': Mem, a: nat, a': nat, h: nat, base: nat, q: Ask) {
    forall x: nat {:trigger LeafOf(m', a', h, base, x)} |
      base <= x < base + Cap(h) && (q.lo <= x < q.hi || (x < q.n && LeafOf(m, a, h, base, x) != 0)) :: LeafOf(m', a', h, base, x) != 0
  }

  /** All three. */
  ghost predicate Accounts(s0: Snap, s1: Snap, t: nat, a: nat, h: nat, base: nat, q: Ask, commit: Commit, r: int, newno: nat)
    requires Touches(q, h, base)
  {
    && Paid(s0, s1, a, h, base, q, commit, r, newno)
    && Undoable(s0, s1, t, a, h, base, q.n, Plugs(s0.mem, a, h, base, q, commit, Room(s0)))
    && (r == 0 ==> Fills(s0.mem, s1.mem, a, newno, h, base, q))
  }

  /** What a crawl needs depends only on the pointers a reader of the old file follows. */
  lemma {:induction false} NeedShape(m: Mem, m': Mem, a: nat, h: nat, base: nat, q: Ask, commit: Commit)
    requires Touches(q, h, base) && SameShape(m, m', a, h, base, q.n)
    ensures Need(m', a, h, base, q, commit) == Need(m, a, h, base, q, commit)
    decreases h, 1, 0
  {
    if h > 0 {
      EntriesOf(q, h, base);
      NeedToShape(m, m', a, h, base, q, commit, Last(q, h, base) + 1);
    }
  }

  lemma {:induction false} NeedToShape(m: Mem, m': Mem, a: nat, h: nat, base: nat, q: Ask, commit: Commit, no: nat)
    requires h > 0 && Touches(q, h, base) && First(q, h, base) <= no <= Last(q, h, base) + 1 && SameShape(m, m', a, h, base, q.n)
    ensures NeedTo(m', a, h, base, q, commit, no) == NeedTo(m, a, h, base, q, commit, no)
    decreases h, 0, no
  {
    if no > First(q, h, base) {
      EntriesOf(q, h, base);
      NeedToShape(m, m', a, h, base, q, commit, no - 1);
      var k := no - 1;
      ChildShape(m, m', a, h, base, q, k);
      NeedShape(m, m', Child(m, a, h, base, q, k), h - 1, ChildBase(h, base, k), q, Below(q, h, base, commit));
    }
  }

  lemma ChildShape(m: Mem, m': Mem, a: nat, h: nat, base: nat, q: Ask, k: nat)
    requires h > 0 && k < 512 && SameShape(m, m', a, h, base, q.n)
    ensures Child(m', a, h, base, q, k) == Child(m, a, h, base, q, k)
    ensures SameShape(m, m', Child(m, a, h, base, q, k), h - 1, ChildBase(h, base, k), q.n)
  {
  }

  lemma {:induction false} PlugsShape(m: Mem, m': Mem, a: nat, h: nat, base: nat, q: Ask, commit: Commit, free: nat)
    requires Touches(q, h, base) && SameShape(m, m', a, h, base, q.n)
    ensures Plugs(m', a, h, base, q, commit, free) == Plugs(m, a, h, base, q, commit, free)
    decreases h
  {
    if h > 0 && a != 0 && commit == Atomic && ChildBase(h, base, First(q, h, base)) < q.n {
      EntriesOf(q, h, base);
      var k := First(q, h, base);
      NeedShape(m, m', Addr(Get(m, a), k), h - 1, ChildBase(h, base, k), q, Atomic);
      PlugsShape(m, m', Addr(Get(m, a), k), h - 1, ChildBase(h, base, k), q, Atomic, free);
    }
  }

  lemma {:induction false} NeedToMono(m: Mem, a: nat, h: nat, base: nat, q: Ask, commit: Commit, no: nat, no': nat)
    requires h > 0 && Touches(q, h, base) && First(q, h, base) <= no <= no' <= Last(q, h, base) + 1
    ensures NeedTo(m, a, h, base, q, commit, no).cost <= NeedTo(m, a, h, base, q, commit, no').cost
    ensures NeedTo(m, a, h, base, q, commit, no).moved ==> NeedTo(m, a, h, base, q, commit, no').moved
    decreases no'
  {
    if no < no' {
      EntriesOf(q, h, base);
      NeedToMono(m, a, h, base, q, commit, no, no' - 1);
    }
  }

  /** A missing subtree is never free of charge, and always gets a root. */
  lemma {:induction false} HoleNeeds(m: Mem, h: nat, base: nat, q: Ask, commit: Commit)
    requires Touches(q, h, base)
    ensures Need(m, 0, h, base, q, commit).cost > 0 && Need(m, 0, h, base, q, commit).moved
  {
    if h > 0 {
      EntriesOf(q, h, base);
      NeedToMono(m, 0, h, base, q, commit, First(q, h, base), Last(q, h, base) + 1);
    }
  }

  /** Inside the file the pointer replaced in place is the last step. */
  lemma {:induction false} InsideDone(m: Mem, a: nat, h: nat, base: nat, q: Ask, commit: Commit, free: nat)
    requires Touches(q, h, base) && q.hi <= q.n && Plugs(m, a, h, base, q, commit, free)
    ensures Need(m, a, h, base, q, commit).cost <= free
    decreases h
  {
    var k := First(q, h, base);
    EntriesOf(q, h, base);
    assert OffIn(q, base) < Within(q.n, base, Cap(h));
    hide First, Last, Touches, Within, OffIn;
    if PlugsBelow(m, a, h, base, q, commit, free) {
      InsideDone(m, Addr(Get(m, a), k), h - 1, ChildBase(h, base, k), q, Atomic, free);
    }
    assert Need(m, a, h, base, q, commit) == Add(NeedTo(m, a, h, base, q, commit, k), Need(m, Addr(Get(m, a), k), h - 1, ChildBase(h, base, k), q, Atomic), false);
  }

  /** The last block of the file, if it lies in the subtree, exists. */
  predicate LastThere(m: Mem, a: nat, h: nat, base: nat, n: nat) {
    base < n <= base + Cap(h) ==> LeafOf(m, a, h, base, n - 1) != 0
  }

  /** Of the entries that an append touches, at most the first is visible, and then it has the last block below it. */
  lemma AppendEntry(m: Mem, a: nat, h: nat, base: nat, q: Ask, k: nat)
    requires h > 0 && a != 0 && Touches(q, h, base) && q.n <= q.lo && LastThere(m, a, h, base, q.n)
    requires First(q, h, base) <= k <= Last(q, h, base) && ChildBase(h, base, k) < q.n
    ensures k == First(q, h, base) && k < 512 && LastThere(m, Addr(Get(m, a), k), h - 1, ChildBase(h, base, k), q.n)
    ensures ChildBase(h, base, k) <= q.n - 1 < ChildBase(h, base, k) + Cap(h - 1)
  {
    EntriesOf(q, h, base);
    var c := ChildBase(h, base, k);
    assert Touches(q, h - 1, c) && q.lo < c + Cap(h - 1);
    ChildBaseOrder(h, base);
    assert Touches(q, h - 1, ChildBase(h, base, First(q, h, base)));
    hide First, Last;
    ChildBaseMul(h, base, k);
    SlotUnique(h, base, q.n - 1, k);
  }

  /** An append to a file whose last block exists changes no visible pointer. */
  lemma {:induction false} AppendStill(m: Mem, a: nat, h: nat, base: nat, q: Ask)
    requires Touches(q, h, base) && q.n <= q.lo && base < q.n <= base + Cap(h) && LastThere(m, a, h, base, q.n)
    ensures !Need(m, a, h, base, q, Atomic).moved
    decreases h, 513
  {
    if h > 0 {
      EntriesOf(q, h, base);
      AppendStillTo(m, a, h, base, q, Last(q, h, base) + 1);
    }
  }

  lemma {:induction false} AppendStillTo(m: Mem, a: nat, h: nat, base: nat, q: Ask, no: nat)
    requires h > 0 && Touches(q, h, base) && q.n <= q.lo && base < q.n <= base + Cap(h) && LastThere(m, a, h, base, q.n)
    requires First(q, h, base) <= no <= Last(q, h, base) + 1 <= 512
    ensures a != 0 && !NeedTo(m, a, h, base, q, Atomic, no).moved
    decreases h, no
  {
    if no > First(q, h, base) {
      AppendStillTo(m, a, h, base, q, no - 1);
      var k := no - 1;
      if ChildBase(h, base, k) < q.n {
        EntriesOf(q, h, base);
        AppendEntry(m, a, h, base, q, k);
        assert Below(q, h, base, Atomic) == Atomic;
        AppendStill(m, Addr(Get(m, a), k), h - 1, ChildBase(h, base, k), q);
      }
    }
  }

  /** The pointer to the subtree must change for the append: there is no block, or the append crosses entries of its table and the
      pointer in the first of them must change. */
  predicate Gap(m: Mem, a: nat, h: nat, base: nat, q: Ask)
    requires Touches(q, h, base)
    decreases h
  {
    a == 0 ||
    (h > 0 && First(q, h, base) < Last(q, h, base) && ChildBase(h, base, First(q, h, base)) < q.n &&
     (EntriesOf(q, h, base); Gap(m, Addr(Get(m, a), First(q, h, base)), h - 1, ChildBase(h, base, First(q, h, base)), q)))
  }

  /** When an append replaces the pointer to a subtree that is visible. So a table that exists is copied in the atomic mode exactly
      when the append crosses its entries and the first of them leads to a missing block in the same way. */
  lemma {:induction false} AppendMoves(m: Mem, a: nat, h: nat, base: nat, q: Ask)
    requires Touches(q, h, base) && q.n <= q.lo && base < q.n
    ensures Need(m, a, h, base, q, Atomic).moved <==> Gap(m, a, h, base, q)
    decreases h
  {
    if h > 0 {
      EntriesOf(q, h, base);
      var first, last := First(q, h, base), Last(q, h, base);
      if a == 0 {
        NeedToMono(m, a, h, base, q, Atomic, first, last + 1);
      } else {
        assert Below(q, h, base, Atomic) == Atomic;
        if ChildBase(h, base, first) < q.n {
          AppendMoves(m, Addr(Get(m, a), first), h - 1, ChildBase(h, base, first), q);
        }
        MovesFirst(m, a, h, base, q, last + 1);
      }
    }
  }

  /** Only the first entry of an append can be visible. */
  lemma {:induction false} MovesFirst(m: Mem, a: nat, h: nat, base: nat, q: Ask, no: nat)
    requires h > 0 && a != 0 && Touches(q, h, base) && q.n <= q.lo && First(q, h, base) < no <= Last(q, h, base) + 1 && Last(q, h, base) < 512
    requires Below(q, h, base, Atomic) == Atomic && Touches(q, h - 1, ChildBase(h, base, First(q, h, base)))
    ensures var k := First(q, h, base);
      NeedTo(m, a, h, base, q, Atomic, no).moved <==>
      k < Last(q, h, base) && ChildBase(h, base, k) < q.n && Need(m, Addr(Get(m, a), k), h - 1, ChildBase(h, base, k), q, Atomic).moved
    decreases no
  {
    var k := First(q, h, base);
    if no == k + 1 {
      hide First, Last, Touches, Below;
    } else {
      MovesFirst(m, a, h, base, q, no - 1);
      EntriesOf(q, h, base);
      LaterUnseen(q, h, base, no - 1);
      hide First, Last, Touches, Below;
    }
  }

  lemma LaterUnseen(q: Ask, h: nat, base: nat, k: nat)
    requires h > 0 && Touches(q, h, base) && q.n <= q.lo && First(q, h, base) < k <= Last(q, h, base)
    ensures ChildBase(h, base, k) >= q.n
  {
    EntriesOf(q, h, base);
    var f := First(q, h, base);
    assert Touches(q, h - 1, ChildBase(h, base, f));
    ChildBaseOrder(h, base);
    hide First, Last;
    assert q.lo < ChildBase(h, base, f) + Cap(h - 1) <= ChildBase(h, base, k);
  }

  lemma {:induction false} AppendKeeps(m: Mem, a: nat, h: nat, base: nat, q: Ask, commit: Commit, free: nat)
    requires Touches(q, h, base) && q.n <= q.lo && LastThere(m, a, h, base, q.n)
    ensures !Plugs(m, a, h, base, q, commit, free)
    decreases h
  {
    if h > 0 && a != 0 && commit == Atomic {
      EntriesOf(q, h, base);
      var k := First(q, h, base);
      if ChildBase(h, base, k) < q.n {
        AppendEntry(m, a, h, base, q, k);
        AppendStill(m, Addr(Get(m, a), k), h - 1, ChildBase(h, base, k), q);
        AppendKeeps(m, Addr(Get(m, a), k), h - 1, ChildBase(h, base, k), q, Atomic, free);
      }
    }
  }
}

/** Lifting the account of a child crawl to the indirect block above it. */
module SpaceSlots {
  import opened Words
  import opened Geometry
  import opened Tree
  import opened Bpram
  import opened WriteSpec
  import opened WriteCrawl
  import opened CrawlArithmetic
  import opened CrawlSlots
  import opened SpaceSpec

  /** The loop may stand before entry no. */
  predicate Stands(q: Ask, h: nat, base: nat, no: nat) {
    h > 0 && Touches(q, h, base) && First(q, h, base) <= no <= Last(q, h, base) + 1
  }

  /** Blocks below entry no and the later ones are untouched. */
  ghost predicate Later(s0: Snap, s: Snap, t: nat, h: nat, base: nat, no: nat)
    requires h > 0
  {
    forall b {:trigger Get(s.mem, b)} | b in s0.pos && In(s0.pos[b], t, h, base) && s0.pos[b].level < h && ChildBase(h, base, no) <= s0.pos[b].start ::
      Get(s.mem, b) == Get(s0.mem, b)
  }

  /** The entries before no are paid for. */
  ghost predicate Billed(s0: Snap, s: Snap, prev: nat, blockno: nat, h: nat, base: nat, q: Ask, commit: Commit, no: nat)
    requires Stands(q, h, base, no)
  {
    var bill := NeedTo(s0.mem, prev, h, base, q, commit, no);
    bill.cost <= Room(s0) && Room(s) == Room(s0) - bill.cost && (blockno != prev <==> bill.moved)
  }

  /** Below an entry: no leaf that was there is missing, and none in the range written once the entry is done. */
  ghost predicate FilledSlot(m: Mem, m': Mem, c: nat, c': nat, h: nat, base: nat, q: Ask, done: bool) {
    forall x: nat {:trigger LeafOf(m', c', h, base, x)} |
      base <= x < base + Cap(h) && ((done && q.lo <= x < q.hi) || (x < q.n && LeafOf(m, c, h, base, x) != 0)) :: LeafOf(m', c', h, base, x) != 0
  }

  function Entry(m: Mem, a: nat, k: nat): nat
    requires k < 512
  {
    if a == 0 then 0 else Addr(Get(m, a), k)
  }

  ghost predicate FilledTo(s0: Snap, s: Snap, prev: nat, tbl: Block, h: nat, base: nat, q: Ask, no: nat)
    requires Stands(q, h, base, no)
  {
    forall k: nat {:trigger ChildBase(h, base, k)} | k < 512 ::
      FilledSlot(s0.mem, s.mem, Entry(s0.mem, prev, k), Addr(tbl, k), h - 1, ChildBase(h, base, k), q, First(q, h, base) <= k < no)
  }

  ghost predicate Tally(s0: Snap, s: Snap, j: Job, prev: nat, blockno: nat, h: nat, base: nat, commit: Commit, no: nat) {
    var q := AskOf(j);
    && Stands(q, h, base, no)
    && Billed(s0, s, prev, blockno, h, base, q, commit, no)
    && Later(s0, s, j.t, h, base, no)
    && Undoable(s0, s, j.t, prev, h, base, q.n, no > First(q, h, base) && Plugs(s0.mem, prev, h, base, q, commit, Room(s0)))
    && FilledTo(s0, s, prev, Get(s.mem, blockno), h, base, q, no)
  }

  /** The same after entry no has been crawled and before the table points to its new subtree cnew. */
  ghost predicate Owed(s0: Snap, s: Snap, j: Job, prev: nat, blockno: nat, h: nat, base: nat, commit: Commit, no: nat, cprev: nat, cnew: nat) {
    var q := AskOf(j);
    && h > 0 && Touches(q, h, base) && First(q, h, base) <= no <= Last(q, h, base) < 512 && Touches(q, h - 1, ChildBase(h, base, no))
    && (var p, b := NeedTo(s0.mem, prev, h, base, q, commit, no), Need(s0.mem, Child(s0.mem, prev, h, base, q, no), h - 1, ChildBase(h, base, no), q, Below(q, h, base, commit));
        && p.cost + b.cost <= Room(s0) && Room(s) == Room(s0) - p.cost - b.cost && (blockno != prev <==> p.moved) && (cnew != cprev <==> b.moved))
    && Later(s0, s, j.t, h, base, no + 1)
    && Undoable(s0, s, j.t, prev, h, base, q.n,
         if no == First(q, h, base) then PlugsBelow(s0.mem, prev, h, base, q, commit, Room(s0)) else Plugs(s0.mem, prev, h, base, q, commit, Room(s0)))
    && FilledTo(s0, s, prev, Get(s.mem, blockno)[no := ToWord(cnew)], h, base, q, no + 1)
  }

  /** There was not enough. */
  ghost predicate Short(s0: Snap, s: Snap, j: Job, prev: nat, h: nat, base: nat, commit: Commit) {
    var q := AskOf(j);
    && Touches(q, h, base) && Need(s0.mem, prev, h, base, q, commit).cost > Room(s0)
    && Undoable(s0, s, j.t, prev, h, base, q.n, Plugs(s0.mem, prev, h, base, q, commit, Room(s0)))
  }

  lemma ShortAccounts(s0: Snap, s: Snap, j: Job, prev: nat, h: nat, base: nat, commit: Commit)
    requires Short(s0, s, j, prev, h, base, commit)
    ensures Touches(AskOf(j), h, base) && Accounts(s0, s, j.t, prev, h, base, AskOf(j), commit, ENOSPC, 0)
  {
  }

  /** Nothing has been taken at the start of the loop over an existing table. */
  lemma TallyStart(s: Snap, j: Job, prev: nat, h: nat, base: nat, commit: Commit)
    requires h > 0 && prev != 0 && Touches(AskOf(j), h, base)
    ensures First(AskOf(j), h, base) <= Last(AskOf(j), h, base) < 512
    ensures Tally(s, s, j, prev, prev, h, base, commit, First(AskOf(j), h, base))
  {
    EntriesOf(AskOf(j), h, base);
    ShapeRefl(s.mem, prev, h, base, |j.was|);
  }

  /** A missing table costs one block. */
  lemma TallyHole(s0: Snap, s: Snap, j: Job, h: nat, base: nat, commit: Commit, b: nat, l: Label)
    requires h > 0 && Touches(AskOf(j), h, base) && b != 0 && b in s0.mem && b !in s0.pos && s.pos == s0.pos[b := l]
    requires s.mem.Keys == s0.mem.Keys && OnlyBlock(s0.mem, s.mem, b)
    ensures First(AskOf(j), h, base) <= Last(AskOf(j), h, base) < 512
    ensures Tally(s0, s, j, 0, b, h, base, commit, First(AskOf(j), h, base))
  {
    EntriesOf(AskOf(j), h, base);
    OneTaken(s0.mem, s0.pos, b, l);
    SameFree(s0.mem, s.mem, s.pos);
    hide FreeBlocks, OnlyBlock;
    assert Later(s0, s, j.t, h, base, First(AskOf(j), h, base));
  }

  lemma HoleShort(s: Snap, j: Job, h: nat, base: nat, commit: Commit)
    requires h > 0 && Touches(AskOf(j), h, base) && FreeBlocks(s.mem, s.pos) == 0
    ensures Short(s, s, j, 0, h, base, commit)
  {
    HoleNeeds(s.mem, h, base, AskOf(j), commit);
  }

  /** The account at the end of the loop. */
  lemma TallyEnd(s0: Snap, s: Snap, j: Job, prev: nat, blockno: nat, h: nat, base: nat, commit: Commit)
    requires h > 0 && Touches(AskOf(j), h, base) && blockno != 0 && Tally(s0, s, j, prev, blockno, h, base, commit, Last(AskOf(j), h, base) + 1)
    ensures Accounts(s0, s, j.t, prev, h, base, AskOf(j), commit, 0, blockno)
  {
    var q := AskOf(j);
    hide First, Last, Touches, Billed, Later, Undoable, Plugs, FilledTo, Fills, Paid;
    EntriesOf(q, h, base);
    BilledAll(s0, s, prev, blockno, h, base, q, commit);
    FillsAll(s0, s, prev, blockno, h, base, q);
  }

  lemma BilledAll(s0: Snap, s: Snap, prev: nat, blockno: nat, h: nat, base: nat, q: Ask, commit: Commit)
    requires h > 0 && Touches(q, h, base) && First(q, h, base) <= Last(q, h, base) < 512
    requires Billed(s0, s, prev, blockno, h, base, q, commit, Last(q, h, base) + 1)
    ensures Paid(s0, s, prev, h, base, q, commit, 0, blockno)
  {
    hide First, Last, Touches, NeedTo, FreeBlocks;
  }

  lemma FillsAll(s0: Snap, s: Snap, prev: nat, blockno: nat, h: nat, base: nat, q: Ask)
    requires h > 0 && Touches(q, h, base) && blockno != 0 && First(q, h, base) <= Last(q, h, base) < 512
    requires FilledTo(s0, s, prev, Get(s.mem, blockno), h, base, q, Last(q, h, base) + 1)
    ensures Fills(s0.mem, s.mem, prev, blockno, h, base, q)
  {
    hide First, Last, Touches, FilledTo, LeafOf;
    forall x: nat {:trigger LeafOf(s.mem, blockno, h, base, x)} |
      base <= x < base + Cap(h) && (q.lo <= x < q.hi || (x < q.n && LeafOf(s0.mem, prev, h, base, x) != 0))
      ensures LeafOf(s.mem, blockno, h, base, x) != 0
    {
      FillsAt(s0, s, prev, blockno, h, base, q, x);
    }
  }

  lemma FillsAt(s0: Snap, s: Snap, prev: nat, blockno: nat, h: nat, base: nat, q: Ask, x: nat)
    requires h > 0 && Touches(q, h, base) && blockno != 0 && First(q, h, base) <= Last(q, h, base) < 512
    requires FilledTo(s0, s, prev, Get(s.mem, blockno), h, base, q, Last(q, h, base) + 1)
    requires base <= x < base + Cap(h) && (q.lo <= x < q.hi || (x < q.n && LeafOf(s0.mem, prev, h, base, x) != 0))
    ensures LeafOf(s.mem, blockno, h, base, x) != 0
  {
    var k := Slot(h, base, x);
    if q.lo <= x < q.hi {
      EntryHit(q, h, base, x);
    }
    hide First, Last, Touches, Slot;
    assert FilledSlot(s0.mem, s.mem, Entry(s0.mem, prev, k), Addr(Get(s.mem, blockno), k), h - 1, ChildBase(h, base, k), q, First(q, h, base) <= k < Last(q, h, base) + 1);
    assert LeafOf(s.mem, blockno, h, base, x) == LeafOf(s.mem, Addr(Get(s.mem, blockno), k), h - 1, ChildBase(h, base, k), x);
  }

  /** The entry of a byte of the range is one of those visited. */
  lemma EntryHit(q: Ask, h: nat, base: nat, x: nat)
    requires h > 0 && Touches(q, h, base) && q.lo <= x < q.hi && base <= x < base + Cap(h)
    ensures First(q, h, base) <= Slot(h, base, x) <= Last(q, h, base)
  {
    var off, size, c := OffIn(q, base), SizeIn(q, h, base), Cap(h - 1);
    var y := base + off + size - 1;
    assert base + off <= x <= y;
    DivMonotone(off, x - base, c);
    DivMonotone(x - base, off + size - 1, c);
  }

  lemma DivMonotone(x: nat, y: nat, c: nat)
    requires c > 0 && x <= y
    ensures x / c <= y / c
  {
    DivBounds(x, c);
    DivBounds(y, c);
    if y / c < x / c {
      MulMono(y / c + 1, x / c, c);
    }
  }

  /** Below an entry that is still to come the pointers are those of the start. */
  lemma LaterShape(s0: Snap, s: Snap, j: Job, prev: nat, h: nat, base: nat, no: nat)
    requires h > 0 && no < 512 && prev != 0 && ChildBase(h, base, no) < |j.was|
    requires Before(s0, j, prev, h, base) && Later(s0, s, j.t, h, base, no)
    ensures SameShape(s0.mem, s.mem, Addr(Get(s0.mem, prev), no), h - 1, ChildBase(h, base, no), |j.was|)
  {
    var c, cb := Addr(Get(s0.mem, prev), no), ChildBase(h, base, no);
    WasPrefix(j);
    assert ProperSlots(s0.mem, s0.pos, s0.freed, j.t, Get(s0.mem, prev), h, base, |j.Pad()|);
    ChildBaseOrder(h, base);
    hide Shows;
    ProperEnd(s0.mem, s0.pos, s0.freed, j.t, c, h - 1, cb, |j.Pad()|, |j.was|);
    ShapeFrame(s0.mem, s.mem, s0.pos, s0.freed, j.t, c, h - 1, cb, |j.was|);
  }

  lemma LaterStep(s0: Snap, s1: Snap, s2: Snap, t: nat, h: nat, base: nat, no: nat)
    requires h > 0 && no < 512 && Later(s0, s1, t, h, base, no) && Extends(s0.pos, s1.pos) && Frame(s1, s2, t, h - 1, ChildBase(h, base, no))
    ensures Later(s0, s2, t, h, base, no + 1)
  {
    ChildBaseStep(h, base, no, no + 1);
    forall b {:trigger Get(s2.mem, b)} | b in s0.pos && In(s0.pos[b], t, h, base) && s0.pos[b].level < h && ChildBase(h, base, no + 1) <= s0.pos[b].start
      ensures Get(s2.mem, b) == Get(s0.mem, b)
    {
      assert Get(s1.mem, b) == Get(s0.mem, b);
      assert !In(s1.pos[b], t, h - 1, ChildBase(h, base, no));
    }
  }

  lemma LaterLevel(s0: Snap, s: Snap, s': Snap, t: nat, h: nat, base: nat, no: nat, b: nat)
    requires h > 0 && Later(s0, s, t, h, base, no) && OnlyBlock(s.mem, s'.mem, b) && (b in s0.pos ==> s0.pos[b].level == h)
    ensures Later(s0, s', t, h, base, no)
  {
    forall c {:trigger Get(s'.mem, c)} | c in s0.pos && In(s0.pos[c], t, h, base) && s0.pos[c].level < h && ChildBase(h, base, no) <= s0.pos[c].start
      ensures Get(s'.mem, c) == Get(s0.mem, c)
    {
      assert Get(s.mem, c) == Get(s0.mem, c);
    }
  }

  /** The child's need can be read off at the start of the loop. */
  lemma ChildNeed(s0: Snap, s: Snap, j: Job, prev: nat, h: nat, base: nat, commit: Commit, no: nat, cprev: nat)
    requires h > 0 && no < 512 && Before(s0, j, prev, h, base) && Later(s0, s, j.t, h, base, no)
    requires cprev == Child(s0.mem, prev, h, base, AskOf(j), no) && Touches(AskOf(j), h - 1, ChildBase(h, base, no))
    ensures SameShape(s0.mem, s.mem, cprev, h - 1, ChildBase(h, base, no), |j.was|)
    ensures Need(s.mem, cprev, h - 1, ChildBase(h, base, no), AskOf(j), commit) == Need(s0.mem, cprev, h - 1, ChildBase(h, base, no), AskOf(j), commit)
  {
    hide Need, Touches;
    if cprev != 0 {
      LaterShape(s0, s, j, prev, h, base, no);
    }
    NeedShape(s0.mem, s.mem, cprev, h - 1, ChildBase(h, base, no), AskOf(j), commit);
  }

  /** A pointer that keeps its shape keeps the account of what can be undone. */
  lemma UndoStep(s0: Snap, s: Snap, s': Snap, t: nat, a: nat, h: nat, base: nat, n: nat, plugged: bool)
    requires Undoable(s0, s, t, a, h, base, n, plugged) && SameShape(s.mem, s'.mem, a, h, base, n)
    ensures Undoable(s0, s', t, a, h, base, n, plugged)
  {
    hide SameShape, Proper;
    if plugged {
      if Proper(s'.mem, s0.pos, s0.freed, t, a, h, base, n) {
        ShapeSym(s.mem, s'.mem, a, h, base, n);
        ShapeProper(s'.mem, s.mem, s0.pos, s0.freed, t, a, h, base, n);
      }
    } else {
      ShapeTrans(s0.mem, s.mem, s'.mem, a, h, base, n);
    }
  }

  /** A table keeps its shape when the one child crawled keeps it. */
  lemma TableShape(s0: Snap, s1: Snap, s2: Snap, j: Job, prev: nat, h: nat, base: nat, no: nat, cprev: nat)
    requires h > 0 && no < 512 && prev != 0 && Quiet(s0, s1, j, prev, h, base) && Frame(s0, s1, j.t, h, base)
    requires Frame(s1, s2, j.t, h - 1, ChildBase(h, base, no))
    requires SameShape(s1.mem, s2.mem, cprev, h - 1, ChildBase(h, base, no), |j.was|)
    requires ChildBase(h, base, no) < |j.was| ==> cprev == Addr(Get(s0.mem, prev), no)
    ensures SameShape(s1.mem, s2.mem, prev, h, base, |j.was|) && Get(s2.mem, prev) == Get(s1.mem, prev)
  {
    var tbl := Get(s0.mem, prev);
    assert Get(s2.mem, prev) == Get(s1.mem, prev);
    hide CrashesSafe, Shows;
    forall k: nat {:trigger ChildBase(h, base, k)} | k < 512 && ChildBase(h, base, k) < |j.was|
      ensures Addr(Get(s1.mem, prev), k) == Addr(tbl, k) && SameShape(s1.mem, s2.mem, Addr(tbl, k), h - 1, ChildBase(h, base, k), |j.was|)
    {
      if k != no {
        assert SlotIs(s1, s0.freed, j.t, h, base, tbl, k, j.was);
        SiblingShape(s1, s2, s0.freed, j.t, h, base, no, k, Addr(tbl, k), |j.was|);
      }
    }
  }

  lemma SiblingShape(s1: Snap, s2: Snap, freed: set<nat>, t: nat, h: nat, base: nat, no: nat, k: nat, c: nat, end: nat)
    requires h > 0 && no < 512 && k < 512 && k != no && Frame(s1, s2, t, h - 1, ChildBase(h, base, no))
    requires Proper(s1.mem, s1.pos, freed, t, c, h - 1, ChildBase(h, base, k), end)
    ensures SameShape(s1.mem, s2.mem, c, h - 1, ChildBase(h, base, k), end)
  {
    SiblingKept(s1, s2, t, h, base, no, k, {});
    hide Proper, SameShape, Frame;
    ShapeFrame(s1.mem, s2.mem, s1.pos, freed, t, c, h - 1, ChildBase(h, base, k), end);
  }

  lemma LevelShape(s: Snap, m': Mem, freed: set<nat>, t: nat, h: nat, base: nat, k: nat, b: nat, c: nat, end: nat)
    requires h > 0 && k < 512 && OnlyBlock(s.mem, m', b) && (b in s.pos ==> s.pos[b].level == h)
    requires Proper(s.mem, s.pos, freed, t, c, h - 1, ChildBase(h, base, k), end)
    ensures SameShape(s.mem, m', c, h - 1, ChildBase(h, base, k), end)
  {
    hide Proper, SameShape;
    ShapeFrame(s.mem, m', s.pos, freed, t, c, h - 1, ChildBase(h, base, k), end);
  }

  /** After its first entry a write that may change pointers in place changes only invisible ones. */
  lemma NoLaterPlug(m: Mem, prev: nat, h: nat, base: nat, q: Ask, commit: Commit, no: nat, m1: Mem, free: nat)
    requires h > 0 && Touches(q, h, base) && First(q, h, base) < no <= Last(q, h, base) < 512 && Touches(q, h - 1, ChildBase(h, base, no))
    ensures !Plugs(m1, Child(m, prev, h, base, q, no), h - 1, ChildBase(h, base, no), q, Below(q, h, base, commit), free)
  {
    if Below(q, h, base, commit) == Atomic {
      var x := base + OffIn(q, base);
      DivSlot(h, base, x);
      ChildBaseStep(h, base, First(q, h, base), no);
      assert Child(m, prev, h, base, q, no) == 0;
    }
  }

  lemma FirstPlug(m: Mem, prev: nat, h: nat, base: nat, q: Ask, commit: Commit, free: nat)
    requires h > 0 && prev != 0 && Touches(q, h, base) && First(q, h, base) < 512 && Touches(q, h - 1, ChildBase(h, base, First(q, h, base)))
    ensures PlugsBelow(m, prev, h, base, q, commit, free) <==>
      Plugs(m, Child(m, prev, h, base, q, First(q, h, base)), h - 1, ChildBase(h, base, First(q, h, base)), q, Below(q, h, base, commit), free)
  {
    var k := First(q, h, base);
    if Below(q, h, base, commit) != Atomic {
      assert !Plugs(m, Child(m, prev, h, base, q, k), h - 1, ChildBase(h, base, k), q, Below(q, h, base, commit), free);
    }
  }

  lemma ImproperBelow(m: Mem, pos: Labels, freed: set<nat>, t: nat, a: nat, h: nat, base: nat, n: nat, k: nat)
    requires h > 0 && a != 0 && k < 512 && ChildBase(h, base, k) < n
    requires !Proper(m, pos, freed, t, Addr(Get(m, a), k), h - 1, ChildBase(h, base, k), n)
    ensures !Proper(m, pos, freed, t, a, h, base, n)
  {
    assert Proper(m, pos, freed, t, a, h, base, n) ==> ProperSlots(m, pos, freed, t, Get(m, a), h, base, n);
  }

  /** What can be undone after a child crawl. */
  lemma UndoChild(s0: Snap, s1: Snap, s2: Snap, j: Job, prev: nat, h: nat, base: nat, commit: Commit, no: nat, cprev: nat)
    requires var q := AskOf(j); h > 0 && Touches(q, h, base) && First(q, h, base) <= no <= Last(q, h, base) < 512 && Touches(q, h - 1, ChildBase(h, base, no))
    requires Quiet(s0, s1, j, prev, h, base) && Frame(s0, s1, j.t, h, base) && Frame(s1, s2, j.t, h - 1, ChildBase(h, base, no))
    requires prev != 0 && no == First(AskOf(j), h, base) ==> s1 == s0
    requires cprev == Child(s0.mem, prev, h, base, AskOf(j), no)
    requires Undoable(s0, s1, j.t, prev, h, base, |j.was|, no > First(AskOf(j), h, base) && Plugs(s0.mem, prev, h, base, AskOf(j), commit, Room(s0)))
    requires Undoable(s1, s2, j.t, cprev, h - 1, ChildBase(h, base, no), |j.was|,
      Plugs(s1.mem, cprev, h - 1, ChildBase(h, base, no), AskOf(j), Below(AskOf(j), h, base, commit), Room(s1)))
    ensures Undoable(s0, s2, j.t, prev, h, base, |j.was|,
      if no == First(AskOf(j), h, base) then PlugsBelow(s0.mem, prev, h, base, AskOf(j), commit, Room(s0)) else Plugs(s0.mem, prev, h, base, AskOf(j), commit, Room(s0)))
  {
    var q := AskOf(j);
    if prev != 0 {
      if no == First(q, h, base) {
        FirstPlug(s0.mem, prev, h, base, q, commit, Room(s0));
      } else {
        NoLaterPlug(s0.mem, prev, h, base, q, commit, no, s1.mem, Room(s1));
      }
      var plug := Plugs(s1.mem, cprev, h - 1, ChildBase(h, base, no), q, Below(q, h, base, commit), Room(s1));
      hide Plugs, PlugsBelow, Proper, Frame, Quiet, First, Last, Touches, Below;
      if plug {
        UndoPlug(s0, s2, j, prev, h, base, no, cprev);
      } else {
        TableShape(s0, s1, s2, j, prev, h, base, no, cprev);
        UndoStep(s0, s1, s2, j.t, prev, h, base, |j.was|, no > First(q, h, base) && Plugs(s0.mem, prev, h, base, q, commit, Room(s0)));
      }
    }
  }

  lemma UndoPlug(s0: Snap, s2: Snap, j: Job, prev: nat, h: nat, base: nat, no: nat, cprev: nat)
    requires h > 0 && no < 512 && prev != 0 && Quiet(s0, s0, j, prev, h, base) && Frame(s0, s2, j.t, h - 1, ChildBase(h, base, no))
    requires cprev == Child(s0.mem, prev, h, base, AskOf(j), no)
    requires !Proper(s2.mem, s0.pos, s0.freed, j.t, cprev, h - 1, ChildBase(h, base, no), |j.was|)
    ensures !Proper(s2.mem, s0.pos, s0.freed, j.t, prev, h, base, |j.was|)
  {
    assert Get(s2.mem, prev) == Get(s0.mem, prev);
    assert cprev != 0;
    hide Proper;
    ImproperBelow(s2.mem, s0.pos, s0.freed, j.t, prev, h, base, |j.was|, no);
  }

  lemma FilledMove(m0: Mem, m1: Mem, m2: Mem, e: nat, c: nat, h: nat, base: nat, q: Ask, done: bool, end: nat)
    requires FilledSlot(m0, m1, e, c, h, base, q, done) && SameShape(m1, m2, c, h, base, end) && q.n <= end && (done ==> q.hi <= end)
    ensures FilledSlot(m0, m2, e, c, h, base, q, done)
  {
    hide LeafOf, SameShape;
    forall x: nat {:trigger LeafOf(m2, c, h, base, x)} |
      base <= x < base + Cap(h) && ((done && q.lo <= x < q.hi) || (x < q.n && LeafOf(m0, e, h, base, x) != 0))
      ensures LeafOf(m2, c, h, base, x) != 0
    {
      assert LeafOf(m1, c, h, base, x) != 0;
      ShapeLeaf(m1, m2, c, h, base, end, x);
    }
  }

  lemma FilledVoid(m0: Mem, m: Mem, e: nat, c: nat, h: nat, base: nat, q: Ask)
    requires e == 0 || base >= q.n
    ensures FilledSlot(m0, m, e, c, h, base, q, false)
  {
  }

  /** The proper end of entry k of a table under way. */
  function EndOf(j: Job, done: bool): nat {
    if done then |j.New()| else |j.Pad()|
  }

  lemma EntryProper(s: Snap, j: Job, h: nat, base: nat, tbl: Block, no: nat, last: nat, hole: bool, k: nat)
    requires h > 0 && k < 512 && Touches(AskOf(j), h, base) && Mixed(s, j, h, base, tbl, First(AskOf(j), h, base), no, last, hole)
    requires First(AskOf(j), h, base) <= k < no || (!hole && ChildBase(h, base, k) < |j.was|)
    ensures Proper(s.mem, s.pos, s.freed, j.t, Addr(tbl, k), h - 1, ChildBase(h, base, k), EndOf(j, First(AskOf(j), h, base) <= k < no))
  {
    WasPrefix(j);
    assert Due(j, h, base, First(AskOf(j), h, base), no, last, hole, k);
    hide Proper, Shows, First, Touches;
    assert SlotIs(s, s.freed, j.t, h, base, tbl, k, Want(j, First(AskOf(j), h, base), no, k));
  }

  lemma EndFits(j: Job, done: bool)
    ensures |j.was| <= EndOf(j, done) && (done ==> j.Hi() <= EndOf(j, done))
  {
    WasPrefix(j);
  }

  /** Another entry after a child crawl. */
  lemma FillSibling(s0: Snap, s1: Snap, s2: Snap, j: Job, prev: nat, h: nat, base: nat, tbl: Block, no: nat, last: nat, k: nat)
    requires h > 0 && k < 512 && no < 512 && k != no && Stands(AskOf(j), h, base, no) && FilledTo(s0, s1, prev, tbl, h, base, AskOf(j), no)
    requires Mixed(s1, j, h, base, tbl, First(AskOf(j), h, base), no, last, prev == 0) && Frame(s1, s2, j.t, h - 1, ChildBase(h, base, no))
    ensures FilledSlot(s0.mem, s2.mem, Entry(s0.mem, prev, k), Addr(tbl, k), h - 1, ChildBase(h, base, k), AskOf(j), First(AskOf(j), h, base) <= k < no)
  {
    var q := AskOf(j);
    var done := First(q, h, base) <= k < no;
    assert FilledSlot(s0.mem, s1.mem, Entry(s0.mem, prev, k), Addr(tbl, k), h - 1, ChildBase(h, base, k), q, done);
    hide FilledSlot, Mixed, Frame, FilledTo, First, Last, Touches;
    if !done && (prev == 0 || ChildBase(h, base, k) >= q.n) {
      FilledVoid(s0.mem, s2.mem, Entry(s0.mem, prev, k), Addr(tbl, k), h - 1, ChildBase(h, base, k), q);
    } else {
      EntryProper(s1, j, h, base, tbl, no, last, prev == 0, k);
      EndFits(j, done);
      SiblingShape(s1, s2, s1.freed, j.t, h, base, no, k, Addr(tbl, k), EndOf(j, done));
      FilledMove(s0.mem, s1.mem, s2.mem, Entry(s0.mem, prev, k), Addr(tbl, k), h - 1, ChildBase(h, base, k), q, done, EndOf(j, done));
    }
  }

  /** The entry crawled. */
  lemma FillEntry(s0: Snap, s1: Snap, s2: Snap, j: Job, prev: nat, h: nat, base: nat, no: nat, cprev: nat, cnew: nat)
    requires h > 0 && no < 512 && Fills(s1.mem, s2.mem, cprev, cnew, h - 1, ChildBase(h, base, no), AskOf(j))
    requires cprev == Child(s0.mem, prev, h, base, AskOf(j), no) && SameShape(s0.mem, s1.mem, cprev, h - 1, ChildBase(h, base, no), |j.was|)
    ensures FilledSlot(s0.mem, s2.mem, Entry(s0.mem, prev, no), cnew, h - 1, ChildBase(h, base, no), AskOf(j), true)
  {
    var q, cb := AskOf(j), ChildBase(h, base, no);
    hide SameShape;
    forall x: nat {:trigger LeafOf(s2.mem, cnew, h - 1, cb, x)} |
      cb <= x < cb + Cap(h - 1) && (q.lo <= x < q.hi || (x < q.n && LeafOf(s0.mem, Entry(s0.mem, prev, no), h - 1, cb, x) != 0))
      ensures LeafOf(s2.mem, cnew, h - 1, cb, x) != 0
    {
      if !(q.lo <= x < q.hi) {
        ShapeLeaf(s0.mem, s1.mem, cprev, h - 1, cb, q.n, x);
      }
    }
  }

  lemma FillChild(s0: Snap, s1: Snap, s2: Snap, j: Job, prev: nat, h: nat, base: nat, tbl: Block, no: nat, last: nat, cprev: nat, cnew: nat)
    requires h > 0 && no < 512 && Stands(AskOf(j), h, base, no) && Stands(AskOf(j), h, base, no + 1) && FilledTo(s0, s1, prev, tbl, h, base, AskOf(j), no)
    requires Mixed(s1, j, h, base, tbl, First(AskOf(j), h, base), no, last, prev == 0) && Frame(s1, s2, j.t, h - 1, ChildBase(h, base, no))
    requires Fills(s1.mem, s2.mem, cprev, cnew, h - 1, ChildBase(h, base, no), AskOf(j))
    requires cprev == Child(s0.mem, prev, h, base, AskOf(j), no) && SameShape(s0.mem, s1.mem, cprev, h - 1, ChildBase(h, base, no), |j.was|)
    requires cnew < 0x1_0000_0000_0000_0000
    ensures FilledTo(s0, s2, prev, tbl[no := ToWord(cnew)], h, base, AskOf(j), no + 1)
  {
    var q, tbl' := AskOf(j), tbl[no := ToWord(cnew)];
    WordRoundTrip(cnew);
    assert Addr(tbl', no) == cnew && forall k | 0 <= k < 512 && k != no :: Addr(tbl', k) == Addr(tbl, k);
    assert First(q, h, base) <= no;
    FillEntry(s0, s1, s2, j, prev, h, base, no, cprev, cnew);
    hide FilledSlot, Mixed, Frame, First, Last, Touches, Fills, SameShape, Decode, ToWord;
    forall k: nat {:trigger ChildBase(h, base, k)} | k < 512
      ensures FilledSlot(s0.mem, s2.mem, Entry(s0.mem, prev, k), Addr(tbl', k), h - 1, ChildBase(h, base, k), q, First(q, h, base) <= k < no + 1)
    {
      if k != no {
        FillSibling(s0, s1, s2, j, prev, h, base, tbl, no, last, k);
      }
    }
  }

  /** Stores to blocks of the table's own level. */
  lemma FillLevel(s0: Snap, s: Snap, s': Snap, j: Job, prev: nat, h: nat, base: nat, tbl: Block, no: nat, last: nat, b: nat)
    requires h > 0 && Stands(AskOf(j), h, base, no) && FilledTo(s0, s, prev, tbl, h, base, AskOf(j), no)
    requires Mixed(s, j, h, base, tbl, First(AskOf(j), h, base), no, last, prev == 0)
    requires OnlyBlock(s.mem, s'.mem, b) && (b in s.pos ==> s.pos[b].level == h)
    ensures FilledTo(s0, s', prev, tbl, h, base, AskOf(j), no)
  {
    var q := AskOf(j);
    hide FilledSlot, Mixed, First, Last, Touches, OnlyBlock;
    forall k: nat {:trigger ChildBase(h, base, k)} | k < 512
      ensures FilledSlot(s0.mem, s'.mem, Entry(s0.mem, prev, k), Addr(tbl, k), h - 1, ChildBase(h, base, k), q, First(q, h, base) <= k < no)
    {
      var done := First(q, h, base) <= k < no;
      assert FilledSlot(s0.mem, s.mem, Entry(s0.mem, prev, k), Addr(tbl, k), h - 1, ChildBase(h, base, k), q, done);
      if !done && (prev == 0 || ChildBase(h, base, k) >= q.n) {
        FilledVoid(s0.mem, s'.mem, Entry(s0.mem, prev, k), Addr(tbl, k), h - 1, ChildBase(h, base, k), q);
      } else {
        EntryProper(s, j, h, base, tbl, no, last, prev == 0, k);
        EndFits(j, done);
        LevelShape(s, s'.mem, s.freed, j.t, h, base, k, b, Addr(tbl, k), EndOf(j, done));
        FilledMove(s0.mem, s.mem, s'.mem, Entry(s0.mem, prev, k), Addr(tbl, k), h - 1, ChildBase(h, base, k), q, done, EndOf(j, done));
      }
    }
  }

  predicate Reaches(q: Ask, h: nat, base: nat, no: nat) {
    h > 0 && Touches(q, h, base) && First(q, h, base) <= no <= Last(q, h, base) < 512 && Touches(q, h - 1, ChildBase(h, base, no))
  }

  /** Entry no, below which cprev is found, is about to be crawled. */
  ghost predicate Visit(s0: Snap, s1: Snap, j: Job, prev: nat, blockno: nat, h: nat, base: nat, commit: Commit, no: nat, cprev: nat) {
    && Reaches(AskOf(j), h, base, no) && cprev == Child(s0.mem, prev, h, base, AskOf(j), no)
    && Before(s0, j, prev, h, base) && Tally(s0, s1, j, prev, blockno, h, base, commit, no)
    && Quiet(s0, s1, j, prev, h, base) && Frame(s0, s1, j.t, h, base)
    && Mixed(s1, j, h, base, Get(s1.mem, blockno), First(AskOf(j), h, base), no, Last(AskOf(j), h, base), prev == 0)
    && (prev != 0 && no == First(AskOf(j), h, base) ==> s1 == s0)
  }

  /** The account after a child crawl that succeeded. */
  lemma ChildOwed(s0: Snap, s1: Snap, s2: Snap, j: Job, prev: nat, blockno: nat, h: nat, base: nat, commit: Commit, no: nat, cprev: nat, cnew: nat)
    requires Reaches(AskOf(j), h, base, no)
    requires Accounts(s1, s2, j.t, cprev, h - 1, ChildBase(h, base, no), AskOf(j), Below(AskOf(j), h, base, commit), 0, cnew)
    requires Frame(s1, s2, j.t, h - 1, ChildBase(h, base, no)) && Get(s2.mem, blockno) == Get(s1.mem, blockno) && cnew < 0x1_0000_0000_0000_0000
    requires Visit(s0, s1, j, prev, blockno, h, base, commit, no, cprev)
    ensures Owed(s0, s2, j, prev, blockno, h, base, commit, no, cprev, cnew)
  {
    var q := AskOf(j);
    hide Before, Quiet, Frame, Mixed, Fills, FilledTo, Undoable, Plugs, PlugsBelow, Later, Need, NeedTo, First, Last, Touches, FreeBlocks, SameShape;
    ChildNeed(s0, s1, j, prev, h, base, Below(q, h, base, commit), no, cprev);
    FrameExtends(s0, s1, j.t, h, base);
    LaterStep(s0, s1, s2, j.t, h, base, no);
    UndoChild(s0, s1, s2, j, prev, h, base, commit, no, cprev);
    FillChild(s0, s1, s2, j, prev, h, base, Get(s1.mem, blockno), no, Last(q, h, base), cprev, cnew);
  }

  lemma FrameExtends(s0: Snap, s1: Snap, t: nat, h: nat, base: nat)
    requires Frame(s0, s1, t, h, base)
    ensures Extends(s0.pos, s1.pos) && s0.pos.Keys <= s1.pos.Keys
  {
  }

  /** The account after a child crawl that failed. */
  lemma ChildShort(s0: Snap, s1: Snap, s2: Snap, j: Job, prev: nat, blockno: nat, h: nat, base: nat, commit: Commit, no: nat, cprev: nat, r: int, cnew: nat)
    requires Reaches(AskOf(j), h, base, no)
    requires r != 0 && Accounts(s1, s2, j.t, cprev, h - 1, ChildBase(h, base, no), AskOf(j), Below(AskOf(j), h, base, commit), r, cnew)
    requires Frame(s1, s2, j.t, h - 1, ChildBase(h, base, no))
    requires Visit(s0, s1, j, prev, blockno, h, base, commit, no, cprev)
    ensures Short(s0, s2, j, prev, h, base, commit)
  {
    var q := AskOf(j);
    hide Before, Quiet, Frame, Mixed, Fills, FilledTo, Undoable, Plugs, PlugsBelow, PlugsHere, Later, Need, NeedTo, First, Last, Touches, FreeBlocks, SameShape;
    ChildNeed(s0, s1, j, prev, h, base, Below(q, h, base, commit), no, cprev);
    UndoChild(s0, s1, s2, j, prev, h, base, commit, no, cprev);
    EntryShort(s0, s1, prev, blockno, h, base, q, commit, no, cprev);
  }

  /** If an entry cannot be paid, neither can the table, and the table's own pointer is not reached. */
  lemma EntryShort(s0: Snap, s1: Snap, prev: nat, blockno: nat, h: nat, base: nat, q: Ask, commit: Commit, no: nat, cprev: nat)
    requires Stands(q, h, base, no) && no <= Last(q, h, base) < 512 && Billed(s0, s1, prev, blockno, h, base, q, commit, no)
    requires cprev == Child(s0.mem, prev, h, base, q, no) && Touches(q, h - 1, ChildBase(h, base, no))
    requires Need(s0.mem, cprev, h - 1, ChildBase(h, base, no), q, Below(q, h, base, commit)).cost > Room(s1)
    requires prev != 0 && no == First(q, h, base) ==> s1 == s0
    ensures Need(s0.mem, prev, h, base, q, commit).cost > Room(s0)
    ensures no == First(q, h, base) ==> Plugs(s0.mem, prev, h, base, q, commit, Room(s0)) == PlugsBelow(s0.mem, prev, h, base, q, commit, Room(s0))
  {
    NeedToMono(s0.mem, prev, h, base, q, commit, no + 1, Last(q, h, base) + 1);
    assert NeedTo(s0.mem, prev, h, base, q, commit, no + 1).cost > Room(s0);
    hide PlugsBelow, Touches, FreeBlocks;
  }

  /** An entry whose pointer stays. */
  lemma OwedKept(s0: Snap, s: Snap, j: Job, prev: nat, blockno: nat, h: nat, base: nat, commit: Commit, no: nat, cnew: nat)
    requires Owed(s0, s, j, prev, blockno, h, base, commit, no, cnew, cnew) && cnew < 0x1_0000_0000_0000_0000 && Addr(Get(s.mem, blockno), no) == cnew
    ensures Tally(s0, s, j, prev, blockno, h, base, commit, no + 1)
  {
    hide Later, Undoable, FilledTo, Plugs, PlugsBelow, Need, NeedTo, First, Last, Touches, FreeBlocks;
    var q := AskOf(j);
    BillKept(s0, s, prev, blockno, h, base, q, commit, no);
    FilledSame(s0, s, prev, Get(s.mem, blockno), h, base, q, no + 1, no, cnew);
  }

  lemma FilledSame(s0: Snap, s: Snap, prev: nat, tbl: Block, h: nat, base: nat, q: Ask, no: nat, k: nat, c: nat)
    requires Stands(q, h, base, no) && k < 512 && c < 0x1_0000_0000_0000_0000 && Addr(tbl, k) == c
    requires FilledTo(s0, s, prev, tbl[k := ToWord(c)], h, base, q, no)
    ensures FilledTo(s0, s, prev, tbl, h, base, q, no)
  {
    WordRoundTrip(c);
    var tbl' := tbl[k := ToWord(c)];
    assert forall i | 0 <= i < 512 :: Addr(tbl', i) == Addr(tbl, i);
    hide FilledSlot, First, Last, Touches, Decode, ToWord;
  }

  lemma BillKept(s0: Snap, s: Snap, prev: nat, blockno: nat, h: nat, base: nat, q: Ask, commit: Commit, no: nat)
    requires Reaches(q, h, base, no)
    requires var (p, b) := (NeedTo(s0.mem, prev, h, base, q, commit, no), Need(s0.mem, Child(s0.mem, prev, h, base, q, no), h - 1, ChildBase(h, base, no), q, Below(q, h, base, commit)));
      p.cost + b.cost <= Room(s0) && Room(s) == Room(s0) - p.cost - b.cost && (blockno != prev <==> p.moved) && !b.moved
    ensures Billed(s0, s, prev, blockno, h, base, q, commit, no + 1)
    ensures no == First(q, h, base) ==> Plugs(s0.mem, prev, h, base, q, commit, Room(s0)) == PlugsBelow(s0.mem, prev, h, base, q, commit, Room(s0))
  {
    hide PlugsBelow, Touches, FreeBlocks;
    assert NeedTo(s0.mem, prev, h, base, q, commit, no + 1) == Add(NeedTo(s0.mem, prev, h, base, q, commit, no),
      Need(s0.mem, Child(s0.mem, prev, h, base, q, no), h - 1, ChildBase(h, base, no), q, Below(q, h, base, commit)), Copies(q, h, base, commit, no));
  }

  /** The table to be written is newno: blockno itself or a copy of it. */
  ghost predicate Opened(s: Snap, s': Snap, blockno: nat, newno: nat, copied: bool) {
    if copied then
      newno != blockno && newno in s.mem && newno !in s.pos && blockno in s.pos && s'.pos == s.pos[newno := s.pos[blockno]] && s'.mem.Keys == s.mem.Keys
      && Get(s'.mem, newno) == Get(s.mem, blockno) && OnlyBlock(s.mem, s'.mem, newno)
    else newno == blockno && s' == s
  }

  /** The state between the copy of the table, if one is made, and the store of the new pointer. */
  ghost predicate Linking(s: Snap, s': Snap, s'': Snap, blockno: nat, newno: nat, no: nat, cnew: nat, copied: bool) {
    && no < 512 && newno in s'.mem && Opened(s, s', blockno, newno, copied)
    && s''.pos == s'.pos && s''.mem == s'.mem[newno := Get(s'.mem, newno)[no := ToWord(cnew)]]
  }

  lemma LinkingFacts(s: Snap, s': Snap, s'': Snap, blockno: nat, newno: nat, no: nat, cnew: nat, copied: bool)
    requires Linking(s, s', s'', blockno, newno, no, cnew, copied)
    ensures OnlyBlock(s.mem, s''.mem, newno) && Get(s''.mem, newno) == Get(s.mem, blockno)[no := ToWord(cnew)]
    ensures Room(s) == Room(s'') + if copied then 1 else 0
  {
    if copied {
      OneTaken(s.mem, s.pos, newno, s.pos[blockno]);
    }
    SameFree(s.mem, s''.mem, s''.pos);
    hide FreeBlocks;
    forall c {:trigger Get(s''.mem, c)} | c != newno
      ensures Get(s''.mem, c) == Get(s.mem, c)
    {
      assert Get(s''.mem, c) == Get(s'.mem, c);
    }
  }

  /** The entry's pointer is set, in a copy of the table when it may not be set in place. */
  lemma OwedSet(s0: Snap, s: Snap, s': Snap, s'': Snap, j: Job, prev: nat, blockno: nat, newno: nat, h: nat, base: nat, commit: Commit, no: nat, cprev: nat, cnew: nat)
    requires Reaches(AskOf(j), h, base, no)
    requires Linking(s, s', s'', blockno, newno, no, cnew, blockno == prev && Copies(AskOf(j), h, base, commit, no))
    requires Owed(s0, s, j, prev, blockno, h, base, commit, no, cprev, cnew) && cnew != cprev && cnew != 0 && cnew < 0x1_0000_0000_0000_0000
    requires Quiet(s0, s, j, prev, h, base) && Frame(s0, s, j.t, h, base) && blockno in s.pos && s.pos[blockno] == Label(j.t, h, base)
    requires (blockno != prev ==> blockno !in s0.pos) && (prev != 0 && cprev != cnew ==> cnew !in s0.pos)
    requires prev == 0 ==> blockno != 0
    requires Mixed(s, j, h, base, Get(s.mem, blockno)[no := ToWord(cnew)], First(AskOf(j), h, base), no + 1, Last(AskOf(j), h, base), prev == 0)
    ensures Tally(s0, s'', j, prev, newno, h, base, commit, no + 1)
  {
    hide Quiet, Mixed, Frame, OnlyBlock, Undoable, FilledTo, Plugs, PlugsBelow, Need, NeedTo, First, Last, Touches, FreeBlocks, Copies, Later;
    var q, copied := AskOf(j), blockno == prev && Copies(AskOf(j), h, base, commit, no);
    LinkingFacts(s, s', s'', blockno, newno, no, cnew, copied);
    LinkedLevel(s0, s, s', s'', j.t, h, base, blockno, newno, no, cnew, copied);
    BillSet(s0, s, s'', prev, blockno, newno, h, base, q, commit, no);
    UndoSet(s0, s, s'', j, prev, blockno, newno, h, base, commit, no, cprev, cnew);
    LaterLevel(s0, s, s'', j.t, h, base, no + 1, newno);
    FillLevel(s0, s, s'', j, prev, h, base, Get(s.mem, blockno)[no := ToWord(cnew)], no + 1, Last(q, h, base), newno);
  }

  lemma LinkedLevel(s0: Snap, s: Snap, s': Snap, s'': Snap, t: nat, h: nat, base: nat, blockno: nat, newno: nat, no: nat, cnew: nat, copied: bool)
    requires Linking(s, s', s'', blockno, newno, no, cnew, copied) && Frame(s0, s, t, h, base) && blockno in s.pos && s.pos[blockno] == Label(t, h, base)
    ensures (newno in s.pos ==> s.pos[newno].level == h) && (newno in s0.pos ==> s0.pos[newno].level == h)
  {
  }

  lemma BillSet(s0: Snap, s: Snap, s'': Snap, prev: nat, blockno: nat, newno: nat, h: nat, base: nat, q: Ask, commit: Commit, no: nat)
    requires Reaches(q, h, base, no)
    requires var (p, b) := (NeedTo(s0.mem, prev, h, base, q, commit, no), Need(s0.mem, Child(s0.mem, prev, h, base, q, no), h - 1, ChildBase(h, base, no), q, Below(q, h, base, commit)));
      p.cost + b.cost <= Room(s0) && Room(s) == Room(s0) - p.cost - b.cost && (blockno != prev <==> p.moved) && b.moved
    requires Room(s) == Room(s'') + if blockno == prev && Copies(q, h, base, commit, no) then 1 else 0
    requires newno != prev <==> blockno != prev || Copies(q, h, base, commit, no)
    ensures Billed(s0, s'', prev, newno, h, base, q, commit, no + 1)
  {
    hide Touches, FreeBlocks, Copies;
    assert NeedTo(s0.mem, prev, h, base, q, commit, no + 1) == Add(NeedTo(s0.mem, prev, h, base, q, commit, no),
      Need(s0.mem, Child(s0.mem, prev, h, base, q, no), h - 1, ChildBase(h, base, no), q, Below(q, h, base, commit)), Copies(q, h, base, commit, no));
  }

  /** What can be undone after the store. */
  lemma UndoSet(s0: Snap, s: Snap, s'': Snap, j: Job, prev: nat, blockno: nat, newno: nat, h: nat, base: nat, commit: Commit, no: nat, cprev: nat, cnew: nat)
    requires Owed(s0, s, j, prev, blockno, h, base, commit, no, cprev, cnew) && cnew != cprev && cnew != 0 && cnew < 0x1_0000_0000_0000_0000
    requires OnlyBlock(s.mem, s''.mem, newno) && Get(s''.mem, newno) == Get(s.mem, blockno)[no := ToWord(cnew)]
    requires newno != prev <==> blockno != prev || Copies(AskOf(j), h, base, commit, no)
    requires Quiet(s0, s, j, prev, h, base) && (prev != 0 ==> cnew !in s0.pos) && (newno in s.pos ==> s.pos[newno].level == h)
    requires newno == prev ==> blockno == prev
    ensures Undoable(s0, s'', j.t, prev, h, base, |j.was|, Plugs(s0.mem, prev, h, base, AskOf(j), commit, Room(s0)))
  {
    var q := AskOf(j);
    if prev != 0 {
      if newno == prev && ChildBase(h, base, no) < q.n {
        PlugHere(s0, s, j, prev, blockno, h, base, commit, no, cprev, cnew);
        WordRoundTrip(cnew);
        assert !Proper(s''.mem, s0.pos, s0.freed, j.t, Addr(Get(s''.mem, prev), no), h - 1, ChildBase(h, base, no), q.n);
        hide Owed;
        ImproperBelow(s''.mem, s0.pos, s0.freed, j.t, prev, h, base, q.n, no);
      } else {
        NoPlugHere(s0, s, j, prev, blockno, newno, h, base, commit, no, cprev, cnew);
        hide Plugs, PlugsBelow, Need, NeedTo, First, Last, Touches, FreeBlocks, Copies, FilledTo;
        SetShape(s0, s, s''.mem, j, prev, newno, h, base, no, cnew);
        UndoStep(s0, s, s'', j.t, prev, h, base, q.n, Plugs(s0.mem, prev, h, base, q, commit, Room(s0)));
      }
    }
  }

  lemma PlugHere(s0: Snap, s: Snap, j: Job, prev: nat, blockno: nat, h: nat, base: nat, commit: Commit, no: nat, cprev: nat, cnew: nat)
    requires Owed(s0, s, j, prev, blockno, h, base, commit, no, cprev, cnew) && cnew != cprev && prev != 0
    requires blockno == prev && !Copies(AskOf(j), h, base, commit, no) && ChildBase(h, base, no) < |j.was|
    ensures Plugs(s0.mem, prev, h, base, AskOf(j), commit, Room(s0))
  {
    hide PlugsBelow, FilledTo, Undoable, FreeBlocks, Later;
  }

  lemma NoPlugHere(s0: Snap, s: Snap, j: Job, prev: nat, blockno: nat, newno: nat, h: nat, base: nat, commit: Commit, no: nat, cprev: nat, cnew: nat)
    requires Owed(s0, s, j, prev, blockno, h, base, commit, no, cprev, cnew) && prev != 0
    requires newno != prev <==> blockno != prev || Copies(AskOf(j), h, base, commit, no)
    requires newno != prev || ChildBase(h, base, no) >= |j.was|
    ensures no == First(AskOf(j), h, base) ==> Plugs(s0.mem, prev, h, base, AskOf(j), commit, Room(s0)) == PlugsBelow(s0.mem, prev, h, base, AskOf(j), commit, Room(s0))
  {
    hide PlugsBelow, FilledTo, Undoable, FreeBlocks, Later;
  }

  /** A store to another table, or to an entry nobody sees, keeps the shape. */
  lemma SetShape(s0: Snap, s: Snap, m'': Mem, j: Job, prev: nat, newno: nat, h: nat, base: nat, no: nat, cnew: nat)
    requires h > 0 && no < 512 && prev != 0 && Quiet(s0, s, j, prev, h, base)
    requires OnlyBlock(s.mem, m'', newno) && (newno in s.pos ==> s.pos[newno].level == h)
    requires newno == prev ==> Get(m'', prev) == Get(s.mem, prev)[no := ToWord(cnew)] && ChildBase(h, base, no) >= |j.was|
    ensures SameShape(s.mem, m'', prev, h, base, |j.was|)
  {
    var tbl := Get(s0.mem, prev);
    hide CrashesSafe, Shows, OnlyBlock;
    if newno != prev {
      OtherBlock(s.mem, m'', newno, prev);
    }
    forall k: nat {:trigger ChildBase(h, base, k)} | k < 512 && ChildBase(h, base, k) < |j.was|
      ensures Addr(Get(m'', prev), k) == Addr(Get(s.mem, prev), k) == Addr(tbl, k) && SameShape(s.mem, m'', Addr(tbl, k), h - 1, ChildBase(h, base, k), |j.was|)
    {
      assert SlotIs(s, s0.freed, j.t, h, base, tbl, k, j.was);
      LevelShape(s, m'', s0.freed, j.t, h, base, k, newno, Addr(tbl, k), |j.was|);
    }
  }

  lemma OtherBlock(m: Mem, m': Mem, b: nat, c: nat)
    requires OnlyBlock(m, m', b) && c != b
    ensures Get(m', c) == Get(m, c)
  {
  }

  /** No block is left for the copy of the table. */
  lemma CopyShort(s0: Snap, s: Snap, j: Job, prev: nat, blockno: nat, h: nat, base: nat, commit: Commit, no: nat, cprev: nat, cnew: nat)
    requires Reaches(AskOf(j), h, base, no) && blockno == prev && Copies(AskOf(j), h, base, commit, no) && FreeBlocks(s.mem, s.pos) == 0
    requires Owed(s0, s, j, prev, blockno, h, base, commit, no, cprev, cnew) && cnew != cprev
    ensures Short(s0, s, j, prev, h, base, commit)
  {
    hide FilledTo, Undoable, FreeBlocks, Later, PlugsBelow;
    var q := AskOf(j);
    NeedToMono(s0.mem, prev, h, base, q, commit, no + 1, Last(q, h, base) + 1);
    assert NeedTo(s0.mem, prev, h, base, q, commit, no + 1).cost > Room(s0);
  }
}
