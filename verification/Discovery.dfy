/** The blocks of a file: what a crawl over block numbers visits, and what discovery marks at mount. */
module DiscoverySpec {
  import opened Geometry
  import opened Tree
  import opened Words
  import opened Layouts
  import opened Sequences

  /** The blocks a crawl of [lo, hi) visits: every leaf it touches, and every indirect block whose range it enters from the start. */
  function Visited(m: Mem, a: nat, h: nat, base: nat, lo: nat, hi: nat): set<nat>
    decreases h, 513
  {
    if a == 0 then {}
    else if h == 0 then {a}
    else (if lo <= base then {a} else {}) + VisitedBelow(m, Get(m, a), h, base, lo, hi, 512)
  }

  /** The share of the first n entries. */
  function VisitedBelow(m: Mem, tbl: Block, h: nat, base: nat, lo: nat, hi: nat, n: nat): set<nat>
    requires h > 0 && n <= 512
    decreases h, n
  {
    if n == 0 then {}
    else VisitedBelow(m, tbl, h, base, lo, hi, n - 1) + VisitedAt(m, tbl, h, base, lo, hi, n - 1)
  }

  predicate Crosses(h: nat, base: nat, lo: nat, hi: nat, s: nat)
    requires h > 0
  {
    ChildBase(h, base, s) < hi && lo < ChildBase(h, base, s) + Cap(h - 1)
  }

  function VisitedAt(m: Mem, tbl: Block, h: nat, base: nat, lo: nat, hi: nat, s: nat): set<nat>
    requires h > 0 && s < 512
    decreases h - 1, 514
  {
    if Crosses(h, base, lo, hi, s) then Visited(m, Addr(tbl, s), h - 1, ChildBase(h, base, s), lo, hi) else {}
  }

  /** Entries the range does not touch add nothing. */
  lemma {:induction false} VisitedGap(m: Mem, tbl: Block, h: nat, base: nat, lo: nat, hi: nat, from: nat, n: nat)
    requires h > 0 && from <= n <= 512 && forall s: nat {:trigger Crosses(h, base, lo, hi, s)} | from <= s < n :: !Crosses(h, base, lo, hi, s)
    ensures VisitedBelow(m, tbl, h, base, lo, hi, n) == VisitedBelow(m, tbl, h, base, lo, hi, from)
    decreases n
  {
    if from < n {
      VisitedGap(m, tbl, h, base, lo, hi, from, n - 1);
    }
  }

  /** The block at level l on the way from a down to the block with byte x. */
  function OnWay(m: Mem, a: nat, h: nat, base: nat, x: nat, l: nat): nat
    requires base <= x < base + Cap(h) && l <= h
    decreases h
  {
    if a == 0 || h == l then a
    else
      var s := Slot(h, base, x);
      OnWay(m, Addr(Get(m, a), s), h - 1, ChildBase(h, base, s), x, l)
  }

  /** The first byte below it. */
  function WayStart(h: nat, base: nat, x: nat, l: nat): nat
    requires base <= x < base + Cap(h) && l <= h
    decreases h
  {
    if h == l then base else WayStart(h - 1, ChildBase(h, base, Slot(h, base, x)), x, l)
  }

  /** Block b is on the way to byte x of the range, as its data block or as an indirect block that starts in the range. */
  predicate Leads(m: Mem, a: nat, h: nat, base: nat, lo: nat, hi: nat, b: nat, x: nat, l: nat) {
    && base <= x < base + Cap(h) && lo <= x < hi && l <= h && b != 0
    && OnWay(m, a, h, base, x, l) == b && (l == 0 || lo <= WayStart(h, base, x, l))
  }

  /** The blocks are exactly those. */
  ghost predicate Finds(blocks: seq<nat>, m: Mem, a: nat, h: nat, lo: nat, hi: nat) {
    forall b: nat {:trigger b in blocks} :: b in blocks <==> exists x: nat, l: nat :: Leads(m, a, h, 0, lo, hi, b, x, l)
  }

  lemma {:induction false} WayLeaf(m: Mem, a: nat, h: nat, base: nat, x: nat)
    requires base <= x < base + Cap(h)
    ensures OnWay(m, a, h, base, x, 0) == LeafOf(m, a, h, base, x)
    decreases h
  {
    if a != 0 && h > 0 {
      var s := Slot(h, base, x);
      WayLeaf(m, Addr(Get(m, a), s), h - 1, ChildBase(h, base, s), x);
    }
  }

  lemma {:induction false} BelowHas(m: Mem, tbl: Block, h: nat, base: nat, lo: nat, hi: nat, s: nat, n: nat)
    requires h > 0 && s < n <= 512
    ensures VisitedAt(m, tbl, h, base, lo, hi, s) <= VisitedBelow(m, tbl, h, base, lo, hi, n)
    decreases n
  {
    hide VisitedAt;
    if s < n - 1 {
      BelowHas(m, tbl, h, base, lo, hi, s, n - 1);
    }
  }

  lemma {:induction false} BelowFrom(m: Mem, tbl: Block, h: nat, base: nat, lo: nat, hi: nat, n: nat, b: nat) returns (s: nat)
    requires h > 0 && n <= 512 && b in VisitedBelow(m, tbl, h, base, lo, hi, n)
    ensures s < n && b in VisitedAt(m, tbl, h, base, lo, hi, s)
    decreases n
  {
    hide VisitedAt;
    if b in VisitedAt(m, tbl, h, base, lo, hi, n - 1) {
      s := n - 1;
    } else {
      s := BelowFrom(m, tbl, h, base, lo, hi, n - 1, b);
    }
  }

  /** What is on the way to a byte of the range is visited. */
  lemma {:induction false} LeadsVisited(m: Mem, a: nat, h: nat, base: nat, lo: nat, hi: nat, b: nat, x: nat, l: nat)
    requires Leads(m, a, h, base, lo, hi, b, x, l)
    ensures b in Visited(m, a, h, base, lo, hi)
    decreases h
  {
    if h > l {
      var s := Slot(h, base, x);
      assert Leads(m, Addr(Get(m, a), s), h - 1, ChildBase(h, base, s), lo, hi, b, x, l);
      LeadsVisited(m, Addr(Get(m, a), s), h - 1, ChildBase(h, base, s), lo, hi, b, x, l);
      assert Crosses(h, base, lo, hi, s);
      BelowHas(m, Get(m, a), h, base, lo, hi, s, 512);
      hide Leads, Slot, ChildBase, Crosses, Cap;
    }
  }

  /** What is visited is on the way to a byte of the range. */
  lemma {:induction false} VisitedLeads(m: Mem, a: nat, h: nat, base: nat, lo: nat, hi: nat, b: nat) returns (x: nat, l: nat)
    requires lo < hi && base < hi && lo < base + Cap(h) && b in Visited(m, a, h, base, lo, hi)
    ensures Leads(m, a, h, base, lo, hi, b, x, l)
    decreases h
  {
    if h == 0 || (b == a && lo <= base) {
      x, l := if lo <= base then base else lo, h;
    } else {
      var s := BelowFrom(m, Get(m, a), h, base, lo, hi, 512, b);
      assert Crosses(h, base, lo, hi, s);
      x, l := VisitedLeads(m, Addr(Get(m, a), s), h - 1, ChildBase(h, base, s), lo, hi, b);
      ChildBaseOrder(h, base);
      assert ChildBase(h, base, 0) == base;
      SlotUnique(h, base, x, s);
    }
  }

  /** Calls that visit the set find exactly the blocks on the way to the bytes of the range, and so every data block of it. */
  lemma OnceFinds(calls: seq<nat>, m: Mem, a: nat, h: nat, lo: nat, hi: nat, hi': nat)
    requires lo < hi && lo < Cap(h) && hi == (if hi' < Cap(h) then hi' else Cap(h)) && Once(calls, Visited(m, a, h, 0, lo, hi))
    ensures Finds(calls, m, a, h, lo, hi')
    ensures forall x: nat {:trigger LeafOf(m, a, h, 0, x)} | lo <= x < hi' && x < Cap(h) && LeafOf(m, a, h, 0, x) != 0 :: LeafOf(m, a, h, 0, x) in calls
  {
    hide Visited, Distinct;
    forall b: nat {:trigger b in calls}
      ensures b in calls <==> exists x: nat, l: nat :: Leads(m, a, h, 0, lo, hi', b, x, l)
    {
      if b in calls {
        var x, l := VisitedLeads(m, a, h, 0, lo, hi, b);
        assert Leads(m, a, h, 0, lo, hi', b, x, l);
      }
      forall x: nat, l: nat | Leads(m, a, h, 0, lo, hi', b, x, l)
        ensures b in calls
      {
        LeadsVisited(m, a, h, 0, lo, hi, b, x, l);
      }
    }
    forall x: nat {:trigger LeafOf(m, a, h, 0, x)} | lo <= x < hi' && x < Cap(h) && LeafOf(m, a, h, 0, x) != 0
      ensures LeafOf(m, a, h, 0, x) in calls
    {
      WayLeaf(m, a, h, 0, x);
      LeadsVisited(m, a, h, 0, lo, hi, LeafOf(m, a, h, 0, x), x, 0);
    }
  }

  /** The blocks carry labels of the subtree. */
  ghost predicate Labelled(pos: Labels, t: nat, h: nat, base: nat, s: set<nat>) {
    forall b {:trigger b in s} | b in s :: b in pos && In(pos[b], t, h, base)
  }

  /** The blocks a crawl visits are the subtree's own. */
  lemma {:induction false} VisitedOwn(m: Mem, pos: Labels, freed: set<nat>, t: nat, a: nat, h: nat, base: nat, lo: nat, hi: nat, end: nat)
    requires Proper(m, pos, freed, t, a, h, base, end) && hi <= end
    ensures Labelled(pos, t, h, base, Visited(m, a, h, base, lo, hi))
    ensures a != 0 && h > 0 ==> a !in VisitedBelow(m, Get(m, a), h, base, lo, hi, 512)
    decreases h, 513
  {
    if a != 0 && h > 0 {
      BelowOwn(m, pos, freed, t, Get(m, a), h, base, lo, hi, end, 512);
    }
  }

  lemma {:induction false} BelowOwn(m: Mem, pos: Labels, freed: set<nat>, t: nat, tbl: Block, h: nat, base: nat, lo: nat, hi: nat, end: nat, n: nat)
    requires h > 0 && n <= 512 && ProperSlots(m, pos, freed, t, tbl, h, base, end) && hi <= end
    ensures forall b {:trigger b in VisitedBelow(m, tbl, h, base, lo, hi, n)} | b in VisitedBelow(m, tbl, h, base, lo, hi, n) ::
      b in pos && In(pos[b], t, h, base) && pos[b].level < h && pos[b].start < ChildBase(h, base, n)
    decreases h, n
  {
    if n > 0 {
      BelowOwn(m, pos, freed, t, tbl, h, base, lo, hi, end, n - 1);
      ChildBaseOrder(h, base);
      if Crosses(h, base, lo, hi, n - 1) {
        VisitedOwn(m, pos, freed, t, Addr(tbl, n - 1), h - 1, ChildBase(h, base, n - 1), lo, hi, end);
      }
    }
  }

  /** The blocks of an entry are not among those of earlier entries. */
  lemma NextApart(m: Mem, pos: Labels, freed: set<nat>, t: nat, tbl: Block, h: nat, base: nat, lo: nat, hi: nat, end: nat, n: nat)
    requires h > 0 && n < 512 && ProperSlots(m, pos, freed, t, tbl, h, base, end) && hi <= end
    ensures VisitedBelow(m, tbl, h, base, lo, hi, n) !! VisitedAt(m, tbl, h, base, lo, hi, n)
  {
    BelowOwn(m, pos, freed, t, tbl, h, base, lo, hi, end, n);
    if Crosses(h, base, lo, hi, n) {
      VisitedOwn(m, pos, freed, t, Addr(tbl, n), h - 1, ChildBase(h, base, n), lo, hi, end);
    }
    hide Visited, VisitedBelow;
  }

  /** The calls visit a set of blocks, each once. */
  ghost predicate Once(calls: seq<nat>, s: set<nat>) {
    Distinct(calls) && forall b {:trigger b in s} :: b in s <==> b in calls
  }

  lemma OnceJoin(a: seq<nat>, s: set<nat>, b: seq<nat>, t: set<nat>)
    requires Once(a, s) && Once(b, t) && s !! t
    ensures Once(a + b, s + t)
  {
    forall n {:trigger n in a} | n in a
      ensures n !in b
    {
      assert n in s;
    }
    JoinDistinct(a, b);
    hide Distinct;
  }

  lemma OnceOne(b: nat)
    ensures Once([b], {b}) && Once([], {})
  {
  }
}

/** crawl_blocknos and discover_tree_allocations. */
module Discovery {
  import opened Geometry
  import opened Tree
  import opened Words
  import opened Layouts
  import opened Sequences
  import opened WriteSpec
  import opened CrawlArithmetic
  import opened ReadSpec
  import opened ReadCrawl
  import opened DiscoverySpec

  /** The entries from the first to the last are those the range touches. */
  lemma TouchedEntries(lo: nat, hi: nat, end: nat, h: nat, base: nat, blockoff: nat, off: nat, size: nat, valid: nat, c: nat, first: nat, last: nat)
    requires h > 0 && ReadShare(lo, hi, end, h, base, blockoff, off, size, valid)
    requires c == Cap(h - 1) && first == FirstNo(off, c) && last == LastNo(off, size, c)
    ensures first <= last < 512
    ensures forall s: nat {:trigger Crosses(h, base, lo, hi, s)} | s < 512 :: Crosses(h, base, lo, hi, s) <==> first <= s <= last
  {
    Ends(lo, hi, end, h, base, blockoff, off, size, valid, c, first, last);
    ChildBaseOrder(h, base);
    assert ChildBase(h, base, 0) == base;
    forall s: nat {:trigger Crosses(h, base, lo, hi, s)} | s < 512
      ensures Crosses(h, base, lo, hi, s) <==> first <= s <= last
    {
      if first <= s <= last {
        SizeShare(lo, hi, h, base, off, size, s);
      } else {
        Outside(lo, hi, h, base, first, last, s);
      }
    }
  }

  lemma Outside(lo: nat, hi: nat, h: nat, base: nat, first: nat, last: nat, s: nat)
    requires h > 0 && first <= last < 512 && s < 512 && (s < first || last < s)
    requires Max(lo, ChildBase(h, base, first)) == Max(lo, base) && Min(hi, ChildBase(h, base, last) + Cap(h - 1)) == Min(hi, base + Cap(h))
    ensures !Crosses(h, base, lo, hi, s)
  {
    ChildBaseOrder(h, base);
    assert ChildBase(h, base, 0) == base;
    if s < first {
      ChildBaseStep(h, base, s, first);
      ChildBaseStep(h, base, 0, first);
    } else {
      ChildBaseStep(h, base, last, s);
    }
    hide ChildBase, Cap;
  }

  /** Block numbers of the indirect and data blocks of a subtree's share of a range. */
  method CrawlIndirBlocks(m: Mem, a: nat, h: nat, blockoff: nat, off: nat, size: nat, valid: nat,
                          ghost base: nat, ghost lo: nat, ghost hi: nat, ghost end: nat, ghost pos: Labels, ghost freed: set<nat>, ghost t: nat)
    returns (calls: seq<nat>)
    requires h > 0 && ReadShare(lo, hi, end, h, base, blockoff, off, size, valid) && Proper(m, pos, freed, t, a, h, base, end)
    ensures Once(calls, Visited(m, a, h, base, lo, hi))
    decreases h, 1
  {
    OnceOne(a);
    calls := [];
    if a == 0 {
      return;
    }
    var c := Cap(h - 1);
    var first, last := FirstNo(off, c), LastNo(off, size, c);
    ghost var tbl := Get(m, a);
    TouchedEntries(lo, hi, end, h, base, blockoff, off, size, valid, c, first, last);
    VisitedGap(m, tbl, h, base, lo, hi, 0, first);
    VisitedGap(m, tbl, h, base, lo, hi, last + 1, 512);
    VisitedOwn(m, pos, freed, t, a, h, base, lo, hi, end);
    hide Once, FirstNo, LastNo, ChildBase, Cap, Proper, Visited, VisitedBelow;
    var no := first;
    while no <= last
      invariant first <= no <= last + 1 && Once(calls, VisitedBelow(m, tbl, h, base, lo, hi, no))
    {
      ReadShareChild(lo, hi, end, h, base, blockoff, off, size, valid, no, c, first, last);
      BelowNext(m, pos, freed, t, a, h, base, lo, hi, end, no);
      var more := CrawlEntryBlocks(m, a, h, no, ChildBlockoff(blockoff, off, c, MaxBlocks(h - 1), no, first), ChildOff(off, c, no, first),
        ChildSize(off, size, c, no, first, last), ChildValid(valid, c, no), base, lo, hi, end, pos, freed, t);
      OnceJoin(calls, VisitedBelow(m, tbl, h, base, lo, hi, no), more, VisitedAt(m, tbl, h, base, lo, hi, no));
      calls := calls + more;
      no := no + 1;
    }
    VisitedWhole(m, a, h, base, lo, hi);
    if off == 0 {
      OnceJoin(calls, VisitedBelow(m, tbl, h, base, lo, hi, 512), [a], {a});
      calls := calls + [a];
    }
  }

  lemma VisitedWhole(m: Mem, a: nat, h: nat, base: nat, lo: nat, hi: nat)
    requires h > 0 && a != 0
    ensures Visited(m, a, h, base, lo, hi) == VisitedBelow(m, Get(m, a), h, base, lo, hi, 512) + if lo <= base then {a} else {}
  {
  }

  lemma BelowNext(m: Mem, pos: Labels, freed: set<nat>, t: nat, a: nat, h: nat, base: nat, lo: nat, hi: nat, end: nat, no: nat)
    requires h > 0 && a != 0 && no < 512 && Proper(m, pos, freed, t, a, h, base, end) && hi <= end && Crosses(h, base, lo, hi, no)
    ensures var tbl := Get(m, a);
      && VisitedBelow(m, tbl, h, base, lo, hi, no + 1) == VisitedBelow(m, tbl, h, base, lo, hi, no) + VisitedAt(m, tbl, h, base, lo, hi, no)
      && VisitedBelow(m, tbl, h, base, lo, hi, no) !! VisitedAt(m, tbl, h, base, lo, hi, no)
      && VisitedAt(m, tbl, h, base, lo, hi, no) == Visited(m, Addr(tbl, no), h - 1, ChildBase(h, base, no), lo, hi)
      && Proper(m, pos, freed, t, Addr(tbl, no), h - 1, ChildBase(h, base, no), end)
  {
    NextApart(m, pos, freed, t, Get(m, a), h, base, lo, hi, end, no);
  }

  method CrawlEntryBlocks(m: Mem, a: nat, h: nat, no: nat, blockoff: nat, off: nat, size: nat, valid: nat,
                          ghost base: nat, ghost lo: nat, ghost hi: nat, ghost end: nat, ghost pos: Labels, ghost freed: set<nat>, ghost t: nat)
    returns (calls: seq<nat>)
    requires h > 0 && a != 0 && no < 512 && ReadShare(lo, hi, end, h - 1, ChildBase(h, base, no), blockoff, off, size, valid)
    requires Proper(m, pos, freed, t, Addr(Get(m, a), no), h - 1, ChildBase(h, base, no), end)
    ensures Once(calls, Visited(m, Addr(Get(m, a), no), h - 1, ChildBase(h, base, no), lo, hi))
    decreases h, 0
  {
    hide ChildBase, Once, Proper;
    assert valid > 0;
    var child := if valid == 0 then 0 else Addr(Get(m, a), no);
    if h == 1 {
      OnceOne(child);
      calls := if child == 0 then [] else [child];
    } else {
      calls := CrawlIndirBlocks(m, child, h - 1, blockoff, off, size, valid, ChildBase(h, base, no), lo, hi, end, pos, freed, t);
    }
  }

  /** A crawl over the block numbers of [off, off + size) of a file of nbytes bytes. */
  method CrawlBlocknos(m: Mem, a: nat, h: nat, nbytes: nat, off: nat, size: nat, ghost pos: Labels, ghost freed: set<nat>, ghost t: nat) returns (calls: seq<nat>)
    requires off + size <= nbytes && (off == 0 || (size > 0 && off < Cap(h))) && Proper(m, pos, freed, t, a, h, 0, nbytes)
    ensures Once(calls, if size == 0 || (h == 0 && off > 0) then {} else Visited(m, a, h, 0, off, Min(off + size, Cap(h))))
    ensures if size == 0 || (h == 0 && off > 0) then calls == [] else Distinct(calls) && Finds(calls, m, a, h, off, off + size)
    ensures size > 0 && (h > 0 || off == 0) ==>
      forall x: nat {:trigger LeafOf(m, a, h, 0, x)} | off <= x < off + size && x < Cap(h) && LeafOf(m, a, h, 0, x) != 0 :: LeafOf(m, a, h, 0, x) in calls
  {
    hide Finds, Visited, LeafOf;
    OnceOne(a);
    calls := [];
    if off + size == 0 {
      return;
    }
    var some, valid := Min(size, Cap(h) - off), Min(nbytes, Cap(h));
    if h == 0 {
      VisitedLeaf(m, a, 0, off, Min(off + size, Cap(h)));
      if off == 0 && a != 0 {
        calls := [a];
      }
    } else {
      calls := CrawlIndirBlocks(m, a, h, off / 4096, off, some, valid, 0, off, Min(off + size, Cap(h)), nbytes, pos, freed, t);
    }
    if h > 0 || off == 0 {
      OnceFinds(calls, m, a, h, off, Min(off + size, Cap(h)), off + size);
    }
  }

  lemma VisitedLeaf(m: Mem, a: nat, base: nat, lo: nat, hi: nat)
    ensures Visited(m, a, 0, base, lo, hi) == if a == 0 then {} else {a}
  {
  }

  predicate SameEnd(h: nat, base: nat, hi: nat, hi': nat) {
    Min(hi, base + Cap(h)) == Min(hi', base + Cap(h))
  }

  lemma SameEndChild(h: nat, base: nat, lo: nat, hi: nat, hi': nat, s: nat)
    requires h > 0 && s < 512 && SameEnd(h, base, hi, hi')
    ensures Crosses(h, base, lo, hi, s) == Crosses(h, base, lo, hi', s) && SameEnd(h - 1, ChildBase(h, base, s), hi, hi')
  {
    ChildBaseOrder(h, base);
    assert ChildBase(h, base, s) + Cap(h - 1) <= base + Cap(h);
    hide ChildBase, Cap;
  }

  /** A range that runs past a subtree visits no more of it. */
  lemma {:induction false} VisitedClip(m: Mem, a: nat, h: nat, base: nat, lo: nat, hi: nat, hi': nat)
    requires SameEnd(h, base, hi, hi')
    ensures Visited(m, a, h, base, lo, hi) == Visited(m, a, h, base, lo, hi')
    decreases h, 513
  {
    if a != 0 && h > 0 {
      BelowClip(m, Get(m, a), h, base, lo, hi, hi', 512);
    }
  }

  lemma {:induction false} BelowClip(m: Mem, tbl: Block, h: nat, base: nat, lo: nat, hi: nat, hi': nat, n: nat)
    requires h > 0 && n <= 512 && SameEnd(h, base, hi, hi')
    ensures VisitedBelow(m, tbl, h, base, lo, hi, n) == VisitedBelow(m, tbl, h, base, lo, hi', n)
    decreases h, n
  {
    if n > 0 {
      BelowClip(m, tbl, h, base, lo, hi, hi', n - 1);
      SameEndChild(h, base, lo, hi, hi', n - 1);
      hide SameEnd, ChildBase, Cap, Crosses;
      VisitedClip(m, Addr(tbl, n - 1), h - 1, ChildBase(h, base, n - 1), lo, hi, hi');
    }
  }

  /** The last entry discovery looks at. */
  function FinalNo(valid: nat, c: nat): nat
    requires c > 0 && valid > 0
  {
    DivBounds(valid - 1, c);
    (valid - 1) / c
  }

  /** The last entry discovery looks at, and what is valid below each. */
  lemma DiscoverLast(h: nat, base: nat, valid: nat, last: nat)
    requires h > 0 && 0 < valid <= Cap(h) && last == FinalNo(valid, Cap(h - 1))
    ensures 0 <= last < 512 && ChildBase(h, base, last) == base + last * Cap(h - 1)
    ensures ChildBase(h, base, last) < base + valid <= ChildBase(h, base, last) + Cap(h - 1)
    ensures forall s: nat {:trigger Crosses(h, base, 0, base + valid, s)} | s < 512 :: Crosses(h, base, 0, base + valid, s) <==> s <= last
    ensures forall s: nat {:trigger ChildBase(h, base, s)} | s < last :: ChildBase(h, base, s) + Cap(h - 1) < base + valid
  {
    DivSlot(h, base, base + valid - 1);
    ChildBaseMul(h, base, last);
    ChildBaseOrder(h, base);
    forall s: nat {:trigger Crosses(h, base, 0, base + valid, s)} | s < 512
      ensures Crosses(h, base, 0, base + valid, s) <==> s <= last
    {
      if s < last {
        ChildBaseStep(h, base, s, last);
      } else if last < s {
        ChildBaseStep(h, base, last, s);
      }
    }
  }

  /** Discovery stays inside the 512 entries of the top indirect block exactly when the file fits its tree. */
  lemma DiscoverInside(h: nat, nbytes: nat)
    requires h > 0 && nbytes > 0
    ensures FinalNo(nbytes, Cap(h - 1)) < 512 <==> nbytes <= Cap(h)
  {
    var c := Cap(h - 1);
    DivBounds(nbytes - 1, c);
    if nbytes <= Cap(h) {
      DiscoverLast(h, 0, nbytes, FinalNo(nbytes, c));
    } else {
      DivAtLeast(nbytes - 1, c, 512);
    }
  }

  /** How much is valid below entry no. */
  function DiscoverValid(valid: nat, c: nat, no: nat, last: nat): int {
    if no < last then c else valid - no * c
  }

  lemma DiscoverAt(h: nat, base: nat, valid: nat, last: nat, no: nat)
    requires h > 0 && 0 < valid <= Cap(h) && last == FinalNo(valid, Cap(h - 1)) && no <= last
    ensures no < 512 && Crosses(h, base, 0, base + valid, no) && DiscoverValid(valid, Cap(h - 1), no, last) > 0
    ensures ChildBase(h, base, no) + DiscoverValid(valid, Cap(h - 1), no, last) == Min(base + valid, ChildBase(h, base, no) + Cap(h - 1))
  {
    DiscoverLast(h, base, valid, last);
    assert Crosses(h, base, 0, base + valid, no);
  }

  lemma DiscoverRest(h: nat, base: nat, valid: nat, last: nat, m: Mem, tbl: Block)
    requires h > 0 && 0 < valid <= Cap(h) && last == FinalNo(valid, Cap(h - 1))
    ensures 0 <= last < 512 && VisitedBelow(m, tbl, h, base, 0, base + valid, 512) == VisitedBelow(m, tbl, h, base, 0, base + valid, last + 1)
  {
    DiscoverLast(h, base, valid, last);
    VisitedGap(m, tbl, h, base, 0, base + valid, last + 1, 512);
  }

  /** Marks the blocks below an indirect block, each block before those below it. */
  method DiscoverIndir(m: Mem, a: nat, h: nat, valid: nat, ghost base: nat, ghost pos: Labels, ghost freed: set<nat>, ghost t: nat)
    returns (marks: seq<nat>)
    requires h > 0 && a != 0 && 0 < valid <= Cap(h) && Proper(m, pos, freed, t, a, h, base, base + valid)
    ensures Once(marks, VisitedBelow(m, Get(m, a), h, base, 0, base + valid, 512))
    decreases h, 1
  {
    var c := Cap(h - 1);
    var last := FinalNo(valid, c);
    ghost var tbl, hi := Get(m, a), base + valid;
    DiscoverRest(h, base, valid, last, m, tbl);
    OnceOne(a);
    marks := [];
    hide *;
    var no := 0;
    BelowNone(m, tbl, h, base, 0, hi);
    while no <= last
      invariant 0 <= no <= last + 1 && Once(marks, VisitedBelow(m, tbl, h, base, 0, hi, no))
    {
      DiscoverAt(h, base, valid, last, no);
      BelowNext(m, pos, freed, t, a, h, base, 0, hi, hi, no);
      var more := DiscoverEntry(m, a, h, no, DiscoverValid(valid, c, no, last), base, hi, pos, freed, t);
      OnceJoin(marks, VisitedBelow(m, tbl, h, base, 0, hi, no), more, VisitedAt(m, tbl, h, base, 0, hi, no));
      marks := marks + more;
      no := no + 1;
    }
  }

  lemma BelowNone(m: Mem, tbl: Block, h: nat, base: nat, lo: nat, hi: nat)
    requires h > 0
    ensures VisitedBelow(m, tbl, h, base, lo, hi, 0) == {}
  {
  }

  method DiscoverEntry(m: Mem, a: nat, h: nat, no: nat, childValid: nat, ghost base: nat, ghost hi: nat, ghost pos: Labels, ghost freed: set<nat>, ghost t: nat)
    returns (marks: seq<nat>)
    requires h > 0 && a != 0 && no < 512 && Proper(m, pos, freed, t, Addr(Get(m, a), no), h - 1, ChildBase(h, base, no), hi)
    requires 0 < childValid && ChildBase(h, base, no) + childValid == Min(hi, ChildBase(h, base, no) + Cap(h - 1))
    ensures Once(marks, Visited(m, Addr(Get(m, a), no), h - 1, ChildBase(h, base, no), 0, hi))
    decreases h, 0
  {
    var child := Addr(Get(m, a), no);
    ghost var cb := ChildBase(h, base, no);
    OnceOne(child);
    if child == 0 {
      return [];
    }
    marks := [child];
    if h > 1 {
      ProperEnd(m, pos, freed, t, child, h - 1, cb, hi, cb + childValid);
      VisitedClip(m, child, h - 1, cb, 0, hi, cb + childValid);
      VisitedOwn(m, pos, freed, t, child, h - 1, cb, 0, cb + childValid, cb + childValid);
      VisitedWhole(m, child, h - 1, cb, 0, cb + childValid);
      hide Once, Proper, Visited, VisitedBelow, ChildBase, Cap;
      var more := DiscoverIndir(m, child, h - 1, childValid, cb, pos, freed, t);
      OnceJoin([child], {child}, more, VisitedBelow(m, Get(m, child), h - 1, cb, 0, cb + childValid, 512));
      marks := marks + more;
      assert {child} + VisitedBelow(m, Get(m, child), h - 1, cb, 0, cb + childValid, 512) == Visited(m, child, h - 1, cb, 0, hi);
    }
  }

  method DiscoverTree(m: Mem, a: nat, h: nat, nbytes: nat, ghost pos: Labels, ghost freed: set<nat>, ghost t: nat) returns (marks: seq<nat>)
    requires (a != 0 && h > 0 ==> 0 < nbytes <= Cap(h)) && Proper(m, pos, freed, t, a, h, 0, nbytes)
    ensures Once(marks, Visited(m, a, h, 0, 0, nbytes)) && Distinct(marks)
    ensures nbytes > 0 ==> Finds(marks, m, a, h, 0, nbytes)
    ensures forall x: nat {:trigger LeafOf(m, a, h, 0, x)} | x < nbytes && x < Cap(h) && LeafOf(m, a, h, 0, x) != 0 :: LeafOf(m, a, h, 0, x) in marks
  {
    marks := MarkTree(m, a, h, nbytes, pos, freed, t);
    hide Visited, Finds, LeafOf;
    if nbytes > 0 {
      if h == 0 || a == 0 {
        VisitedNone(m, a, h, 0, nbytes, Min(nbytes, Cap(h)));
      }
      OnceFinds(marks, m, a, h, 0, Min(nbytes, Cap(h)), nbytes);
    }
  }

  lemma VisitedNone(m: Mem, a: nat, h: nat, lo: nat, hi: nat, hi': nat)
    requires h == 0 || a == 0
    ensures Visited(m, a, h, 0, lo, hi) == Visited(m, a, h, 0, lo, hi')
  {
  }

  method MarkTree(m: Mem, a: nat, h: nat, nbytes: nat, ghost pos: Labels, ghost freed: set<nat>, ghost t: nat) returns (marks: seq<nat>)
    requires (a != 0 && h > 0 ==> 0 < nbytes <= Cap(h)) && Proper(m, pos, freed, t, a, h, 0, nbytes)
    ensures Once(marks, Visited(m, a, h, 0, 0, nbytes))
  {
    OnceOne(a);
    if a == 0 {
      return [];
    }
    marks := [a];
    if h > 0 {
      VisitedOwn(m, pos, freed, t, a, h, 0, 0, nbytes, nbytes);
      VisitedWhole(m, a, h, 0, 0, nbytes);
      hide Once, Proper, Visited, VisitedBelow, Cap;
      var more := DiscoverIndir(m, a, h, nbytes, 0, pos, freed, t);
      OnceJoin([a], {a}, more, VisitedBelow(m, Get(m, a), h, 0, 0, nbytes, 512));
      marks := marks + more;
      assert {a} + VisitedBelow(m, Get(m, a), h, 0, 0, nbytes, 512) == Visited(m, a, h, 0, 0, nbytes);
    }
  }

  lemma {:induction false} DistinctCount(s: seq<nat>, x: nat)
    requires Distinct(s)
    ensures multiset(s)[x] == if x in s then 1 else 0
  {
    if s != [] {
      assert s == [s[0]] + s[1..];
      assert multiset(s) == multiset{s[0]} + multiset(s[1..]);
      DistinctCount(s[1..], x);
    }
  }

  /** A crawl of the whole file calls back exactly on the blocks that discovery marks, each once. */
  method TwoTraversals(m: Mem, a: nat, h: nat, nbytes: nat, ghost pos: Labels, ghost freed: set<nat>, ghost t: nat) returns (calls: seq<nat>, marks: seq<nat>)
    requires 0 < nbytes <= Cap(h) && Proper(m, pos, freed, t, a, h, 0, nbytes)
    ensures multiset(calls) == multiset(marks) && Distinct(calls) && Distinct(marks)
    ensures Finds(calls, m, a, h, 0, nbytes)
    ensures forall x: nat {:trigger LeafOf(m, a, h, 0, x)} | x < nbytes && LeafOf(m, a, h, 0, x) != 0 :: LeafOf(m, a, h, 0, x) in calls && LeafOf(m, a, h, 0, x) in marks
  {
    hide Proper, Visited, Cap, LeafOf, Finds;
    calls := CrawlBlocknos(m, a, h, nbytes, 0, nbytes, pos, freed, t);
    marks := DiscoverTree(m, a, h, nbytes, pos, freed, t);
    forall x
      ensures multiset(calls)[x] == multiset(marks)[x]
    {
      if x >= 0 {
        DistinctCount(calls, x);
        DistinctCount(marks, x);
        assert x in Visited(m, a, h, 0, 0, nbytes) <==> x in calls;
      }
    }
  }
}
