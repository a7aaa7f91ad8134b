/** A read-only crawl: which calls it makes for a range of a file. */
module ReadSpec {
  import opened Geometry
  import opened Tree
  import opened Words
  import opened WriteSpec

  /** What the callback is told: the block (0 for a hole), its number in the file, the range in it and its valid bytes. */
  datatype Call = Call(block: nat, blockoff: nat, off: nat, size: nat, valid: nat) {
    function Start(): nat {
      4096 * blockoff + off
    }
  }

  /** The offset of the end of the block that holds offset x. */
  function BlockEnd(x: nat): nat {
    x / 4096 * 4096 + 4096
  }

  lemma BlockEndBelow(x: nat, y: nat)
    requires x < y && y % 4096 == 0
    ensures x < BlockEnd(x) <= y
  {
  }

  lemma InBlock(x: nat, b: nat)
    requires 4096 * b <= x < 4096 * b + 4096
    ensures x / 4096 == b && x % 4096 == x - 4096 * b && BlockEnd(x) == 4096 * b + 4096
  {
  }

  /** The call is for the part of [lo, hi) that lies in the block of lo. */
  predicate Piece(c: Call, lo: nat, hi: nat) {
    c.Start() == lo < hi && c.off < 4096 && c.size == Min(hi, BlockEnd(lo)) - lo
  }

  /** The calls cover a range once, in increasing order, one call for each block. */
  predicate Tiles(calls: seq<Call>, lo: nat, hi: nat) {
    if calls == [] then lo == hi else Piece(calls[0], lo, hi) && Tiles(calls[1..], lo + calls[0].size, hi)
  }

  /** The first call runs past the end of its block, and the others cover the range from there on. */
  predicate Skewed(calls: seq<Call>, lo: nat, hi: nat) {
    && calls != [] && calls[0].Start() == lo && calls[0].off < 4096 && calls[0].size > BlockEnd(lo) - lo
    && BlockEnd(lo) <= hi && Tiles(calls[1..], BlockEnd(lo), hi)
  }

  predicate Covers(calls: seq<Call>, lo: nat, hi: nat, skew: bool) {
    if skew then Skewed(calls, lo, hi) else Tiles(calls, lo, hi)
  }

  lemma {:induction false} TilesOrder(calls: seq<Call>, lo: nat, hi: nat)
    requires Tiles(calls, lo, hi)
    ensures lo <= hi && (calls == [] <==> lo == hi)
  {
    if calls != [] {
      TilesOrder(calls[1..], lo + calls[0].size, hi);
    }
  }

  lemma {:induction false} TilesJoin(a: seq<Call>, b: seq<Call>, lo: nat, mid: nat, hi: nat)
    requires Tiles(a, lo, mid) && Tiles(b, mid, hi) && (mid % 4096 == 0 || a == [] || b == [])
    ensures Tiles(a + b, lo, hi)
  {
    TilesOrder(b, mid, hi);
    if a == [] {
      assert a + b == b;
    } else if b == [] {
      assert a + b == a;
    } else {
      BlockEndBelow(lo, mid);
      TilesJoin(a[1..], b, lo + a[0].size, mid, hi);
      assert (a + b)[1..] == a[1..] + b;
    }
  }

  lemma CoversJoin(a: seq<Call>, b: seq<Call>, lo: nat, mid: nat, hi: nat, skew: bool)
    requires Covers(a, lo, mid, skew) && Tiles(b, mid, hi) && mid % 4096 == 0
    ensures Covers(a + b, lo, hi, skew)
  {
    if skew {
      TilesOrder(b, mid, hi);
      TilesJoin(a[1..], b, BlockEnd(lo), mid, hi);
      assert (a + b)[1..] == a[1..] + b;
    } else {
      TilesJoin(a, b, lo, mid, hi);
    }
  }

  lemma TilesOne(c: Call, lo: nat, hi: nat)
    requires Piece(c, lo, hi) && hi <= BlockEnd(lo)
    ensures Tiles([c], lo, hi)
  {
    assert [c][1..] == [];
  }

  /** Calls that tile a range are for consecutive blocks. */
  lemma {:induction false} TilesBlocks(calls: seq<Call>, lo: nat, hi: nat, i: nat)
    requires Tiles(calls, lo, hi) && i < |calls|
    ensures calls[i].blockoff == lo / 4096 + i && |calls| == (hi - 1) / 4096 - lo / 4096 + 1
  {
    TilesOrder(calls, lo, hi);
    TilesOrder(calls[1..], lo + calls[0].size, hi);
    InBlock(lo, calls[0].blockoff);
    if |calls| > 1 {
      TilesBlocks(calls[1..], lo + calls[0].size, hi, if i > 0 then i - 1 else 0);
    } else {
      InBlock(hi - 1, calls[0].blockoff);
    }
  }

  /** The block that holds offset x and the block after it lie below the same missing indirect block. */
  predicate Missing(m: Mem, a: nat, h: nat, base: nat, x: nat)
    requires base <= x < base + Cap(h)
    decreases h
  {
    h > 0 && if a == 0 then BlockEnd(x) < base + Cap(h) else
      var s := Geometry.Slot(h, base, x);
      Missing(m, Addr(Get(m, a), s), h - 1, ChildBase(h, base, s), x)
  }

  /** A byte is read from the leaf found for it. */
  lemma {:induction false} ReadLeaf(m: Mem, a: nat, h: nat, base: nat, x: nat, b: nat)
    requires base % 4096 == 0 && base <= x < base + Cap(h) && b == x / 4096 * 4096
    ensures base <= b < base + Cap(h) && LeafOf(m, a, h, base, b) == LeafOf(m, a, h, base, x)
    ensures var leaf := LeafOf(m, a, h, base, x); Read(m, a, h, base, x) == if leaf == 0 then 0 else ByteAt(Get(m, leaf), x - b)
    decreases h
  {
    BlockOf(h, base, x, b);
    if h > 0 && a != 0 {
      var s := Geometry.Slot(h, base, x);
      ChildAligned(h, base, s);
      ReadLeaf(m, Addr(Get(m, a), s), h - 1, ChildBase(h, base, s), x, b);
      SlotUnique(h, base, b, s);
    }
  }

  lemma BlockOf(h: nat, base: nat, x: nat, b: nat)
    requires base % 4096 == 0 && base <= x < base + Cap(h) && b == x / 4096 * 4096
    ensures base <= b && (h == 0 ==> b == base)
  {
  }

  /** A call tells the truth about the block it is for. */
  predicate Truthful(m: Mem, a: nat, h: nat, base: nat, end: nat, c: Call) {
    && base <= 4096 * c.blockoff < base + Cap(h)
    && c.block == LeafOf(m, a, h, base, 4096 * c.blockoff) && c.valid == Within(end, 4096 * c.blockoff, 4096)
  }

  predicate AllTruthful(m: Mem, a: nat, h: nat, base: nat, end: nat, calls: seq<Call>) {
    forall i {:trigger calls[i]} | 0 <= i < |calls| :: Truthful(m, a, h, base, end, calls[i])
  }

  /** The range starts inside a block, runs past its end, and the two blocks are in one hole. */
  predicate Overruns(m: Mem, a: nat, h: nat, base: nat, lo: nat, hi: nat)
    requires lo < base + Cap(h)
  {
    base <= lo && lo % 4096 != 0 && hi > BlockEnd(lo) && Missing(m, a, h, base, lo)
  }

  /** The range handed to a subtree is its share of [lo, hi); the file ends at end. */
  predicate ReadShare(lo: nat, hi: nat, end: nat, h: nat, base: nat, blockoff: nat, off: nat, size: nat, valid: nat) {
    && base % 4096 == 0 && size > 0 && hi <= end
    && base < hi && lo < base + Cap(h)
    && off == Max(lo, base) - base
    && off + size == Min(hi, base + Cap(h)) - base
    && valid == Within(end, base, Cap(h))
    && blockoff == (base + off) / 4096
  }
}

/** crawl_hole and crawl_indir with a reading callback (COMMIT_NONE). */
module ReadCrawl {
  import opened Geometry
  import opened Tree
  import opened Words
  import opened WriteSpec
  import opened CrawlArithmetic
  import opened ReadSpec

  /** A range that starts at a block or ends in the block it starts in. */
  predicate Straight(lo: nat, hi: nat) {
    lo % 4096 == 0 || hi <= BlockEnd(lo)
  }

  /** The calls for a hole, numbered from blockoff; blk is the offset of the first block and valid the end of the valid bytes. */
  predicate HoleCalls(calls: seq<Call>, blockoff: nat, blk: nat, valid: nat) {
    forall i {:trigger calls[i]} | 0 <= i < |calls| ::
      calls[i].block == 0 && calls[i].blockoff == blockoff + i && blk + 4096 * i <= valid && calls[i].valid == Min(valid - (blk + 4096 * i), 4096)
  }

  lemma HoleMore(calls: seq<Call>, blockoff: nat, blk: nat, valid: nat, c: Call)
    requires HoleCalls(calls, blockoff, blk, valid) && blk + 4096 * |calls| <= valid
    requires c.block == 0 && c.blockoff == blockoff + |calls| && c.valid == Min(valid - (blk + 4096 * |calls|), 4096)
    ensures HoleCalls(calls + [c], blockoff, blk, valid)
  {
  }

  /** One more piece of a hole. */
  lemma HolePiece(calls: seq<Call>, lo: nat, hi: nat, at: nat, c: Call)
    requires lo <= at < hi && c.Start() == at && c.off < 4096 && c.size == Min(hi - at, 4096)
    requires if calls == [] then at == lo else at % 4096 == 0 && Covers(calls, lo, at, !Straight(lo, hi))
    ensures Covers(calls + [c], lo, Min(hi, BlockEnd(at)), !Straight(lo, hi))
  {
    InBlock(at, c.blockoff);
    if calls == [] {
      assert calls + [c] == [c];
      if Straight(lo, hi) {
        TilesOne(c, at, Min(hi, BlockEnd(at)));
      } else {
        assert [c][1..] == [];
      }
    } else {
      TilesOne(c, at, Min(hi, BlockEnd(at)));
      CoversJoin(calls, [c], lo, at, Min(hi, BlockEnd(at)), !Straight(lo, hi));
    }
  }

  /** crawl_hole: the range of a hole, block by block. The first piece is not cut at the end of its block. */
  method CrawlHole(blockoff: nat, off: nat, size: nat, valid: nat) returns (calls: seq<Call>)
    requires size > 0 && off + size <= valid
    ensures HoleCalls(calls, blockoff, off - off % 4096, valid) && calls != []
    ensures var lo := 4096 * blockoff + off % 4096; Covers(calls, lo, lo + size, !Straight(lo, lo + size))
  {
    hide Covers, Straight, BlockEnd, HoleCalls;
    var at, blk, end, b := off, RoundDown(off), off + size, blockoff;
    ghost var blk0, lo := blk, 4096 * blockoff + off % 4096;
    ghost var hi := lo + size;
    calls := [];
    NoHoleCalls(blockoff, blk, valid);
    HoleStart(off, blockoff, blk, lo);
    while at < end
      invariant |calls| == b - blockoff && blk == blk0 + 4096 * |calls|
      invariant HoleCalls(calls, blockoff, blk0, valid)
      invariant if calls == [] then at == off else at == blk && Covers(calls, lo, Min(hi, lo - off + at), !Straight(lo, hi))
      decreases end + 4096 - blk
    {
      var c := Call(0, b, InBlockOff(at), Min(end - at, 4096), Min(valid - blk, 4096));
      HoleStep(blockoff, off, |calls|, at, blk, lo);
      HolePiece(calls, lo, hi, lo - off + at, c);
      HoleMore(calls, blockoff, blk0, valid, c);
      calls := calls + [c];
      b := b + 1;
      blk := blk + 4096;
      at := blk;
    }
  }

  function RoundDown(off: nat): (r: nat)
    ensures r == off - off % 4096 && r <= off < r + 4096
  {
    off - off % 4096
  }

  function InBlockOff(off: nat): (r: nat)
    ensures r == off % 4096 && r < 4096
  {
    off % 4096
  }

  lemma NoHoleCalls(blockoff: nat, blk: nat, valid: nat)
    ensures HoleCalls([], blockoff, blk, valid)
  {
  }

  lemma HoleStart(off: nat, blockoff: nat, blk: nat, lo: nat)
    requires blk == off - off % 4096 && lo == 4096 * blockoff + off % 4096
    ensures lo - off == 4096 * blockoff - blk
  {
  }

  /** Where the k-th piece of a hole starts. */
  lemma HoleStep(blockoff: nat, off: nat, k: nat, at: nat, blk: nat, lo: nat)
    requires blk == off - off % 4096 + 4096 * k && (at == blk || (at == off && k == 0)) && lo == 4096 * blockoff + off % 4096
    ensures 4096 * (blockoff + k) + at % 4096 == lo - off + at
    ensures k > 0 ==> (lo - off + at) % 4096 == 0
    ensures BlockEnd(lo - off + at) == lo - off + (blk + 4096)
  {
    InBlock(4096 * (blockoff + k) + at % 4096, blockoff + k);
  }

  /** What a subtree's calls owe its caller: they tell the truth and tile its share, but for a first piece that overruns its block. */
  predicate Reads(m: Mem, a: nat, h: nat, base: nat, lo: nat, hi: nat, end: nat, calls: seq<Call>)
    requires lo < base + Cap(h)
  {
    && AllTruthful(m, a, h, base, end, calls)
    && Covers(calls, Max(lo, base), Min(hi, base + Cap(h)), Overruns(m, a, h, base, lo, hi))
  }

  lemma LeafReads(m: Mem, a: nat, base: nat, lo: nat, hi: nat, end: nat, blockoff: nat, off: nat, size: nat, valid: nat)
    requires ReadShare(lo, hi, end, 0, base, blockoff, off, size, valid)
    ensures off + size <= 4096 && Reads(m, a, 0, base, lo, hi, end, [Call(a, blockoff, off, size, valid)])
  {
    var c := Call(a, blockoff, off, size, valid);
    InBlock(base + off, base / 4096);
    assert 4096 * blockoff == base;
    TilesOne(c, base + off, base + off + size);
  }

  lemma ValidInHole(end: nat, bb: nat, cc: nat, k: nat)
    requires k < cc && 4096 * bb + 4096 * k <= end && 4096 * k <= Within(end, 4096 * bb, 4096 * cc)
    ensures Min(Within(end, 4096 * bb, 4096 * cc) - 4096 * k, 4096) == Within(end, 4096 * (bb + k), 4096)
  {
  }

  /** The calls for a hole in a tree tell the truth. */
  lemma HoleTruthful(m: Mem, h: nat, base: nat, end: nat, off: nat, size: nat, valid: nat, blockoff: nat, calls: seq<Call>)
    requires base % 4096 == 0 && off + size <= Cap(h) && base + off + size <= end && size > 0
    requires valid == Within(end, base, Cap(h)) && blockoff == (base + off) / 4096
    requires HoleCalls(calls, blockoff, off - off % 4096, valid) && |calls| <= (off + size - 1) / 4096 - off / 4096 + 1
    ensures AllTruthful(m, 0, h, base, end, calls)
  {
    CapAligned(h);
    var bb, cc := base / 4096, Cap(h) / 4096;
    forall i {:trigger calls[i]} | 0 <= i < |calls|
      ensures Truthful(m, 0, h, base, end, calls[i])
    {
      HoleBlock(bb, off, size, cc, i);
      ValidInHole(end, bb, cc, off / 4096 + i);
    }
  }

  lemma HoleBlock(bb: nat, off: nat, size: nat, cc: nat, i: nat)
    requires size > 0 && off + size <= 4096 * cc && i <= (off + size - 1) / 4096 - off / 4096
    ensures (4096 * bb + off) / 4096 + i == bb + (off / 4096 + i) && off / 4096 + i < cc
    ensures off - off % 4096 + 4096 * i == 4096 * (off / 4096 + i) < off + size
  {
  }

  /** A hole is covered by one call for each of its blocks. */
  lemma CoversCount(calls: seq<Call>, lo: nat, hi: nat, skew: bool)
    requires Covers(calls, lo, hi, skew) && lo < hi
    ensures calls != [] && |calls| == (hi - 1) / 4096 - lo / 4096 + 1
  {
    if skew {
      InBlock(lo, lo / 4096);
      if calls[1..] != [] {
        TilesBlocks(calls[1..], BlockEnd(lo), hi, 0);
        InBlock(BlockEnd(lo), lo / 4096 + 1);
      } else {
        InBlock(hi - 1, lo / 4096);
      }
    } else {
      TilesOrder(calls, lo, hi);
      TilesBlocks(calls, lo, hi, 0);
    }
  }

  lemma SameBlocks(bb: nat, off: nat, size: nat)
    requires size > 0
    ensures (4096 * bb + off + size - 1) / 4096 - (4096 * bb + off) / 4096 == (off + size - 1) / 4096 - off / 4096
    ensures 4096 * ((4096 * bb + off) / 4096) + off % 4096 == 4096 * bb + off
  {
  }

  lemma HoleCount(calls: seq<Call>, bb: nat, blockoff: nat, off: nat, size: nat)
    requires blockoff == (4096 * bb + off) / 4096 && size > 0
    requires var at := 4096 * blockoff + off % 4096; Covers(calls, at, at + size, !Straight(at, at + size))
    ensures Covers(calls, 4096 * bb + off, 4096 * bb + off + size, !Straight(4096 * bb + off, 4096 * bb + off + size))
    ensures |calls| <= (off + size - 1) / 4096 - off / 4096 + 1
  {
    hide Covers, Straight;
    SameBlocks(bb, off, size);
    CoversCount(calls, 4096 * bb + off, 4096 * bb + off + size, !Straight(4096 * bb + off, 4096 * bb + off + size));
  }

  lemma HoleReads(m: Mem, h: nat, base: nat, lo: nat, hi: nat, end: nat, blockoff: nat, off: nat, size: nat, valid: nat, calls: seq<Call>)
    requires h > 0 && ReadShare(lo, hi, end, h, base, blockoff, off, size, valid)
    requires HoleCalls(calls, blockoff, off - off % 4096, valid)
    requires var at := 4096 * blockoff + off % 4096; Covers(calls, at, at + size, !Straight(at, at + size))
    ensures Reads(m, 0, h, base, lo, hi, end, calls)
  {
    var bb := AlignedBase(base);
    hide Covers, AllTruthful, Straight, BlockEnd, Cap, HoleCalls, Overruns;
    HoleCount(calls, bb, blockoff, off, size);
    CapAligned(h);
    StraightHole(base, Cap(h), lo, hi);
    HoleTruthful(m, h, base, end, off, size, valid, blockoff, calls);
    HoleOverruns(m, h, base, lo, hi);
  }

  lemma AlignedBase(base: nat) returns (bb: nat)
    requires base % 4096 == 0
    ensures base == 4096 * bb
  {
    bb := base / 4096;
  }

  lemma HoleOverruns(m: Mem, h: nat, base: nat, lo: nat, hi: nat)
    requires h > 0 && lo < base + Cap(h)
    ensures Overruns(m, 0, h, base, lo, hi) <==> base <= lo && lo % 4096 != 0 && hi > BlockEnd(lo) && BlockEnd(lo) < base + Cap(h)
  {
  }

  lemma StraightHole(base: nat, cap: nat, lo: nat, hi: nat)
    requires base % 4096 == 0 && cap % 4096 == 0 && lo < base + cap && base < hi
    ensures Straight(Max(lo, base), Min(hi, base + cap)) <==> !(base <= lo && lo % 4096 != 0 && hi > BlockEnd(lo) && BlockEnd(lo) < base + cap)
  {
  }

  /** A child tells the truth about the whole tree too. */
  lemma ChildTruthful(m: Mem, a: nat, h: nat, base: nat, end: nat, s: nat, calls: seq<Call>)
    requires h > 0 && a != 0 && s < 512 && AllTruthful(m, Addr(Get(m, a), s), h - 1, ChildBase(h, base, s), end, calls)
    ensures AllTruthful(m, a, h, base, end, calls)
  {
    ChildBaseOrder(h, base);
    forall i {:trigger calls[i]} | 0 <= i < |calls|
      ensures Truthful(m, a, h, base, end, calls[i])
    {
      SlotUnique(h, base, 4096 * calls[i].blockoff, s);
    }
  }

  lemma TruthfulJoin(m: Mem, a: nat, h: nat, base: nat, end: nat, calls: seq<Call>, more: seq<Call>)
    requires AllTruthful(m, a, h, base, end, calls) && AllTruthful(m, a, h, base, end, more)
    ensures AllTruthful(m, a, h, base, end, calls + more)
  {
    hide Truthful;
  }

  /** The range overruns exactly when the first entry's does. */
  lemma OverrunsChild(m: Mem, a: nat, h: nat, base: nat, lo: nat, hi: nat, s: nat)
    requires h > 0 && a != 0 && s < 512 && lo < base + Cap(h) && lo < ChildBase(h, base, s) + Cap(h - 1)
    ensures lo < ChildBase(h, base, s) ==> !Overruns(m, Addr(Get(m, a), s), h - 1, ChildBase(h, base, s), lo, hi)
    ensures ChildBase(h, base, s) <= lo ==> (Overruns(m, a, h, base, lo, hi) <==> Overruns(m, Addr(Get(m, a), s), h - 1, ChildBase(h, base, s), lo, hi))
    ensures lo < base ==> !Overruns(m, a, h, base, lo, hi)
  {
    if ChildBase(h, base, s) <= lo {
      SlotUnique(h, base, lo, s);
    }
  }

  /** Part of the way through the entries of an indirect block. */
  predicate Partly(m: Mem, a: nat, h: nat, base: nat, lo: nat, hi: nat, end: nat, calls: seq<Call>, upto: nat)
    requires lo < base + Cap(h)
  {
    && AllTruthful(m, a, h, base, end, calls)
    && if calls == [] then upto == Max(lo, base) else Covers(calls, Max(lo, base), upto, Overruns(m, a, h, base, lo, hi))
  }

  lemma PartlyMore(m: Mem, a: nat, h: nat, base: nat, lo: nat, hi: nat, end: nat, calls: seq<Call>, s: nat, more: seq<Call>)
    requires h > 0 && a != 0 && s < 512 && lo < base + Cap(h) && lo < ChildBase(h, base, s) + Cap(h - 1) && ChildBase(h, base, s) < hi && base % 4096 == 0 && lo < hi
    requires Partly(m, a, h, base, lo, hi, end, calls, Max(lo, ChildBase(h, base, s)))
    requires if calls == [] then lo < ChildBase(h, base, s) ==> lo < base else lo < ChildBase(h, base, s)
    requires Reads(m, Addr(Get(m, a), s), h - 1, ChildBase(h, base, s), lo, hi, end, more)
    ensures Partly(m, a, h, base, lo, hi, end, calls + more, Min(hi, ChildBase(h, base, s) + Cap(h - 1))) && calls + more != []
  {
    hide AllTruthful, Overruns, Covers, ChildBase, Cap;
    var cb := ChildBase(h, base, s);
    ChildTruthful(m, a, h, base, end, s, more);
    TruthfulJoin(m, a, h, base, end, calls, more);
    OverrunsChild(m, a, h, base, lo, hi, s);
    ChildAligned(h, base, s);
    CoversMore(calls, more, lo, hi, base, cb, cb + Cap(h - 1), Overruns(m, a, h, base, lo, hi), Overruns(m, Addr(Get(m, a), s), h - 1, cb, lo, hi));
  }

  /** The calls of one more entry, whose range is [cb, ce). */
  lemma CoversMore(calls: seq<Call>, more: seq<Call>, lo: nat, hi: nat, base: nat, cb: nat, ce: nat, skew: bool, skewed: bool)
    requires lo < ce && cb < ce && cb < hi && cb % 4096 == 0 && lo < hi
    requires if calls == [] then Max(lo, cb) == Max(lo, base) && (lo < cb ==> lo < base) else lo < cb && Covers(calls, Max(lo, base), cb, skew)
    requires (lo < cb ==> !skewed) && (cb <= lo ==> skewed == skew) && (lo < base ==> !skew)
    requires Covers(more, Max(lo, cb), Min(hi, ce), skewed)
    ensures Covers(calls + more, Max(lo, base), Min(hi, ce), skew) && calls + more != []
  {
    SomeCalls(more, Max(lo, cb), Min(hi, ce), skewed);
    if calls == [] {
      assert calls + more == more;
    } else {
      hide Skewed, Tiles;
      CoversJoin(calls, more, Max(lo, base), cb, Min(hi, ce), skew);
    }
  }

  lemma SomeCalls(calls: seq<Call>, lo: nat, hi: nat, skew: bool)
    requires Covers(calls, lo, hi, skew) && lo < hi
    ensures calls != []
  {
  }

  lemma ReadShareChild(lo: nat, hi: nat, end: nat, h: nat, base: nat, blockoff: nat, off: nat, size: nat, valid: nat, no: nat, c: nat, first: nat, last: nat)
    requires h > 0 && ReadShare(lo, hi, end, h, base, blockoff, off, size, valid)
    requires c == Cap(h - 1) && first == FirstNo(off, c) && last == LastNo(off, size, c) && first <= no <= last
    ensures last < 512 && ChildBlockoff(blockoff, off, c, MaxBlocks(h - 1), no, first) >= 0 && ChildSize(off, size, c, no, first, last) >= 0
    ensures ReadShare(lo, hi, end, h - 1, ChildBase(h, base, no), ChildBlockoff(blockoff, off, c, MaxBlocks(h - 1), no, first),
      ChildOff(off, c, no, first), ChildSize(off, size, c, no, first, last), ChildValid(valid, c, no))
  {
    OffShare(lo, h, base, off, no);
    SizeShare(lo, hi, h, base, off, size, no);
    BlockoffShare(h, base, off, no, first);
    ValidShare(end, h, base, valid, no);
    hide ChildOff, ChildSize, ChildValid, ChildBlockoff;
  }

  /** Where the first and the last entry lie. */
  lemma Ends(lo: nat, hi: nat, end: nat, h: nat, base: nat, blockoff: nat, off: nat, size: nat, valid: nat, c: nat, first: nat, last: nat)
    requires h > 0 && ReadShare(lo, hi, end, h, base, blockoff, off, size, valid)
    requires c == Cap(h - 1) && first == FirstNo(off, c) && last == LastNo(off, size, c)
    ensures first <= last < 512 && Max(lo, ChildBase(h, base, first)) == Max(lo, base)
    ensures Min(hi, ChildBase(h, base, last) + Cap(h - 1)) == Min(hi, base + Cap(h))
    ensures forall no: nat {:trigger ChildBase(h, base, no)} | first < no <= last :: lo < ChildBase(h, base, no) < hi
    ensures forall no: nat {:trigger ChildBase(h, base, no)} | no < last :: ChildBase(h, base, no) + Cap(h - 1) <= ChildBase(h, base, last) < hi
  {
    DivSlot(h, base, base + off);
    DivSlot(h, base, base + off + size - 1);
    ChildBaseOrder(h, base);
    if last < first {
      ChildBaseStep(h, base, last, first);
    }
    FirstBase(lo, h, base, off, first);
  }

  lemma FirstBase(lo: nat, h: nat, base: nat, off: nat, first: nat)
    requires h > 0 && lo < base + Cap(h) && off == Max(lo, base) - base && first == off / Cap(h - 1)
    ensures Max(lo, ChildBase(h, base, first)) == Max(lo, base)
  {
    if lo <= base {
      DivUnique(0, Cap(h - 1), 0);
    } else {
      DivSlot(h, base, lo);
    }
  }

  /** How far the entries below `no` reach. */
  function Upto(h: nat, base: nat, lo: nat, hi: nat, no: nat, last: nat): nat
    requires h > 0
  {
    if no <= last then Max(lo, ChildBase(h, base, no)) else Min(hi, base + Cap(h))
  }

  lemma UptoNext(lo: nat, hi: nat, end: nat, h: nat, base: nat, blockoff: nat, off: nat, size: nat, valid: nat, no: nat, c: nat, first: nat, last: nat)
    requires h > 0 && ReadShare(lo, hi, end, h, base, blockoff, off, size, valid)
    requires c == Cap(h - 1) && first == FirstNo(off, c) && last == LastNo(off, size, c) && first <= no <= last
    ensures Upto(h, base, lo, hi, no + 1, last) == Min(hi, ChildBase(h, base, no) + Cap(h - 1))
    ensures Upto(h, base, lo, hi, first, last) == Max(lo, base)
    ensures Upto(h, base, lo, hi, no, last) == Max(lo, ChildBase(h, base, no)) && Upto(h, base, lo, hi, last + 1, last) == Min(hi, base + Cap(h))
    ensures no > first ==> lo < ChildBase(h, base, no)
    ensures lo < ChildBase(h, base, first) ==> lo < base
  {
    Ends(lo, hi, end, h, base, blockoff, off, size, valid, c, first, last);
    assert ChildBase(h, base, no + 1) == ChildBase(h, base, no) + Cap(h - 1);
    hide ChildBase, Cap;
  }

  lemma PartlyNone(m: Mem, a: nat, h: nat, base: nat, lo: nat, hi: nat, end: nat)
    requires lo < base + Cap(h)
    ensures Partly(m, a, h, base, lo, hi, end, [], Max(lo, base))
  {
  }

  lemma PartlyAll(m: Mem, a: nat, h: nat, base: nat, lo: nat, hi: nat, end: nat, calls: seq<Call>)
    requires lo < base + Cap(h) && calls != [] && Partly(m, a, h, base, lo, hi, end, calls, Min(hi, base + Cap(h)))
    ensures Reads(m, a, h, base, lo, hi, end, calls)
  {
  }

  lemma ShareFacts(lo: nat, hi: nat, end: nat, h: nat, base: nat, blockoff: nat, off: nat, size: nat, valid: nat)
    requires ReadShare(lo, hi, end, h, base, blockoff, off, size, valid)
    ensures size > 0 && off + size <= valid && base % 4096 == 0 && lo < base + Cap(h) && base < hi && lo < hi
  {
  }

  /** The calls for a subtree's share of a range, entry by entry. */
  method CrawlIndir(m: Mem, a: nat, h: nat, blockoff: nat, off: nat, size: nat, valid: nat, ghost base: nat, ghost lo: nat, ghost hi: nat, ghost end: nat)
    returns (calls: seq<Call>)
    requires h > 0 && ReadShare(lo, hi, end, h, base, blockoff, off, size, valid)
    ensures lo < base + Cap(h) && Reads(m, a, h, base, lo, hi, end, calls)
    decreases h, 1
  {
    hide *;
    ShareFacts(lo, hi, end, h, base, blockoff, off, size, valid);
    if a == 0 {
      calls := CrawlHole(blockoff, off, size, valid);
      HoleReads(m, h, base, lo, hi, end, blockoff, off, size, valid, calls);
      return;
    }
    var c := Cap(h - 1);
    var first, last := FirstNo(off, c), LastNo(off, size, c);
    calls := [];
    var no := first;
    PartlyNone(m, a, h, base, lo, hi, end);
    Ends(lo, hi, end, h, base, blockoff, off, size, valid, c, first, last);
    UptoNext(lo, hi, end, h, base, blockoff, off, size, valid, first, c, first, last);
    while no <= last
      invariant first <= no <= last + 1
      invariant Partly(m, a, h, base, lo, hi, end, calls, Upto(h, base, lo, hi, no, last))
      invariant no == first <==> calls == []
    {
      ReadShareChild(lo, hi, end, h, base, blockoff, off, size, valid, no, c, first, last);
      UptoNext(lo, hi, end, h, base, blockoff, off, size, valid, no, c, first, last);
      ShareFacts(lo, hi, end, h - 1, ChildBase(h, base, no), ChildBlockoff(blockoff, off, c, MaxBlocks(h - 1), no, first), ChildOff(off, c, no, first),
        ChildSize(off, size, c, no, first, last), ChildValid(valid, c, no));
      var more := CrawlEntry(m, a, h, no, ChildBlockoff(blockoff, off, c, MaxBlocks(h - 1), no, first), ChildOff(off, c, no, first),
        ChildSize(off, size, c, no, first, last), ChildValid(valid, c, no), base, lo, hi, end);
      PartlyMore(m, a, h, base, lo, hi, end, calls, no, more);
      calls := calls + more;
      no := no + 1;
    }
    PartlyAll(m, a, h, base, lo, hi, end, calls);
  }

  method CrawlEntry(m: Mem, a: nat, h: nat, no: nat, blockoff: nat, off: nat, size: nat, valid: nat, ghost base: nat, ghost lo: nat, ghost hi: nat, ghost end: nat)
    returns (calls: seq<Call>)
    requires h > 0 && a != 0 && no < 512 && ReadShare(lo, hi, end, h - 1, ChildBase(h, base, no), blockoff, off, size, valid)
    ensures lo < ChildBase(h, base, no) + Cap(h - 1) && Reads(m, Addr(Get(m, a), no), h - 1, ChildBase(h, base, no), lo, hi, end, calls)
    decreases h, 0
  {
    hide Reads, ChildBase;
    assert valid > 0;
    var child := if valid == 0 then 0 else Addr(Get(m, a), no);
    if h == 1 {
      LeafReads(m, child, ChildBase(h, base, no), lo, hi, end, blockoff, off, size, valid);
      calls := [Call(child, blockoff, off, size, valid)];
    } else {
      calls := CrawlIndir(m, child, h - 1, blockoff, off, size, valid, ChildBase(h, base, no), lo, hi, end);
    }
  }
}
