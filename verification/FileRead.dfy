/** Reading a file: what the pieces gathered by a crawl amount to. */
module ReadReply {
  import opened Words
  import opened Geometry
  import opened Tree
  import opened WriteSpec
  import opened ReadSpec
  import opened ReadCrawl

  /** Byte i of the piece that a call adds to the reply; beyond is what lies in memory behind the block. */
  function CallByte(m: Mem, c: Call, beyond: nat -> Byte, i: nat): Byte {
    if c.off + i >= 4096 then beyond(c.off + i - 4096) else if c.block == 0 then 0 else ByteAt(Get(m, c.block), c.off + i)
  }

  function CallBytes(m: Mem, c: Call, beyond: nat -> Byte): (s: seq<Byte>)
    ensures |s| == c.size && forall i {:trigger s[i]} | 0 <= i < c.size :: s[i] == CallByte(m, c, beyond, i)
  {
    seq<Byte>(c.size, i requires 0 <= i => CallByte(m, c, beyond, i))
  }

  /** The pieces, one after the other. */
  function Reply(m: Mem, calls: seq<Call>, beyond: nat -> Byte): seq<Byte> {
    if calls == [] then [] else CallBytes(m, calls[0], beyond) + Reply(m, calls[1..], beyond)
  }

  lemma {:induction false} ReplyJoin(m: Mem, a: seq<Call>, b: seq<Call>, beyond: nat -> Byte)
    ensures Reply(m, a + b, beyond) == Reply(m, a, beyond) + Reply(m, b, beyond)
  {
    if a == [] {
      assert a + b == b;
    } else {
      assert (a + b)[1..] == a[1..] + b;
      ReplyJoin(m, a[1..], b, beyond);
    }
  }

  lemma {:induction false} TilesLength(m: Mem, calls: seq<Call>, lo: nat, hi: nat, beyond: nat -> Byte)
    requires Tiles(calls, lo, hi)
    ensures lo <= hi && |Reply(m, calls, beyond)| == hi - lo
  {
    if calls != [] {
      TilesLength(m, calls[1..], lo + calls[0].size, hi, beyond);
    }
  }

  /** The pieces are as long as the range unless the first runs past its block; then they are longer. */
  lemma CoversLength(m: Mem, calls: seq<Call>, lo: nat, hi: nat, skew: bool, beyond: nat -> Byte)
    requires Covers(calls, lo, hi, skew)
    ensures |Reply(m, calls, beyond)| >= hi - lo && (|Reply(m, calls, beyond)| == hi - lo <==> !skew)
  {
    if skew {
      TilesLength(m, calls[1..], BlockEnd(lo), hi, beyond);
    } else {
      TilesLength(m, calls, lo, hi, beyond);
    }
  }

  /** One call that tells the truth adds the bytes of the file. */
  lemma CallReads(m: Mem, a: nat, h: nat, base: nat, end: nat, c: Call, lo: nat, hi: nat, beyond: nat -> Byte, i: nat)
    requires base % 4096 == 0 && Piece(c, lo, hi) && Truthful(m, a, h, base, end, c) && base <= lo && hi <= base + Cap(h) && i < c.size
    ensures CallBytes(m, c, beyond)[i] == Read(m, a, h, base, lo + i)
  {
    hide LeafOf, Read, ByteAt, Cap;
    InBlock(lo, c.blockoff);
    InBlock(lo + i, c.blockoff);
    ReadLeaf(m, a, h, base, lo + i, 4096 * c.blockoff);
  }

  lemma Rest(m: Mem, a: nat, h: nat, base: nat, end: nat, calls: seq<Call>)
    requires AllTruthful(m, a, h, base, end, calls) && calls != []
    ensures Truthful(m, a, h, base, end, calls[0]) && AllTruthful(m, a, h, base, end, calls[1..])
  {
    hide Truthful;
  }

  /** Calls that tile a range and tell the truth add up to the bytes of the file. */
  lemma {:induction false} ReplyReads(m: Mem, a: nat, h: nat, base: nat, end: nat, calls: seq<Call>, lo: nat, hi: nat, beyond: nat -> Byte, i: nat)
    requires base % 4096 == 0 && Tiles(calls, lo, hi) && AllTruthful(m, a, h, base, end, calls) && base <= lo && hi <= base + Cap(h) && i < hi - lo
    ensures i < |Reply(m, calls, beyond)| && Reply(m, calls, beyond)[i] == Read(m, a, h, base, lo + i)
  {
    hide Truthful, AllTruthful, Read, Cap, CallByte;
    TilesLength(m, calls, lo, hi, beyond);
    Rest(m, a, h, base, end, calls);
    if i < calls[0].size {
      CallReads(m, a, h, base, end, calls[0], lo, hi, beyond, i);
    } else {
      ReplyReads(m, a, h, base, end, calls[1..], lo + calls[0].size, hi, beyond, i - calls[0].size);
    }
  }

  predicate Holes(calls: seq<Call>) {
    forall i {:trigger calls[i]} | 0 <= i < |calls| :: calls[i].block == 0
  }

  lemma {:induction false} ReplyZeros(m: Mem, calls: seq<Call>, lo: nat, hi: nat, beyond: nat -> Byte, i: nat)
    requires Tiles(calls, lo, hi) && Holes(calls) && i < hi - lo
    ensures i < |Reply(m, calls, beyond)| && Reply(m, calls, beyond)[i] == 0
  {
    TilesLength(m, calls, lo, hi, beyond);
    if i < calls[0].size {
      InBlock(lo, calls[0].blockoff);
    } else {
      ReplyZeros(m, calls[1..], lo + calls[0].size, hi, beyond, i - calls[0].size);
    }
  }
}

/** crawl_tree with COMMIT_NONE and callback_read, and the read request on top of it. */
module FileRead {
  import opened Words
  import opened Geometry
  import opened Tree
  import opened WriteSpec
  import opened CrawlArithmetic
  import opened Root
  import opened Height
  import opened ReadSpec
  import opened ReadCrawl
  import opened ReadReply

  /** The calls made, unless an assertion of the crawl fails. */
  datatype Crawl = Calls(calls: seq<Call>) | Aborts

  /** Byte x of a file stored in a tree; a file longer than its tree reads as zeros beyond it. */
  function TreeByte(m: Mem, a: nat, h: nat, x: nat): Byte {
    if x < Cap(h) then Read(m, a, h, 0, x) else 0
  }

  ghost predicate Answers(m: Mem, a: nat, h: nat, off: nat, size: nat, reply: seq<Byte>) {
    |reply| == size && forall i {:trigger reply[i]} | 0 <= i < size :: reply[i] == TreeByte(m, a, h, off + i)
  }

  /** The part of the range that the crawl of the tree is given; the subtraction is one of 64-bit numbers. */
  function TreePart(cap: nat, off: nat, size: nat): nat {
    Min(size, (cap - off) % TWO64)
  }

  lemma TreePartIs(cap: nat, off: nat, size: nat)
    requires cap <= MAX_SIZE && off + size <= MAX_SIZE
    ensures TreePart(cap, off, size) == if off <= cap then Min(size, cap - off) else size
  {
  }

  /** A range that the tree covers is read right unless it overruns a hole. A range that starts in the tree and ends beyond it
      is read right only if it also starts at a block, or goes less far beyond than it starts inside a block. */
  predicate ReadRight(m: Mem, a: nat, h: nat, off: nat, size: nat) {
    var cap := Cap(h);
    if off > cap then h == 1 && a != 0
    else if off == cap then true
    else !Overruns(m, a, h, 0, off, Min(off + size, cap)) && (off + size <= cap || off % 4096 == 0 || off + size - cap <= off % 4096)
  }

  /** One call for each block, in order: each piece has its own slot of the reply. */
  predicate InOrder(calls: seq<Call>, off: nat, size: nat)
    requires size > 0
  {
    && |calls| == (off + size - 1) / 4096 - off / 4096 + 1
    && forall i {:trigger calls[i]} | 0 <= i < |calls| :: calls[i].blockoff == off / 4096 + i
  }

  lemma TilesInOrder(calls: seq<Call>, off: nat, size: nat)
    requires size > 0 && Tiles(calls, off, off + size)
    ensures InOrder(calls, off, size)
  {
    TilesOrder(calls, off, off + size);
    TilesBlocks(calls, off, off + size, 0);
    forall i {:trigger calls[i]} | 0 <= i < |calls|
      ensures calls[i].blockoff == off / 4096 + i
    {
      TilesBlocks(calls, off, off + size, i);
    }
  }

  /** The trailing call of crawl_hole starts inside its first block when the range does not start at a block. */
  lemma TrailStraight(cap: nat, off: nat, rest: nat, lo: nat)
    requires off <= cap && cap % 4096 == 0 && rest > 0 && lo == 4096 * (cap / 4096) + (cap - off) % 4096
    ensures Straight(lo, lo + rest) <==> off == cap || off % 4096 == 0 || rest <= off % 4096
  {
    InBlock(lo, cap / 4096);
    if off % 4096 == 0 {
      assert (cap - off) % 4096 == 0;
    } else {
      assert (cap - off) % 4096 == 4096 - off % 4096;
    }
  }

  lemma HoleBlocks(calls: seq<Call>, blockoff: nat, blk: nat, valid: nat)
    requires HoleCalls(calls, blockoff, blk, valid)
    ensures Holes(calls) && forall i {:trigger calls[i]} | 0 <= i < |calls| :: calls[i].blockoff == blockoff + i
  {
  }

  /** Beyond the capacity of a one-level tree every entry counts as missing: one call for each block. */
  method CrawlBeyond(off: nat, size: nat) returns (calls: seq<Call>)
    requires size > 0
    ensures Tiles(calls, off, off + size) && Holes(calls)
  {
    var first, last := FirstNo(off, 4096), LastNo(off, size, 4096);
    calls := [];
    var no := first;
    hide Tiles, BlockEnd;
    TilesNone(off);
    LastIs(off, size, first, last);
    while no <= last
      invariant first <= no <= last + 1 && Holes(calls) && |calls| == no - first
      invariant Tiles(calls, off, if no == first then off else Min(off + size, 4096 * no))
    {
      EntryPiece(off, size, no, first, last);
      var c := Call(0, ChildBlockoff(off / 4096, off, 4096, 1, no, first), ChildOff(off, 4096, no, first), ChildSize(off, size, 4096, no, first, last), 0);
      var at := if no == first then off else 4096 * no;
      TilesOne(c, at, Min(off + size, BlockEnd(at)));
      TilesJoin(calls, [c], off, at, Min(off + size, BlockEnd(at)));
      calls := calls + [c];
      no := no + 1;
    }
  }

  lemma TilesNone(lo: nat)
    ensures Tiles([], lo, lo)
  {
  }

  lemma LastIs(off: nat, size: nat, first: nat, last: nat)
    requires size > 0 && first == FirstNo(off, 4096) && last == LastNo(off, size, 4096)
    ensures first <= last && off + size <= 4096 * (last + 1) && 4096 * first <= off
  {
  }

  lemma EntryPiece(off: nat, size: nat, no: nat, first: nat, last: nat)
    requires size > 0 && first == FirstNo(off, 4096) && last == LastNo(off, size, 4096) && first <= no <= last
    ensures ChildBlockoff(off / 4096, off, 4096, 1, no, first) >= 0 && ChildSize(off, size, 4096, no, first, last) >= 0
    ensures var at := if no == first then off else 4096 * no;
      Piece(Call(0, ChildBlockoff(off / 4096, off, 4096, 1, no, first), ChildOff(off, 4096, no, first), ChildSize(off, size, 4096, no, first, last), 0), at, off + size)
      && BlockEnd(at) == 4096 * (no + 1)
  {
    var at := if no == first then off else 4096 * no;
    InBlock(at, no);
    assert off % 4096 / 4096 == 0;
  }

  /** A range inside the tree. */
  lemma InsideAnswers(m: Mem, a: nat, h: nat, nbytes: nat, off: nat, size: nat, calls: seq<Call>, beyond: nat -> Byte)
    requires size > 0 && off + size <= Cap(h) && Reads(m, a, h, 0, off, off + size, nbytes, calls)
    ensures Answers(m, a, h, off, size, Reply(m, calls, beyond)) <==> ReadRight(m, a, h, off, size)
    ensures ReadRight(m, a, h, off, size) ==> InOrder(calls, off, size)
  {
    hide AllTruthful, Overruns, Cap, Reply, Read, InOrder;
    CoversLength(m, calls, off, off + size, Overruns(m, a, h, 0, off, off + size), beyond);
    if ReadRight(m, a, h, off, size) {
      TilesInOrder(calls, off, size);
      forall i {:trigger Reply(m, calls, beyond)[i]} | 0 <= i < size
        ensures Reply(m, calls, beyond)[i] == TreeByte(m, a, h, off + i)
      {
        ReplyReads(m, a, h, 0, nbytes, calls, off, off + size, beyond, i);
      }
    }
  }

  /** The bytes of the tree's calls, and behind them zeros. */
  lemma AcrossBytes(m: Mem, a: nat, h: nat, nbytes: nat, off: nat, size: nat, calls: seq<Call>, trail: seq<Call>, lo: nat, beyond: nat -> Byte)
    requires off < Cap(h) < off + size && AllTruthful(m, a, h, 0, nbytes, calls) && Tiles(calls, off, Cap(h))
    requires Holes(trail) && Tiles(trail, lo, lo + (off + size - Cap(h)))
    ensures Answers(m, a, h, off, size, Reply(m, calls + trail, beyond))
  {
    hide AllTruthful, Cap, Reply, Read, Tiles, Holes;
    ReplyJoin(m, calls, trail, beyond);
    TilesLength(m, calls, off, Cap(h), beyond);
    TilesLength(m, trail, lo, lo + (off + size - Cap(h)), beyond);
    forall i {:trigger Reply(m, calls + trail, beyond)[i]} | 0 <= i < size
      ensures Reply(m, calls + trail, beyond)[i] == TreeByte(m, a, h, off + i)
    {
      if off + i < Cap(h) {
        ReplyReads(m, a, h, 0, nbytes, calls, off, Cap(h), beyond, i);
      } else {
        ReplyZeros(m, trail, lo, lo + (off + size - Cap(h)), beyond, off + i - Cap(h));
      }
    }
  }

  lemma AcrossLength(m: Mem, calls: seq<Call>, trail: seq<Call>, off: nat, cap: nat, lo: nat, rest: nat, skew: bool, skewed: bool, beyond: nat -> Byte)
    requires off <= cap && Covers(calls, off, cap, skew) && Covers(trail, lo, lo + rest, skewed)
    ensures |Reply(m, calls + trail, beyond)| == cap - off + rest <==> !skew && !skewed
  {
    hide Covers, Reply;
    ReplyJoin(m, calls, trail, beyond);
    CoversLength(m, calls, off, cap, skew, beyond);
    CoversLength(m, trail, lo, lo + rest, skewed, beyond);
  }

  /** A range that starts in the tree and ends beyond it: the calls of the tree and those of the trailing hole. */
  lemma AcrossAnswers(m: Mem, a: nat, h: nat, nbytes: nat, off: nat, size: nat, part: nat, blk: nat, lo: nat, calls: seq<Call>, trail: seq<Call>, beyond: nat -> Byte)
    requires off < Cap(h) < off + size && part == Cap(h) - off && lo == 4096 * (Cap(h) / 4096) + part % 4096
    requires Reads(m, a, h, 0, off, Cap(h), nbytes, calls)
    requires HoleCalls(trail, Cap(h) / 4096, blk, nbytes) && Covers(trail, lo, lo + (size - part), !Straight(lo, lo + (size - part)))
    ensures Answers(m, a, h, off, size, Reply(m, calls + trail, beyond)) <==> ReadRight(m, a, h, off, size)
    ensures ReadRight(m, a, h, off, size) ==> InOrder(calls + trail, off, size)
  {
    var cap, rest := Cap(h), size - part;
    CapAligned(h);
    TrailStraight(cap, off, rest, lo);
    hide AllTruthful, Overruns, Cap, Reply, Read, InOrder, Straight, HoleCalls, Tiles, Skewed, TreeByte, Holes;
    AcrossLength(m, calls, trail, off, cap, lo, rest, Overruns(m, a, h, 0, off, cap), !Straight(lo, lo + rest), beyond);
    HoleBlocks(trail, cap / 4096, blk, nbytes);
    if ReadRight(m, a, h, off, size) {
      AcrossInOrder(calls, trail, off, size, cap, lo);
      AcrossBytes(m, a, h, nbytes, off, size, calls, trail, lo, beyond);
    }
  }

  lemma AcrossInOrder(calls: seq<Call>, trail: seq<Call>, off: nat, size: nat, cap: nat, lo: nat)
    requires off < cap < off + size && cap % 4096 == 0 && lo == 4096 * (cap / 4096) + (cap - off) % 4096
    requires off % 4096 == 0 || off + size - cap <= off % 4096
    requires Tiles(calls, off, cap) && Tiles(trail, lo, lo + (off + size - cap))
    requires forall i {:trigger trail[i]} | 0 <= i < |trail| :: trail[i].blockoff == cap / 4096 + i
    ensures InOrder(calls + trail, off, size)
  {
    hide Tiles;
    var rest := off + size - cap;
    TilesInOrder(calls, off, cap - off);
    TilesInOrder(trail, lo, rest);
    AcrossCount(off, cap, rest, lo);
    var all := calls + trail;
    forall i {:trigger all[i]} | 0 <= i < |all|
      ensures all[i].blockoff == off / 4096 + i
    {
      if i >= |calls| {
        assert all[i] == trail[i - |calls|];
      }
    }
  }

  lemma AcrossCount(off: nat, cap: nat, rest: nat, lo: nat)
    requires off < cap && rest > 0 && cap % 4096 == 0 && lo == 4096 * (cap / 4096) + (cap - off) % 4096 && (off % 4096 == 0 || rest <= off % 4096)
    ensures (cap - 1) / 4096 == cap / 4096 - 1
    ensures (lo + rest - 1) / 4096 - lo / 4096 == (cap + rest - 1) / 4096 - cap / 4096
  {
    InBlock(lo, cap / 4096);
    if off % 4096 == 0 {
      assert (cap - off) % 4096 == 0;
    } else {
      assert (cap - off) % 4096 == 4096 - off % 4096;
      InBlock(lo + rest - 1, cap / 4096);
      InBlock(cap + rest - 1, cap / 4096);
    }
  }

  /** A range that starts at the end of the tree or beyond it reads as zeros. */
  lemma ZerosAnswer(m: Mem, a: nat, h: nat, off: nat, size: nat, calls: seq<Call>, beyond: nat -> Byte)
    requires size > 0 && Cap(h) <= off && Tiles(calls, off, off + size) && Holes(calls)
    ensures Answers(m, a, h, off, size, Reply(m, calls, beyond)) && InOrder(calls, off, size)
  {
    hide Reply, Read, InOrder, Cap, Tiles;
    TilesInOrder(calls, off, size);
    TilesLength(m, calls, off, off + size, beyond);
    forall i {:trigger Reply(m, calls, beyond)[i]} | 0 <= i < size
      ensures Reply(m, calls, beyond)[i] == TreeByte(m, a, h, off + i)
    {
      ReplyZeros(m, calls, off, off + size, beyond, i);
    }
  }

  /** Exactly at the end of the tree the trailing call starts at a block. */
  lemma TrailTiles(h: nat, off: nat, size: nat, nbytes: nat, trail: seq<Call>)
    requires size > 0 && off == Cap(h) && HoleCalls(trail, off / 4096, 0, nbytes)
    requires Covers(trail, 4096 * (off / 4096), 4096 * (off / 4096) + size, !Straight(4096 * (off / 4096), 4096 * (off / 4096) + size))
    ensures Tiles(trail, off, off + size) && Holes(trail)
  {
    CapAligned(h);
    HoleBlocks(trail, off / 4096, 0, nbytes);
    hide HoleCalls, Holes, Tiles, Skewed;
  }

  lemma CapBound(h: nat)
    requires h <= 5
    ensures Cap(h) <= MAX_SIZE
  {
    MaxBlocks5();
    CapMono(h, 5);
  }

  lemma RootShare(h: nat, nbytes: nat, off: nat, part: nat)
    requires 0 < part && off + part <= Cap(h) && off + part <= nbytes
    ensures ReadShare(off, off + part, nbytes, h, 0, off / 4096, off, part, Min(nbytes, Cap(h)))
    ensures h == 0 ==> off < 4096 && off / 4096 == 0
  {
  }

  /** crawl_tree for a read of [off, off + size) of a file of nbytes bytes. */
  method CrawlTree(m: Mem, a: nat, h: nat, nbytes: nat, off: nat, size: nat, ghost beyond: nat -> Byte) returns (out: Crawl)
    requires size > 0 && off + size <= nbytes <= MAX_SIZE && h <= 5
    ensures out.Aborts? <==> off > Cap(h) && !(h == 1 && a != 0)
    ensures off + size <= Cap(h) ==>
      AllTruthful(m, a, h, 0, nbytes, out.calls) && Covers(out.calls, off, off + size, Overruns(m, a, h, 0, off, off + size))
    ensures out.Calls? ==> (Answers(m, a, h, off, size, Reply(m, out.calls, beyond)) <==> ReadRight(m, a, h, off, size))
    ensures out.Calls? && ReadRight(m, a, h, off, size) ==> InOrder(out.calls, off, size)
  {
    hide *;
    var cap := Cap(h);
    CapBound(h);
    var part := TreePart(cap, off, size);
    PartCases(m, a, h, off, size, part);
    if part == 0 {
      out := CrawlAtEnd(m, a, h, nbytes, off, size, beyond);
    } else if off >= cap {
      if h == 0 || a == 0 || h > 1 {
        // crawl_leaf refuses the offset, or the range reaches crawl_hole, which refuses it as invalid
        return Aborts;
      }
      var calls := CrawlBeyond(off, part);
      ZerosAnswer(m, a, h, off, size, calls, beyond);
      out := Calls(calls);
    } else {
      var calls := CrawlTreePart(m, a, h, nbytes, off, part, Min(nbytes, cap));
      if part == size {
        InsideAnswers(m, a, h, nbytes, off, size, calls, beyond);
        InsideFacts(m, a, h, nbytes, off, size, calls);
        out := Calls(calls);
      } else {
        out := CrawlTrail(m, a, h, nbytes, off, size, part, calls, beyond);
      }
    }
  }

  lemma PartCases(m: Mem, a: nat, h: nat, off: nat, size: nat, part: nat)
    requires size > 0 && off + size <= MAX_SIZE && Cap(h) <= MAX_SIZE && part == TreePart(Cap(h), off, size)
    ensures part <= size && (part == 0 <==> off == Cap(h)) && (off > Cap(h) ==> part == size)
    ensures off < Cap(h) ==> off + part <= Cap(h) && (part == size <==> off + size <= Cap(h)) && (part < size ==> off + part == Cap(h))
    ensures off == Cap(h) ==> ReadRight(m, a, h, off, size)
    ensures off > Cap(h) ==> (ReadRight(m, a, h, off, size) <==> h == 1 && a != 0)
  {
    TreePartIs(Cap(h), off, size);
    hide Cap, TreePart, Overruns;
  }

  lemma InsideFacts(m: Mem, a: nat, h: nat, nbytes: nat, off: nat, size: nat, calls: seq<Call>)
    requires off + size <= Cap(h) && size > 0 && Reads(m, a, h, 0, off, off + size, nbytes, calls)
    ensures AllTruthful(m, a, h, 0, nbytes, calls) && Covers(calls, off, off + size, Overruns(m, a, h, 0, off, off + size))
  {
  }

  /** A range that starts exactly where the tree ends: the crawl of the tree has nothing to do. */
  method CrawlAtEnd(m: Mem, a: nat, h: nat, nbytes: nat, off: nat, size: nat, ghost beyond: nat -> Byte) returns (out: Crawl)
    requires size > 0 && off + size <= nbytes && off == Cap(h)
    ensures out.Calls? && Answers(m, a, h, off, size, Reply(m, out.calls, beyond)) && InOrder(out.calls, off, size)
  {
    hide *;
    var trail := CrawlHole(off / 4096, 0, size, nbytes);
    TrailTiles(h, off, size, nbytes, trail);
    ZerosAnswer(m, a, h, off, size, trail, beyond);
    out := Calls(trail);
  }

  /** The trailing call of crawl_hole, for a range that ends beyond the tree. */
  method CrawlTrail(m: Mem, a: nat, h: nat, nbytes: nat, off: nat, size: nat, part: nat, calls: seq<Call>, ghost beyond: nat -> Byte) returns (out: Crawl)
    requires off + size <= nbytes && 0 < part < size && off + part == Cap(h) && Reads(m, a, h, 0, off, off + part, nbytes, calls)
    ensures out.Calls? && (Answers(m, a, h, off, size, Reply(m, out.calls, beyond)) <==> ReadRight(m, a, h, off, size))
    ensures ReadRight(m, a, h, off, size) ==> InOrder(out.calls, off, size)
  {
    hide *;
    var trail := CrawlHole((off + part) / 4096, part, size - part, nbytes);
    AcrossAnswers(m, a, h, nbytes, off, size, part, part - part % 4096, 4096 * ((off + part) / 4096) + part % 4096, calls, trail, beyond);
    out := Calls(calls + trail);
  }

  method CrawlTreePart(m: Mem, a: nat, h: nat, nbytes: nat, off: nat, part: nat, valid: nat) returns (calls: seq<Call>)
    requires part > 0 && off + part <= Cap(h) && off + part <= nbytes && valid == Min(nbytes, Cap(h))
    ensures Reads(m, a, h, 0, off, off + part, nbytes, calls)
  {
    RootShare(h, nbytes, off, part);
    hide ReadShare, Reads;
    if h == 0 {
      LeafReads(m, a, 0, off, off + part, nbytes, 0, off, part, valid);
      calls := [Call(a, 0, off, part, valid)];
    } else {
      calls := CrawlIndir(m, a, h, off / 4096, off, part, valid, 0, off, off + part, nbytes);
    }
  }

  /** The bytes [off, off + n) of the file rooted at words ro, ro + 1 of block rb. */
  ghost predicate FileAnswers(m: Mem, rb: nat, ro: nat, off: nat, n: nat, reply: seq<Byte>)
    requires ro < 511
  {
    |reply| == n && forall i {:trigger reply[i]} | 0 <= i < n :: reply[i] == FileByte(m, rb, ro, off + i)
  }

  datatype Response = Bytes(bytes: seq<Byte>) | Crashed

  /** A read request: nothing beyond the end of the file, else as much of the range as the file has. It is answered with the
      bytes of the file exactly when ReadRight holds. */
  method FuseRead(m: Mem, rb: nat, ro: nat, off: nat, size: nat, beyond: nat -> Byte) returns (out: Response)
    requires ro < 511 && size > 0 && Nbytes(Get(m, rb), ro) <= MAX_SIZE && HaHeight(Get(m, rb), ro) <= 5
    ensures off >= Nbytes(Get(m, rb), ro) ==> out == Bytes([])
    ensures off < Nbytes(Get(m, rb), ro) ==>
      var n := Min(size, Nbytes(Get(m, rb), ro) - off);
      (out.Bytes? && FileAnswers(m, rb, ro, off, n, out.bytes)) <==> ReadRight(m, RootAddr(Get(m, rb), ro), RootHeight(Get(m, rb), ro), off, n)
  {
    hide ReadRight, Reply, Read, Cap, AllTruthful, Covers, Overruns, InOrder, Decode, Get;
    var blk := Get(m, rb);
    var nbytes := Nbytes(blk, ro);
    if off >= nbytes {
      return Bytes([]);
    }
    var n := Min(size, nbytes - off);
    var crawl := CrawlTree(m, RootAddr(blk, ro), RootHeight(blk, ro), nbytes, off, n, beyond);
    AbortsWrong(m, RootAddr(blk, ro), RootHeight(blk, ro), off, n);
    match crawl {
      case Calls(calls) =>
        out := Bytes(Reply(m, calls, beyond));
      case Aborts =>
        out := Crashed;
    }
  }

  lemma AbortsWrong(m: Mem, a: nat, h: nat, off: nat, size: nat)
    ensures off > Cap(h) && !(h == 1 && a != 0) ==> !ReadRight(m, a, h, off, size)
  {
  }
}
