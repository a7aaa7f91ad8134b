/** truncate_block_zero in MODE_BPFS: make the bytes between the end of the file and a later offset read as zero, in place. */
module ZeroFill {
  import opened Words
  import opened Geometry
  import opened Tree
  import opened Bpram
  import opened WriteSpec
  import opened WriteCrawl
  import opened CrawlArithmetic
  import opened CrawlSlots
  import opened Root
  import opened Height
  import opened WriteIndir
  import SpaceSlots

  /** Zero filling up to end is invisible to a reader of the old size, and afterwards the tree is proper up to end. */
  ghost predicate Filled(s0: Snap, s1: Snap, t: nat, a: nat, h: nat, base: nat, was: seq<Byte>, end: nat) {
    && Frame(s0, s1, t, h, base) && s1.pos == s0.pos && s1.freed == s0.freed
    && (forall m' {:trigger m' in s1.crashes} | m' in s1.crashes ::
          m' in s0.crashes || (FrameOut(s0.mem, m', s0.pos, t, h, base) && Shows(m', a, h, base, was)))
    && Proper(s1.mem, s1.pos, s1.freed, t, a, h, base, end)
    && Shows(s1.mem, a, h, base, Padded(was, end))
    && SameShape(s0.mem, s1.mem, a, h, base, |was|)
  }

  ghost predicate Fillable(s: Snap, t: nat, a: nat, h: nat, base: nat, was: seq<Byte>, end: nat) {
    && a != 0 && base <= |was| < base + Cap(h) && |was| < end
    && Proper(s.mem, s.pos, s.freed, t, a, h, base, |was|) && Shows(s.mem, a, h, base, was)
    && a in s.pos && s.pos[a] == Label(t, h, base)
  }

  method ZeroLeaf(fs: Bpram, blockno: nat, begin: nat, end: nat, ghost t: nat, ghost base: nat, ghost was: seq<Byte>, ghost absEnd: nat)
    requires fs.Valid() && Fillable(Now(fs), t, blockno, 0, base, was, absEnd)
    requires begin == |was| - base && end == Min(absEnd, base + 4096) - base
    modifies fs`mem, fs`crashes
    ensures fs.Valid() && Filled(old(Now(fs)), Now(fs), t, blockno, 0, base, was, absEnd)
  {
    hide ByteAt, Patch;
    ghost var s0 := Now(fs);
    fs.Memcpy(blockno, begin, seq<Byte>(end - begin, _ => 0));
    forall m' | Torn(s0.mem, m', blockno, begin, end - begin)
      ensures Shows(m', blockno, 0, base, was)
    {
      forall x | 0 <= x < 4096 && base + x < |was|
        ensures ByteAt(Get(m', blockno), x) == was[base + x]
      {
        LeafHolds(s0.mem, blockno, base, was, x);
      }
      LeafShows(m', blockno, base, was);
    }
    ghost var pad := Padded(was, absEnd);
    forall x | 0 <= x < 4096 && base + x < |pad|
      ensures ByteAt(Get(fs.mem, blockno), x) == pad[base + x]
    {
      if x < begin {
        LeafHolds(s0.mem, blockno, base, was, x);
      }
    }
    LeafShows(fs.mem, blockno, base, pad);
  }

  /** Changing only entries beyond the end of the file changes nothing a reader sees. */
  lemma TableKept(s: Snap, m': Mem, t: nat, a: nat, h: nat, base: nat, was: seq<Byte>)
    requires h > 0 && a != 0 && a in s.pos && s.pos[a] == Label(t, h, base)
    requires Proper(s.mem, s.pos, s.freed, t, a, h, base, |was|) && Shows(s.mem, a, h, base, was)
    requires OnlyBlock(s.mem, m', a)
    requires forall k: nat {:trigger ChildBase(h, base, k)} | k < 512 && ChildBase(h, base, k) < |was| :: Get(m', a)[k] == Get(s.mem, a)[k]
    ensures Shows(m', a, h, base, was)
    ensures Proper(m', s.pos, s.freed, t, a, h, base, |was|)
  {
    var s' := Snap(m', s.pos, s.freed, s.crashes);
    forall k: nat {:trigger ChildBase(h, base, k)} | k < 512 && ChildBase(h, base, k) < |was|
      ensures SlotIs(s', s.freed, t, h, base, Get(m', a), k, was)
    {
      EntryOf(s, t, a, h, base, was, k);
      SlotKept(s, s', s.freed, s.freed, t, h, base, Get(s.mem, a), k, was);
    }
    TableReads(s', s.freed, t, a, h, base, was);
  }

  /** Nor does it change a pointer that a reader follows. */
  lemma TableShape(s: Snap, m': Mem, t: nat, a: nat, h: nat, base: nat, end: nat)
    requires h > 0 && a != 0 && a in s.pos && s.pos[a] == Label(t, h, base)
    requires Proper(s.mem, s.pos, s.freed, t, a, h, base, end) && OnlyBlock(s.mem, m', a)
    requires forall k: nat {:trigger ChildBase(h, base, k)} | k < 512 && ChildBase(h, base, k) < end :: Get(m', a)[k] == Get(s.mem, a)[k]
    ensures SameShape(s.mem, m', a, h, base, end)
  {
    var tbl := Get(s.mem, a);
    assert ProperSlots(s.mem, s.pos, s.freed, t, tbl, h, base, end);
    forall k: nat {:trigger ChildBase(h, base, k)} | k < 512 && ChildBase(h, base, k) < end
      ensures SameShape(s.mem, m', Addr(tbl, k), h - 1, ChildBase(h, base, k), end)
    {
      SpaceSlots.LevelShape(s, m', s.freed, t, h, base, k, a, Addr(tbl, k), end);
    }
  }

  lemma NestedShape(s1: Snap, s2: Snap, t: nat, a: nat, h: nat, base: nat, end: nat, no: nat)
    requires h > 0 && a != 0 && no < 512 && Proper(s1.mem, s1.pos, s1.freed, t, a, h, base, end)
    requires Frame(s1, s2, t, h - 1, ChildBase(h, base, no)) && Get(s2.mem, a) == Get(s1.mem, a)
    requires SameShape(s1.mem, s2.mem, Addr(Get(s1.mem, a), no), h - 1, ChildBase(h, base, no), end)
    ensures SameShape(s1.mem, s2.mem, a, h, base, end)
  {
    var tbl := Get(s1.mem, a);
    assert ProperSlots(s1.mem, s1.pos, s1.freed, t, tbl, h, base, end);
    hide Frame;
    forall k: nat {:trigger ChildBase(h, base, k)} | k < 512 && ChildBase(h, base, k) < end
      ensures SameShape(s1.mem, s2.mem, Addr(tbl, k), h - 1, ChildBase(h, base, k), end)
    {
      if k != no {
        SpaceSlots.SiblingShape(s1, s2, s1.freed, t, h, base, no, k, Addr(tbl, k), end);
      }
    }
  }

  lemma EntryOf(s: Snap, t: nat, a: nat, h: nat, base: nat, f: seq<Byte>, k: nat)
    requires h > 0 && a != 0 && k < 512 && ChildBase(h, base, k) < |f|
    requires Proper(s.mem, s.pos, s.freed, t, a, h, base, |f|) && Shows(s.mem, a, h, base, f)
    ensures SlotIs(s, s.freed, t, h, base, Get(s.mem, a), k, f)
  {
    var tbl, c := Get(s.mem, a), ChildBase(h, base, k);
    assert ProperSlots(s.mem, s.pos, s.freed, t, tbl, h, base, |f|);
    ChildBaseOrder(h, base);
    forall x: nat | c <= x < c + Cap(h - 1) && x < |f|
      ensures Read(s.mem, Addr(tbl, k), h - 1, c, x) == f[x]
    {
      ReadSlot(s.mem, a, h, base, k, x);
    }
  }

  /** m' has the table of block a changed only in entries from lo on. */
  ghost predicate EntriesFrom(m: Mem, m': Mem, a: nat, lo: nat) {
    OnlyBlock(m, m', a) && forall k | 0 <= k < 512 && k < lo :: Get(m', a)[k] == Get(m, a)[k]
  }

  /** Make one entry a hole, with a store only if it is not one already. */
  method ZeroEntry(fs: Bpram, blockno: nat, no: nat)
    requires fs.Valid() && blockno in fs.used && no < 512
    modifies fs`mem, fs`crashes
    ensures fs.Valid() && fs.mem.Keys == old(fs.mem.Keys) && fs.crashes == old(fs.crashes) + iset{fs.mem}
    ensures OnlyBlock(old(fs.mem), fs.mem, blockno)
    ensures Addr(Get(fs.mem, blockno), no) == 0
    ensures forall k | 0 <= k < 512 && k != no :: Get(fs.mem, blockno)[k] == Get(old(fs.mem), blockno)[k]
  {
    WordRoundTrip(0);
    if Addr(Get(fs.mem, blockno), no) != 0 {
      fs.StoreWord(blockno, no, ToWord(0));
    } else {
      assert fs.crashes == fs.crashes + iset{fs.mem};
    }
  }

  method ZeroEntries(fs: Bpram, blockno: nat, lo: nat, hi: nat)
    requires fs.Valid() && blockno in fs.used && hi <= 512
    modifies fs`mem, fs`crashes
    ensures fs.Valid() && fs.mem.Keys == old(fs.mem.Keys) && old(fs.crashes) <= fs.crashes
    ensures EntriesFrom(old(fs.mem), fs.mem, blockno, lo)
    ensures forall k | lo <= k < hi :: Addr(Get(fs.mem, blockno), k) == 0
    ensures forall m' {:trigger m' in fs.crashes} | m' in fs.crashes :: m' in old(fs.crashes) || EntriesFrom(old(fs.mem), m', blockno, lo)
  {
    hide Decode;
    var no := lo;
    while no < hi
      invariant lo <= no
      invariant fs.Valid() && fs.mem.Keys == old(fs.mem.Keys) && old(fs.crashes) <= fs.crashes
      invariant EntriesFrom(old(fs.mem), fs.mem, blockno, lo)
      invariant forall k | lo <= k < no && k < hi :: Addr(Get(fs.mem, blockno), k) == 0
      invariant forall m' {:trigger m' in fs.crashes} | m' in fs.crashes :: m' in old(fs.crashes) || EntriesFrom(old(fs.mem), m', blockno, lo)
    {
      ghost var mid := fs.mem;
      ZeroEntry(fs, blockno, no);
      assert OnlyBlock(old(fs.mem), fs.mem, blockno);
      assert forall k | lo <= k < no && k < hi :: Addr(Get(fs.mem, blockno), k) == Addr(Get(mid, blockno), k);
      no := no + 1;
    }
  }

  /** The first entry at or above which nothing is visible, and the first beyond end. */
  lemma FillEntries(h: nat, base: nat, n: nat, end: nat, begin: nat, relEnd: nat, beginno: nat, endno: nat)
    requires h > 0 && base <= n < base + Cap(h) && n < end
    requires begin == n - base && relEnd == Min(end, base + Cap(h)) - base
    requires beginno == FirstNo(begin, Cap(h - 1)) && endno == ValidNo(relEnd, Cap(h - 1))
    ensures beginno < endno <= 512
    ensures ChildBase(h, base, beginno) <= n < ChildBase(h, base, beginno) + Cap(h - 1)
    ensures begin - beginno * Cap(h - 1) == n - ChildBase(h, base, beginno)
    ensures begin % Cap(h - 1) == n - ChildBase(h, base, beginno)
    ensures forall k: nat {:trigger ChildBase(h, base, k)} | k < 512 && ChildBase(h, base, k) < end :: k < endno
  {
    var c := Cap(h - 1);
    DivSlot(h, base, n);
    ChildBaseMul(h, base, beginno);
    DivMod(begin, c);
    DivMod(relEnd + c - 1, c);
    if endno > 512 {
      MulMono(513, endno, c);
    }
    forall k: nat {:trigger ChildBase(h, base, k)} | k < 512 && ChildBase(h, base, k) < end
      ensures k < endno
    {
      ChildBaseMul(h, base, k);
      ChildBaseOrder(h, base);
      if endno <= k {
        MulMono(endno, k, c);
      }
    }
    assert ChildBase(h, base, beginno) < end;
  }

  /** All entries of a filled table lead to the padded contents. */
  lemma FilledTable(s0: Snap, s: Snap, t: nat, a: nat, h: nat, base: nat, was: seq<Byte>, end: nat, beginno: nat, endno: nat)
    requires h > 0 && beginno < endno <= 512 && Fillable(s0, t, a, h, base, was, end)
    requires ChildBase(h, base, beginno) <= |was| < ChildBase(h, base, beginno) + Cap(h - 1)
    requires forall k: nat {:trigger ChildBase(h, base, k)} | k < 512 && ChildBase(h, base, k) < end :: k < endno
    requires s.pos == s0.pos && s.freed == s0.freed
    requires forall k | 0 <= k < beginno :: Get(s.mem, a)[k] == Get(s0.mem, a)[k]
    requires forall k: nat {:trigger ChildBase(h, base, k)} | k < beginno ::
      Kept(s0.mem, s.mem, s0.pos, s0.freed, s0.freed, t, h - 1, ChildBase(h, base, k))
    requires forall k | beginno < k < endno :: Addr(Get(s.mem, a), k) == 0
    requires SlotIs(s, s.freed, t, h, base, Get(s.mem, a), beginno, Padded(was, end))
    ensures Proper(s.mem, s.pos, s.freed, t, a, h, base, end) && Shows(s.mem, a, h, base, Padded(was, end))
  {
    var pad := Padded(was, end);
    ChildBaseOrder(h, base);
    forall k: nat {:trigger ChildBase(h, base, k)} | k < 512 && ChildBase(h, base, k) < |pad|
      ensures SlotIs(s, s.freed, t, h, base, Get(s.mem, a), k, pad)
    {
      var c := ChildBase(h, base, k);
      if k < beginno {
        assert c + Cap(h - 1) <= ChildBase(h, base, beginno);
        EntryOf(s0, t, a, h, base, was, k);
        SlotKept(s0, s, s0.freed, s.freed, t, h, base, Get(s0.mem, a), k, was);
        ProperEnd(s.mem, s.pos, s.freed, t, Addr(Get(s.mem, a), k), h - 1, c, |was|, |pad|);
      } else if k > beginno {
        assert ChildBase(h, base, beginno) + Cap(h - 1) <= c;
        HoleZero(s.mem, h - 1, c, pad);
      }
    }
    TableReads(s, s.freed, t, a, h, base, pad);
  }

  /** After the later entries are holes: still invisible, and the rest is as before. */
  lemma ZeroedEntries(s0: Snap, s1: Snap, t: nat, a: nat, h: nat, base: nat, was: seq<Byte>, end: nat, beginno: nat)
    requires h > 0 && beginno < 512 && Fillable(s0, t, a, h, base, was, end)
    requires ChildBase(h, base, beginno) <= |was| < ChildBase(h, base, beginno) + Cap(h - 1)
    requires s1.mem.Keys == s0.mem.Keys && s1.pos == s0.pos && s1.freed == s0.freed && s0.crashes <= s1.crashes
    requires EntriesFrom(s0.mem, s1.mem, a, beginno + 1)
    requires forall m' {:trigger m' in s1.crashes} | m' in s1.crashes :: m' in s0.crashes || EntriesFrom(s0.mem, m', a, beginno + 1)
    ensures Frame(s0, s1, t, h, base) && Fillable(s1, t, a, h, base, was, end) && SameShape(s0.mem, s1.mem, a, h, base, |was|)
    ensures forall m' {:trigger m' in s1.crashes} | m' in s1.crashes ::
      m' in s0.crashes || (FrameOut(s0.mem, m', s0.pos, t, h, base) && Shows(m', a, h, base, was))
  {
    hide Proper, Shows, SameShape;
    ZeroedMem(s0, s1.mem, t, a, h, base, was, end, beginno);
    forall m' {:trigger m' in s1.crashes} | m' in s1.crashes && m' !in s0.crashes
      ensures FrameOut(s0.mem, m', s0.pos, t, h, base) && Shows(m', a, h, base, was)
    {
      ZeroedMem(s0, m', t, a, h, base, was, end, beginno);
    }
  }

  lemma ZeroedMem(s: Snap, m': Mem, t: nat, a: nat, h: nat, base: nat, was: seq<Byte>, end: nat, beginno: nat)
    requires h > 0 && beginno < 512 && Fillable(s, t, a, h, base, was, end)
    requires ChildBase(h, base, beginno) <= |was| < ChildBase(h, base, beginno) + Cap(h - 1)
    requires EntriesFrom(s.mem, m', a, beginno + 1)
    ensures FrameOut(s.mem, m', s.pos, t, h, base) && Shows(m', a, h, base, was)
    ensures Proper(m', s.pos, s.freed, t, a, h, base, |was|) && SameShape(s.mem, m', a, h, base, |was|)
  {
    ChildBaseOrder(h, base);
    hide Proper, Shows, SameShape;
    forall k: nat {:trigger ChildBase(h, base, k)} | k < 512 && ChildBase(h, base, k) < |was|
      ensures Get(m', a)[k] == Get(s.mem, a)[k]
    {
    }
    TableKept(s, m', t, a, h, base, was);
    TableShape(s, m', t, a, h, base, |was|);
  }

  /** Zero filling done in the child that holds the end of the file. */
  lemma FillChild(s1: Snap, s2: Snap, t: nat, a: nat, h: nat, base: nat, was: seq<Byte>, end: nat, no: nat, child: nat)
    requires h > 0 && no < 512 && Fillable(s1, t, a, h, base, was, end) && child == Addr(Get(s1.mem, a), no)
    requires ChildBase(h, base, no) <= |was| < ChildBase(h, base, no) + Cap(h - 1)
    requires Filled(s1, s2, t, child, h - 1, ChildBase(h, base, no), was, end)
    ensures Frame(s1, s2, t, h, base)
    ensures Get(s2.mem, a) == Get(s1.mem, a)
    ensures SlotIs(s2, s2.freed, t, h, base, Get(s2.mem, a), no, Padded(was, end))
    ensures forall k: nat {:trigger ChildBase(h, base, k)} | k < no ::
      Kept(s1.mem, s2.mem, s1.pos, s1.freed, s1.freed, t, h - 1, ChildBase(h, base, k))
    ensures forall m' {:trigger m' in s2.crashes} | m' in s2.crashes ::
      m' in s1.crashes || (FrameOut(s1.mem, m', s1.pos, t, h, base) && Shows(m', a, h, base, was))
  {
    FrameLift(s1, s2, t, h, base, no);
    forall k: nat {:trigger ChildBase(h, base, k)} | k < no
      ensures Kept(s1.mem, s2.mem, s1.pos, s1.freed, s1.freed, t, h - 1, ChildBase(h, base, k))
    {
      SiblingKept(s1, s2, t, h, base, no, k, s1.freed);
    }
    ChildBaseOrder(h, base);
    forall m' {:trigger m' in s2.crashes} | m' in s2.crashes && m' !in s1.crashes
      ensures FrameOut(s1.mem, m', s1.pos, t, h, base) && Shows(m', a, h, base, was)
    {
      assert Get(m', a) == Get(s1.mem, a);
      forall k: nat {:trigger ChildBase(h, base, k)} | k < 512 && ChildBase(h, base, k) < |was|
        ensures Shows(m', Addr(Get(m', a), k), h - 1, ChildBase(h, base, k), was)
      {
        if k != no {
          EntryOf(s1, t, a, h, base, was, k);
          assert Kept(s1.mem, m', s1.pos, s1.freed, s1.freed, t, h - 1, ChildBase(h, base, k));
          ProperFrame(s1.mem, m', s1.pos, s1.pos, s1.freed, s1.freed, t, Addr(Get(s1.mem, a), k), h - 1, ChildBase(h, base, k), |was|);
        }
      }
      MemTableReads(m', a, h, base, was);
    }
  }

  /** The later entries have become holes; the entry that holds the end of the file is still to be done. */
  ghost predicate Trimmed(s0: Snap, s1: Snap, t: nat, a: nat, h: nat, base: nat, was: seq<Byte>, end: nat, beginno: nat, endno: nat) {
    && h > 0 && Fillable(s0, t, a, h, base, was, end) && Fillable(s1, t, a, h, base, was, end)
    && beginno < endno <= 512
    && ChildBase(h, base, beginno) <= |was| < ChildBase(h, base, beginno) + Cap(h - 1)
    && (forall k: nat {:trigger ChildBase(h, base, k)} | k < 512 && ChildBase(h, base, k) < end :: k < endno)
    && Frame(s0, s1, t, h, base) && s1.pos == s0.pos && s1.freed == s0.freed
    && EntriesFrom(s0.mem, s1.mem, a, beginno + 1) && SameShape(s0.mem, s1.mem, a, h, base, |was|)
    && (forall k | beginno < k < endno :: Addr(Get(s1.mem, a), k) == 0)
    && (forall m' {:trigger m' in s1.crashes} | m' in s1.crashes ::
          m' in s0.crashes || (FrameOut(s0.mem, m', s0.pos, t, h, base) && Shows(m', a, h, base, was)))
  }

  lemma TrimmedKept(s0: Snap, s1: Snap, t: nat, a: nat, h: nat, base: nat, was: seq<Byte>, end: nat, beginno: nat, endno: nat, k: nat)
    requires Trimmed(s0, s1, t, a, h, base, was, end, beginno, endno)
    ensures Kept(s0.mem, s1.mem, s0.pos, s0.freed, s0.freed, t, h - 1, ChildBase(h, base, k))
  {
  }

  lemma FillHole(s0: Snap, s1: Snap, t: nat, a: nat, h: nat, base: nat, was: seq<Byte>, end: nat, beginno: nat, endno: nat)
    requires Trimmed(s0, s1, t, a, h, base, was, end, beginno, endno)
    requires Addr(Get(s1.mem, a), beginno) == 0
    ensures Filled(s0, s1, t, a, h, base, was, end)
  {
    var cb := ChildBase(h, base, beginno);
    HoleZero(s1.mem, h - 1, cb, Padded(was, end));
    if cb < |was| {
      EntryOf(s1, t, a, h, base, was, beginno);
      HoleZero(s1.mem, h - 1, cb, was);
    }
    forall k: nat {:trigger ChildBase(h, base, k)} | k < beginno
      ensures Kept(s0.mem, s1.mem, s0.pos, s0.freed, s0.freed, t, h - 1, ChildBase(h, base, k))
    {
      TrimmedKept(s0, s1, t, a, h, base, was, end, beginno, endno, k);
    }
    FilledTable(s0, s1, t, a, h, base, was, end, beginno, endno);
  }

  /** Making the entry a hole whose first byte is the end of the file. */
  lemma AlignedTrimmed(s0: Snap, s1: Snap, s2: Snap, t: nat, a: nat, h: nat, base: nat, was: seq<Byte>, end: nat, beginno: nat, endno: nat)
    requires Trimmed(s0, s1, t, a, h, base, was, end, beginno, endno) && ChildBase(h, base, beginno) == |was|
    requires s2.mem.Keys == s1.mem.Keys && s2.pos == s1.pos && s2.freed == s1.freed && s2.crashes == s1.crashes + iset{s2.mem}
    requires OnlyBlock(s1.mem, s2.mem, a) && forall k | 0 <= k < 512 && k != beginno :: Get(s2.mem, a)[k] == Get(s1.mem, a)[k]
    requires Addr(Get(s2.mem, a), beginno) == 0
    ensures Filled(s0, s2, t, a, h, base, was, end)
  {
    ChildBaseOrder(h, base);
    FrameLevel(s0, s1, s2, t, h, base, a);
    forall k: nat {:trigger ChildBase(h, base, k)} | k < 512 && ChildBase(h, base, k) < |was|
      ensures Get(s2.mem, a)[k] == Get(s1.mem, a)[k]
    {
    }
    TableKept(s1, s2.mem, t, a, h, base, was);
    TableShape(s1, s2.mem, t, a, h, base, |was|);
    ShapeTrans(s0.mem, s1.mem, s2.mem, a, h, base, |was|);
    HoleZero(s2.mem, h - 1, ChildBase(h, base, beginno), Padded(was, end));
    forall k: nat {:trigger ChildBase(h, base, k)} | k < beginno
      ensures Kept(s0.mem, s2.mem, s0.pos, s0.freed, s0.freed, t, h - 1, ChildBase(h, base, k))
    {
    }
    assert forall k | beginno < k < endno :: Addr(Get(s2.mem, a), k) == Addr(Get(s1.mem, a), k);
    FilledTable(s0, s2, t, a, h, base, was, end, beginno, endno);
  }

  lemma FillNested(s0: Snap, s1: Snap, s2: Snap, t: nat, a: nat, h: nat, base: nat, was: seq<Byte>, end: nat, beginno: nat, endno: nat)
    requires Trimmed(s0, s1, t, a, h, base, was, end, beginno, endno)
    requires Filled(s1, s2, t, Addr(Get(s1.mem, a), beginno), h - 1, ChildBase(h, base, beginno), was, end)
    ensures Filled(s0, s2, t, a, h, base, was, end)
  {
    FillChild(s1, s2, t, a, h, base, was, end, beginno, Addr(Get(s1.mem, a), beginno));
    NestedShape(s1, s2, t, a, h, base, |was|, beginno);
    ShapeTrans(s0.mem, s1.mem, s2.mem, a, h, base, |was|);
    FrameTrans(s0, s1, s2, t, h, base);
    forall m' {:trigger m' in s2.crashes} | m' in s2.crashes && m' !in s0.crashes && m' !in s1.crashes
      ensures FrameOut(s0.mem, m', s0.pos, t, h, base)
    {
      forall b | b in s0.pos && !In(s0.pos[b], t, h, base)
        ensures Get(m', b) == Get(s0.mem, b)
      {
        assert Get(s1.mem, b) == Get(s0.mem, b);
      }
    }
    forall k: nat {:trigger ChildBase(h, base, k)} | k < beginno
      ensures Kept(s0.mem, s2.mem, s0.pos, s0.freed, s0.freed, t, h - 1, ChildBase(h, base, k))
    {
      assert Kept(s1.mem, s2.mem, s1.pos, s1.freed, s1.freed, t, h - 1, ChildBase(h, base, k));
    }
    FilledTable(s0, s2, t, a, h, base, was, end, beginno, endno);
  }

  lemma FillableChild(s: Snap, t: nat, a: nat, h: nat, base: nat, was: seq<Byte>, end: nat, no: nat)
    requires h > 0 && no < 512 && Fillable(s, t, a, h, base, was, end) && Addr(Get(s.mem, a), no) != 0
    requires ChildBase(h, base, no) < |was| < ChildBase(h, base, no) + Cap(h - 1)
    ensures Fillable(s, t, Addr(Get(s.mem, a), no), h - 1, ChildBase(h, base, no), was, end)
  {
    EntryOf(s, t, a, h, base, was, no);
  }

  lemma ChildEnd(h: nat, base: nat, end: nat, no: nat, relEnd: nat)
    requires h > 0 && no < 512 && relEnd == Min(end, base + Cap(h)) - base && ChildBase(h, base, no) < end
    ensures relEnd >= no * Cap(h - 1)
    ensures Min(relEnd - no * Cap(h - 1), Cap(h - 1)) == Min(end, ChildBase(h, base, no) + Cap(h - 1)) - ChildBase(h, base, no)
  {
    ChildBaseMul(h, base, no);
    ChildBaseOrder(h, base);
  }

  /** truncate_block_zero_indir: drop the entries wholly beyond the end, and fill below the entry that holds it. */
  method ZeroIndir(fs: Bpram, blockno: nat, begin: nat, end: nat, h: nat, maxNblocks: nat,
                   ghost t: nat, ghost base: nat, ghost was: seq<Byte>, ghost absEnd: nat)
    requires fs.Valid() && h > 0 && maxNblocks == MaxBlocks(h) && Fillable(Now(fs), t, blockno, h, base, was, absEnd)
    requires begin == |was| - base && end == Min(absEnd, base + Cap(h)) - base
    modifies fs`mem, fs`crashes
    ensures fs.Valid() && Filled(old(Now(fs)), Now(fs), t, blockno, h, base, was, absEnd)
    decreases h
  {
    ghost var s0 := Now(fs);
    ChildBlocks(maxNblocks, h);
    var childMaxNblocks := maxNblocks / 512;
    var c := childMaxNblocks * 4096;
    var beginno := FirstNo(begin, c);
    var endno := ValidNo(end, c);
    var beginAligned := begin % c == 0;
    FillEntries(h, base, |was|, absEnd, begin, end, beginno, endno);
    ghost var cb := ChildBase(h, base, beginno);
    hide Proper, Shows, FirstNo, ValidNo, Cap, MaxBlocks, ChildBase, Frame;
    ZeroEntries(fs, blockno, beginno + 1, endno);
    ghost var s1 := Now(fs);
    ZeroedEntries(s0, s1, t, blockno, h, base, was, absEnd, beginno);
    assert Trimmed(s0, s1, t, blockno, h, base, was, absEnd, beginno, endno);
    hide Trimmed, Filled;
    if beginAligned {
      ZeroEntry(fs, blockno, beginno);
      AlignedTrimmed(s0, s1, Now(fs), t, blockno, h, base, was, absEnd, beginno, endno);
    } else if Addr(Get(fs.mem, blockno), beginno) != 0 {
      ChildEnd(h, base, absEnd, beginno, end);
      var childBegin := begin - beginno * c;
      var childEnd := Min(end - beginno * c, c);
      var child := Addr(Get(fs.mem, blockno), beginno);
      FillableChild(s1, t, blockno, h, base, was, absEnd, beginno);
      hide Fillable;
      if h > 1 {
        ZeroIndir(fs, child, childBegin, childEnd, h - 1, childMaxNblocks, t, cb, was, absEnd);
      } else {
        ZeroLeaf(fs, child, childBegin, childEnd, t, cb, was, absEnd);
      }
      FillNested(s0, s1, Now(fs), t, blockno, h, base, was, absEnd, beginno, endno);
    } else {
      FillHole(s0, s1, t, blockno, h, base, was, absEnd, beginno, endno);
    }
  }

  /** Stores inside tree t that keep its visible contents keep the file. */
  lemma FilledFile(s0: Snap, s1: Snap, t: nat, rb: nat, ro: nat, was: seq<Byte>, end: nat)
    requires ro < 511 && rb in s0.pos && s0.pos[rb].tree != t && FileShows(s0.mem, rb, ro, was)
    requires Filled(s0, s1, t, RootAddr(Get(s0.mem, rb), ro), RootHeight(Get(s0.mem, rb), ro), 0, was, end) && |was| <= end
    ensures TreeFrame(s0, s1, t, rb, ro) && FileCrashes(s0, s1, t, rb, ro, was, was, false)
    ensures Get(s1.mem, rb) == Get(s0.mem, rb) && FileShows(s1.mem, rb, ro, was) && FileProper(s1, s1.freed, t, rb, ro)
  {
    var blk := Get(s0.mem, rb);
    var a, h := RootAddr(blk, ro), RootHeight(blk, ro);
    FileShowsTree(s0.mem, rb, ro, was);
    assert Get(s1.mem, rb) == blk;
    ProperEnd(s1.mem, s1.pos, s1.freed, t, a, h, 0, end, |was|);
    ShowsPrefix(s1.mem, a, h, 0, Padded(was, end), was);
    FileShowsTree(s1.mem, rb, ro, was);
    forall m' {:trigger m' in s1.crashes} | m' in s1.crashes && m' !in s0.crashes
      ensures RootFrame(s0, m', t, rb, ro) && FileShows(m', rb, ro, was)
    {
      assert Get(m', rb) == blk;
      FileShowsTree(m', rb, ro, was);
    }
  }

  /** Nothing to fill: the tree is a hole. */
  lemma FilledHole(s: Snap, t: nat, h: nat, was: seq<Byte>, end: nat)
    requires Shows(s.mem, 0, h, 0, was) && |was| <= end
    ensures Filled(s, s, t, 0, h, 0, was, end)
  {
    HoleZero(s.mem, h, 0, was);
    HoleZero(s.mem, h, 0, Padded(was, end));
    ShapeRefl(s.mem, 0, h, 0, |was|);
  }

  /** truncate_block_zero: zeros from the end of the file up to end, as far as the tree reaches. */
  method TruncateBlockZero(fs: Bpram, rb: nat, ro: nat, end: nat, ghost t: nat, ghost was: seq<Byte>)
    requires fs.Valid() && ro < 511 && rb in fs.used && fs.pos[rb].tree != t
    requires FileShows(fs.mem, rb, ro, was) && FileProper(Now(fs), fs.freed, t, rb, ro)
    requires |was| < end
    modifies fs`mem, fs`crashes
    ensures fs.Valid()
    ensures TreeFrame(old(Now(fs)), Now(fs), t, rb, ro) && FileCrashes(old(Now(fs)), Now(fs), t, rb, ro, was, was, false)
    ensures Get(fs.mem, rb) == old(Get(fs.mem, rb)) && FileShows(fs.mem, rb, ro, was) && FileProper(Now(fs), fs.freed, t, rb, ro)
    ensures SameShape(old(fs.mem), fs.mem, RootAddr(Get(fs.mem, rb), ro), RootHeight(Get(fs.mem, rb), ro), 0, |was|)
    ensures var blk := Get(fs.mem, rb); |was| < Cap(RootHeight(blk, ro)) ==>
      && Proper(fs.mem, fs.pos, fs.freed, t, RootAddr(blk, ro), RootHeight(blk, ro), 0, end)
      && Shows(fs.mem, RootAddr(blk, ro), RootHeight(blk, ro), 0, Padded(was, end))
  {
    ghost var s0 := Now(fs);
    var blk := Get(fs.mem, rb);
    var height, nbytes, addr := RootHeight(blk, ro), Nbytes(blk, ro), RootAddr(blk, ro);
    var maxNblocks := TreeMaxNblocks(height);
    var maxNbytes := maxNblocks * 4096;
    FileShowsTree(fs.mem, rb, ro, was);
    hide TreeFrame, FileCrashes;
    if maxNbytes <= nbytes {
      GrownSelf(s0, t);
      GrownFrame(s0, s0, t, rb, ro, was);
      ShapeRefl(s0.mem, addr, height, 0, |was|);
      return;
    }
    var stop := Min(end, maxNbytes);
    if addr == 0 {
      FilledHole(s0, t, height, was, end);
    } else {
      assert Fillable(s0, t, addr, height, 0, was, end);
      hide Fillable, Filled, Proper, Shows, RootHeight, RootAddr;
      if height == 0 {
        ZeroLeaf(fs, addr, nbytes, stop, t, 0, was, end);
      } else {
        ZeroIndir(fs, addr, nbytes, stop, height, maxNblocks, t, 0, was, end);
      }
    }
    FilledFile(s0, Now(fs), t, rb, ro, was, end);
  }
}
