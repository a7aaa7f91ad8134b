/** What a write means for a flat byte array, and what a crawl of one subtree owes its caller. */
module WriteSpec {
  import opened Words
  import opened Geometry
  import opened Tree
  import opened Bpram

  datatype Commit = CopyOnly | Atomic | Free

  function Max(a: nat, b: nat): nat {
    if a >= b then a else b
  }

  function Min(a: nat, b: nat): nat {
    if a <= b then a else b
  }

  /** The part of [0, end) that lies in the range of length len starting at base, counted from base. */
  function Within(end: nat, base: nat, len: nat): (n: nat)
    ensures n <= len
  {
    if end <= base then 0 else Min(end - base, len)
  }

  /** f extended with zeros to at least n bytes. */
  function Padded(f: seq<Byte>, n: nat): (g: seq<Byte>)
    ensures |g| == Max(|f|, n)
    ensures forall x {:trigger g[x]} | 0 <= x < |g| :: g[x] == if x < |f| then f[x] else 0
  {
    if n <= |f| then f else f + seq<Byte>(n - |f|, _ => 0)
  }

  /** The flat byte array f after a write of buf at offset off; a gap reads as zeros. */
  function FlatWrite(f: seq<Byte>, off: nat, buf: seq<Byte>): (g: seq<Byte>)
    ensures |g| == Max(|f|, off + |buf|)
    ensures forall x {:trigger g[x]} | 0 <= x < |g| ::
      g[x] == if off <= x < off + |buf| then buf[x - off] else if x < |f| then f[x] else 0
  {
    var p := Padded(f, off + |buf|);
    p[..off] + buf + p[off + |buf|..]
  }

  /** A write of n bytes at offset lo lies in one aligned word of one block, so atomic_memcpy makes it. */
  predicate OneStoreAt(lo: nat, n: nat) {
    n > 0 && lo / 4096 == (lo + n - 1) / 4096 && CanAtomicWrite(lo % 4096, n)
  }

  /** How many of the n bytes reach the file: all, unless atomic_memcpy makes the write and they cross its store unit. */
  function WriteRoom(lo: nat, n: nat): (room: nat)
    ensures room <= n && (room == n <==> ArrivesWhole(lo, n))
  {
    if OneStoreAt(lo, n) then StoreRoom(lo % 4096, n) else n
  }

  predicate ArrivesWhole(lo: nat, n: nat) {
    OneStoreAt(lo, n) ==> FitsUnit(lo % 4096, n)
  }

  /** One write: buf goes to offset lo of the file stored as tree t, whose contents were was. */
  datatype Job = Job(t: nat, was: seq<Byte>, lo: nat, buf: seq<Byte>) {
    function Hi(): nat {
      lo + |buf|
    }

    /** The old contents with the gap below lo already zero. */
    function Pad(): seq<Byte> {
      Padded(was, lo)
    }

    function New(): seq<Byte> {
      FlatWrite(was, lo, buf)
    }

    /** The new contents as far as the old size lets a reader see them. */
    function Seen(): seq<Byte> {
      New()[..|was|]
    }

    predicate Ok() {
      |buf| > 0
    }

    predicate OneStore() {
      OneStoreAt(lo, |buf|)
    }

    function Room(): (n: nat)
      ensures n <= |buf| && (n == |buf| <==> Whole())
    {
      WriteRoom(lo, |buf|)
    }

    predicate Whole() {
      ArrivesWhole(lo, |buf|)
    }

    /** What a store in place makes of the write: behind the bytes that arrive, those that were there. */
    function InPlace(): Job {
      if Hi() <= |was| then this.(buf := buf[..Room()] + was[lo + Room()..Hi()]) else this
    }
  }

  /** The write done is the write asked for, save for the bytes that did not arrive. */
  predicate Delivered(j: Job, j': Job) {
    j' == j.(buf := j'.buf) && |j'.buf| == |j.buf| && j'.buf[..j.Room()] == j.buf[..j.Room()]
  }

  lemma DeliveredWhole(j: Job, j': Job)
    requires Delivered(j, j')
    ensures j.Whole() ==> j' == j
  {
    if j.Whole() {
      assert j'.buf[..|j.buf|] == j'.buf && j.buf[..|j.buf|] == j.buf;
    }
  }

  lemma DeliveredSelf(j: Job)
    ensures Delivered(j, j)
  {
  }

  /** A store in place is sure to happen: nothing of the write lies beyond the end of the file, and its block exists. */
  predicate Sure(m: Mem, j: Job, a: nat, h: nat, base: nat, commit: Commit) {
    && commit == Atomic && j.OneStore() && j.Hi() <= |j.was|
    && base <= j.lo < base + Cap(h) && LeafOf(m, a, h, base, j.lo) != 0
  }

  /** The state of memory and allocation at one moment. */
  datatype Snap = Snap(mem: Mem, pos: Labels, freed: set<nat>, crashes: iset<Mem>)

  ghost function Now(fs: Bpram): (s: Snap)
    reads fs
    ensures s.mem == fs.mem && s.pos == fs.pos && s.freed == fs.freed && s.crashes == fs.crashes
  {
    Snap(fs.mem, fs.pos, fs.freed, fs.crashes)
  }

  ghost predicate FrameOut(m: Mem, m': Mem, pos: Labels, t: nat, h: nat, base: nat) {
    forall b {:trigger Get(m', b)} | b in pos && !In(pos[b], t, h, base) :: Get(m', b) == Get(m, b)
  }

  /** From s0 to s1 only blocks of one subtree were written, allocated or freed. */
  ghost predicate Frame(s0: Snap, s1: Snap, t: nat, h: nat, base: nat) {
    && s1.mem.Keys == s0.mem.Keys
    && FrameOut(s0.mem, s1.mem, s0.pos, t, h, base)
    && Extends(s0.pos, s1.pos)
    && (forall b {:trigger b in s1.pos} | b in s1.pos && b !in s0.pos :: In(s1.pos[b], t, h, base))
    && s0.freed <= s1.freed
    && (forall b {:trigger b in s1.freed} | b in s1.freed && b !in s0.freed :: b in s1.pos && In(s1.pos[b], t, h, base))
    && s0.crashes <= s1.crashes
  }

  /** A crash shows the old contents or, once committed in place, the new ones. */
  ghost predicate CrashSafe(s: Snap, m': Mem, j: Job, a: nat, h: nat, base: nat, committed: bool) {
    && FrameOut(s.mem, m', s.pos, j.t, h, base)
    && (Shows(m', a, h, base, j.was) || (committed && Shows(m', a, h, base, j.Seen())))
  }

  ghost predicate CrashesSafe(s0: Snap, s1: Snap, j: Job, a: nat, h: nat, base: nat, committed: bool) {
    forall m' {:trigger m' in s1.crashes} | m' in s1.crashes :: m' in s0.crashes || CrashSafe(s0, m', j, a, h, base, committed)
  }

  /** What a crawl finds in the subtree rooted at a. */
  ghost predicate Before(s: Snap, j: Job, a: nat, h: nat, base: nat) {
    && j.Ok()
    && Proper(s.mem, s.pos, s.freed, j.t, a, h, base, |j.Pad()|)
    && Shows(s.mem, a, h, base, j.Pad())
  }

  /** What it leaves: newno reads as the new contents, and until the commit a still reads as the old ones. */
  ghost predicate After(s0: Snap, s1: Snap, j: Job, a: nat, h: nat, base: nat, commit: Commit, r: int, newno: nat) {
    var committed := commit == Atomic && r == 0 && newno == a;
    && Frame(s0, s1, j.t, h, base)
    && CrashesSafe(s0, s1, j, a, h, base, committed)
    && Proper(s1.mem, s1.pos, s0.freed, j.t, a, h, base, |j.was|)
    && (!committed ==> Shows(s1.mem, a, h, base, j.was))
    && (r == 0 || r == ENOSPC)
    && (r == 0 ==>
          && newno != 0
          && Proper(s1.mem, s1.pos, s1.freed, j.t, newno, h, base, |j.New()|)
          && Shows(s1.mem, newno, h, base, j.New())
          && (newno != a ==> newno !in s0.pos)
          && (commit == CopyOnly && Max(j.lo, base) < |j.was| ==> newno != a))
  }

  /** The offsets handed to a subtree describe its share of the write. */
  predicate Share(j: Job, h: nat, base: nat, blockoff: nat, off: nat, size: nat, valid: nat) {
    && base % 4096 == 0
    && size > 0
    && base < j.Hi() && j.lo < base + Cap(h)
    && off == Max(j.lo, base) - base
    && off + size == Min(j.Hi(), base + Cap(h)) - base
    && valid == Within(|j.was|, base, Cap(h))
    && blockoff == (base + off) / 4096
  }
}

/** The write crawl in MODE_BPFS: crawl_leaf and crawl_indir with callback_write as their callback. */
module WriteCrawl {
  import opened Words
  import opened Geometry
  import opened Tree
  import opened Bpram
  import opened WriteSpec
  import opened CrawlArithmetic
  import opened SpaceSpec

  lemma FitsAtEnds(n: nat)
    requires 0 < n <= 8
    ensures FitsUnit(0, n) && FitsUnit(4096 - n, n)
  {
  }

  lemma BlockDivMod(base: nat, off: nat, x: nat)
    requires base % 4096 == 0 && off < 4096 && x == base + off
    ensures x % 4096 == off && x / 4096 == base / 4096
  {
  }

  /** A leaf's piece of a write that one store makes is the whole write, or it lies at an end of the block and arrives whole. */
  lemma PieceWhole(j: Job, base: nat, off: nat, size: nat)
    requires base % 4096 == 0 && size > 0
    requires base < j.Hi() && j.lo < base + 4096
    requires off == Max(j.lo, base) - base && off + size == Min(j.Hi(), base + 4096) - base
    requires CanAtomicWrite(off, size)
    ensures if j.lo < base || base + 4096 < j.Hi() then FitsUnit(off, size) && !j.OneStore()
      else j.OneStore() && j.lo == base + off && |j.buf| == size && j.Room() == StoreRoom(off, size)
  {
    assert size <= 8;
    hide CanAtomicWrite;
    hide FitsUnit;
    if j.lo < base || base + 4096 < j.Hi() {
      FitsAtEnds(size);
      Straddles(j, base);
    } else {
      BlockDivMod(base, off, j.lo);
      BlockDivMod(base, off + size - 1, j.Hi() - 1);
    }
  }

  lemma Straddles(j: Job, base: nat)
    requires base % 4096 == 0 && base < j.Hi() && j.lo < base + 4096 && (j.lo < base || base + 4096 < j.Hi())
    ensures !j.OneStore()
  {
    if j.OneStore() {
      var x, y := j.lo, j.lo + |j.buf| - 1;
      assert x / 4096 == y / 4096;
      hide CanAtomicWrite, OneStoreAt;
      InOneBlock(base, x, y);
      assert false;
    }
  }

  lemma InOneBlock(base: nat, x: nat, y: nat)
    requires base % 4096 == 0 && x / 4096 == y / 4096 && x < base + 4096 && base <= y
    ensures base <= x && y < base + 4096
  {
  }

  /** The stores of one leaf write: to a fresh copy, or in place, atomically or to invisible bytes. */
  ghost predicate LeafStores(m: Mem, m': Mem, b: nat, b': nat, off: nat, size: nat, atomic: bool, done: Mem) {
    if b' != b then OnlyBlock(m, m', b')
    else if atomic then m' == done
    else Torn(m, m', b, off, size)
  }

  /** Of the bytes src, got is what is in the block afterwards, which held b before. */
  predicate Got(b: Block, off: nat, src: seq<Byte>, got: seq<Byte>, inPlace: bool)
    requires 0 < |src| && off + |src| <= 4096
  {
    && |got| == |src|
    && (!CanAtomicWrite(off, |src|) ==> got == src)
    && (CanAtomicWrite(off, |src|) ==>
          && got[..StoreRoom(off, |src|)] == src[..StoreRoom(off, |src|)]
          && (inPlace ==> got == Arrived(b, off, src)))
  }

  /** One leaf write, of the bytes got at off, in place (b' == b) or on the copy b'. */
  ghost predicate LeafWritten(s0: Snap, s1: Snap, b: nat, b': nat, off: nat, size: nat, valid: nat, commit: Commit, got: seq<Byte>) {
    && 0 < size == |got| && off + size <= 4096 && b in s0.pos
    && b' != 0 && b' in s1.pos && s1.mem.Keys == s0.mem.Keys && s1.mem in s1.crashes && OnlyBlock(s0.mem, s1.mem, b')
    && (forall x {:trigger ByteAt(Get(s1.mem, b'), x)} | 0 <= x < 4096 && (b' == b || x < off + size || x < valid) ::
          ByteAt(Get(s1.mem, b'), x) == if off <= x < off + size then got[x - off] else ByteAt(Get(s0.mem, b), x))
    && (b' == b ==> s1.pos == s0.pos && s1.freed == s0.freed)
    && (b' != b ==> b' !in s0.pos && s1.pos == s0.pos[b' := s0.pos[b]] && s1.freed == s0.freed + {b})
    && (b' == b <==> commit == Free || (commit == Atomic && (CanAtomicWrite(off, size) || off >= valid)))
    && s0.crashes <= s1.crashes
    && (forall m' {:trigger m' in s1.crashes} | m' in s1.crashes ::
          m' in s0.crashes || LeafStores(s0.mem, m', b, b', off, size, CanAtomicWrite(off, size), s1.mem))
  }

  /** The block that a leaf write goes to, with the bytes around those to be written. */
  ghost predicate Targeted(s0: Snap, s1: Snap, b: nat, b': nat, off: nat, size: nat, valid: nat, commit: Commit)
    requires size > 0 && b in s0.pos
  {
    && (b' == b <==> commit == Free || (commit == Atomic && (CanAtomicWrite(off, size) || off >= valid)))
    && b' in s1.pos && b' in s1.mem && s1.mem.Keys == s0.mem.Keys && (b' == b ==> s1 == s0)
    && (b' != b ==>
          && b' !in s0.pos && s1.pos == s0.pos[b' := s0.pos[b]] && s1.freed == s0.freed + {b}
          && (forall x {:trigger ByteAt(Get(s1.mem, b'), x)} | 0 <= x < 4096 && (x < off || off + size <= x < valid) :: ByteAt(Get(s1.mem, b'), x) == ByteAt(Get(s0.mem, b), x))
          && OnlyBlock(s0.mem, s1.mem, b') && s0.crashes <= s1.crashes
          && (forall m' {:trigger m' in s1.crashes} | m' in s1.crashes :: m' in s0.crashes || OnlyBlock(s0.mem, m', b')))
  }

  /** The leaf itself when the bytes are invisible or change atomically, else a copy; 0 when there is no block for one. */
  method WriteTarget(fs: Bpram, blockno: nat, off: nat, size: nat, valid: nat, commit: Commit) returns (b: nat)
    requires fs.Valid() && blockno in fs.used && 0 < size && off + size <= 4096 && valid <= 4096
    modifies fs
    ensures fs.Valid() && fs.mem.Keys == old(fs.mem.Keys)
    ensures b != 0 <==> commit == Free || (commit == Atomic && (CanAtomicWrite(off, size) || off >= valid)) || FreeBlocks(old(fs.mem), old(fs.pos)) > 0
    ensures if b == 0 then Now(fs) == old(Now(fs)) else Targeted(old(Now(fs)), Now(fs), blockno, b, off, size, valid, commit)
  {
    hide CanAtomicWrite, ByteAt, FreeBlocks, fs.Staged;
    b := blockno;
    if !(commit == Free || (commit == Atomic && (CanAtomicWrite(off, size) || off >= valid))) {
      b := fs.CowBlock(blockno, off, size, valid);
    }
  }

  /** callback_write on the leaf blockno: in place when the bytes are invisible or change atomically, else on a copy. */
  method CallbackWrite(fs: Bpram, blockno: nat, blockoff: nat, off: nat, size: nat, valid: nat,
                       crawlStart: nat, commit: Commit, buf: seq<Byte>)
    returns (r: int, newno: nat, ghost got: seq<Byte>)
    requires fs.Valid() && blockno in fs.used
    requires 0 < size && off + size <= 4096 && valid <= 4096
    requires crawlStart <= blockoff * 4096 + off && blockoff * 4096 + off + size <= crawlStart + |buf|
    modifies fs
    ensures fs.Valid() && fs.mem.Keys == old(fs.mem.Keys)
    ensures r == 0 || (r == ENOSPC && Now(fs) == old(Now(fs)))
    ensures r == 0 <==> commit == Free || (commit == Atomic && (CanAtomicWrite(off, size) || off >= valid)) || FreeBlocks(old(fs.mem), old(fs.pos)) > 0
    ensures Got(Get(old(fs.mem), blockno), off, buf[blockoff * 4096 + off - crawlStart..][..size], got, r == 0 && newno == blockno)
    ensures r == 0 ==> LeafWritten(old(Now(fs)), Now(fs), blockno, newno, off, size, valid, commit, got)
  {
    assert ENOSPC != 0;
    hide *;
    var bufOffset := blockoff * 4096 + off - crawlStart;
    var src := buf[bufOffset..][..size];
    ghost var s0 := Now(fs);
    LeafThere(fs, blockno);
    NothingGot(Get(fs.mem, blockno), off, src);
    got := src;
    newno := WriteTarget(fs, blockno, off, size, valid, commit);
    if newno == 0 {
      return ENOSPC, 0, got;
    }
    ghost var s1 := Now(fs);
    LeafThere(fs, newno);
    if CanAtomicWrite(off, size) {
      got := Arrived(Get(fs.mem, newno), off, src);
      AtomicPatchArrived(Get(fs.mem, newno), off, src);
      ArrivedGot(Get(fs.mem, newno), off, src);
      ArrivedElsewhere(Get(s0.mem, blockno), Get(fs.mem, newno), off, src);
      fs.AtomicMemcpy(newno, off, src);
    } else {
      fs.Memcpy(newno, off, src);
    }
    LeafThere(fs, newno);
    LeafStored(s0, s1, Now(fs), blockno, newno, off, size, valid, commit, got);
    r := 0;
  }

  lemma LeafThere(fs: Bpram, b: nat)
    requires fs.Valid()
    ensures b in fs.used ==> b in fs.mem && b in fs.pos && b != 0
    ensures b in fs.pos ==> b in fs.used
    ensures fs.mem in fs.crashes && fs.pos.Keys <= fs.mem.Keys
  {
  }

  /** Until a store is made the bytes may be taken as if they had arrived. */
  lemma NothingGot(b: Block, off: nat, src: seq<Byte>)
    requires 0 < |src| && off + |src| <= 4096
    ensures Got(b, off, src, src, false)
    ensures !CanAtomicWrite(off, |src|) ==> Got(b, off, src, src, true)
  {
  }

  lemma ArrivedGot(b: Block, off: nat, src: seq<Byte>)
    requires 0 < |src| && off + |src| <= 4096
    ensures Got(b, off, src, Arrived(b, off, src), true) || !CanAtomicWrite(off, |src|)
  {
    hide StoreRoom, CanAtomicWrite;
    var got := Arrived(b, off, src);
    assert got[..StoreRoom(off, |src|)] == src[..StoreRoom(off, |src|)];
  }

  lemma ArrivedElsewhere(b: Block, b': Block, off: nat, src: seq<Byte>)
    requires 0 < |src| && off + |src| <= 4096 && (Got(b', off, src, Arrived(b', off, src), true) || !CanAtomicWrite(off, |src|))
    ensures Got(b, off, src, Arrived(b', off, src), false) || !CanAtomicWrite(off, |src|)
  {
  }

  /** The store, in the leaf itself or in its copy. */
  lemma LeafStored(s0: Snap, s1: Snap, s2: Snap, b: nat, b': nat, off: nat, size: nat, valid: nat, commit: Commit, got: seq<Byte>)
    requires 0 < size == |got| && off + size <= 4096 && b in s0.pos && b' != 0
    requires Targeted(s0, s1, b, b', off, size, valid, commit)
    requires s2.mem == s1.mem[b' := Patch(Get(s1.mem, b'), off, got)] && s2.pos == s1.pos && s2.freed == s1.freed && s2.mem in s2.crashes
    requires s2.crashes == s1.crashes + (if CanAtomicWrite(off, size) then iset{s2.mem} else iset m' | Torn(s1.mem, m', b', off, size))
    ensures LeafWritten(s0, s2, b, b', off, size, valid, commit, got)
  {
    hide CanAtomicWrite, ByteAt, Patch;
    assert OnlyBlock(s1.mem, s2.mem, b') && Get(s2.mem, b') == Patch(Get(s1.mem, b'), off, got);
    hide Torn;
    forall m' {:trigger m' in s2.crashes} | m' in s2.crashes && m' !in s0.crashes
      ensures LeafStores(s0.mem, m', b, b', off, size, CanAtomicWrite(off, size), s2.mem)
    {
      LeafStoreCrash(s0, s1, s2.mem, m', b, b', off, size);
    }
  }

  lemma LeafStoreCrash(s0: Snap, s1: Snap, done: Mem, m': Mem, b: nat, b': nat, off: nat, size: nat)
    requires size > 0 && (b' == b ==> s1 == s0) && OnlyBlock(s1.mem, done, b') && m' !in s0.crashes
    requires b' != b ==> OnlyBlock(s0.mem, s1.mem, b') && (m' in s1.crashes ==> OnlyBlock(s0.mem, m', b'))
    requires m' in s1.crashes || (if CanAtomicWrite(off, size) then m' == done else Torn(s1.mem, m', b', off, size))
    ensures LeafStores(s0.mem, m', b, b', off, size, CanAtomicWrite(off, size), done)
  {
    hide CanAtomicWrite, ByteAt;
  }

  /** A leaf block holding f's bytes from base on makes the leaf read as f. */
  lemma LeafShows(m: Mem, b: nat, base: nat, f: seq<Byte>)
    requires b != 0
    requires forall x {:trigger ByteAt(Get(m, b), x)} | 0 <= x < 4096 && base + x < |f| :: ByteAt(Get(m, b), x) == f[base + x]
    ensures Shows(m, b, 0, base, f)
  {
  }

  lemma LeafHolds(m: Mem, b: nat, base: nat, f: seq<Byte>, x: nat)
    requires b != 0 && Shows(m, b, 0, base, f)
    requires x < 4096 && base + x < |f|
    ensures ByteAt(Get(m, b), x) == f[base + x]
  {
    assert Read(m, b, 0, base, base + x) == ByteAt(Get(m, b), x);
  }

  /** The write that a leaf's store makes of the one asked for. */
  ghost function LeafJob(j: Job, off: nat, size: nat, got: seq<Byte>): Job
    requires size > 0
  {
    if CanAtomicWrite(off, size) && |got| == |j.buf| && j.OneStore() then j.(buf := got) else j
  }

  lemma LeafDelivered(j: Job, base: nat, off: nat, size: nat, valid: nat, b: Block, got: seq<Byte>, inPlace: bool)
    requires Share(j, 0, base, base / 4096, off, size, valid)
    requires Got(b, off, j.buf[base + off - j.lo..][..size], got, inPlace)
    ensures var j' := LeafJob(j, off, size, got);
      && Delivered(j, j') && Share(j', 0, base, base / 4096, off, size, valid)
      && (forall i {:trigger got[i]} | 0 <= i < size :: got[i] == j'.buf[base + off - j.lo + i])
      && (CanAtomicWrite(off, size) && j.OneStore() ==> j'.buf == got && j.lo == base + off && |j.buf| == size && j.Room() == StoreRoom(off, size))
  {
    hide CanAtomicWrite, StoreRoom, FitsUnit, Arrived;
    var src := j.buf[base + off - j.lo..][..size];
    if CanAtomicWrite(off, size) {
      PieceWhole(j, base, off, size);
      if j.OneStore() {
        assert src == j.buf;
      } else {
        assert got[..size] == got && src[..size] == src;
      }
    }
  }

  /** In place, behind the bytes that arrive are those of the old file. */
  lemma LeafInPlace(j: Job, m: Mem, prev: nat, base: nat, off: nat, size: nat, got: seq<Byte>)
    requires prev != 0 && Shows(m, prev, 0, base, j.Pad()) && j.OneStore() && j.Hi() <= |j.was| && j.lo == base + off && |j.buf| == size && off + size <= 4096
    requires j.Room() == StoreRoom(off, size) && got == Arrived(Get(m, prev), off, j.buf)
    ensures j.(buf := got) == j.InPlace()
  {
    hide StoreRoom, FitsUnit, CanAtomicWrite;
    var want := j.InPlace().buf;
    forall i | 0 <= i < size
      ensures got[i] == want[i]
    {
      if i >= j.Room() {
        LeafHolds(m, prev, base, j.Pad(), off + i);
      }
    }
    assert got == want;
  }

  lemma BeforeSame(s: Snap, j: Job, j': Job, a: nat, h: nat, base: nat)
    requires Before(s, j, a, h, base) && Delivered(j, j')
    ensures Before(s, j', a, h, base)
  {
  }

  /** Writing the leaf's share of buf over the padded old bytes gives the new bytes. */
  lemma LeafNew(j: Job, m: Mem, m': Mem, b: nat, b': nat, base: nat, off: nat, size: nat, valid: nat, crawlStart: nat)
    requires Share(j, 0, base, base / 4096, off, size, valid) && crawlStart == j.lo
    requires b' != 0
    requires forall x {:trigger ByteAt(Get(m, b), x)} | 0 <= x < 4096 && (x < off || off + size <= x < valid) && base + x < |j.Pad()| ::
      ByteAt(Get(m, b), x) == j.Pad()[base + x]
    requires forall x {:trigger ByteAt(Get(m', b'), x)} | 0 <= x < 4096 && (x < off + size || x < valid) ::
            ByteAt(Get(m', b'), x) == if off <= x < off + size then j.buf[base + x - crawlStart] else ByteAt(Get(m, b), x)
    ensures Shows(m', b', 0, base, j.New())
  {
    hide ByteAt;
    forall x | 0 <= x < 4096 && base + x < |j.New()|
      ensures ByteAt(Get(m', b'), x) == j.New()[base + x]
    {
      if off <= x < off + size {
      } else if x < off {
        assert ByteAt(Get(m, b), x) == j.Pad()[base + x];
      } else {
        assert base + x < |j.was|;
        assert ByteAt(Get(m, b), x) == j.Pad()[base + x];
      }
    }
    LeafShows(m', b', base, j.New());
  }

  lemma ShowsPrefix(m: Mem, a: nat, h: nat, base: nat, f: seq<Byte>, g: seq<Byte>)
    requires Shows(m, a, h, base, f) && g <= f
    ensures Shows(m, a, h, base, g)
  {
  }

  lemma HoleZero(m: Mem, h: nat, base: nat, f: seq<Byte>)
    ensures Shows(m, 0, h, base, f) <==> forall x: nat {:trigger f[x]} | base <= x < base + Cap(h) && x < |f| :: f[x] == 0
  {
    if Shows(m, 0, h, base, f) {
      forall x: nat | base <= x < base + Cap(h) && x < |f|
        ensures f[x] == 0
      {
        assert Read(m, 0, h, base, x) == f[x];
      }
    }
  }

  lemma WasPrefix(j: Job)
    ensures j.was <= j.Pad() && j.Seen() <= j.New()
  {
  }

  /** A crash during the stores of one leaf write. */
  lemma LeafCrash(s0: Snap, m': Mem, done: Mem, j: Job, b: nat, b': nat, base: nat, off: nat, size: nat, valid: nat, commit: Commit)
    requires Before(s0, j, b, 0, base) && b != 0 && Share(j, 0, base, base / 4096, off, size, valid)
    requires LeafStores(s0.mem, m', b, b', off, size, CanAtomicWrite(off, size), done)
    requires b' != b ==> b' !in s0.pos
    requires b' == b ==> commit == Atomic && (CanAtomicWrite(off, size) || off >= valid)
    requires b' == b ==> Shows(done, b, 0, base, j.New()) && OnlyBlock(s0.mem, done, b)
    ensures CrashSafe(s0, m', j, b, 0, base, commit == Atomic && b' == b)
  {
    hide ByteAt;
    hide CanAtomicWrite;
    WasPrefix(j);
    if b' == b && CanAtomicWrite(off, size) {
      ShowsPrefix(done, b, 0, base, j.New(), j.Seen());
    } else {
      forall x | 0 <= x < 4096 && base + x < |j.was|
        ensures ByteAt(Get(m', b), x) == j.was[base + x]
      {
        LeafHolds(s0.mem, b, base, j.Pad(), x);
      }
      LeafShows(m', b, base, j.was);
    }
  }

  lemma LeafAfter(s0: Snap, s1: Snap, j: Job, b: nat, b': nat, base: nat, off: nat, size: nat, valid: nat, commit: Commit)
    requires commit != Free && b != 0 && b' != 0
    requires Before(s0, j, b, 0, base) && Share(j, 0, base, base / 4096, off, size, valid)
    requires s1.mem.Keys == s0.mem.Keys && OnlyBlock(s0.mem, s1.mem, b') && Shows(s1.mem, b', 0, base, j.New())
    requires if b' == b then s1.pos == s0.pos && s1.freed == s0.freed
      else b' !in s0.pos && s1.pos == s0.pos[b' := s0.pos[b]] && s1.freed == s0.freed + {b}
    requires b' == b <==> commit == Atomic && (CanAtomicWrite(off, size) || off >= valid)
    requires s1.mem in s1.crashes && s0.crashes <= s1.crashes && s0.freed <= s0.pos.Keys
    requires forall m' {:trigger m' in s1.crashes} | m' in s1.crashes ::
      m' in s0.crashes || LeafStores(s0.mem, m', b, b', off, size, CanAtomicWrite(off, size), s1.mem)
    ensures After(s0, s1, j, b, 0, base, commit, 0, b')
  {
    hide ByteAt;
    hide CanAtomicWrite;
    forall m' | m' in s1.crashes && m' !in s0.crashes
      ensures CrashSafe(s0, m', j, b, 0, base, commit == Atomic && b' == b)
    {
      LeafCrash(s0, m', s1.mem, j, b, b', base, off, size, valid, commit);
    }
    if b' != b {
      LeafCrash(s0, s1.mem, s1.mem, j, b, b', base, off, size, valid, commit);
    }
  }

  /** Plugging a hole: every store goes to a block nobody refers to yet. */
  lemma HoleAfter(s0: Snap, s1: Snap, j: Job, b: nat, h: nat, base: nat, commit: Commit)
    requires b != 0 && b !in s0.pos
    requires Before(s0, j, 0, h, base)
    requires Frame(s0, s1, j.t, h, base)
    requires Proper(s1.mem, s1.pos, s1.freed, j.t, b, h, base, |j.New()|) && Shows(s1.mem, b, h, base, j.New())
    requires forall m' {:trigger m' in s1.crashes} | m' in s1.crashes :: m' in s0.crashes || FrameOut(s0.mem, m', s0.pos, j.t, h, base)
    ensures After(s0, s1, j, 0, h, base, commit, 0, b)
  {
    WasPrefix(j);
    HoleZero(s0.mem, h, base, j.Pad());
    HoleZero(s1.mem, h, base, j.was);
    forall m' | m' in s1.crashes && m' !in s0.crashes
      ensures CrashSafe(s0, m', j, 0, h, base, false)
    {
      HoleZero(m', h, base, j.was);
    }
  }

  /** Running out of space before any store changes nothing. */
  lemma NoSpaceAfter(s0: Snap, s1: Snap, j: Job, a: nat, h: nat, base: nat, commit: Commit)
    requires Before(s0, j, a, h, base) && s1 == s0
    ensures After(s0, s1, j, a, h, base, commit, ENOSPC, 0)
  {
    WasPrefix(j);
    ProperEnd(s0.mem, s0.pos, s0.freed, j.t, a, h, base, |j.Pad()|, |j.was|);
  }

  /** The bytes of the leaf, by their place in what is delivered. */
  lemma LeafBytes(s0: Snap, s1: Snap, j: Job, b: nat, b': nat, base: nat, off: nat, size: nat, valid: nat, commit: Commit, got: seq<Byte>)
    requires LeafWritten(s0, s1, b, b', off, size, valid, commit, got) && 0 <= base + off - j.lo && base + off - j.lo + size <= |j.buf|
    requires forall i {:trigger got[i]} | 0 <= i < size :: got[i] == j.buf[base + off - j.lo + i]
    ensures forall x {:trigger ByteAt(Get(s1.mem, b'), x)} | 0 <= x < 4096 && (x < off + size || x < valid) ::
      ByteAt(Get(s1.mem, b'), x) == if off <= x < off + size then j.buf[base + x - j.lo] else ByteAt(Get(s0.mem, b), x)
  {
    hide ByteAt, CanAtomicWrite, LeafStores, OnlyBlock;
    forall x {:trigger ByteAt(Get(s1.mem, b'), x)} | 0 <= x < 4096 && (x < off + size || x < valid)
      ensures ByteAt(Get(s1.mem, b'), x) == if off <= x < off + size then j.buf[base + x - j.lo] else ByteAt(Get(s0.mem, b), x)
    {
      if off <= x < off + size {
        assert got[x - off] == j.buf[base + off - j.lo + (x - off)];
      }
    }
  }

  lemma ShareBounds(j: Job, base: nat, off: nat, size: nat, valid: nat)
    requires Share(j, 0, base, base / 4096, off, size, valid)
    ensures 0 <= base + off - j.lo && base + off - j.lo + size <= |j.buf|
  {
  }

  lemma LeafRewrittenShows(s0: Snap, s1: Snap, j: Job, b: nat, b': nat, base: nat, off: nat, size: nat, valid: nat, commit: Commit, got: seq<Byte>)
    requires b != 0 && b' != 0 && Shows(s0.mem, b, 0, base, j.Pad()) && Share(j, 0, base, base / 4096, off, size, valid)
    requires LeafWritten(s0, s1, b, b', off, size, valid, commit, got) && 0 <= base + off - j.lo && base + off - j.lo + size <= |j.buf|
    requires forall i {:trigger got[i]} | 0 <= i < size :: got[i] == j.buf[base + off - j.lo + i]
    ensures Shows(s1.mem, b', 0, base, j.New())
  {
    hide *;
    PadHere(s0.mem, b, base, j);
    LeafBytes(s0, s1, j, b, b', base, off, size, valid, commit, got);
    LeafNew(j, s0.mem, s1.mem, b, b', base, off, size, valid, j.lo);
  }

  /** A leaf rewritten: what it means for the subtree. */
  lemma LeafRewritten(s0: Snap, s1: Snap, j: Job, b: nat, b': nat, base: nat, off: nat, size: nat, valid: nat, commit: Commit, src: seq<Byte>, got: seq<Byte>)
    requires commit != Free && b != 0 && Before(s0, j, b, 0, base) && Share(j, 0, base, base / 4096, off, size, valid) && s0.freed <= s0.pos.Keys
    requires src == j.buf[base + off - j.lo..][..size] && Got(Get(s0.mem, b), off, src, got, b' == b)
    requires LeafWritten(s0, s1, b, b', off, size, valid, commit, got)
    ensures After(s0, s1, LeafJob(j, off, size, got), b, 0, base, commit, 0, b')
  {
    hide ByteAt, CanAtomicWrite, After, Got, Shows, LeafStores, OnlyBlock, Share, Proper, LeafJob;
    var j' := LeafJob(j, off, size, got);
    LeafDelivered(j, base, off, size, valid, Get(s0.mem, b), got, b' == b);
    BeforeSame(s0, j, j', b, 0, base);
    ShareBounds(j', base, off, size, valid);
    LeafRewrittenShows(s0, s1, j', b, b', base, off, size, valid, commit, got);
    LeafAfter(s0, s1, j', b, b', base, off, size, valid, commit);
  }

  lemma LeafRewrittenSure(s0: Snap, s1: Snap, j: Job, b: nat, b': nat, base: nat, off: nat, size: nat, valid: nat, commit: Commit, got: seq<Byte>)
    requires commit != Free && b != 0 && Before(s0, j, b, 0, base) && Share(j, 0, base, base / 4096, off, size, valid) && s0.freed <= s0.pos.Keys
    requires Got(Get(s0.mem, b), off, j.buf[base + off - j.lo..][..size], got, b' == b)
    requires LeafWritten(s0, s1, b, b', off, size, valid, commit, got)
    ensures Sure(s0.mem, j, b, 0, base, commit) ==> b' == b && LeafJob(j, off, size, got) == j.InPlace()
  {
    hide ByteAt, FitsUnit, StoreRoom, Arrived, LeafJob;
    if Sure(s0.mem, j, b, 0, base, commit) {
      SurePiece(j, base, off, size, valid);
      LeafInPlace(j, s0.mem, b, base, off, size, got);
    }
  }

  lemma PadHere(m: Mem, b: nat, base: nat, j: Job)
    requires b != 0 && Shows(m, b, 0, base, j.Pad())
    ensures forall x {:trigger ByteAt(Get(m, b), x)} | 0 <= x < 4096 && base + x < |j.Pad()| :: ByteAt(Get(m, b), x) == j.Pad()[base + x]
  {
    forall x {:trigger ByteAt(Get(m, b), x)} | 0 <= x < 4096 && base + x < |j.Pad()|
      ensures ByteAt(Get(m, b), x) == j.Pad()[base + x]
    {
      LeafHolds(m, b, base, j.Pad(), x);
    }
  }

  /** A hole plugged with block b, which is then written. */
  lemma LeafPlugged(s0: Snap, s1: Snap, s2: Snap, j: Job, b: nat, b': nat, base: nat, off: nat, size: nat, valid: nat, commit: Commit, got: seq<Byte>)
    requires Before(s0, j, 0, 0, base) && Share(j, 0, base, base / 4096, off, size, valid)
    requires s1.mem.Keys == s0.mem.Keys && s1.freed == s0.freed && b != 0 && b !in s0.pos && s1.pos == s0.pos[b := Label(j.t, 0, base)]
    requires forall x {:trigger ByteAt(Get(s1.mem, b), x)} | 0 <= x < 4096 && (x < off || off + size <= x < valid) :: ByteAt(Get(s1.mem, b), x) == 0
    requires OnlyBlock(s0.mem, s1.mem, b) && s0.crashes <= s1.crashes && s0.freed <= s0.pos.Keys
    requires forall m' {:trigger m' in s1.crashes} | m' in s1.crashes :: m' in s0.crashes || OnlyBlock(s0.mem, m', b)
    requires Got(Get(s1.mem, b), off, j.buf[base + off - j.lo..][..size], got, b' == b)
    requires LeafWritten(s1, s2, b, b', off, size, valid, Free, got)
    ensures After(s0, s2, LeafJob(j, off, size, got), 0, 0, base, commit, 0, b')
  {
    hide ByteAt, CanAtomicWrite, FitsUnit, StoreRoom, Arrived, After, LeafJob, Before, Proper, Shows;
    var j' := LeafJob(j, off, size, got);
    InPlaceFree(s1, s2, b, b', off, size, valid, got);
    hide LeafWritten;
    LeafDelivered(j, base, off, size, valid, Get(s1.mem, b), got, true);
    BeforeSame(s0, j, j', 0, 0, base);
    PlugNew(s0, s1, s2, j', b, base, off, size, valid, got);
    PlugFrame(s0, s1, s2, j', b, base, off, size, valid, got);
    HoleAfter(s0, s2, j', b, 0, base, commit);
  }

  lemma PlugNew(s0: Snap, s1: Snap, s2: Snap, j: Job, b: nat, base: nat, off: nat, size: nat, valid: nat, got: seq<Byte>)
    requires b != 0 && Before(s0, j, 0, 0, base) && Share(j, 0, base, base / 4096, off, size, valid)
    requires forall x {:trigger ByteAt(Get(s1.mem, b), x)} | 0 <= x < 4096 && (x < off || off + size <= x < valid) :: ByteAt(Get(s1.mem, b), x) == 0
    requires LeafWritten(s1, s2, b, b, off, size, valid, Free, got)
    requires forall i {:trigger got[i]} | 0 <= i < size :: got[i] == j.buf[base + off - j.lo + i]
    ensures Shows(s2.mem, b, 0, base, j.New())
  {
    hide ByteAt, CanAtomicWrite, LeafStores;
    HoleZero(s0.mem, 0, base, j.Pad());
    LeafNew(j, s1.mem, s2.mem, b, b, base, off, size, valid, j.lo);
  }

  lemma PlugFrame(s0: Snap, s1: Snap, s2: Snap, j: Job, b: nat, base: nat, off: nat, size: nat, valid: nat, got: seq<Byte>)
    requires s1.mem.Keys == s0.mem.Keys && s1.freed == s0.freed && b != 0 && b !in s0.pos && s1.pos == s0.pos[b := Label(j.t, 0, base)]
    requires OnlyBlock(s0.mem, s1.mem, b) && s0.crashes <= s1.crashes && s0.freed <= s0.pos.Keys
    requires forall m' {:trigger m' in s1.crashes} | m' in s1.crashes :: m' in s0.crashes || OnlyBlock(s0.mem, m', b)
    requires LeafWritten(s1, s2, b, b, off, size, valid, Free, got)
    ensures Frame(s0, s2, j.t, 0, base) && Proper(s2.mem, s2.pos, s2.freed, j.t, b, 0, base, |j.New()|)
    ensures forall m' {:trigger m' in s2.crashes} | m' in s2.crashes :: m' in s0.crashes || FrameOut(s0.mem, m', s0.pos, j.t, 0, base)
  {
    hide ByteAt, CanAtomicWrite;
  }

  lemma LeafUsed(fs: Bpram, j: Job, prev: nat, base: nat)
    requires fs.Valid() && Before(Now(fs), j, prev, 0, base)
    ensures prev != 0 ==> prev in fs.used
    ensures fs.freed <= fs.pos.Keys
  {
  }

  lemma LeafShare(j: Job, blockoff: nat, off: nat, size: nat, valid: nat)
    requires Share(j, 0, blockoff * 4096, blockoff, off, size, valid)
    ensures 0 < size && off + size <= 4096 && valid <= 4096 && blockoff * 4096 / 4096 == blockoff
    ensures j.lo <= blockoff * 4096 + off && blockoff * 4096 + off + size <= j.lo + |j.buf|
  {
  }

  /** crawl_leaf: plug a hole with a new block, or rewrite the leaf. The write done is j'. */
  method CrawlLeaf(fs: Bpram, prev: nat, blockoff: nat, off: nat, size: nat, valid: nat,
                   crawlStart: nat, commit: Commit, buf: seq<Byte>, ghost j: Job)
    returns (r: int, newno: nat, ghost j': Job)
    requires fs.Valid() && commit != Free
    requires j.buf == buf && crawlStart == j.lo
    requires Share(j, 0, blockoff * 4096, blockoff, off, size, valid)
    requires Before(Now(fs), j, prev, 0, blockoff * 4096)
    modifies fs
    ensures fs.Valid() && Delivered(j, j')
    ensures After(old(Now(fs)), Now(fs), j', prev, 0, blockoff * 4096, commit, r, newno)
    ensures Sure(old(fs.mem), j, prev, 0, blockoff * 4096, commit) ==> r == 0 && newno == prev && j' == j.InPlace()
    ensures Touches(AskOf(j), 0, blockoff * 4096)
    ensures Accounts(old(Now(fs)), Now(fs), j.t, prev, 0, blockoff * 4096, AskOf(j), commit, r, newno)
  {
    hide *;
    ghost var base := blockoff * 4096;
    ghost var s0 := Now(fs);
    ShareTouches(j, 0, base, blockoff, off, size, valid);
    LeafUsed(fs, j, prev, base);
    LeafShare(j, blockoff, off, size, valid);
    DeliveredSelf(j);
    SureLeaf(s0.mem, j, prev, base, off, size, valid, commit);
    ghost var got;
    if prev == 0 {
      var b := fs.CowBlockHole(off, size, valid, Label(j.t, 0, base));
      if b == 0 {
        NoSpaceAfter(s0, Now(fs), j, prev, 0, base, commit);
        LeafUnpaid(s0, j, prev, base, off, size, valid, commit);
        return ENOSPC, 0, j;
      }
      ghost var s1 := Now(fs);
      r, newno, got := CallbackWrite(fs, b, blockoff, off, size, valid, crawlStart, Free, buf);
      j' := LeafJob(j, off, size, got);
      InPlaceFree(s1, Now(fs), b, newno, off, size, valid, got);
      LeafDelivered(j, base, off, size, valid, Get(s1.mem, b), got, true);
      LeafPlugged(s0, s1, Now(fs), j, b, newno, base, off, size, valid, commit, got);
      PlugPaid(s0, s1, Now(fs), j, b, newno, base, off, size, valid, commit, got);
    } else {
      r, newno, got := CallbackWrite(fs, prev, blockoff, off, size, valid, crawlStart, commit, buf);
      if r == 0 {
        j' := LeafJob(j, off, size, got);
        LeafDelivered(j, base, off, size, valid, Get(s0.mem, prev), got, newno == prev);
        LeafRewritten(s0, Now(fs), j, prev, newno, base, off, size, valid, commit, j.buf[base + off - j.lo..][..size], got);
        LeafRewrittenSure(s0, Now(fs), j, prev, newno, base, off, size, valid, commit, got);
        LeafThere(fs, prev);
        LeafPaid(s0, Now(fs), j, prev, newno, base, off, size, valid, commit, got);
      } else {
        j', newno := j, 0;
        NoSpaceAfter(s0, Now(fs), j, prev, 0, base, commit);
        LeafUnpaid(s0, j, prev, base, off, size, valid, commit);
      }
    }
  }

  lemma ShareTouches(j: Job, h: nat, base: nat, blockoff: nat, off: nat, size: nat, valid: nat)
    requires Share(j, h, base, blockoff, off, size, valid)
    ensures Touches(AskOf(j), h, base) && off == OffIn(AskOf(j), base) && size == SizeIn(AskOf(j), h, base) && valid == Within(|j.was|, base, Cap(h))
  {
  }

  /** Below a leaf there are no pointers, so only the space matters. */
  lemma LeafAccounts(s0: Snap, s1: Snap, t: nat, a: nat, base: nat, q: Ask, commit: Commit, r: int, newno: nat)
    requires Touches(q, 0, base) && Paid(s0, s1, a, 0, base, q, commit, r, newno) && (r == 0 ==> newno != 0)
    ensures Accounts(s0, s1, t, a, 0, base, q, commit, r, newno)
  {
    hide Paid, Touches;
  }

  lemma LeafUnpaid(s0: Snap, j: Job, prev: nat, base: nat, off: nat, size: nat, valid: nat, commit: Commit)
    requires Share(j, 0, base, base / 4096, off, size, valid) && FreeBlocks(s0.mem, s0.pos) == 0
    requires prev == 0 || !(commit == Atomic && (CanAtomicWrite(off, size) || off >= valid))
    ensures Touches(AskOf(j), 0, base) && Accounts(s0, s0, j.t, prev, 0, base, AskOf(j), commit, ENOSPC, 0)
  {
    ShareTouches(j, 0, base, base / 4096, off, size, valid);
    assert Need(s0.mem, prev, 0, base, AskOf(j), commit) == Bill(1, true);
    hide Share, Touches, CanAtomicWrite, FreeBlocks;
    LeafAccounts(s0, s0, j.t, prev, base, AskOf(j), commit, ENOSPC, 0);
  }

  lemma LeafPaid(s0: Snap, s1: Snap, j: Job, b: nat, b': nat, base: nat, off: nat, size: nat, valid: nat, commit: Commit, got: seq<Byte>)
    requires Share(j, 0, base, base / 4096, off, size, valid) && b != 0 && commit != Free && s1.pos.Keys <= s0.mem.Keys
    requires LeafWritten(s0, s1, b, b', off, size, valid, commit, got)
    requires (commit == Atomic && (CanAtomicWrite(off, size) || off >= valid)) || FreeBlocks(s0.mem, s0.pos) > 0
    ensures Touches(AskOf(j), 0, base) && Accounts(s0, s1, j.t, b, 0, base, AskOf(j), commit, 0, b')
  {
    ShareTouches(j, 0, base, base / 4096, off, size, valid);
    hide CanAtomicWrite, FreeBlocks, ByteAt, LeafStores, OnlyBlock;
    SameFree(s0.mem, s1.mem, s1.pos);
    if b' != b {
      OneTaken(s0.mem, s0.pos, b', s0.pos[b]);
    }
    LeafAccounts(s0, s1, j.t, b, base, AskOf(j), commit, 0, b');
  }

  lemma PlugPaid(s0: Snap, s1: Snap, s2: Snap, j: Job, b: nat, b': nat, base: nat, off: nat, size: nat, valid: nat, commit: Commit, got: seq<Byte>)
    requires Share(j, 0, base, base / 4096, off, size, valid) && FreeBlocks(s0.mem, s0.pos) > 0
    requires b != 0 && b in s0.mem && b !in s0.pos && s1.pos == s0.pos[b := Label(j.t, 0, base)] && s1.mem.Keys == s0.mem.Keys
    requires LeafWritten(s1, s2, b, b', off, size, valid, Free, got)
    ensures Touches(AskOf(j), 0, base) && Accounts(s0, s2, j.t, 0, 0, base, AskOf(j), commit, 0, b')
  {
    ShareTouches(j, 0, base, base / 4096, off, size, valid);
    hide CanAtomicWrite, FreeBlocks, ByteAt, LeafStores, OnlyBlock;
    OneTaken(s0.mem, s0.pos, b, Label(j.t, 0, base));
    SameFree(s0.mem, s2.mem, s1.pos);
    LeafAccounts(s0, s2, j.t, 0, base, AskOf(j), commit, 0, b');
  }

  lemma InPlaceFree(s1: Snap, s2: Snap, b: nat, b': nat, off: nat, size: nat, valid: nat, got: seq<Byte>)
    requires LeafWritten(s1, s2, b, b', off, size, valid, Free, got)
    ensures b' == b
  {
  }

  lemma SureLeaf(m: Mem, j: Job, prev: nat, base: nat, off: nat, size: nat, valid: nat, commit: Commit)
    requires Share(j, 0, base, base / 4096, off, size, valid)
    ensures Sure(m, j, prev, 0, base, commit) ==> prev != 0 && commit == Atomic && CanAtomicWrite(off, size)
  {
    if Sure(m, j, prev, 0, base, commit) {
      SurePiece(j, base, off, size, valid);
    }
  }

  lemma SurePiece(j: Job, base: nat, off: nat, size: nat, valid: nat)
    requires Share(j, 0, base, base / 4096, off, size, valid) && j.OneStore() && base <= j.lo
    ensures j.Room() == StoreRoom(off, size) && off + size <= 4096
    ensures CanAtomicWrite(off, size) && j.lo == base + off && |j.buf| == size && j.buf[base + off - j.lo..][..size] == j.buf
    ensures forall got: seq<Byte> {:trigger LeafJob(j, off, size, got)} | |got| == |j.buf| :: LeafJob(j, off, size, got) == j.(buf := got)
  {
    BlockDivMod(base, off, j.lo);
    if base + 4096 < j.Hi() {
      Straddles(j, base);
    }
    hide CanAtomicWrite;
  }
}

/** The per-entry arithmetic of crawl_indir: each entry receives exactly its share of the crawl. */
module CrawlArithmetic {
  import opened Geometry
  import opened WriteSpec

  /** Entry of the first byte of a range. */
  function FirstNo(off: nat, c: nat): nat
    requires c > 0
  {
    DivBounds(off, c);
    off / c
  }

  /** Entry of the last byte of a range. */
  function LastNo(off: nat, size: nat, c: nat): nat
    requires c > 0 && size > 0
  {
    DivBounds(off + size - 1, c);
    (off + size - 1) / c
  }

  /** Number of entries that have valid bytes. */
  function ValidNo(valid: nat, c: nat): nat
    requires c > 0
  {
    DivBounds(valid + c - 1, c);
    (valid + c - 1) / c
  }

  function ChildOff(off: nat, c: nat, no: nat, first: nat): nat
    requires c > 0
  {
    if no == first then off % c else 0
  }

  function ChildSize(off: nat, size: nat, c: nat, no: nat, first: nat, last: nat): int
    requires c > 0
  {
    if no == last then off + size - (no * c + ChildOff(off, c, no, first)) else c - ChildOff(off, c, no, first)
  }

  function ChildValid(valid: nat, c: nat, no: nat): nat
    requires c > 0
  {
    if no < (valid + c - 1) / c then (if (no + 1) * c <= valid then c else valid % c) else 0
  }

  function ChildBlockoff(blockoff: nat, off: nat, c: nat, blocks: nat, no: nat, first: nat): int
    requires c > 0
  {
    if no == first then blockoff else blockoff + (no - first) * blocks - (off % c) / 4096
  }

  lemma DivMod(n: nat, c: nat)
    requires c > 0
    ensures n == (n / c) * c + n % c && 0 <= n % c < c
  {
  }

  lemma DivUnique(n: nat, c: nat, q: nat)
    requires c > 0 && q * c <= n < q * c + c
    ensures n / c == q && n % c == n - q * c
  {
    DivMod(n, c);
    if n / c < q {
      MulMono(n / c + 1, q, c);
    } else if n / c > q {
      MulMono(q + 1, n / c, c);
    }
  }

  lemma MulSucc(n: nat, c: nat)
    ensures (n + 1) * c == n * c + c
  {
  }

  lemma ChildValidIs(valid: nat, c: nat, no: nat)
    requires c > 0
    ensures ChildValid(valid, c, no) == if valid <= no * c then 0 else Min(valid - no * c, c)
  {
    var q := (valid + c - 1) / c;
    DivMod(valid + c - 1, c);
    MulSucc(no, c);
    if no < q {
      MulMono(no + 1, q, c);
      if valid < (no + 1) * c {
        DivUnique(valid, c, no);
      }
    } else {
      MulMono(q, no, c);
    }
  }

  lemma ValidShare(end: nat, h: nat, base: nat, valid: nat, no: nat)
    requires h > 0 && no < 512 && valid == Within(end, base, Cap(h))
    ensures ChildValid(valid, Cap(h - 1), no) == Within(end, ChildBase(h, base, no), Cap(h - 1))
  {
    hide ChildValid;
    ChildValidIs(valid, Cap(h - 1), no);
    ChildBaseMul(h, base, no);
    ChildBaseOrder(h, base);
  }

  lemma OffShare(lo: nat, h: nat, base: nat, off: nat, no: nat)
    requires h > 0 && lo < base + Cap(h) && off == Max(lo, base) - base
    requires off / Cap(h - 1) <= no
    ensures ChildOff(off, Cap(h - 1), no, off / Cap(h - 1)) == Max(lo, ChildBase(h, base, no)) - ChildBase(h, base, no)
  {
    var c := Cap(h - 1);
    var first := off / c;
    DivSlot(h, base, base + off);
    ChildBaseMul(h, base, first);
    DivMod(off, c);
    if first < no {
      ChildBaseStep(h, base, first, no);
    }
  }

  lemma SizeShare(lo: nat, hi: nat, h: nat, base: nat, off: nat, size: nat, no: nat)
    requires h > 0 && size > 0 && base < hi && lo < base + Cap(h)
    requires off == Max(lo, base) - base && off + size == Min(hi, base + Cap(h)) - base
    requires off / Cap(h - 1) <= no <= (off + size - 1) / Cap(h - 1)
    ensures 0 <= off / Cap(h - 1) <= (off + size - 1) / Cap(h - 1) < 512
    ensures no < 512 && ChildBase(h, base, no) < hi && lo < ChildBase(h, base, no) + Cap(h - 1)
    ensures ChildOff(off, Cap(h - 1), no, off / Cap(h - 1))
      + ChildSize(off, size, Cap(h - 1), no, off / Cap(h - 1), (off + size - 1) / Cap(h - 1))
      == Min(hi, ChildBase(h, base, no) + Cap(h - 1)) - ChildBase(h, base, no)
    ensures ChildSize(off, size, Cap(h - 1), no, off / Cap(h - 1), (off + size - 1) / Cap(h - 1)) > 0
  {
    var c := Cap(h - 1);
    var first := off / c;
    var last := (off + size - 1) / c;
    OffShare(lo, h, base, off, no);
    DivSlot(h, base, base + off);
    DivSlot(h, base, base + off + size - 1);
    ChildBaseMul(h, base, no);
    if no < last {
      ChildBaseStep(h, base, no, last);
    }
    if first < no {
      ChildBaseStep(h, base, first, no);
    }
    hide ChildOff;
    ChildBaseOrder(h, base);
  }

  lemma MulBlocks(n: nat, c: nat, b: nat)
    requires c == 4096 * b
    ensures n * c == 4096 * (n * b)
  {
  }

  lemma DivAdd(base: nat, k: nat, r: nat)
    requires base % 4096 == 0
    ensures (base + 4096 * k + r) / 4096 == base / 4096 + k + r / 4096
    ensures (base + 4096 * k) % 4096 == 0
  {
  }

  lemma MulSub(n: nat, m: nat, b: nat)
    requires m <= n
    ensures (n - m) * b == n * b - m * b
  {
  }

  lemma BlockoffIs(base: nat, off: nat, b: nat, no: nat, first: nat, rem: nat)
    requires base % 4096 == 0 && first <= no && off == 4096 * (first * b) + rem
    ensures (base + 4096 * (no * b)) % 4096 == 0
    ensures (base + off) / 4096 + (no - first) * b - rem / 4096 == (base + 4096 * (no * b)) / 4096
  {
    MulSub(no, first, b);
    var n, f := no * b, first * b;
    DivAdd(base, n, 0);
    DivAdd(base, f, rem);
  }

  lemma BlockoffShare(h: nat, base: nat, off: nat, no: nat, first: nat)
    requires h > 0 && base % 4096 == 0
    requires first == off / Cap(h - 1) && first <= no
    ensures ChildBase(h, base, no) % 4096 == 0
    ensures ChildBlockoff((base + off) / 4096, off, Cap(h - 1), MaxBlocks(h - 1), no, first)
      == (ChildBase(h, base, no) + ChildOff(off, Cap(h - 1), no, first)) / 4096
  {
    var c, b := Cap(h - 1), MaxBlocks(h - 1);
    DivMod(off, c);
    MulBlocks(no, c, b);
    MulBlocks(first, c, b);
    BlockoffIs(base, off, b, no, first, off % c);
    ChildBaseMul(h, base, no);
  }

  /** Each entry between the first and the last gets a share that describes its own subtree. */
  lemma ShareChild(j: Job, h: nat, base: nat, blockoff: nat, off: nat, size: nat, valid: nat, no: nat, c: nat, first: nat, last: nat)
    requires h > 0 && Share(j, h, base, blockoff, off, size, valid)
    requires c == Cap(h - 1) && first == FirstNo(off, c) && last == LastNo(off, size, c) && first <= no <= last
    ensures last < 512
    ensures ChildBlockoff(blockoff, off, c, MaxBlocks(h - 1), no, first) >= 0
    ensures ChildSize(off, size, c, no, first, last) >= 0
    ensures Share(j, h - 1, ChildBase(h, base, no), ChildBlockoff(blockoff, off, c, MaxBlocks(h - 1), no, first),
      ChildOff(off, c, no, first), ChildSize(off, size, c, no, first, last), ChildValid(valid, c, no))
  {
    OffShare(j.lo, h, base, off, no);
    SizeShare(j.lo, j.Hi(), h, base, off, size, no);
    BlockoffShare(h, base, off, no, first);
    ValidShare(|j.was|, h, base, valid, no);
    hide ChildOff, ChildSize, ChildValid, ChildBlockoff;
  }
}

/** Lifting what a child crawl promises to the indirect block above it. */
module CrawlSlots {
  import opened Words
  import opened Geometry
  import opened Tree
  import opened Bpram
  import opened WriteSpec
  import opened WriteCrawl

  /** Entry k of table tbl is a proper subtree that reads as f. */
  ghost predicate SlotIs(s: Snap, freed: set<nat>, t: nat, h: nat, base: nat, tbl: Block, k: nat, f: seq<Byte>)
    requires h > 0 && k < 512
  {
    && Proper(s.mem, s.pos, freed, t, Addr(tbl, k), h - 1, ChildBase(h, base, k), |f|)
    && Shows(s.mem, Addr(tbl, k), h - 1, ChildBase(h, base, k), f)
  }

  lemma SlotKept(s0: Snap, s1: Snap, freed: set<nat>, freed': set<nat>, t: nat, h: nat, base: nat, tbl: Block, k: nat, f: seq<Byte>)
    requires h > 0 && k < 512 && SlotIs(s0, freed, t, h, base, tbl, k, f)
    requires Extends(s0.pos, s1.pos)
    requires Kept(s0.mem, s1.mem, s0.pos, freed, freed', t, h - 1, ChildBase(h, base, k))
    ensures SlotIs(s1, freed', t, h, base, tbl, k, f)
  {
    ProperFrame(s0.mem, s1.mem, s0.pos, s1.pos, freed, freed', t, Addr(tbl, k), h - 1, ChildBase(h, base, k), |f|);
  }

  lemma SiblingKept(s0: Snap, s1: Snap, t: nat, h: nat, base: nat, no: nat, k: nat, freed: set<nat>)
    requires h > 0 && k < 512 && no < 512 && k != no
    requires Frame(s0, s1, t, h - 1, ChildBase(h, base, no))
    ensures Kept(s0.mem, s1.mem, s0.pos, s0.freed, s1.freed, t, h - 1, ChildBase(h, base, k))
    ensures Kept(s0.mem, s1.mem, s0.pos, freed, freed, t, h - 1, ChildBase(h, base, k))
  {
    ChildBaseOrder(h, base);
  }

  /** Blocks of an indirect block's own level are in none of its subtrees. */
  lemma LevelKept(s0: Snap, s1: Snap, t: nat, h: nat, base: nat, b: nat, k: nat, freed: set<nat>)
    requires h > 0 && k < 512
    requires OnlyBlock(s0.mem, s1.mem, b) && (b in s0.pos ==> s0.pos[b].level == h)
    requires forall c {:trigger c in s1.freed} | c in s1.freed && c !in s0.freed :: c in s0.pos ==> s0.pos[c].level == h
    ensures Kept(s0.mem, s1.mem, s0.pos, s0.freed, s1.freed, t, h - 1, ChildBase(h, base, k))
    ensures Kept(s0.mem, s1.mem, s0.pos, freed, freed, t, h - 1, ChildBase(h, base, k))
  {
  }

  lemma FrameLift(s0: Snap, s1: Snap, t: nat, h: nat, base: nat, no: nat)
    requires h > 0 && no < 512 && Frame(s0, s1, t, h - 1, ChildBase(h, base, no))
    ensures Frame(s0, s1, t, h, base)
  {
    ChildBaseOrder(h, base);
  }

  lemma FrameTrans(s0: Snap, s1: Snap, s2: Snap, t: nat, h: nat, base: nat)
    requires Frame(s0, s1, t, h, base) && Frame(s1, s2, t, h, base)
    ensures Frame(s0, s2, t, h, base)
  {
    forall b | b in s0.pos && !In(s0.pos[b], t, h, base)
      ensures Get(s2.mem, b) == Get(s0.mem, b)
    {
      assert b in s1.pos && Get(s1.mem, b) == Get(s0.mem, b);
    }
    forall b | b in s2.freed && b !in s0.freed
      ensures b in s2.pos && In(s2.pos[b], t, h, base)
    {
      if b in s1.freed {
        assert b in s1.pos;
      }
    }
  }

  /** What entry k must read as once the entries before no have been crawled. */
  function Want(j: Job, first: nat, no: nat, k: nat): seq<Byte> {
    if first <= k < no then j.New() else j.Pad()
  }

  /** Whether entry k matters yet: entries that a new table has still to set do not. */
  predicate Due(j: Job, h: nat, base: nat, first: nat, no: nat, last: nat, hole: bool, k: nat)
    requires h > 0
  {
    first <= k < no || (ChildBase(h, base, k) < |j.Pad()| && !(hole && no <= k <= last))
  }

  /** Entries before no hold the new contents, the others the old ones. */
  ghost predicate Mixed(s: Snap, j: Job, h: nat, base: nat, tbl: Block, first: nat, no: nat, last: nat, hole: bool)
    requires h > 0
  {
    forall k: nat {:trigger ChildBase(h, base, k)} | k < 512 && Due(j, h, base, first, no, last, hole, k) ::
      SlotIs(s, s.freed, j.t, h, base, tbl, k, Want(j, first, no, k))
  }

  /** The visible entries of the original table still lead to the old contents. */
  ghost predicate WasSlots(s: Snap, freed: set<nat>, j: Job, h: nat, base: nat, tbl: Block)
    requires h > 0
  {
    forall k: nat {:trigger ChildBase(h, base, k)} | k < 512 && ChildBase(h, base, k) < |j.was| ::
      SlotIs(s, freed, j.t, h, base, tbl, k, j.was)
  }

  /** Two tables agree on the entries a reader of the old file can reach. */
  ghost predicate SameVisible(j: Job, h: nat, base: nat, tbl: Block, tbl': Block)
    requires h > 0
  {
    forall k: nat {:trigger ChildBase(h, base, k)} | k < 512 && ChildBase(h, base, k) < |j.was| :: tbl'[k] == tbl[k]
  }

  /** Nothing visible has changed since s0. */
  ghost predicate Quiet(s0: Snap, s: Snap, j: Job, prev: nat, h: nat, base: nat)
    requires h > 0
  {
    && CrashesSafe(s0, s, j, prev, h, base, false)
    && (prev != 0 ==>
          && prev in s0.pos && s0.pos[prev] == Label(j.t, h, base) && prev !in s0.freed
          && WasSlots(s, s0.freed, j, h, base, Get(s0.mem, prev))
          && SameVisible(j, h, base, Get(s0.mem, prev), Get(s.mem, prev)))
  }

  /** A table whose visible entries lead to the old contents reads as the old contents. */
  lemma WasReads(s: Snap, m: Mem, freed: set<nat>, j: Job, a: nat, h: nat, base: nat, tbl: Block)
    requires h > 0 && a != 0
    requires SameVisible(j, h, base, tbl, Get(m, a))
    requires forall k: nat {:trigger ChildBase(h, base, k)} | k < 512 && ChildBase(h, base, k) < |j.was| ::
      Shows(m, Addr(tbl, k), h - 1, ChildBase(h, base, k), j.was)
    ensures Shows(m, a, h, base, j.was)
  {
    forall x: nat | base <= x < base + Cap(h) && x < |j.was|
      ensures Read(m, a, h, base, x) == j.was[x]
    {
      var k := Slot(h, base, x);
      ReadSlot(m, a, h, base, k, x);
    }
  }

  /** No byte of the subtree that the old size makes visible is written. */
  predicate Unseen(j: Job, base: nat) {
    |j.was| <= j.lo || |j.was| <= base
  }

  lemma UnseenShows(j: Job, h: nat, base: nat, m: Mem, a: nat)
    requires Unseen(j, base) && Shows(m, a, h, base, j.Seen())
    ensures Shows(m, a, h, base, j.was)
  {
    forall x: nat | base <= x < base + Cap(h) && x < |j.was|
      ensures Read(m, a, h, base, x) == j.was[x]
    {
      assert j.Seen()[x] == j.was[x];
    }
  }

  /** After entry no has been crawled, the table that points to its new subtree is one step further. */
  lemma MixedChild(s1: Snap, s2: Snap, j: Job, h: nat, base: nat, tbl: Block, tbl': Block, first: nat, no: nat, last: nat,
                   hole: bool, cprev: nat, cnew: nat, commit: Commit)
    requires h > 0 && first <= no <= last < 512
    requires Mixed(s1, j, h, base, tbl, first, no, last, hole)
    requires After(s1, s2, j, cprev, h - 1, ChildBase(h, base, no), commit, 0, cnew)
    requires Addr(tbl', no) == cnew && forall k | 0 <= k < 512 && k != no :: tbl'[k] == tbl[k]
    ensures Mixed(s2, j, h, base, tbl', first, no + 1, last, hole)
  {
    var next := no + 1;
    forall k: nat | k < 512 && Due(j, h, base, first, next, last, hole, k)
      ensures SlotIs(s2, s2.freed, j.t, h, base, tbl', k, Want(j, first, next, k))
    {
      if k != no {
        SiblingKept(s1, s2, j.t, h, base, no, k, {});
        SlotKept(s1, s2, s1.freed, s2.freed, j.t, h, base, tbl, k, Want(j, first, no, k));
      }
    }
  }

  /** Stores to blocks of the table's own level leave its entries alone. */
  lemma MixedLevel(s1: Snap, s2: Snap, j: Job, h: nat, base: nat, tbl: Block, first: nat, no: nat, last: nat, hole: bool, b: nat)
    requires h > 0 && Mixed(s1, j, h, base, tbl, first, no, last, hole)
    requires Extends(s1.pos, s2.pos) && OnlyBlock(s1.mem, s2.mem, b) && (b in s1.pos ==> s1.pos[b].level == h)
    requires forall c {:trigger c in s2.freed} | c in s2.freed && c !in s1.freed :: c in s1.pos ==> s1.pos[c].level == h
    ensures Mixed(s2, j, h, base, tbl, first, no, last, hole)
  {
    forall k: nat | k < 512 && Due(j, h, base, first, no, last, hole, k)
      ensures SlotIs(s2, s2.freed, j.t, h, base, tbl, k, Want(j, first, no, k))
    {
      LevelKept(s1, s2, j.t, h, base, b, k, {});
      SlotKept(s1, s2, s1.freed, s2.freed, j.t, h, base, tbl, k, Want(j, first, no, k));
    }
  }

  lemma MixedStart(s: Snap, j: Job, prev: nat, h: nat, base: nat, first: nat, last: nat)
    requires h > 0 && prev != 0 && Before(s, j, prev, h, base)
    ensures Mixed(s, j, h, base, Get(s.mem, prev), first, first, last, false)
  {
    var tbl := Get(s.mem, prev);
    ChildBaseOrder(h, base);
    assert ProperSlots(s.mem, s.pos, s.freed, j.t, tbl, h, base, |j.Pad()|);
    forall k: nat | k < 512 && Due(j, h, base, first, first, last, false, k)
      ensures SlotIs(s, s.freed, j.t, h, base, tbl, k, Want(j, first, first, k))
    {
      forall x: nat | ChildBase(h, base, k) <= x < ChildBase(h, base, k) + Cap(h - 1) && x < |j.Pad()|
        ensures Read(s.mem, Addr(tbl, k), h - 1, ChildBase(h, base, k), x) == j.Pad()[x]
      {
        ReadSlot(s.mem, prev, h, base, k, x);
      }
    }
  }

  /** A new table for a hole: entries outside the crawl are holes as far as anything is valid. */
  lemma MixedHole(s0: Snap, s1: Snap, j: Job, h: nat, base: nat, tbl: Block, first: nat, last: nat, validno: nat)
    requires h > 0 && Before(s0, j, 0, h, base)
    requires forall k: nat | k < 512 && (k < first || last < k < validno) :: Addr(tbl, k) == 0
    requires forall k: nat {:trigger ChildBase(h, base, k)} | validno <= k < 512 && last < k :: ChildBase(h, base, k) >= |j.Pad()|
    ensures Mixed(s1, j, h, base, tbl, first, first, last, true)
  {
    HoleZero(s0.mem, h, base, j.Pad());
    ChildBaseOrder(h, base);
    forall k: nat | k < 512 && Due(j, h, base, first, first, last, true, k)
      ensures SlotIs(s1, s1.freed, j.t, h, base, tbl, k, Want(j, first, first, k))
    {
      HoleZero(s1.mem, h - 1, ChildBase(h, base, k), j.Pad());
    }
  }

  /** An entry outside the crawl reads the same in the old and in the new contents. */
  lemma SlotOutside(s: Snap, j: Job, h: nat, base: nat, tbl: Block, k: nat)
    requires h > 0 && k < 512 && ChildBase(h, base, k) < |j.New()|
    requires ChildBase(h, base, k) + Cap(h - 1) <= j.lo || j.Hi() <= ChildBase(h, base, k)
    requires ChildBase(h, base, k) < |j.Pad()| ==> SlotIs(s, s.freed, j.t, h, base, tbl, k, j.Pad())
    ensures SlotIs(s, s.freed, j.t, h, base, tbl, k, j.New())
  {
    var c := ChildBase(h, base, k);
    assert c < |j.Pad()|;
    ProperEnd(s.mem, s.pos, s.freed, j.t, Addr(tbl, k), h - 1, c, |j.Pad()|, |j.New()|);
    forall x: nat | c <= x < c + Cap(h - 1) && x < |j.New()|
      ensures Read(s.mem, Addr(tbl, k), h - 1, c, x) == j.New()[x]
    {
      assert j.New()[x] == j.Pad()[x];
    }
  }

  /** A table all of whose entries read as f makes its block read as f. */
  lemma TableReads(s: Snap, freed: set<nat>, t: nat, b: nat, h: nat, base: nat, f: seq<Byte>)
    requires h > 0 && b != 0 && b in s.pos && s.pos[b] == Label(t, h, base) && b !in freed
    requires forall k: nat {:trigger ChildBase(h, base, k)} | k < 512 && ChildBase(h, base, k) < |f| ::
      SlotIs(s, freed, t, h, base, Get(s.mem, b), k, f)
    ensures Proper(s.mem, s.pos, freed, t, b, h, base, |f|) && Shows(s.mem, b, h, base, f)
  {
    assert ProperSlots(s.mem, s.pos, freed, t, Get(s.mem, b), h, base, |f|);
    forall x: nat | base <= x < base + Cap(h) && x < |f|
      ensures Read(s.mem, b, h, base, x) == f[x]
    {
      var k := Slot(h, base, x);
      ReadSlot(s.mem, b, h, base, k, x);
    }
  }

  /** A finished table reads as the new contents. */
  lemma MixedDone(s: Snap, j: Job, b: nat, h: nat, base: nat, first: nat, last: nat, hole: bool)
    requires h > 0 && b in s.pos && b != 0 && s.pos[b] == Label(j.t, h, base) && b !in s.freed
    requires first <= last < 512
    requires Mixed(s, j, h, base, Get(s.mem, b), first, last + 1, last, hole)
    requires first > 0 ==> ChildBase(h, base, first) <= j.lo
    requires last < 511 ==> j.Hi() <= ChildBase(h, base, last) + Cap(h - 1)
    ensures Proper(s.mem, s.pos, s.freed, j.t, b, h, base, |j.New()|)
    ensures Shows(s.mem, b, h, base, j.New())
  {
    var tbl := Get(s.mem, b);
    ChildBaseOrder(h, base);
    forall k: nat | k < 512 && ChildBase(h, base, k) < |j.New()|
      ensures SlotIs(s, s.freed, j.t, h, base, tbl, k, j.New())
    {
      if !(first <= k <= last) {
        assert k < first ==> ChildBase(h, base, k) + Cap(h - 1) <= ChildBase(h, base, first);
        assert k > last ==> ChildBase(h, base, last) + Cap(h - 1) <= ChildBase(h, base, k);
        SlotOutside(s, j, h, base, tbl, k);
      }
    }
    TableReads(s, s.freed, j.t, b, h, base, j.New());
  }

  /** At the start of a crawl nothing has changed. */
  lemma QuietStart(s: Snap, j: Job, prev: nat, h: nat, base: nat)
    requires h > 0 && Before(s, j, prev, h, base)
    ensures Quiet(s, s, j, prev, h, base)
  {
    if prev != 0 {
      var tbl := Get(s.mem, prev);
      WasPrefix(j);
      MixedStart(s, j, prev, h, base, 0, 0);
      forall k: nat {:trigger ChildBase(h, base, k)} | k < 512 && ChildBase(h, base, k) < |j.was|
        ensures SlotIs(s, s.freed, j.t, h, base, tbl, k, j.was)
      {
        assert Due(j, h, base, 0, 0, 0, false, k);
        assert SlotIs(s, s.freed, j.t, h, base, tbl, k, j.Pad());
        ProperEnd(s.mem, s.pos, s.freed, j.t, Addr(tbl, k), h - 1, ChildBase(h, base, k), |j.Pad()|, |j.was|);
        ShowsPrefix(s.mem, Addr(tbl, k), h - 1, ChildBase(h, base, k), j.Pad(), j.was);
      }
    }
  }

  /** While nothing visible has changed, prev is proper and reads as the old contents. */
  lemma QuietReads(s0: Snap, s: Snap, j: Job, prev: nat, h: nat, base: nat)
    requires h > 0 && Quiet(s0, s, j, prev, h, base) && Extends(s0.pos, s.pos)
    requires Before(s0, j, prev, h, base)
    ensures Proper(s.mem, s.pos, s0.freed, j.t, prev, h, base, |j.was|)
    ensures Shows(s.mem, prev, h, base, j.was)
  {
    if prev == 0 {
      WasPrefix(j);
      HoleZero(s0.mem, h, base, j.Pad());
      HoleZero(s.mem, h, base, j.was);
    } else {
      TableReads(s, s0.freed, j.t, prev, h, base, j.was);
    }
  }

  /** A crash that disturbs only entry no, and there shows the old contents, shows them everywhere. */
  lemma CrashLift(s0: Snap, s1: Snap, m': Mem, j: Job, prev: nat, h: nat, base: nat, no: nat, cprev: nat)
    requires h > 0 && no < 512 && Before(s0, j, prev, h, base)
    requires Quiet(s0, s1, j, prev, h, base) && Frame(s0, s1, j.t, h, base)
    requires FrameOut(s1.mem, m', s1.pos, j.t, h - 1, ChildBase(h, base, no))
    requires Shows(m', cprev, h - 1, ChildBase(h, base, no), j.was)
    requires prev != 0 && ChildBase(h, base, no) < |j.was| ==> cprev == Addr(Get(s0.mem, prev), no)
    ensures CrashSafe(s0, m', j, prev, h, base, false)
  {
    ChildBaseOrder(h, base);
    if prev == 0 {
      WasPrefix(j);
      HoleZero(s0.mem, h, base, j.Pad());
      HoleZero(m', h, base, j.was);
    } else {
      var tbl := Get(s0.mem, prev);
      forall k: nat {:trigger ChildBase(h, base, k)} | k < 512 && ChildBase(h, base, k) < |j.was|
        ensures Shows(m', Addr(tbl, k), h - 1, ChildBase(h, base, k), j.was)
      {
        if k != no {
          assert SlotIs(s1, s0.freed, j.t, h, base, tbl, k, j.was);
          assert Kept(s1.mem, m', s1.pos, s0.freed, s0.freed, j.t, h - 1, ChildBase(h, base, k));
          ProperFrame(s1.mem, m', s1.pos, s1.pos, s0.freed, s0.freed, j.t, Addr(tbl, k), h - 1, ChildBase(h, base, k), |j.was|);
        }
      }
      assert Get(m', prev) == Get(s1.mem, prev);
      WasReads(s1, m', s0.freed, j, prev, h, base, tbl);
    }
  }

  /** The entry of such a child still shows the old contents, and so does every crash of its crawl. */
  lemma QuietEntry(s1: Snap, s2: Snap, j: Job, h: nat, base: nat, cprev: nat, commit: Commit, rc: int, cnew: nat)
    requires After(s1, s2, j, cprev, h, base, commit, rc, cnew)
    requires !(commit == Atomic && rc == 0 && cnew == cprev) || Unseen(j, base)
    ensures Shows(s2.mem, cprev, h, base, j.was)
    ensures forall m' {:trigger m' in s2.crashes} | m' in s2.crashes && m' !in s1.crashes ::
      FrameOut(s1.mem, m', s1.pos, j.t, h, base) && Shows(m', cprev, h, base, j.was)
  {
    hide Shows, Proper, Frame, FrameOut;
    if commit == Atomic && rc == 0 && cnew == cprev {
      ShowsPrefix(s2.mem, cnew, h, base, j.New(), j.Seen());
      UnseenShows(j, h, base, s2.mem, cprev);
    }
    forall m' {:trigger m' in s2.crashes} | m' in s2.crashes && m' !in s1.crashes
      ensures FrameOut(s1.mem, m', s1.pos, j.t, h, base) && Shows(m', cprev, h, base, j.was)
    {
      if !Shows(m', cprev, h, base, j.was) {
        UnseenShows(j, h, base, m', cprev);
      }
    }
  }

  lemma QuietCrashes(s0: Snap, s1: Snap, s2: Snap, j: Job, prev: nat, h: nat, base: nat, no: nat,
                     cprev: nat, commit: Commit, rc: int, cnew: nat)
    requires h > 0 && no < 512 && Before(s0, j, prev, h, base)
    requires Quiet(s0, s1, j, prev, h, base) && Frame(s0, s1, j.t, h, base)
    requires After(s1, s2, j, cprev, h - 1, ChildBase(h, base, no), commit, rc, cnew)
    requires prev != 0 && ChildBase(h, base, no) < |j.was| ==> cprev == Addr(Get(s0.mem, prev), no)
    requires !(commit == Atomic && rc == 0 && cnew == cprev) || Unseen(j, ChildBase(h, base, no))
    ensures CrashesSafe(s0, s2, j, prev, h, base, false)
  {
    QuietEntry(s1, s2, j, h - 1, ChildBase(h, base, no), cprev, commit, rc, cnew);
    assert CrashesSafe(s0, s1, j, prev, h, base, false);
    hide Shows, Proper, Frame, FrameOut, After, Quiet, Before, Unseen, CrashSafe, ChildBase;
    forall m' {:trigger m' in s2.crashes} | m' in s2.crashes && m' !in s0.crashes
      ensures CrashSafe(s0, m', j, prev, h, base, false)
    {
      if m' !in s1.crashes {
        CrashLift(s0, s1, m', j, prev, h, base, no, cprev);
      }
    }
  }

  lemma QuietSlot(s0: Snap, s1: Snap, s2: Snap, j: Job, prev: nat, h: nat, base: nat, no: nat,
                 cprev: nat, commit: Commit, rc: int, cnew: nat, k: nat)
    requires h > 0 && no < 512 && Before(s0, j, prev, h, base)
    requires Quiet(s0, s1, j, prev, h, base) && Frame(s0, s1, j.t, h, base)
    requires After(s1, s2, j, cprev, h - 1, ChildBase(h, base, no), commit, rc, cnew)
    requires prev != 0 && ChildBase(h, base, no) < |j.was| ==> cprev == Addr(Get(s0.mem, prev), no)
    requires !(commit == Atomic && rc == 0 && cnew == cprev) || Unseen(j, ChildBase(h, base, no))
    requires prev != 0 && k < 512 && ChildBase(h, base, k) < |j.was|
    ensures SlotIs(s2, s0.freed, j.t, h, base, Get(s0.mem, prev), k, j.was)
  {
    var tbl := Get(s0.mem, prev);
    QuietEntry(s1, s2, j, h - 1, ChildBase(h, base, no), cprev, commit, rc, cnew);
    assert k != no ==> SlotIs(s1, s0.freed, j.t, h, base, tbl, k, j.was);
    if k != no {
      SiblingKept(s1, s2, j.t, h, base, no, k, s0.freed);
      hide Shows, Proper, FrameOut, Quiet, Before, CrashesSafe, SlotIs;
      SlotKept(s1, s2, s0.freed, s0.freed, j.t, h, base, tbl, k, j.was);
    } else {
      ProperFrame(s2.mem, s2.mem, s2.pos, s2.pos, s1.freed, s0.freed, j.t, cprev, h - 1, ChildBase(h, base, no), |j.was|);
    }
  }

  /** A child crawl that has not committed in place, or wrote nothing visible, keeps everything quiet. */
  lemma QuietChild(s0: Snap, s1: Snap, s2: Snap, j: Job, prev: nat, h: nat, base: nat, no: nat,
                   cprev: nat, commit: Commit, rc: int, cnew: nat)
    requires h > 0 && no < 512 && Before(s0, j, prev, h, base)
    requires Quiet(s0, s1, j, prev, h, base) && Frame(s0, s1, j.t, h, base)
    requires After(s1, s2, j, cprev, h - 1, ChildBase(h, base, no), commit, rc, cnew)
    requires prev != 0 && ChildBase(h, base, no) < |j.was| ==> cprev == Addr(Get(s0.mem, prev), no)
    requires !(commit == Atomic && rc == 0 && cnew == cprev) || Unseen(j, ChildBase(h, base, no))
    ensures Quiet(s0, s2, j, prev, h, base)
  {
    QuietCrashes(s0, s1, s2, j, prev, h, base, no, cprev, commit, rc, cnew);
    if prev != 0 {
      var tbl := Get(s0.mem, prev);
      assert Get(s2.mem, prev) == Get(s1.mem, prev);
      hide Shows, Proper, Frame, FrameOut, After, Before, CrashesSafe, SlotIs;
      forall k: nat {:trigger ChildBase(h, base, k)} | k < 512 && ChildBase(h, base, k) < |j.was|
        ensures SlotIs(s2, s0.freed, j.t, h, base, tbl, k, j.was)
      {
        QuietSlot(s0, s1, s2, j, prev, h, base, no, cprev, commit, rc, cnew, k);
      }
    }
  }

  /** A memory that differs from a quiet one in block b alone still shows the old contents. */
  lemma LevelCrash(s0: Snap, s1: Snap, m': Mem, j: Job, prev: nat, h: nat, base: nat, b: nat)
    requires h > 0 && Before(s0, j, prev, h, base)
    requires Quiet(s0, s1, j, prev, h, base) && Frame(s0, s1, j.t, h, base) && OnlyBlock(s1.mem, m', b)
    requires b != prev ==> b !in s0.pos && (b in s1.pos ==> s1.pos[b].level == h)
    requires b == prev ==> prev != 0 && SameVisible(j, h, base, Get(s0.mem, prev), Get(m', prev))
    ensures CrashSafe(s0, m', j, prev, h, base, false)
  {
    if prev == 0 {
      WasPrefix(j);
      HoleZero(s0.mem, h, base, j.Pad());
      HoleZero(m', h, base, j.was);
    } else {
      var tbl := Get(s0.mem, prev);
      hide CrashesSafe;
      forall k: nat {:trigger ChildBase(h, base, k)} | k < 512 && ChildBase(h, base, k) < |j.was|
        ensures Shows(m', Addr(tbl, k), h - 1, ChildBase(h, base, k), j.was)
      {
        assert SlotIs(s1, s0.freed, j.t, h, base, tbl, k, j.was);
        ProperFrame(s1.mem, m', s1.pos, s1.pos, s0.freed, s0.freed, j.t, Addr(tbl, k), h - 1, ChildBase(h, base, k), |j.was|);
      }
      hide Shows;
      WasReads(s1, m', s0.freed, j, prev, h, base, tbl);
    }
  }

  /** Stores to a new block of the same level, or to an entry beyond the valid bytes, keep everything quiet. */
  lemma QuietLevel(s0: Snap, s1: Snap, s2: Snap, j: Job, prev: nat, h: nat, base: nat, b: nat)
    requires h > 0 && Before(s0, j, prev, h, base)
    requires Quiet(s0, s1, j, prev, h, base) && Frame(s0, s1, j.t, h, base) && Extends(s1.pos, s2.pos)
    requires s1.crashes <= s2.crashes && OnlyBlock(s1.mem, s2.mem, b)
    requires b != prev ==> b !in s0.pos && (b in s1.pos ==> s1.pos[b].level == h)
    requires b == prev ==> prev != 0 && SameVisible(j, h, base, Get(s0.mem, prev), Get(s2.mem, prev))
    requires forall m' {:trigger m' in s2.crashes} | m' in s2.crashes && m' !in s1.crashes ::
      if b == prev then m' == s2.mem else OnlyBlock(s1.mem, m', b)
    ensures Quiet(s0, s2, j, prev, h, base)
  {
    hide Before, CrashSafe, Shows, Proper;
    forall m' {:trigger m' in s2.crashes} | m' in s2.crashes && m' !in s1.crashes
      ensures CrashSafe(s0, m', j, prev, h, base, false)
    {
      hide Frame;
      LevelCrash(s0, s1, m', j, prev, h, base, b);
    }
    if prev != 0 {
      var tbl := Get(s0.mem, prev);
      hide SlotIs;
      forall k: nat {:trigger ChildBase(h, base, k)} | k < 512 && ChildBase(h, base, k) < |j.was|
        ensures SlotIs(s2, s0.freed, j.t, h, base, tbl, k, j.was)
      {
        SlotKept(s1, s2, s0.freed, s0.freed, j.t, h, base, tbl, k, j.was);
      }
    }
  }

  /** A table each of whose visible entries reads as f reads as f. */
  lemma MemTableReads(m: Mem, a: nat, h: nat, base: nat, f: seq<Byte>)
    requires h > 0 && a != 0
    requires forall k: nat {:trigger ChildBase(h, base, k)} | k < 512 && ChildBase(h, base, k) < |f| ::
      Shows(m, Addr(Get(m, a), k), h - 1, ChildBase(h, base, k), f)
    ensures Shows(m, a, h, base, f)
  {
    forall x: nat | base <= x < base + Cap(h) && x < |f|
      ensures Read(m, a, h, base, x) == f[x]
    {
      var k := Slot(h, base, x);
      ReadSlot(m, a, h, base, k, x);
    }
  }

  /** The crawl's range lies below entry no alone. */
  predicate OnlyEntry(j: Job, h: nat, base: nat, no: nat)
    requires h > 0
  {
    (no > 0 ==> ChildBase(h, base, no) <= j.lo) && (no < 511 ==> j.Hi() <= ChildBase(h, base, no) + Cap(h - 1))
  }

  /** When the only child crawled commits in place, so does its parent. */
  lemma CommitChild(s0: Snap, s2: Snap, j: Job, prev: nat, h: nat, base: nat, no: nat, cprev: nat)
    requires h > 0 && no < 512 && prev != 0 && Before(s0, j, prev, h, base) && OnlyEntry(j, h, base, no)
    requires cprev == Addr(Get(s0.mem, prev), no)
    requires After(s0, s2, j, cprev, h - 1, ChildBase(h, base, no), Atomic, 0, cprev)
    ensures CrashesSafe(s0, s2, j, prev, h, base, true)
  {
    QuietStart(s0, j, prev, h, base);
    ChildBaseOrder(h, base);
    var tbl := Get(s0.mem, prev);
    forall m' {:trigger m' in s2.crashes} | m' in s2.crashes && m' !in s0.crashes
      ensures CrashSafe(s0, m', j, prev, h, base, true)
    {
      if Shows(m', cprev, h - 1, ChildBase(h, base, no), j.was) {
        CrashLift(s0, s0, m', j, prev, h, base, no, cprev);
      } else {
        assert Get(m', prev) == tbl;
        forall k: nat {:trigger ChildBase(h, base, k)} | k < 512 && ChildBase(h, base, k) < |j.Seen()|
          ensures Shows(m', Addr(tbl, k), h - 1, ChildBase(h, base, k), j.Seen())
        {
          if k != no {
            SeenSibling(s0, m', j, prev, h, base, no, k);
          }
        }
        MemTableReads(m', prev, h, base, j.Seen());
      }
    }
  }

  lemma SeenSibling(s0: Snap, m': Mem, j: Job, prev: nat, h: nat, base: nat, no: nat, k: nat)
    requires h > 0 && no < 512 && k < 512 && k != no && prev != 0 && OnlyEntry(j, h, base, no)
    requires Quiet(s0, s0, j, prev, h, base)
    requires FrameOut(s0.mem, m', s0.pos, j.t, h - 1, ChildBase(h, base, no))
    requires ChildBase(h, base, k) < |j.was|
    ensures Shows(m', Addr(Get(s0.mem, prev), k), h - 1, ChildBase(h, base, k), j.Seen())
  {
    var tbl, c := Get(s0.mem, prev), ChildBase(h, base, k);
    ChildBaseOrder(h, base);
    assert SlotIs(s0, s0.freed, j.t, h, base, tbl, k, j.was);
    assert Kept(s0.mem, m', s0.pos, s0.freed, s0.freed, j.t, h - 1, c);
    ProperFrame(s0.mem, m', s0.pos, s0.pos, s0.freed, s0.freed, j.t, Addr(tbl, k), h - 1, c, |j.was|);
    assert k < no ==> c + Cap(h - 1) <= ChildBase(h, base, no);
    assert no < k ==> ChildBase(h, base, no) + Cap(h - 1) <= c;
    forall x: nat | c <= x < c + Cap(h - 1) && x < |j.Seen()|
      ensures Read(m', Addr(tbl, k), h - 1, c, x) == j.Seen()[x]
    {
      assert j.Seen()[x] == j.was[x];
    }
  }

  /** The crawl of an indirect block keeps its promise once its table is finished. */
  lemma Finish(s0: Snap, s: Snap, j: Job, prev: nat, h: nat, base: nat, commit: Commit, newno: nat, inPlace: bool)
    requires h > 0 && newno != 0 && Before(s0, j, prev, h, base) && Frame(s0, s, j.t, h, base)
    requires Proper(s.mem, s.pos, s.freed, j.t, newno, h, base, |j.New()|) && Shows(s.mem, newno, h, base, j.New())
    requires newno != prev ==> newno !in s0.pos
    requires inPlace ==> commit == Atomic && newno == prev && CrashesSafe(s0, s, j, prev, h, base, true)
    requires !inPlace ==> Quiet(s0, s, j, prev, h, base)
    requires commit == CopyOnly && Max(j.lo, base) < |j.was| ==> newno != prev
    ensures After(s0, s, j, prev, h, base, commit, 0, newno)
  {
    if inPlace {
      ProperFrame(s.mem, s.mem, s.pos, s.pos, s.freed, s0.freed, j.t, prev, h, base, |j.New()|);
      ProperEnd(s.mem, s.pos, s0.freed, j.t, prev, h, base, |j.New()|, |j.was|);
    } else {
      QuietReads(s0, s, j, prev, h, base);
    }
  }

  /** A crawl that runs out of space leaves the old contents. */
  lemma Fail(s0: Snap, s: Snap, j: Job, prev: nat, h: nat, base: nat, commit: Commit)
    requires h > 0 && Before(s0, j, prev, h, base) && Frame(s0, s, j.t, h, base) && Quiet(s0, s, j, prev, h, base)
    ensures After(s0, s, j, prev, h, base, commit, ENOSPC, 0)
  {
    QuietReads(s0, s, j, prev, h, base);
  }

  lemma ZeroAddr(b: Block, k: nat)
    requires k < 512
    requires forall x | 8 * k <= x < 8 * k + 8 :: ByteAt(b, x) == 0
    ensures Addr(b, k) == 0
  {
    forall i | 0 <= i < 8
      ensures b[k][i] == 0
    {
      assert ByteAt(b, 8 * k + i) == b[k][i];
    }
    assert b[k] == ZERO_WORD == Encode(0, 8);
    WordRoundTrip(0);
  }

  /** The parts of a child's promise that its parent uses directly. */
  lemma AfterFacts(s0: Snap, s1: Snap, s2: Snap, j: Job, h: nat, base: nat, no: nat, cprev: nat, commit: Commit, rc: int, cnew: nat)
    requires h > 0 && no < 512 && Frame(s0, s1, j.t, h, base)
    requires After(s1, s2, j, cprev, h - 1, ChildBase(h, base, no), commit, rc, cnew)
    ensures rc == 0 || rc == ENOSPC
    ensures rc == 0 ==> cnew != 0 && cnew in s2.pos
    ensures rc == 0 && commit == CopyOnly && Max(j.lo, ChildBase(h, base, no)) < |j.was| ==> cnew != cprev
    ensures Frame(s0, s2, j.t, h, base)
    ensures s1.crashes <= s2.crashes
    ensures forall b | b in s1.pos && s1.pos[b] == Label(j.t, h, base) ::
      b in s2.pos && s2.pos[b] == s1.pos[b] && Get(s2.mem, b) == Get(s1.mem, b) && (b in s2.freed ==> b in s1.freed)
  {
    FrameLift(s1, s2, j.t, h, base, no);
    FrameTrans(s0, s1, s2, j.t, h, base);
  }

  /** Writing one block of the table's level is within the frame. */
  lemma FrameLevel(s0: Snap, s1: Snap, s2: Snap, t: nat, h: nat, base: nat, b: nat)
    requires Frame(s0, s1, t, h, base)
    requires s2.mem.Keys == s1.mem.Keys && OnlyBlock(s1.mem, s2.mem, b) && s1.crashes <= s2.crashes
    requires b in s2.pos && s2.pos[b] == Label(t, h, base)
    requires s2.pos == s1.pos[b := Label(t, h, base)]
    requires s1.freed <= s2.freed && forall c {:trigger c in s2.freed} | c in s2.freed && c !in s1.freed ::
      c in s1.pos && s1.pos[c] == Label(t, h, base)
    requires b in s0.pos ==> s0.pos[b] == Label(t, h, base)
    ensures Frame(s0, s2, t, h, base)
  {
    forall c | c in s0.pos && !In(s0.pos[c], t, h, base)
      ensures Get(s2.mem, c) == Get(s0.mem, c)
    {
      assert Get(s1.mem, c) == Get(s0.mem, c);
    }
  }
}

/** crawl_indir for a write. */
module WriteIndir {
  import opened Words
  import opened Geometry
  import opened Tree
  import opened Bpram
  import opened WriteSpec
  import opened WriteCrawl
  import opened CrawlArithmetic
  import opened CrawlSlots
  import opened SpaceSpec
  import opened SpaceSlots

  /** The loop of crawl_indir: where it stands, and what is still true of the old contents. */
  ghost predicate Loop(s0: Snap, s: Snap, j: Job, prev: nat, h: nat, base: nat, blockno: nat, commit: Commit,
                       first: nat, no: nat, last: nat, inPlace: bool)
    requires h > 0
  {
    && Frame(s0, s, j.t, h, base)
    && blockno != 0 && blockno in s.pos && s.pos[blockno] == Label(j.t, h, base) && blockno !in s.freed
    && (blockno != prev ==> blockno !in s0.pos)
    && Mixed(s, j, h, base, Get(s.mem, blockno), first, no, last, prev == 0)
    && (prev != 0 ==> forall k | no <= k < 512 :: Get(s.mem, blockno)[k] == Get(s0.mem, prev)[k])
    && (!inPlace ==> Quiet(s0, s, j, prev, h, base))
    && (inPlace ==> commit == Atomic && first == last && no == first + 1 && blockno == prev && CrashesSafe(s0, s, j, prev, h, base, true))
    && (no == first ==> prev == 0 || (s == s0 && blockno == prev))
    && (no > first && commit == CopyOnly && Max(j.lo, base) < |j.was| ==> blockno != prev)
  }

  /** The same after entry no has been crawled and before the table points to its new subtree cnew. */
  ghost predicate Pending(s0: Snap, s: Snap, j: Job, prev: nat, h: nat, base: nat, blockno: nat, first: nat, no: nat, last: nat, cnew: nat)
    requires h > 0 && no < 512
  {
    && Frame(s0, s, j.t, h, base)
    && blockno != 0 && blockno in s.pos && s.pos[blockno] == Label(j.t, h, base) && blockno !in s.freed
    && (blockno != prev ==> blockno !in s0.pos)
    && cnew != 0 && cnew in s.pos
    && Mixed(s, j, h, base, Get(s.mem, blockno)[no := ToWord(cnew)], first, no + 1, last, prev == 0)
    && (prev != 0 ==> forall k | no < k < 512 :: Get(s.mem, blockno)[k] == Get(s0.mem, prev)[k])
    && Quiet(s0, s, j, prev, h, base)
  }

  /** The block the next entry is read from: nothing below an entry without valid bytes, or of a new table. */
  function ChildPrev(tbl: Block, hole: bool, no: nat, childValid: nat): nat
    requires no < 512
  {
    if childValid == 0 || hole then 0 else Addr(tbl, no)
  }

  lemma AddrToWord(tbl: Block, no: nat, b: nat)
    requires no < 512 && b < 0x1_0000_0000_0000_0000
    ensures Addr(tbl[no := ToWord(b)], no) == b
  {
    WordRoundTrip(b);
  }

  /** A child whose pointer must change. */
  lemma ChildPending(s0: Snap, s1: Snap, s2: Snap, j: Job, prev: nat, h: nat, base: nat, blockno: nat, commit: Commit,
                     first: nat, no: nat, last: nat, childValid: nat, childCommit: Commit, cprev: nat, cnew: nat)
    requires h > 0 && first <= no <= last < 512 && Before(s0, j, prev, h, base)
    requires Loop(s0, s1, j, prev, h, base, blockno, commit, first, no, last, false)
    requires childValid == Within(|j.was|, ChildBase(h, base, no), Cap(h - 1))
    requires cprev == ChildPrev(Get(s1.mem, blockno), prev == 0, no, childValid)
    requires After(s1, s2, j, cprev, h - 1, ChildBase(h, base, no), childCommit, 0, cnew)
    requires cnew != cprev && cnew < 0x1_0000_0000_0000_0000
    ensures Pending(s0, s2, j, prev, h, base, blockno, first, no, last, cnew)
  {
    hide After, Mixed, Quiet, Frame, Before;
    AfterFacts(s0, s1, s2, j, h, base, no, cprev, childCommit, 0, cnew);
    var tbl := Get(s1.mem, blockno);
    AddrToWord(tbl, no, cnew);
    MixedChild(s1, s2, j, h, base, tbl, tbl[no := ToWord(cnew)], first, no, last, prev == 0, cprev, cnew, childCommit);
    QuietChild(s0, s1, s2, j, prev, h, base, no, cprev, childCommit, 0, cnew);
  }

  /** A child whose pointer stays: it changed nothing visible, or it committed the whole write in place. */
  lemma ChildKept(s0: Snap, s1: Snap, s2: Snap, j: Job, prev: nat, h: nat, base: nat, blockno: nat, commit: Commit,
                  first: nat, no: nat, last: nat, childValid: nat, childCommit: Commit, cprev: nat)
    requires h > 0 && first <= no <= last < 512 && Before(s0, j, prev, h, base)
    requires Loop(s0, s1, j, prev, h, base, blockno, commit, first, no, last, false)
    requires childValid == Within(|j.was|, ChildBase(h, base, no), Cap(h - 1))
    requires cprev == ChildPrev(Get(s1.mem, blockno), prev == 0, no, childValid)
    requires After(s1, s2, j, cprev, h - 1, ChildBase(h, base, no), childCommit, 0, cprev)
    requires childCommit == Atomic ==> commit == Atomic && (Unseen(j, base) || (first == last && OnlyEntry(j, h, base, no)))
    requires childCommit == CopyOnly <== commit == CopyOnly
    requires no == first ==> Max(j.lo, ChildBase(h, base, no)) == Max(j.lo, base)
    ensures Loop(s0, s2, j, prev, h, base, blockno, commit, first, no + 1, last, childCommit == Atomic && !Unseen(j, base))
  {
    hide After, Mixed, Quiet, Frame, Before, CrashesSafe;
    AfterFacts(s0, s1, s2, j, h, base, no, cprev, childCommit, 0, cprev);
    var tbl := Get(s1.mem, blockno);
    MixedChild(s1, s2, j, h, base, tbl, tbl, first, no, last, prev == 0, cprev, cprev, childCommit);
    if childCommit == Atomic && !Unseen(j, base) {
      CommitChild(s0, s2, j, prev, h, base, no, cprev);
    } else {
      QuietChild(s0, s1, s2, j, prev, h, base, no, cprev, childCommit, 0, cprev);
    }
  }

  /** Copying the table before it is changed keeps everything pending. */
  lemma CopyTable(s0: Snap, s: Snap, s': Snap, j: Job, prev: nat, h: nat, base: nat, b: nat, b': nat,
                  first: nat, no: nat, last: nat, cnew: nat)
    requires h > 0 && no < 512 && Before(s0, j, prev, h, base)
    requires Pending(s0, s, j, prev, h, base, b, first, no, last, cnew)
    requires b' != 0 && b' !in s.pos && s'.pos == s.pos[b' := s.pos[b]] && s'.freed == s.freed + {b}
    requires s.freed <= s.pos.Keys
    requires s'.mem.Keys == s.mem.Keys && Get(s'.mem, b') == Get(s.mem, b) && OnlyBlock(s.mem, s'.mem, b')
    requires s.crashes <= s'.crashes
    requires forall m' {:trigger m' in s'.crashes} | m' in s'.crashes :: m' in s.crashes || OnlyBlock(s.mem, m', b')
    requires prev != 0 ==> prev in s0.pos
    ensures Pending(s0, s', j, prev, h, base, b', first, no, last, cnew)
  {
    assert Extends(s0.pos, s.pos);
    hide Mixed, Quiet, Frame, Before;
    MixedLevel(s, s', j, h, base, Get(s.mem, b)[no := ToWord(cnew)], first, no + 1, last, prev == 0, b');
    QuietLevel(s0, s, s', j, prev, h, base, b');
    FrameLevel(s0, s, s', j.t, h, base, b');
  }

  /** Storing the new pointer: quietly in a new table or an unseen entry, or as the commit of the whole write. */
  lemma StoreEntry(s0: Snap, s: Snap, s': Snap, j: Job, prev: nat, h: nat, base: nat, b: nat, commit: Commit,
                   first: nat, no: nat, last: nat, cnew: nat)
    requires h > 0 && first <= no <= last < 512 && Before(s0, j, prev, h, base)
    requires Pending(s0, s, j, prev, h, base, b, first, no, last, cnew) && b in s.mem
    requires s' == Snap(s.mem[b := Get(s.mem, b)[no := ToWord(cnew)]], s.pos, s.freed, s.crashes + iset{s'.mem})
    requires b != prev || ChildBase(h, base, no) >= |j.was| || (commit == Atomic && first == last && OnlyEntry(j, h, base, no))
    requires no == first ==> Max(j.lo, ChildBase(h, base, no)) == Max(j.lo, base)
    requires no > first && commit == CopyOnly && Max(j.lo, base) < |j.was| ==> b != prev
    ensures Loop(s0, s', j, prev, h, base, b, commit, first, no + 1, last, b == prev && ChildBase(h, base, no) < |j.was|)
  {
    hide Mixed, Frame, Before, CrashesSafe;
    var tbl := Get(s.mem, b)[no := ToWord(cnew)];
    assert OnlyBlock(s.mem, s'.mem, b) && Get(s'.mem, b) == tbl && s'.mem.Keys == s.mem.Keys;
    assert prev != 0 ==> SameVisible(j, h, base, Get(s0.mem, prev), Get(s.mem, prev));
    MixedLevel(s, s', j, h, base, tbl, first, no + 1, last, prev == 0, b);
    FrameLevel(s0, s, s', j.t, h, base, b);
    ChildBaseOrder(h, base);
    if b == prev && ChildBase(h, base, no) < |j.was| {
      StoreCommits(s0, s, s', j, prev, h, base, no, last);
    } else {
      hide Quiet;
      QuietLevel(s0, s, s', j, prev, h, base, b);
    }
  }

  lemma StoreCommits(s0: Snap, s: Snap, s': Snap, j: Job, prev: nat, h: nat, base: nat, no: nat, last: nat)
    requires h > 0 && no == last < 512 && prev != 0 && prev in s'.pos && s'.pos[prev] == Label(j.t, h, base) && prev !in s'.freed
    requires OnlyEntry(j, h, base, no) && Quiet(s0, s, j, prev, h, base) && Frame(s0, s', j.t, h, base)
    requires Mixed(s', j, h, base, Get(s'.mem, prev), no, no + 1, last, false)
    requires s'.crashes == s.crashes + iset{s'.mem}
    ensures CrashesSafe(s0, s', j, prev, h, base, true)
  {
    hide Mixed;
    MixedDone(s', j, prev, h, base, no, last, false);
    WasPrefix(j);
    ShowsPrefix(s'.mem, prev, h, base, j.New(), j.Seen());
  }

  /** Copy the table before the store, if a reader could see that store; 0 when there is no block for the copy. */
  method OpenTable(fs: Bpram, prev: nat, blockno: nat, copy: bool, h: nat, ghost j: Job, ghost base: nat, ghost s0: Snap,
                   ghost first: nat, ghost no: nat, ghost last: nat, ghost cnew: nat)
    returns (newno: nat)
    requires h > 0 && no < 512 && fs.Valid() && blockno != 0 && blockno in fs.used && blockno in fs.mem && Before(s0, j, prev, h, base)
    requires Pending(s0, Now(fs), j, prev, h, base, blockno, first, no, last, cnew) && fs.freed <= fs.pos.Keys == fs.used && (prev != 0 ==> prev in s0.pos)
    modifies fs
    ensures fs.Valid() && (newno == 0 <==> copy && FreeBlocks(old(fs.mem), old(fs.pos)) == 0)
    ensures newno == 0 ==> Now(fs) == old(Now(fs))
    ensures newno != 0 ==> newno in fs.used && newno in fs.mem && (newno != blockno <==> copy) && Opened(old(Now(fs)), Now(fs), blockno, newno, copy)
    ensures newno != 0 ==> Pending(s0, Now(fs), j, prev, h, base, newno, first, no, last, cnew)
  {
    hide *;
    ghost var s := Now(fs);
    newno := blockno;
    if copy {
      newno := fs.CowBlockEntire(blockno);
      if newno == 0 {
        return;
      }
      CopyTable(s0, s, Now(fs), j, prev, h, base, blockno, newno, first, no, last, cnew);
      CopyThere(fs, newno);
    }
    OpenedFor(s, Now(fs), blockno, newno, copy);
  }

  lemma OpenedFor(s: Snap, s': Snap, blockno: nat, newno: nat, copied: bool)
    requires if copied then
        newno != blockno && newno in s.mem && newno !in s.pos && blockno in s.pos && s'.pos == s.pos[newno := s.pos[blockno]] && s'.mem.Keys == s.mem.Keys
        && Get(s'.mem, newno) == Get(s.mem, blockno) && OnlyBlock(s.mem, s'.mem, newno)
      else newno == blockno && s' == s
    ensures Opened(s, s', blockno, newno, copied)
  {
  }

  /** Point entry no of the table at the crawled subtree, on a copy when the store may not happen in place. */
  method SetEntry(fs: Bpram, prev: nat, blockno: nat, no: nat, childNew: nat, childValid: nat, commit: Commit, single: bool,
                  h: nat, ghost j: Job, ghost base: nat, ghost s0: Snap, ghost first: nat, ghost last: nat, ghost cprev: nat)
    returns (r: int, newno: nat, ghost inPlace: bool)
    requires h > 0 && first <= no <= last < 512 && fs.Valid() && Before(s0, j, prev, h, base)
    requires Pending(s0, Now(fs), j, prev, h, base, blockno, first, no, last, childNew)
    requires childValid == Within(|j.was|, ChildBase(h, base, no), Cap(h - 1))
    requires single == (first == last) && (single ==> OnlyEntry(j, h, base, no))
    requires no == first ==> Max(j.lo, ChildBase(h, base, no)) == Max(j.lo, base)
    requires no > first && commit == CopyOnly && Max(j.lo, base) < |j.was| ==> blockno != prev
    requires commit != Free
    requires Reaches(AskOf(j), h, base, no) && first == First(AskOf(j), h, base) && last == Last(AskOf(j), h, base)
    requires Owed(s0, Now(fs), j, prev, blockno, h, base, commit, no, cprev, childNew) && childNew != cprev && childNew !in s0.pos
    modifies fs
    ensures fs.Valid()
    ensures r == 0 || r == ENOSPC
    ensures r == 0 ==> Loop(s0, Now(fs), j, prev, h, base, newno, commit, first, no + 1, last, inPlace)
    ensures r != 0 ==> Frame(s0, Now(fs), j.t, h, base) && Quiet(s0, Now(fs), j, prev, h, base)
    ensures r == 0 ==> Tally(s0, Now(fs), j, prev, newno, h, base, commit, no + 1)
    ensures r != 0 ==> Short(s0, Now(fs), j, prev, h, base, commit)
  {
    hide *;
    NoSpaceCode();
    SetFacts(fs, s0, j, prev, h, base, blockno, commit, first, no, last, childNew, childValid, single);
    ghost var sA := Now(fs);
    newno := OpenTable(fs, prev, blockno, !(prev != blockno || (commit == Atomic && single) || childValid == 0), h, j, base, s0, first, no, last, childNew);
    if newno == 0 {
      CopyShort(s0, sA, j, prev, blockno, h, base, commit, no, cprev, childNew);
      return ENOSPC, 0, false;
    }
    ghost var s := Now(fs);
    fs.StoreWord(newno, no, ToWord(childNew));
    StoreEntry(s0, s, Now(fs), j, prev, h, base, newno, commit, first, no, last, childNew);
    LinkingMade(sA, s, Now(fs), blockno, newno, no, childNew, newno != blockno);
    OwedSet(s0, sA, s, Now(fs), j, prev, blockno, newno, h, base, commit, no, cprev, childNew);
    inPlace := newno == prev && ChildBase(h, base, no) < |j.was|;
    r := 0;
  }

  lemma CopyThere(fs: Bpram, b: nat)
    requires fs.Valid() && b in fs.pos
    ensures b in fs.used && b in fs.mem
  {
  }

  /** What SetEntry uses of the state it finds. */
  lemma SetFacts(fs: Bpram, s0: Snap, j: Job, prev: nat, h: nat, base: nat, blockno: nat, commit: Commit, first: nat, no: nat, last: nat, cnew: nat,
                 childValid: nat, single: bool)
    requires h > 0 && no < 512 && fs.Valid() && Pending(s0, Now(fs), j, prev, h, base, blockno, first, no, last, cnew)
    requires Reaches(AskOf(j), h, base, no) && first == First(AskOf(j), h, base) && last == Last(AskOf(j), h, base)
    requires childValid == Within(|j.was|, ChildBase(h, base, no), Cap(h - 1)) && single == (first == last)
    ensures childValid == 0 <==> ChildBase(h, base, no) >= |j.was|
    ensures Copies(AskOf(j), h, base, commit, no) <==> !(commit == Atomic && single) && childValid != 0
    ensures Frame(s0, Now(fs), j.t, h, base) && Quiet(s0, Now(fs), j, prev, h, base)
    ensures blockno != 0 && blockno in fs.used && blockno in fs.mem && fs.pos[blockno] == Label(j.t, h, base) && (blockno != prev ==> blockno !in s0.pos)
    ensures Mixed(Now(fs), j, h, base, Get(fs.mem, blockno)[no := ToWord(cnew)], first, no + 1, last, prev == 0)
    ensures fs.freed <= fs.pos.Keys && cnew != 0 && cnew < 0x1_0000_0000_0000_0000 && (prev != 0 ==> prev in s0.pos)
    ensures fs.used == fs.pos.Keys
  {
    hide Mixed, Frame, First, Last, Touches, CrashesSafe, WasSlots, SameVisible;
    assert cnew in fs.mem;
  }

  lemma LinkingMade(s: Snap, s': Snap, s'': Snap, blockno: nat, newno: nat, no: nat, cnew: nat, copied: bool)
    requires no < 512 && newno in s'.mem && Opened(s, s', blockno, newno, copied)
    requires s''.pos == s'.pos && s''.mem == s'.mem[newno := Get(s'.mem, newno)[no := ToWord(cnew)]]
    ensures Linking(s, s', s'', blockno, newno, no, cnew, copied)
  {
  }

  lemma StartLoop(s: Snap, j: Job, prev: nat, h: nat, base: nat, commit: Commit, first: nat, last: nat)
    requires h > 0 && prev != 0 && Before(s, j, prev, h, base)
    ensures Loop(s, s, j, prev, h, base, prev, commit, first, first, last, false)
  {
    MixedStart(s, j, prev, h, base, first, last);
    QuietStart(s, j, prev, h, base);
  }

  lemma StartHole(s0: Snap, s: Snap, j: Job, h: nat, base: nat, b: nat, commit: Commit, first: nat, last: nat, validno: nat)
    requires h > 0 && Before(s0, j, 0, h, base) && s0.freed <= s0.pos.Keys
    requires b != 0 && b !in s0.pos && s.pos == s0.pos[b := Label(j.t, h, base)] && s.freed == s0.freed
    requires s.mem.Keys == s0.mem.Keys && OnlyBlock(s0.mem, s.mem, b) && s0.crashes <= s.crashes
    requires forall m' {:trigger m' in s.crashes} | m' in s.crashes :: m' in s0.crashes || OnlyBlock(s0.mem, m', b)
    requires forall k: nat | k < 512 && (k < first || last < k < validno) :: Addr(Get(s.mem, b), k) == 0
    requires forall k: nat {:trigger ChildBase(h, base, k)} | validno <= k < 512 && last < k :: ChildBase(h, base, k) >= |j.Pad()|
    ensures Loop(s0, s, j, 0, h, base, b, commit, first, first, last, false)
  {
    MixedHole(s0, s, j, h, base, Get(s.mem, b), first, last, validno);
    QuietStart(s0, j, 0, h, base);
    hide Mixed;
    QuietLevel(s0, s0, s, j, 0, h, base, b);
  }

  lemma FirstEntry(j: Job, h: nat, base: nat, off: nat, first: nat)
    requires h > 0 && j.lo < base + Cap(h) && off == Max(j.lo, base) - base && first == FirstNo(off, Cap(h - 1))
    ensures first < 512 && ChildBase(h, base, first) <= base + off
    ensures first > 0 ==> ChildBase(h, base, first) <= j.lo
    ensures Max(j.lo, ChildBase(h, base, first)) == Max(j.lo, base)
  {
    DivSlot(h, base, base + off);
    if first > 0 {
      ChildBaseStep(h, base, 0, first);
    }
  }

  lemma LastEntry(j: Job, h: nat, base: nat, off: nat, size: nat, last: nat)
    requires h > 0 && size > 0 && base < j.Hi() && off + size == Min(j.Hi(), base + Cap(h)) - base
    requires last == LastNo(off, size, Cap(h - 1))
    ensures last < 512 && ChildBase(h, base, last) <= base + off + size - 1 < ChildBase(h, base, last) + Cap(h - 1)
    ensures last < 511 ==> j.Hi() <= ChildBase(h, base, last) + Cap(h - 1)
  {
    DivSlot(h, base, base + off + size - 1);
    if last < 511 {
      ChildBaseStep(h, base, last, 511);
      ChildBaseOrder(h, base);
    }
  }

  /** The range of entries that a crawl visits. */
  lemma Entries(j: Job, h: nat, base: nat, blockoff: nat, off: nat, size: nat, valid: nat, first: nat, last: nat, validno: nat)
    requires h > 0 && Share(j, h, base, blockoff, off, size, valid)
    requires first == FirstNo(off, Cap(h - 1)) && last == LastNo(off, size, Cap(h - 1)) && validno == ValidNo(valid, Cap(h - 1))
    ensures first <= last < 512 && validno <= 512
    ensures first > 0 ==> ChildBase(h, base, first) <= j.lo
    ensures last < 511 ==> j.Hi() <= ChildBase(h, base, last) + Cap(h - 1)
    ensures Max(j.lo, ChildBase(h, base, first)) == Max(j.lo, base)
    ensures forall k: nat {:trigger ChildBase(h, base, k)} | validno <= k < 512 && last < k :: ChildBase(h, base, k) >= |j.Pad()|
  {
    FirstEntry(j, h, base, off, first);
    LastEntry(j, h, base, off, size, last);
    ValidEntries(j, h, base, valid, validno);
    hide FirstNo, LastNo, ValidNo;
    ChildBaseOrder(h, base);
    forall k: nat {:trigger ChildBase(h, base, k)} | validno <= k < 512 && last < k
      ensures ChildBase(h, base, k) >= |j.Pad()|
    {
      assert ChildBase(h, base, last) + Cap(h - 1) <= ChildBase(h, base, k);
    }
  }

  lemma ValidEntries(j: Job, h: nat, base: nat, valid: nat, validno: nat)
    requires h > 0 && valid == Within(|j.was|, base, Cap(h)) && validno == ValidNo(valid, Cap(h - 1))
    ensures validno <= 512
    ensures forall k: nat {:trigger ChildBase(h, base, k)} | validno <= k < 512 :: ChildBase(h, base, k) >= |j.was|
  {
    var c := Cap(h - 1);
    DivMod(valid + c - 1, c);
    if validno > 512 {
      MulMono(513, validno, c);
    }
    forall k: nat {:trigger ChildBase(h, base, k)} | validno <= k < 512
      ensures ChildBase(h, base, k) >= |j.was|
    {
      ChildBaseMul(h, base, k);
      MulMono(validno, k, c);
      ChildBaseOrder(h, base);
    }
  }

  /** A new table for a hole, zero outside the entries about to be set. */
  method OpenHole(fs: Bpram, first: nat, last: nat, validno: nat, h: nat, commit: Commit, ghost j: Job, ghost base: nat)
    returns (b: nat)
    requires h > 0 && fs.Valid() && Before(Now(fs), j, 0, h, base)
    requires first <= last < 512 && validno <= 512
    requires forall k: nat {:trigger ChildBase(h, base, k)} | validno <= k < 512 && last < k :: ChildBase(h, base, k) >= |j.Pad()|
    requires Touches(AskOf(j), h, base) && first == First(AskOf(j), h, base)
    modifies fs
    ensures fs.Valid()
    ensures b == 0 ==> Now(fs) == old(Now(fs)) && Short(old(Now(fs)), Now(fs), j, 0, h, base, commit)
    ensures b != 0 ==> Loop(old(Now(fs)), Now(fs), j, 0, h, base, b, commit, first, first, last, false)
    ensures b != 0 ==> Tally(old(Now(fs)), Now(fs), j, 0, b, h, base, commit, first)
  {
    ghost var s0 := Now(fs);
    b := fs.CowBlockHole(first * 8, (last + 1 - first) * 8, validno * 8, Label(j.t, h, base));
    if b != 0 {
      hide ByteAt;
      forall k: nat | k < 512 && (k < first || last < k < validno)
        ensures Addr(Get(fs.mem, b), k) == 0
      {
        ZeroAddr(Get(fs.mem, b), k);
      }
      hide Tally, Short, FreeBlocks, First, Touches;
      StartHole(s0, Now(fs), j, h, base, b, commit, first, last, validno);
      TallyHole(s0, Now(fs), j, h, base, commit, b, Label(j.t, h, base));
    } else {
      hide Tally, Short, FreeBlocks, First, Touches;
      HoleShort(s0, j, h, base, commit);
    }
  }

  lemma ChildBefore(s0: Snap, s: Snap, j: Job, prev: nat, h: nat, base: nat, blockno: nat, commit: Commit,
                    first: nat, no: nat, last: nat, childValid: nat)
    requires h > 0 && first <= no <= last < 512 && Before(s0, j, prev, h, base)
    requires Loop(s0, s, j, prev, h, base, blockno, commit, first, no, last, false)
    requires childValid == Within(|j.was|, ChildBase(h, base, no), Cap(h - 1))
    ensures Before(s, j, ChildPrev(Get(s.mem, blockno), prev == 0, no, childValid), h - 1, ChildBase(h, base, no))
  {
    var cb := ChildBase(h, base, no);
    ChildBaseOrder(h, base);
    if prev == 0 || childValid == 0 {
      HoleZero(s.mem, h - 1, cb, j.Pad());
      if prev == 0 {
        HoleZero(s0.mem, h, base, j.Pad());
      }
    } else {
      assert Due(j, h, base, first, no, last, false, no);
    }
  }

  lemma LoopEnd(s0: Snap, s: Snap, j: Job, prev: nat, h: nat, base: nat, blockno: nat, commit: Commit, first: nat, last: nat, inPlace: bool)
    requires h > 0 && first <= last < 512 && Before(s0, j, prev, h, base)
    requires Loop(s0, s, j, prev, h, base, blockno, commit, first, last + 1, last, inPlace)
    requires first > 0 ==> ChildBase(h, base, first) <= j.lo
    requires last < 511 ==> j.Hi() <= ChildBase(h, base, last) + Cap(h - 1)
    ensures After(s0, s, j, prev, h, base, commit, 0, blockno)
  {
    hide Mixed, Quiet, Frame, Before, CrashesSafe, After;
    MixedDone(s, j, blockno, h, base, first, last, prev == 0);
    Finish(s0, s, j, prev, h, base, commit, blockno, inPlace);
  }

  lemma ChildFails(s0: Snap, s1: Snap, s2: Snap, j: Job, prev: nat, h: nat, base: nat, blockno: nat, commit: Commit,
                   first: nat, no: nat, last: nat, childValid: nat, childCommit: Commit, cprev: nat, r: int, cnew: nat)
    requires h > 0 && first <= no <= last < 512 && Before(s0, j, prev, h, base)
    requires Loop(s0, s1, j, prev, h, base, blockno, commit, first, no, last, false)
    requires childValid == Within(|j.was|, ChildBase(h, base, no), Cap(h - 1))
    requires cprev == ChildPrev(Get(s1.mem, blockno), prev == 0, no, childValid)
    requires After(s1, s2, j, cprev, h - 1, ChildBase(h, base, no), childCommit, r, cnew) && r != 0
    ensures r == ENOSPC && Frame(s0, s2, j.t, h, base) && Quiet(s0, s2, j, prev, h, base)
  {
    hide After, Mixed, Quiet, Frame, Before;
    AfterFacts(s0, s1, s2, j, h, base, no, cprev, childCommit, r, cnew);
    QuietChild(s0, s1, s2, j, prev, h, base, no, cprev, childCommit, r, cnew);
  }

  lemma ShareFacts(j: Job, h: nat, base: nat, blockoff: nat, off: nat, size: nat, valid: nat)
    requires Share(j, h, base, blockoff, off, size, valid)
    ensures off >= valid ==> Unseen(j, base)
    ensures h == 0 ==> blockoff * 4096 == base
    ensures valid == Within(|j.was|, base, Cap(h)) && size > 0
  {
    if h == 0 {
      BlockDivMod(base, off, base + off);
    }
  }


  lemma InUse(fs: Bpram, b: nat)
    requires fs.Valid() && b in fs.pos
    ensures b < 0x1_0000_0000_0000_0000
  {
    assert b in fs.mem;
  }

  lemma ChildBlocks(maxNblocks: nat, h: nat)
    requires h > 0 && maxNblocks == MaxBlocks(h)
    ensures maxNblocks / 512 == MaxBlocks(h - 1) && maxNblocks / 512 * 4096 == Cap(h - 1) && Cap(h - 1) > 0
  {
  }

  /** A write that one store makes lies below one entry. */
  lemma OneStoreEntry(j: Job, h: nat, base: nat, off: nat, size: nat, first: nat, last: nat)
    requires h > 0 && base % 4096 == 0 && size > 0 && base < j.Hi() && j.lo < base + Cap(h)
    requires off == Max(j.lo, base) - base && off + size == Min(j.Hi(), base + Cap(h)) - base
    requires first == FirstNo(off, Cap(h - 1)) && last == LastNo(off, size, Cap(h - 1)) && first <= last
    ensures j.OneStore() ==> first == last
  {
    if j.OneStore() && first < last {
      LastEntry(j, h, base, off, size, last);
      DivSlot(h, base, base + off);
      ChildAligned(h, base, last);
      ChildBaseStep(h, base, first, last);
      BoundaryBetween(j.lo, j.Hi() - 1, ChildBase(h, base, last));
    }
  }

  lemma BoundaryBetween(x: nat, y: nat, b: nat)
    requires x < b <= y && b % 4096 == 0
    ensures x / 4096 != y / 4096
  {
  }

  /** Before the first entry is crawled only the size of the write matters. */
  lemma LoopSame(s0: Snap, s: Snap, j: Job, j': Job, prev: nat, h: nat, base: nat, blockno: nat, commit: Commit, first: nat, no: nat, last: nat)
    requires h > 0 && Loop(s0, s, j, prev, h, base, blockno, commit, first, no, last, false) && Delivered(j, j') && (j' == j || no == first)
    ensures Loop(s0, s, j', prev, h, base, blockno, commit, first, no, last, false)
  {
    if j' != j {
      MixedSame(s, j, j', h, base, Get(s.mem, blockno), first, last, prev == 0);
      QuietSame(s0, s, j, j', prev, h, base);
      hide Mixed, Quiet, CrashesSafe;
    }
  }

  lemma MixedSame(s: Snap, j: Job, j': Job, h: nat, base: nat, tbl: Block, first: nat, last: nat, hole: bool)
    requires h > 0 && Delivered(j, j') && Mixed(s, j, h, base, tbl, first, first, last, hole)
    ensures Mixed(s, j', h, base, tbl, first, first, last, hole)
  {
    assert j'.Pad() == j.Pad() && j'.t == j.t;
    hide SlotIs;
    forall k: nat {:trigger Due(j', h, base, first, first, last, hole, k)} | k < 512 && Due(j', h, base, first, first, last, hole, k)
      ensures SlotIs(s, s.freed, j'.t, h, base, tbl, k, Want(j', first, first, k))
    {
      assert Due(j, h, base, first, first, last, hole, k) && SlotIs(s, s.freed, j.t, h, base, tbl, k, Want(j, first, first, k));
    }
  }

  lemma QuietSame(s0: Snap, s: Snap, j: Job, j': Job, prev: nat, h: nat, base: nat)
    requires h > 0 && Delivered(j, j') && Quiet(s0, s, j, prev, h, base)
    ensures Quiet(s0, s, j', prev, h, base)
  {
  }

  /** A store in place that is sure below an indirect block is sure below its one entry. */
  lemma SureChild(s0: Snap, s1: Snap, j: Job, prev: nat, h: nat, base: nat, blockno: nat, commit: Commit, no: nat, childValid: nat)
    requires h > 0 && no < 512 && Loop(s0, s1, j, prev, h, base, blockno, commit, no, no, no, false)
    requires Sure(s0.mem, j, prev, h, base, commit) && OnlyEntry(j, h, base, no) && Max(j.lo, ChildBase(h, base, no)) == Max(j.lo, base)
    requires childValid == Within(|j.was|, ChildBase(h, base, no), Cap(h - 1))
    ensures prev != 0 && blockno == prev
    ensures Sure(s1.mem, j, ChildPrev(Get(s1.mem, blockno), prev == 0, no, childValid), h - 1, ChildBase(h, base, no), commit)
  {
    assert prev != 0;
    assert s1 == s0 && blockno == prev;
    hide Loop;
    ChildBaseMul(h, base, 511);
    SlotUnique(h, base, j.lo, no);
  }

  lemma Setup(j: Job, h: nat, base: nat, blockoff: nat, off: nat, size: nat, valid: nat, first: nat, last: nat, validno: nat, commit: Commit)
    requires h > 0 && Share(j, h, base, blockoff, off, size, valid) && commit != Free
    requires first == FirstNo(off, Cap(h - 1)) && last == LastNo(off, size, Cap(h - 1)) && validno == ValidNo(valid, Cap(h - 1))
    ensures first <= last < 512 && validno <= 512
    ensures first > 0 ==> ChildBase(h, base, first) <= j.lo
    ensures last < 511 ==> j.Hi() <= ChildBase(h, base, last) + Cap(h - 1)
    ensures Max(j.lo, ChildBase(h, base, first)) == Max(j.lo, base)
    ensures forall k: nat {:trigger ChildBase(h, base, k)} | validno <= k < 512 && last < k :: ChildBase(h, base, k) >= |j.Pad()|
    ensures first == last ==> OnlyEntry(j, h, base, first)
    ensures j.OneStore() ==> first == last
    ensures var childCommit := ChildCommit(commit, first, last, off >= valid);
      && (childCommit == Atomic ==> commit == Atomic && (Unseen(j, base) || first == last))
      && childCommit != Free && (commit == CopyOnly ==> childCommit == CopyOnly) && (first == last ==> childCommit == commit)
  {
    Entries(j, h, base, blockoff, off, size, valid, first, last, validno);
    OneStoreEntry(j, h, base, off, size, first, last);
    ShareFacts(j, h, base, blockoff, off, size, valid);
    hide FirstNo, LastNo, ValidNo;
  }

  /** One pass of the loop of crawl_indir. */
  method CrawlEntry(fs: Bpram, prev: nat, blockno: nat, no: nat, first: nat, last: nat,
                    childBlockoff: nat, childOff: nat, childSize: nat, childValid: nat, crawlStart: nat,
                    commit: Commit, childCommit: Commit, h: nat, childMaxNblocks: nat, buf: seq<Byte>,
                    ghost j: Job, ghost base: nat, ghost s0: Snap)
    returns (r: int, newno: nat, ghost inPlace: bool, ghost j': Job)
    requires fs.Valid() && h > 0 && childMaxNblocks == MaxBlocks(h - 1) && commit != Free && childCommit != Free
    requires j.buf == buf && crawlStart == j.lo && first <= no <= last < 512
    requires Share(j, h - 1, ChildBase(h, base, no), childBlockoff, childOff, childSize, childValid)
    requires Before(s0, j, prev, h, base)
    requires Loop(s0, Now(fs), j, prev, h, base, blockno, commit, first, no, last, false)
    requires childCommit == Atomic ==> commit == Atomic && (Unseen(j, base) || first == last)
    requires first == last ==> OnlyEntry(j, h, base, no) && childCommit == commit
    requires j.OneStore() ==> first == last
    requires commit == CopyOnly ==> childCommit == CopyOnly
    requires no == first ==> Max(j.lo, ChildBase(h, base, no)) == Max(j.lo, base)
    requires Touches(AskOf(j), h, base) && first == First(AskOf(j), h, base) && last == Last(AskOf(j), h, base) && childCommit == Below(AskOf(j), h, base, commit)
    requires Tally(s0, Now(fs), j, prev, blockno, h, base, commit, no)
    modifies fs
    ensures fs.Valid() && Delivered(j, j') && (first < last ==> j' == j)
    ensures r == 0 ==> Tally(s0, Now(fs), j, prev, newno, h, base, commit, no + 1)
    ensures r != 0 ==> Short(s0, Now(fs), j, prev, h, base, commit)
    ensures r == 0 || r == ENOSPC
    ensures r == 0 ==> Loop(s0, Now(fs), j', prev, h, base, newno, commit, first, no + 1, last, inPlace)
    ensures r == 0 && inPlace ==> first == last
    ensures r != 0 ==> Frame(s0, Now(fs), j'.t, h, base) && Quiet(s0, Now(fs), j', prev, h, base)
    ensures Sure(s0.mem, j, prev, h, base, commit) ==> r == 0 && newno == prev && j' == j.InPlace()
    decreases h, 0
  {
    hide *;
    ghost var s1 := Now(fs);
    ghost var cb := ChildBase(h, base, no);
    ShareFacts(j, h - 1, cb, childBlockoff, childOff, childSize, childValid);
    var childBlockno := ChildPrev(Get(fs.mem, blockno), prev == 0, no, childValid);
    ChildPrevHole(Get(fs.mem, blockno), prev == 0, no, childValid);
    ChildBefore(s0, s1, j, prev, h, base, blockno, commit, first, no, last, childValid);
    VisitStart(s0, s1, j, prev, h, base, blockno, commit, first, no, last, childValid, childBlockno);
    SureFacts(s0.mem, j, prev, h, base, commit);
    if Sure(s0.mem, j, prev, h, base, commit) {
      SureChild(s0, s1, j, prev, h, base, blockno, commit, no, childValid);
    }
    var childNew;
    if h == 1 {
      r, childNew, j' := CrawlLeaf(fs, childBlockno, childBlockoff, childOff, childSize, childValid, crawlStart, childCommit, buf, j);
    } else {
      r, childNew, j' := CrawlIndir(fs, childBlockno, childBlockoff, childOff, childSize, childValid, crawlStart,
                                    childCommit, h - 1, childMaxNblocks, buf, j, cb);
    }
    ghost var s2 := Now(fs);
    EntrySame(s0, s1, j, j', prev, h, base, blockno, commit, first, no, last);
    AfterFrame(s1, s2, j', h - 1, cb, childBlockno, childCommit, r, childNew);
    if r != 0 {
      ChildFails(s0, s1, s2, j', prev, h, base, blockno, commit, first, no, last, childValid, childCommit, childBlockno, r, childNew);
      ChildShort(s0, s1, s2, j, prev, blockno, h, base, commit, no, childBlockno, r, childNew);
      return r, 0, false, j';
    }
    LoopFacts(s0, s1, j', prev, h, base, blockno, commit, first, no, last, false);
    AfterFacts(s0, s1, s2, j', h, base, no, childBlockno, childCommit, 0, childNew);
    InUse(fs, childNew);
    ChildOwed(s0, s1, s2, j, prev, blockno, h, base, commit, no, childBlockno, childNew);
    AskSame(s0, s2, j, j', prev, blockno, h, base, commit, no, childBlockno, childNew);
    r, newno, inPlace := LinkEntry(fs, prev, blockno, no, first, last, childValid, commit, childCommit, h, childBlockno, childNew, j', base, s0, s1);
    if r == 0 {
      TallySame(s0, Now(fs), j', j, prev, newno, h, base, commit, no + 1);
    } else {
      ShortSame(s0, Now(fs), j', j, prev, h, base, commit);
    }
  }

  /** The account does not depend on the bytes written. */
  lemma AskSame(s0: Snap, s: Snap, j: Job, j': Job, prev: nat, blockno: nat, h: nat, base: nat, commit: Commit, no: nat, cprev: nat, cnew: nat)
    requires j'.t == j.t && j'.lo == j.lo && j'.was == j.was && |j'.buf| == |j.buf| && Owed(s0, s, j, prev, blockno, h, base, commit, no, cprev, cnew)
    ensures Owed(s0, s, j', prev, blockno, h, base, commit, no, cprev, cnew) && AskOf(j') == AskOf(j)
  {
    assert AskOf(j') == AskOf(j);
    hide Later, Undoable, FilledTo, Plugs, PlugsBelow, Need, NeedTo, First, Last, Touches, FreeBlocks;
  }

  lemma TallySame(s0: Snap, s: Snap, j: Job, j': Job, prev: nat, blockno: nat, h: nat, base: nat, commit: Commit, no: nat)
    requires j'.t == j.t && j'.lo == j.lo && j'.was == j.was && |j'.buf| == |j.buf| && Tally(s0, s, j, prev, blockno, h, base, commit, no)
    ensures Tally(s0, s, j', prev, blockno, h, base, commit, no)
  {
    assert AskOf(j') == AskOf(j);
    hide Later, Undoable, FilledTo, Plugs, Billed, First, Last, Touches, FreeBlocks;
  }

  lemma ShortSame(s0: Snap, s: Snap, j: Job, j': Job, prev: nat, h: nat, base: nat, commit: Commit)
    requires j'.t == j.t && j'.lo == j.lo && j'.was == j.was && |j'.buf| == |j.buf| && Short(s0, s, j, prev, h, base, commit)
    ensures Short(s0, s, j', prev, h, base, commit)
  {
    assert AskOf(j') == AskOf(j);
    hide Undoable, Plugs, Need, FreeBlocks;
  }

  lemma AfterFrame(s1: Snap, s2: Snap, j: Job, h: nat, base: nat, cprev: nat, commit: Commit, r: int, cnew: nat)
    requires After(s1, s2, j, cprev, h, base, commit, r, cnew)
    ensures Frame(s1, s2, j.t, h, base) && (r == 0 ==> cnew != 0 && (cnew != cprev ==> cnew !in s1.pos))
  {
    hide Frame, Proper, Shows, CrashesSafe;
  }

  lemma VisitStart(s0: Snap, s1: Snap, j: Job, prev: nat, h: nat, base: nat, blockno: nat, commit: Commit, first: nat, no: nat, last: nat, childValid: nat, cprev: nat)
    requires h > 0 && first <= no <= last < 512 && Touches(AskOf(j), h, base) && first == First(AskOf(j), h, base) && last == Last(AskOf(j), h, base)
    requires childValid == Within(|j.was|, ChildBase(h, base, no), Cap(h - 1)) && cprev == ChildPrev(Get(s1.mem, blockno), prev == 0, no, childValid)
    requires Before(s0, j, prev, h, base) && Tally(s0, s1, j, prev, blockno, h, base, commit, no)
    requires Loop(s0, s1, j, prev, h, base, blockno, commit, first, no, last, false)
    ensures Reaches(AskOf(j), h, base, no) && Visit(s0, s1, j, prev, blockno, h, base, commit, no, cprev)
  {
    hide Before, Tally, Mixed, Quiet, Frame, First, Last, Touches;
    EntriesOf(AskOf(j), h, base);
  }

  /** What is left to do once an entry's subtree has been crawled. */
  method LinkEntry(fs: Bpram, prev: nat, blockno: nat, no: nat, first: nat, last: nat, childValid: nat, commit: Commit, childCommit: Commit, h: nat,
                   childBlockno: nat, childNew: nat, ghost j: Job, ghost base: nat, ghost s0: Snap, ghost s1: Snap)
    returns (r: int, newno: nat, ghost inPlace: bool)
    requires fs.Valid() && h > 0 && commit != Free && first <= no <= last < 512 && Before(s0, j, prev, h, base)
    requires Loop(s0, s1, j, prev, h, base, blockno, commit, first, no, last, false)
    requires childValid == Within(|j.was|, ChildBase(h, base, no), Cap(h - 1))
    requires childBlockno == ChildPrev(Get(s1.mem, blockno), prev == 0, no, childValid) && (prev == 0 ==> childBlockno == 0)
    requires After(s1, Now(fs), j, childBlockno, h - 1, ChildBase(h, base, no), childCommit, 0, childNew)
    requires childCommit == Atomic ==> commit == Atomic && (Unseen(j, base) || first == last)
    requires first == last ==> OnlyEntry(j, h, base, no)
    requires commit == CopyOnly ==> childCommit == CopyOnly
    requires no == first ==> Max(j.lo, ChildBase(h, base, no)) == Max(j.lo, base)
    requires no > first && commit == CopyOnly && Max(j.lo, base) < |j.was| ==> blockno != prev
    requires Reaches(AskOf(j), h, base, no) && first == First(AskOf(j), h, base) && last == Last(AskOf(j), h, base)
    requires Owed(s0, Now(fs), j, prev, blockno, h, base, commit, no, childBlockno, childNew)
    modifies fs
    ensures fs.Valid() && (r == 0 || r == ENOSPC)
    ensures r == 0 ==> Tally(s0, Now(fs), j, prev, newno, h, base, commit, no + 1)
    ensures r != 0 ==> Short(s0, Now(fs), j, prev, h, base, commit)
    ensures r == 0 ==> Loop(s0, Now(fs), j, prev, h, base, newno, commit, first, no + 1, last, inPlace) && (inPlace ==> first == last)
    ensures r != 0 ==> Frame(s0, Now(fs), j.t, h, base) && Quiet(s0, Now(fs), j, prev, h, base)
    ensures prev != 0 && childNew == childBlockno ==> r == 0 && newno == blockno
  {
    hide *;
    ghost var s2 := Now(fs);
    LoopFacts(s0, s1, j, prev, h, base, blockno, commit, first, no, last, false);
    AfterFacts(s0, s1, s2, j, h, base, no, childBlockno, childCommit, 0, childNew);
    AfterFrame(s1, s2, j, h - 1, ChildBase(h, base, no), childBlockno, childCommit, 0, childNew);
    InUse(fs, childNew);
    if childBlockno != childNew || prev == 0 {
      FrameExtends(s0, s1, j.t, h, base);
      ChildPending(s0, s1, s2, j, prev, h, base, blockno, commit, first, no, last, childValid, childCommit, childBlockno, childNew);
      r, newno, inPlace := SetEntry(fs, prev, blockno, no, childNew, childValid, commit, first == last, h, j, base, s0, first, last, childBlockno);
      if r == 0 {
        LoopFacts(s0, Now(fs), j, prev, h, base, newno, commit, first, no + 1, last, inPlace);
      }
    } else {
      ChildKept(s0, s1, s2, j, prev, h, base, blockno, commit, first, no, last, childValid, childCommit, childBlockno);
      r, newno := 0, blockno;
      inPlace := childCommit == Atomic && !Unseen(j, base);
      KeptAddr(Get(s1.mem, blockno), no, childValid, childNew);
      OwedKept(s0, s2, j, prev, blockno, h, base, commit, no, childNew);
    }
  }

  lemma KeptAddr(tbl: Block, no: nat, childValid: nat, c: nat)
    requires no < 512 && c != 0 && c == ChildPrev(tbl, false, no, childValid)
    ensures Addr(tbl, no) == c
  {
  }

  lemma LoopFacts(s0: Snap, s: Snap, j: Job, prev: nat, h: nat, base: nat, blockno: nat, commit: Commit, first: nat, no: nat, last: nat, inPlace: bool)
    requires h > 0 && Loop(s0, s, j, prev, h, base, blockno, commit, first, no, last, inPlace)
    ensures Frame(s0, s, j.t, h, base) && blockno != 0 && blockno in s.pos && s.pos[blockno] == Label(j.t, h, base) && (inPlace ==> first == last)
  {
  }

  lemma ChildPrevHole(tbl: Block, hole: bool, no: nat, childValid: nat)
    requires no < 512
    ensures hole ==> ChildPrev(tbl, hole, no, childValid) == 0
  {
  }

  lemma SureFacts(m: Mem, j: Job, a: nat, h: nat, base: nat, commit: Commit)
    ensures Sure(m, j, a, h, base, commit) ==> a != 0 && j.OneStore()
  {
  }

  /** What is known of an entry before it is crawled holds for the write that the crawl turns out to make. */
  lemma EntrySame(s0: Snap, s1: Snap, j: Job, j': Job, prev: nat, h: nat, base: nat, blockno: nat, commit: Commit, first: nat, no: nat, last: nat)
    requires h > 0 && first <= no <= last && Before(s0, j, prev, h, base)
    requires Loop(s0, s1, j, prev, h, base, blockno, commit, first, no, last, false) && Delivered(j, j') && (j.OneStore() ==> first == last)
    ensures first < last ==> j' == j
    ensures Before(s0, j', prev, h, base) && Loop(s0, s1, j', prev, h, base, blockno, commit, first, no, last, false)
    ensures j'.t == j.t && j'.lo == j.lo && j'.was == j.was && |j'.buf| == |j.buf| && j'.Hi() == j.Hi()
    ensures no > first && commit == CopyOnly && Max(j.lo, base) < |j.was| ==> blockno != prev
    ensures OnlyEntry(j, h, base, no) ==> OnlyEntry(j', h, base, no)
    ensures Unseen(j', base) == Unseen(j, base)
  {
    DeliveredWhole(j, j');
    BeforeSame(s0, j, j', prev, h, base);
    LoopSame(s0, s1, j, j', prev, h, base, blockno, commit, first, no, last);
    hide Before, Mixed, Quiet, Frame;
  }

  /** crawl_indir: crawl the entries that the range touches, and make the table point to what they became. The write done is j'. */
  method CrawlIndir(fs: Bpram, prev: nat, blockoff: nat, off: nat, size: nat, valid: nat, crawlStart: nat,
                    commit: Commit, h: nat, maxNblocks: nat, buf: seq<Byte>, ghost j: Job, ghost base: nat)
    returns (r: int, newno: nat, ghost j': Job)
    requires fs.Valid() && h > 0 && maxNblocks == MaxBlocks(h) && commit != Free
    requires j.buf == buf && crawlStart == j.lo
    requires size > 0 && Share(j, h, base, blockoff, off, size, valid)
    requires Before(Now(fs), j, prev, h, base)
    modifies fs
    ensures fs.Valid() && Delivered(j, j')
    ensures After(old(Now(fs)), Now(fs), j', prev, h, base, commit, r, newno)
    ensures Sure(old(fs.mem), j, prev, h, base, commit) ==> r == 0 && newno == prev && j' == j.InPlace()
    ensures Touches(AskOf(j), h, base) && Accounts(old(Now(fs)), Now(fs), j.t, prev, h, base, AskOf(j), commit, r, newno)
    decreases h
  {
    hide *;
    ghost var s0 := Now(fs);
    ShareTouches(j, h, base, blockoff, off, size, valid);
    ChildBlocks(maxNblocks, h);
    var childMaxNblocks := maxNblocks / 512;
    var c := childMaxNblocks * 4096;
    var first := FirstNo(off, c);
    var last := LastNo(off, size, c);
    var validno := ValidNo(valid, c);
    var childCommit := ChildCommit(commit, first, last, off >= valid);
    Setup(j, h, base, blockoff, off, size, valid, first, last, validno, commit);
    SetupAsk(j, h, base, off, size, valid, first, last, commit, childCommit);
    j' := j;
    DeliveredSelf(j);
    SureFacts(s0.mem, j, prev, h, base, commit);
    var blockno := prev;
    if blockno == 0 {
      blockno := OpenHole(fs, first, last, validno, h, commit, j, base);
      if blockno == 0 {
        NoSpaceAfter(s0, Now(fs), j, prev, h, base, commit);
        ShortAccounts(s0, Now(fs), j, prev, h, base, commit);
        return ENOSPC, 0, j;
      }
    } else {
      StartLoop(s0, j, prev, h, base, commit, first, last);
      TallyStart(s0, j, prev, h, base, commit);
    }
    var no := first;
    ghost var inPlace := false;
    while no <= last
      invariant fs.Valid() && Delivered(j, j')
      invariant first <= no <= last + 1
      invariant no <= last ==> !inPlace && j' == j
      invariant Loop(s0, Now(fs), j', prev, h, base, blockno, commit, first, no, last, inPlace)
      invariant no > first && Sure(s0.mem, j, prev, h, base, commit) ==> blockno == prev && j' == j.InPlace()
      invariant Tally(s0, Now(fs), j, prev, blockno, h, base, commit, no)
    {
      ShareChild(j, h, base, blockoff, off, size, valid, no, c, first, last);
      var childOff := ChildOff(off, c, no, first);
      var childSize := ChildSize(off, size, c, no, first, last);
      var childValid := ChildValid(valid, c, no);
      var childBlockoff := ChildBlockoff(blockoff, off, c, childMaxNblocks, no, first);
      r, blockno, inPlace, j' := CrawlEntry(fs, prev, blockno, no, first, last, childBlockoff, childOff, childSize, childValid,
                                            crawlStart, commit, childCommit, h, childMaxNblocks, buf, j, base, s0);
      if r != 0 {
        BeforeSame(s0, j, j', prev, h, base);
        Fail(s0, Now(fs), j', prev, h, base, commit);
        ShortAccounts(s0, Now(fs), j, prev, h, base, commit);
        return r, 0, j';
      }
      no := no + 1;
    }
    BeforeSame(s0, j, j', prev, h, base);
    SameRange(j, j');
    LoopEnd(s0, Now(fs), j', prev, h, base, blockno, commit, first, last, inPlace);
    LoopFacts(s0, Now(fs), j', prev, h, base, blockno, commit, first, no, last, inPlace);
    TallyEnd(s0, Now(fs), j, prev, blockno, h, base, commit);
    r, newno := 0, blockno;
  }

  /** The entries and the mode that the loop uses are those of the write. */
  lemma SetupAsk(j: Job, h: nat, base: nat, off: nat, size: nat, valid: nat, first: nat, last: nat, commit: Commit, childCommit: Commit)
    requires h > 0 && Touches(AskOf(j), h, base) && off == OffIn(AskOf(j), base) && size == SizeIn(AskOf(j), h, base) && size > 0 && valid == Within(|j.was|, base, Cap(h))
    requires first == FirstNo(off, Cap(h - 1)) && last == LastNo(off, size, Cap(h - 1)) && childCommit == ChildCommit(commit, first, last, off >= valid)
    ensures first == First(AskOf(j), h, base) && last == Last(AskOf(j), h, base) && childCommit == Below(AskOf(j), h, base, commit)
  {
    hide FirstNo, LastNo, Cap, ChildCommit;
  }

  lemma SameRange(j: Job, j': Job)
    requires Delivered(j, j')
    ensures j'.lo == j.lo && j'.Hi() == j.Hi()
  {
  }
}
