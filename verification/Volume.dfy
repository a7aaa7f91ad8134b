/** A whole volume: the inode tree, whose leaves hold the roots of all files, and one write to one file. */
module Volume {
  import opened Words
  import opened Geometry
  import opened Tree
  import opened Bpram
  import opened WriteSpec
  import opened WriteCrawl
  import opened CrawlSlots
  import opened Root
  import opened Height
  import opened TreeSpace
  import opened TreeWrite
  import opened CrawlArithmetic
  import opened WriteIndir

  /** Byte offset of the inode with index k in the inode tree. */
  function InodeOff(k: nat): nat {
    128 * k
  }

  /** Word of its block where the root of the inode with index k starts. */
  function RootWordOf(k: nat): (ro: nat)
    ensures 4 <= ro <= 500
  {
    (128 * k) % 4096 / 8 + 4
  }

  /** Word j of the 16 words of the inode with index k. */
  function InodeWord(blk: Block, k: nat, j: nat): Word
    requires j < 16
  {
    blk[RootWordOf(k) - 4 + j]
  }

  /** Where the leaf that holds offset x starts. */
  function LeafStart(x: nat): (b: nat)
    ensures b <= x < b + 4096 && b % 4096 == 0
  {
    x - x % 4096
  }

  /** irb: the block the super block points to; h: height of the inode tree; live: indices of the inodes in use. */
  datatype Vol = Vol(irb: nat, h: nat, live: set<nat>)

  predicate VolOk(v: Vol) {
    v.h <= 5 && forall k | k in v.live :: InodeOff(k) + 128 <= Cap(v.h)
  }

  /** The block that holds the inode with index k. */
  function InodeBlock(m: Mem, v: Vol, k: nat): nat
    requires VolOk(v) && k in v.live
  {
    LeafOf(m, RootAddr(Get(m, v.irb), 0), v.h, 0, InodeOff(k))
  }

  /** What a reader sees of an inode: its words other than the root, and the file. */
  datatype File = File(words: seq<Word>, bytes: seq<Byte>)

  ghost predicate InodeShows(m: Mem, b: nat, k: nat, f: File) {
    && |f.words| == 16
    && FileShows(m, b, RootWordOf(k), f.bytes)
    && forall j {:trigger InodeWord(Get(m, b), k, j)} | 0 <= j < 16 && j != 4 && j != 5 :: InodeWord(Get(m, b), k, j) == f.words[j]
  }

  /** What a reader sees of the volume. */
  ghost predicate VolShows(m: Mem, v: Vol, files: map<nat, File>) {
    && VolOk(v) && files.Keys == v.live
    && forall k {:trigger files[k]} | k in v.live :: InodeShows(m, InodeBlock(m, v, k), k, files[k])
  }

  /** The blocks of the volume form trees: 0 is the inode tree, k + 1 the file of the inode with index k. */
  ghost predicate VolProper(s: Snap, v: Vol) {
    && VolOk(v)
    && v.irb in s.pos && v.irb !in s.freed && s.pos[v.irb].tree !in (set k | k in v.live :: k + 1) + {0}
    && Nbytes(Get(s.mem, v.irb), 0) > 0 && HaHeight(Get(s.mem, v.irb), 0) == v.h
    && Proper(s.mem, s.pos, s.freed, 0, RootAddr(Get(s.mem, v.irb), 0), v.h, 0, Nbytes(Get(s.mem, v.irb), 0))
    && forall k {:trigger InodeProper(s, v, k)} | k in v.live :: InodeProper(s, v, k)
  }

  ghost predicate InodeProper(s: Snap, v: Vol, k: nat)
    requires VolOk(v) && k in v.live
  {
    && InodeOff(k) + 128 <= Nbytes(Get(s.mem, v.irb), 0)
    && InodeBlock(s.mem, v, k) != 0
    && HaHeight(Get(s.mem, InodeBlock(s.mem, v, k)), RootWordOf(k)) <= 5
    && FileProper(s, s.freed, k + 1, InodeBlock(s.mem, v, k), RootWordOf(k))
  }

  /** The leaf of a proper tree sits at its own position and is in use. */
  lemma {:induction false} LeafLabel(s: Snap, freed: set<nat>, t: nat, a: nat, h: nat, base: nat, end: nat, x: nat)
    requires Proper(s.mem, s.pos, freed, t, a, h, base, end) && base <= x < base + Cap(h) && x < end
    requires base % 4096 == 0 && LeafOf(s.mem, a, h, base, x) != 0
    ensures var b := LeafOf(s.mem, a, h, base, x); b in s.pos && s.pos[b] == Label(t, 0, LeafStart(x)) && b !in freed
    decreases h
  {
    if h > 0 {
      var k := Slot(h, base, x);
      assert ProperSlots(s.mem, s.pos, freed, t, Get(s.mem, a), h, base, end);
      ChildAligned(h, base, k);
      LeafLabel(s, freed, t, Addr(Get(s.mem, a), k), h - 1, ChildBase(h, base, k), end, x);
    } else {
      BlockDivMod(base, x - base, x);
    }
  }

  /** The leaf stays while no indirect block of the tree changes. */
  lemma {:induction false} LeafKept(s: Snap, m': Mem, freed: set<nat>, t: nat, a: nat, h: nat, base: nat, end: nat, x: nat)
    requires Proper(s.mem, s.pos, freed, t, a, h, base, end) && base <= x < base + Cap(h) && x < end
    requires forall b {:trigger Get(m', b)} | b in s.pos && s.pos[b].tree == t && s.pos[b].level > 0 :: Get(m', b) == Get(s.mem, b)
    ensures LeafOf(m', a, h, base, x) == LeafOf(s.mem, a, h, base, x)
    decreases h
  {
    if a != 0 && h > 0 {
      var k := Slot(h, base, x);
      assert ProperSlots(s.mem, s.pos, freed, t, Get(s.mem, a), h, base, end);
      assert Get(m', a) == Get(s.mem, a);
      LeafKept(s, m', freed, t, Addr(Get(s.mem, a), k), h - 1, ChildBase(h, base, k), end, x);
    }
  }

  /** 32 inodes of 16 words fill a block. */
  lemma InodePlace(k: nat)
    ensures LeafStart(InodeOff(k)) == 4096 * (k / 32) && RootWordOf(k) == 16 * (k % 32) + 4
  {
    assert 128 * k == 4096 * (k / 32) + 128 * (k % 32);
  }

  /** Different inodes of one block keep their words apart. */
  lemma InodesApart(i: nat, k: nat, j: nat)
    requires i != k && LeafStart(InodeOff(i)) == LeafStart(InodeOff(k)) && j < 16
    ensures RootWordOf(i) - 4 + j != RootWordOf(k) && RootWordOf(i) - 4 + j != RootWordOf(k) + 1
  {
    InodePlace(i);
    InodePlace(k);
    hide RootWordOf, InodeOff;
  }

  /** Where the inodes of a proper volume are. */
  lemma InodeAt(s: Snap, v: Vol, k: nat)
    requires VolProper(s, v) && k in v.live
    ensures var b := InodeBlock(s.mem, v, k);
      b != 0 && b in s.pos && s.pos[b] == Label(0, 0, LeafStart(InodeOff(k))) && b !in s.freed && b != v.irb
  {
    assert InodeProper(s, v, k);
    LeafLabel(s, s.freed, 0, RootAddr(Get(s.mem, v.irb), 0), v.h, 0, Nbytes(Get(s.mem, v.irb), 0), InodeOff(k));
  }

  /** The root block of the inode tree belongs to no file. */
  lemma RootApart(s: Snap, v: Vol, k: nat)
    requires VolProper(s, v) && k in v.live
    ensures v.irb in s.pos && s.pos[v.irb].tree != k + 1
  {
    assert k + 1 in (set k | k in v.live :: k + 1);
  }

  /** A change of one file's tree and root words moves no inode. */
  lemma InodesStay(s: Snap, m': Mem, v: Vol, k: nat, i: nat)
    requires VolProper(s, v) && k in v.live && i in v.live
    requires RootFrame(s, m', k + 1, InodeBlock(s.mem, v, k), RootWordOf(k))
    ensures InodeBlock(m', v, i) == InodeBlock(s.mem, v, i) && Get(m', v.irb) == Get(s.mem, v.irb)
  {
    InodeAt(s, v, k);
    RootApart(s, v, k);
    assert InodeProper(s, v, i);
    hide RootWordOf, Proper, FileProper;
    assert Get(m', v.irb) == Get(s.mem, v.irb);
    LeafKept(s, m', s.freed, 0, RootAddr(Get(s.mem, v.irb), 0), v.h, 0, Nbytes(Get(s.mem, v.irb), 0), InodeOff(i));
  }

  /** The words of the other inodes do not change. */
  lemma OtherWords(s: Snap, m': Mem, v: Vol, k: nat, i: nat, j: nat)
    requires VolProper(s, v) && k in v.live && i in v.live && i != k && j < 16
    requires RootFrame(s, m', k + 1, InodeBlock(s.mem, v, k), RootWordOf(k))
    ensures InodeWord(Get(m', InodeBlock(s.mem, v, i)), i, j) == InodeWord(Get(s.mem, InodeBlock(s.mem, v, i)), i, j)
  {
    var b, c := InodeBlock(s.mem, v, i), InodeBlock(s.mem, v, k);
    InodeAt(s, v, i);
    InodeAt(s, v, k);
    hide VolProper, InodeBlock;
    if b == c {
      InodesApart(i, k, j);
      hide RootWordOf;
    } else {
      hide RootWordOf;
      assert Get(m', b) == Get(s.mem, b);
    }
  }

  /** A change of one file's tree and root words leaves every other file as it is. */
  lemma OthersStay(s: Snap, m': Mem, v: Vol, files: map<nat, File>, k: nat, i: nat)
    requires VolProper(s, v) && VolShows(s.mem, v, files) && k in v.live && i in v.live && i != k
    requires RootFrame(s, m', k + 1, InodeBlock(s.mem, v, k), RootWordOf(k))
    ensures InodeShows(m', InodeBlock(s.mem, v, i), i, files[i])
    ensures forall s': Snap | s'.mem == m' && Extends(s.pos, s'.pos) :: FileProper(s', s.freed, i + 1, InodeBlock(s.mem, v, i), RootWordOf(i))
    ensures HaHeight(Get(m', InodeBlock(s.mem, v, i)), RootWordOf(i)) <= 5
  {
    var b, c := InodeBlock(s.mem, v, i), InodeBlock(s.mem, v, k);
    InodeAt(s, v, k);
    assert InodeProper(s, v, i) && InodeShows(s.mem, b, i, files[i]);
    forall j {:trigger InodeWord(Get(m', b), i, j)} | 0 <= j < 16
      ensures InodeWord(Get(m', b), i, j) == InodeWord(Get(s.mem, b), i, j)
    {
      OtherWords(s, m', v, k, i, j);
    }
    hide RootWordOf, VolProper, VolShows, InodeBlock, FileProper, InodeShows;
    InodeMoved(s, m', files[i], i, b, b);
  }

  /** An inode whose 16 words are found unchanged in block b', and whose file's tree is untouched, shows the same file. */
  lemma InodeMoved(s: Snap, m': Mem, f: File, i: nat, b: nat, b': nat)
    requires InodeShows(s.mem, b, i, f) && FileProper(s, s.freed, i + 1, b, RootWordOf(i)) && HaHeight(Get(s.mem, b), RootWordOf(i)) <= 5
    requires forall j {:trigger InodeWord(Get(m', b'), i, j)} | 0 <= j < 16 :: InodeWord(Get(m', b'), i, j) == InodeWord(Get(s.mem, b), i, j)
    requires forall c {:trigger Get(m', c)} | c in s.pos && s.pos[c].tree == i + 1 :: Get(m', c) == Get(s.mem, c)
    ensures InodeShows(m', b', i, f)
    ensures forall s': Snap | s'.mem == m' && Extends(s.pos, s'.pos) :: FileProper(s', s.freed, i + 1, b', RootWordOf(i))
    ensures HaHeight(Get(m', b'), RootWordOf(i)) <= 5
  {
    hide RootWordOf, FileProper, FileShows;
    assert Get(m', b')[RootWordOf(i)] == InodeWord(Get(m', b'), i, 4) == InodeWord(Get(s.mem, b), i, 4) == Get(s.mem, b)[RootWordOf(i)];
    assert Get(m', b')[RootWordOf(i) + 1] == InodeWord(Get(m', b'), i, 5) == InodeWord(Get(s.mem, b), i, 5) == Get(s.mem, b)[RootWordOf(i) + 1];
    FileMoved(s, m', s.freed, i + 1, b, b', RootWordOf(i), f.bytes);
    forall j {:trigger InodeWord(Get(m', b'), i, j)} | 0 <= j < 16 && j != 4 && j != 5
      ensures InodeWord(Get(m', b'), i, j) == f.words[j]
    {
      assert InodeWord(Get(s.mem, b), i, j) == f.words[j];
    }
  }

  /** The same from one state to a later one that freed no block of the file. */
  lemma InodeMovedTo(s: Snap, s': Snap, f: File, i: nat, b: nat, b': nat)
    requires InodeShows(s.mem, b, i, f) && FileProper(s, s.freed, i + 1, b, RootWordOf(i)) && HaHeight(Get(s.mem, b), RootWordOf(i)) <= 5
    requires Extends(s.pos, s'.pos)
    requires forall j {:trigger InodeWord(Get(s'.mem, b'), i, j)} | 0 <= j < 16 :: InodeWord(Get(s'.mem, b'), i, j) == InodeWord(Get(s.mem, b), i, j)
    requires forall c {:trigger Get(s'.mem, c)} | c in s.pos && s.pos[c].tree == i + 1 :: Get(s'.mem, c) == Get(s.mem, c)
    requires forall c {:trigger c in s'.freed} | c in s'.pos && s'.pos[c].tree == i + 1 && c in s'.freed :: c in s.freed
    ensures InodeShows(s'.mem, b', i, f) && FileProper(s', s'.freed, i + 1, b', RootWordOf(i)) && HaHeight(Get(s'.mem, b'), RootWordOf(i)) <= 5
  {
    assert RootWordOf(i) < 511;
    hide *;
    InodeMoved(s, s'.mem, f, i, b, b');
    assert FileProper(s', s.freed, i + 1, b', RootWordOf(i));
    FileProperFreed(s', s.freed, s'.freed, i + 1, b', RootWordOf(i));
  }

  /** Only the bytes of the file with index k differ. */
  function WithBytes(files: map<nat, File>, k: nat, g: seq<Byte>): map<nat, File>
    requires k in files
  {
    files[k := File(files[k].words, g)]
  }

  /** Of the changed inode only the root words changed. */
  lemma ChangedInode(s: Snap, m': Mem, b: nat, k: nat, f: File, g: seq<Byte>)
    requires InodeShows(s.mem, b, k, f) && RootFrame(s, m', k + 1, b, RootWordOf(k)) && FileShows(m', b, RootWordOf(k), g)
    ensures InodeShows(m', b, k, File(f.words, g))
  {
    hide RootWordOf, FileShows;
    forall j {:trigger InodeWord(Get(m', b), k, j)} | 0 <= j < 16 && j != 4 && j != 5
      ensures InodeWord(Get(m', b), k, j) == f.words[j]
    {
      assert InodeWord(Get(s.mem, b), k, j) == f.words[j];
      assert Get(m', b)[RootWordOf(k) - 4 + j] == Get(s.mem, b)[RootWordOf(k) - 4 + j];
    }
  }

  /** A reader of the changed memory sees the volume with just this file changed. */
  lemma VolLift(s: Snap, m': Mem, v: Vol, files: map<nat, File>, k: nat, g: seq<Byte>)
    requires VolProper(s, v) && VolShows(s.mem, v, files) && k in v.live
    requires RootFrame(s, m', k + 1, InodeBlock(s.mem, v, k), RootWordOf(k))
    requires FileShows(m', InodeBlock(s.mem, v, k), RootWordOf(k), g)
    ensures VolShows(m', v, WithBytes(files, k, g))
  {
    var files' := WithBytes(files, k, g);
    hide RootWordOf, VolProper, InodeBlock, FileShows, InodeShows, RootFrame;
    forall i {:trigger files'[i]} | i in v.live
      ensures InodeShows(m', InodeBlock(m', v, i), i, files'[i])
    {
      InodesStay(s, m', v, k, i);
      if i != k {
        OthersStay(s, m', v, files, k, i);
      } else {
        assert InodeShows(s.mem, InodeBlock(s.mem, v, k), k, files[k]);
        ChangedInode(s, m', InodeBlock(s.mem, v, k), k, files[k], g);
      }
    }
  }

  /** Every crash since s0 shows the volume as it was or, once committed, with the new bytes in file k; so does memory now. */
  ghost predicate VolWritten(s0: Snap, s1: Snap, v: Vol, files: map<nat, File>, k: nat, g: seq<Byte>, r: int) {
    && k in files && s0.crashes <= s1.crashes && Extends(s0.pos, s1.pos)
    && (r == 0 || r == ENOSPC)
    && (r == 0 ==> VolProper(s1, v) && VolShows(s1.mem, v, WithBytes(files, k, g)))
    && (r != 0 ==> VolProper(s1.(freed := s0.freed), v) && VolShows(s1.mem, v, files))
    && forall m' {:trigger m' in s1.crashes} | m' in s1.crashes ::
         m' in s0.crashes || VolShows(m', v, files) || (r == 0 && VolShows(m', v, WithBytes(files, k, g)))
  }

  /** The shape of a tree depends on its indirect blocks only. */
  lemma {:induction false} ProperIndirect(s: Snap, s': Snap, freed: set<nat>, freed': set<nat>, t: nat, a: nat, h: nat, base: nat, end: nat)
    requires Proper(s.mem, s.pos, freed, t, a, h, base, end) && Extends(s.pos, s'.pos)
    requires forall b {:trigger Get(s'.mem, b)} | b in s.pos && s.pos[b].tree == t && s.pos[b].level > 0 :: Get(s'.mem, b) == Get(s.mem, b)
    requires forall b {:trigger b in freed'} | b in s.pos && s.pos[b].tree == t && b in freed' :: b in freed
    ensures Proper(s'.mem, s'.pos, freed', t, a, h, base, end)
    decreases h
  {
    if a != 0 && h > 0 {
      var tbl := Get(s.mem, a);
      assert ProperSlots(s.mem, s.pos, freed, t, tbl, h, base, end);
      assert Get(s'.mem, a) == tbl;
      forall k: nat {:trigger ChildBase(h, base, k)} | k < 512 && ChildBase(h, base, k) < end
        ensures Proper(s'.mem, s'.pos, freed', t, Addr(tbl, k), h - 1, ChildBase(h, base, k), end)
      {
        ProperIndirect(s, s', freed, freed', t, Addr(tbl, k), h - 1, ChildBase(h, base, k), end);
      }
      assert ProperSlots(s'.mem, s'.pos, freed', t, tbl, h, base, end);
    }
  }

  /** Blocks staged as freed in other trees do not matter to a file. */
  lemma FileProperFreed(s: Snap, freed: set<nat>, freed': set<nat>, t: nat, rb: nat, ro: nat)
    requires ro < 511 && FileProper(s, freed, t, rb, ro)
    requires forall b {:trigger b in freed'} | b in s.pos && s.pos[b].tree == t && b in freed' :: b in freed
    ensures FileProper(s, freed', t, rb, ro)
  {
    var blk := Get(s.mem, rb);
    ProperFrame(s.mem, s.mem, s.pos, s.pos, freed, freed', t, RootAddr(blk, ro), RootHeight(blk, ro), 0, Nbytes(blk, ro));
  }

  lemma InodeProperLift(s: Snap, s': Snap, v: Vol, files: map<nat, File>, k: nat, i: nat)
    requires VolProper(s, v) && VolShows(s.mem, v, files) && k in v.live && i in v.live
    requires RootFrame(s, s'.mem, k + 1, InodeBlock(s.mem, v, k), RootWordOf(k)) && Extends(s.pos, s'.pos)
    requires forall b {:trigger b in s'.pos} | b in s'.pos && b !in s.pos :: s'.pos[b].tree == k + 1 || s'.pos[b].tree == 0
    requires forall b {:trigger b in s'.freed} | b in s'.freed && b !in s.freed :: b in s'.pos && (s'.pos[b].tree == k + 1 || s'.pos[b].tree == 0)
    requires FileProper(s', s'.freed, k + 1, InodeBlock(s.mem, v, k), RootWordOf(k))
    requires HaHeight(Get(s'.mem, InodeBlock(s.mem, v, k)), RootWordOf(k)) <= 5
    ensures InodeProper(s', v, i)
  {
    InodesStay(s, s'.mem, v, k, i);
    assert InodeProper(s, v, i);
    if i != k {
      OthersStay(s, s'.mem, v, files, k, i);
      hide RootWordOf, FileProper, VolProper, VolShows, InodeBlock;
      FileProperFreed(s', s.freed, s'.freed, i + 1, InodeBlock(s.mem, v, i), RootWordOf(i));
    }
  }

  /** After a change of file k that leaves its inode where it is, the volume is proper again. */
  lemma VolProperLift(s: Snap, s': Snap, v: Vol, files: map<nat, File>, k: nat)
    requires VolProper(s, v) && VolShows(s.mem, v, files) && k in v.live
    requires RootFrame(s, s'.mem, k + 1, InodeBlock(s.mem, v, k), RootWordOf(k)) && Extends(s.pos, s'.pos)
    requires forall b {:trigger b in s'.pos} | b in s'.pos && b !in s.pos :: s'.pos[b].tree == k + 1 || s'.pos[b].tree == 0
    requires forall b {:trigger b in s'.freed} | b in s'.freed && b !in s.freed :: b in s'.pos && s'.pos[b].tree == k + 1
    requires FileProper(s', s'.freed, k + 1, InodeBlock(s.mem, v, k), RootWordOf(k))
    requires HaHeight(Get(s'.mem, InodeBlock(s.mem, v, k)), RootWordOf(k)) <= 5
    ensures VolProper(s', v)
  {
    var irb := v.irb;
    InodeAt(s, v, k);
    RootApart(s, v, k);
    InodesStay(s, s'.mem, v, k, k);
    ProperIndirect(s, s', s.freed, s'.freed, 0, RootAddr(Get(s.mem, irb), 0), v.h, 0, Nbytes(Get(s.mem, irb), 0));
    hide RootWordOf, FileProper, Proper, InodeProper;
    forall i {:trigger InodeProper(s', v, i)} | i in v.live
      ensures InodeProper(s', v, i)
    {
      InodeProperLift(s, s', v, files, k, i);
    }
  }

  lemma SameBytesSameFiles(files: map<nat, File>, k: nat)
    requires k in files
    ensures WithBytes(files, k, files[k].bytes) == files
  {
  }

  /** Crashes of a write that show the old or the new file show the old or the new volume. */
  lemma VolCrashes(s0: Snap, s1: Snap, v: Vol, files: map<nat, File>, k: nat, g: seq<Byte>, committed: bool)
    requires VolProper(s0, v) && VolShows(s0.mem, v, files) && k in v.live
    requires FileCrashes(s0, s1, k + 1, InodeBlock(s0.mem, v, k), RootWordOf(k), files[k].bytes, g, committed)
    ensures forall m' {:trigger m' in s1.crashes} | m' in s1.crashes ::
      m' in s0.crashes || VolShows(m', v, files) || (committed && VolShows(m', v, WithBytes(files, k, g)))
  {
    assert VolOk(v) && k in files;
    hide VolProper, VolShows, InodeBlock, RootWordOf, FileShows, RootFrame;
    SameBytesSameFiles(files, k);
    forall m' {:trigger m' in s1.crashes} | m' in s1.crashes && m' !in s0.crashes
      ensures VolShows(m', v, files) || (committed && VolShows(m', v, WithBytes(files, k, g)))
    {
      if FileShows(m', InodeBlock(s0.mem, v, k), RootWordOf(k), files[k].bytes) {
        VolLift(s0, m', v, files, k, files[k].bytes);
      } else {
        VolLift(s0, m', v, files, k, g);
      }
    }
  }

  /** What a write that did not move the file's root leaves. */
  lemma WrittenInPlace(s0: Snap, s1: Snap, t: nat, rb: nat, ro: nat, was: seq<Byte>, g: seq<Byte>)
    requires Written(s0, s1, t, rb, ro, was, g, 0, rb) && s0.pos[rb].tree == 0
    ensures RootFrame(s0, s1.mem, t, rb, ro) && FileCrashes(s0, s1, t, rb, ro, was, g, true) && Extends(s0.pos, s1.pos) && s0.crashes <= s1.crashes
    ensures FileShows(s1.mem, rb, ro, g) && FileProper(s1, s1.freed, t, rb, ro) && HaHeight(Get(s1.mem, rb), ro) <= 5
    ensures forall b {:trigger b in s1.pos} | b in s1.pos && b !in s0.pos :: s1.pos[b].tree == t || s1.pos[b].tree == 0
    ensures forall b {:trigger b in s1.freed} | b in s1.freed && b !in s0.freed :: b in s1.pos && s1.pos[b].tree == t
  {
    hide FileShows, FileProper, FileCrashes, HaHeight, RootFrame;
  }

  /** What a write that ran out of space leaves. */
  lemma NotWritten(s0: Snap, s1: Snap, t: nat, rb: nat, ro: nat, was: seq<Byte>, g: seq<Byte>, r: int)
    requires Written(s0, s1, t, rb, ro, was, g, r, 0) && s0.pos[rb].tree == 0 && r != 0
    ensures RootFrame(s0, s1.mem, t, rb, ro) && FileCrashes(s0, s1, t, rb, ro, was, g, false) && Extends(s0.pos, s1.pos) && s0.crashes <= s1.crashes
    ensures FileShows(s1.mem, rb, ro, was) && FileProper(s1, s0.freed, t, rb, ro) && HaHeight(Get(s1.mem, rb), ro) <= 5 && r == ENOSPC
    ensures forall b {:trigger b in s1.pos} | b in s1.pos && b !in s0.pos :: s1.pos[b].tree == t || s1.pos[b].tree == 0
  {
    hide FileShows, FileProper, FileCrashes, HaHeight, RootFrame;
  }

  /** A write that committed inside the file or its root is done for the volume too. */
  lemma WriteDone(s0: Snap, s1: Snap, v: Vol, files: map<nat, File>, k: nat, g: seq<Byte>)
    requires VolProper(s0, v) && VolShows(s0.mem, v, files) && k in v.live
    requires Written(s0, s1, k + 1, InodeBlock(s0.mem, v, k), RootWordOf(k), files[k].bytes, g, 0, InodeBlock(s0.mem, v, k))
    ensures VolWritten(s0, s1, v, files, k, g, 0)
  {
    assert VolOk(v) && k in files;
    hide VolProper, VolShows, InodeBlock, RootWordOf, FileShows, FileProper, FileCrashes, HaHeight, RootFrame, Written, WithBytes;
    InodeAt(s0, v, k);
    WrittenInPlace(s0, s1, k + 1, InodeBlock(s0.mem, v, k), RootWordOf(k), files[k].bytes, g);
    VolCrashes(s0, s1, v, files, k, g, true);
    VolLift(s0, s1.mem, v, files, k, g);
    VolProperLift(s0, s1, v, files, k);
  }

  /** A write that ran out of space left the volume as it was. */
  lemma WriteFailed(s0: Snap, s1: Snap, v: Vol, files: map<nat, File>, k: nat, g: seq<Byte>, r: int)
    requires VolProper(s0, v) && VolShows(s0.mem, v, files) && k in v.live && r != 0
    requires Written(s0, s1, k + 1, InodeBlock(s0.mem, v, k), RootWordOf(k), files[k].bytes, g, r, 0)
    ensures VolWritten(s0, s1, v, files, k, g, r)
  {
    var rb, ro := InodeBlock(s0.mem, v, k), RootWordOf(k);
    assert VolOk(v) && k in files;
    hide VolProper, VolShows, InodeBlock, RootWordOf, FileShows, FileProper, FileCrashes, HaHeight, RootFrame, Written, WithBytes;
    InodeAt(s0, v, k);
    NotWritten(s0, s1, k + 1, rb, ro, files[k].bytes, g, r);
    VolCrashes(s0, s1, v, files, k, g, false);
    SameBytesSameFiles(files, k);
    VolLift(s0, s1.mem, v, files, k, files[k].bytes);
    SameFileProper(s1, s1.(freed := s0.freed), s0.freed, k + 1, rb, ro);
    VolProperLift(s0, s1.(freed := s0.freed), v, files, k);
  }

  /** Either way it is done for the volume. */
  lemma WriteStays(s0: Snap, s1: Snap, v: Vol, files: map<nat, File>, k: nat, g: seq<Byte>, r: int)
    requires VolProper(s0, v) && VolShows(s0.mem, v, files) && k in v.live
    requires Written(s0, s1, k + 1, InodeBlock(s0.mem, v, k), RootWordOf(k), files[k].bytes, g, r,
      if r == 0 then InodeBlock(s0.mem, v, k) else 0)
    ensures VolWritten(s0, s1, v, files, k, g, r)
  {
    hide *;
    if r == 0 {
      WriteDone(s0, s1, v, files, k, g);
    } else {
      WriteFailed(s0, s1, v, files, k, g, r);
    }
  }

  lemma PaidStays(s0: Snap, s1: Snap, v: Vol, files: map<nat, File>, k: nat, g: seq<Byte>, lo: nat, hi: nat, r: int, newrb: nat)
    requires VolProper(s0, v) && VolShows(s0.mem, v, files) && k in v.live && newrb == if r == 0 then InodeBlock(s0.mem, v, k) else 0
    requires Written(s0, s1, k + 1, InodeBlock(s0.mem, v, k), RootWordOf(k), files[k].bytes, g, r, newrb)
    requires TreePaid(s0, s1, k + 1, InodeBlock(s0.mem, v, k), newrb, RootWordOf(k), lo, hi, r)
    ensures VolOk(v) && VolPaid(s0, s1, v, k, lo, hi, r)
  {
    var rb, ro := InodeBlock(s0.mem, v, k), RootWordOf(k);
    assert VolOk(v) && k in files;
    hide *;
    InodeAt(s0, v, k);
    if r == 0 {
      WrittenInPlace(s0, s1, k + 1, rb, ro, files[k].bytes, g);
      StayPaid(s0, s1, v, k, lo, hi);
    } else {
      NotWritten(s0, s1, k + 1, rb, ro, files[k].bytes, g, r);
      FailPaid(s0, s1, v, files, k, lo, hi, r);
    }
  }

  /** The indirect block just above the leaf of offset x. */
  function ParentOf(m: Mem, a: nat, h: nat, base: nat, x: nat): nat
    requires h > 0 && base <= x < base + Cap(h)
    decreases h
  {
    if a == 0 || h == 1 then a
    else
      var s := Slot(h, base, x);
      ParentOf(m, Addr(Get(m, a), s), h - 1, ChildBase(h, base, s), x)
  }

  /** Memory m' is m with the pointer to the leaf of offset x, in its parent p, replaced by b. */
  ghost predicate Swapped(s: Snap, m': Mem, p: nat, x: nat, b: nat) {
    && p != 0 && p in s.pos && s.pos[p].tree == 0 && s.pos[p].level == 1
    && s.pos[p].start <= x < s.pos[p].start + Cap(1)
    && OnlyBlock(s.mem, m', p)
    && Addr(Get(m', p), Slot(1, s.pos[p].start, x)) == b
    && forall i {:trigger Get(m', p)[i]} | 0 <= i < 512 && i != Slot(1, s.pos[p].start, x) :: Get(m', p)[i] == Get(s.mem, p)[i]
  }

  /** The parent sits at its own position below the root of the tree. */
  lemma {:induction false} ParentIn(s: Snap, freed: set<nat>, a: nat, h: nat, base: nat, end: nat, x: nat)
    requires h > 0 && base <= x < base + Cap(h) && x < end && Proper(s.mem, s.pos, freed, 0, a, h, base, end)
    requires ParentOf(s.mem, a, h, base, x) != 0
    ensures var p := ParentOf(s.mem, a, h, base, x); p in s.pos && In(s.pos[p], 0, h, base) && s.pos[p].level == 1
    decreases h
  {
    if h > 1 {
      var k := Slot(h, base, x);
      assert ProperSlots(s.mem, s.pos, freed, 0, Get(s.mem, a), h, base, end);
      ChildBaseOrder(h, base);
      ParentIn(s, freed, Addr(Get(s.mem, a), k), h - 1, ChildBase(h, base, k), end, x);
    }
  }

  lemma SlotOfLeaf(base: nat, x: nat, y: nat)
    requires base % 4096 == 0 && base <= x < base + Cap(1) && base <= y < base + Cap(1)
    ensures Slot(1, base, x) == Slot(1, base, y) <==> x / 4096 == y / 4096
  {
    assert Cap(0) == 4096;
    assert Slot(1, base, x) == (x - base) / 4096 && Slot(1, base, y) == (y - base) / 4096;
  }

  lemma OtherLeaf(h: nat, base: nat, x: nat, y: nat)
    requires base % 4096 == 0 && base <= x < base + Cap(h) && !(base <= y < base + Cap(h))
    ensures x / 4096 != y / 4096
  {
    CapAligned(h);
  }

  lemma SwapLast(s: Snap, m': Mem, freed: set<nat>, a: nat, base: nat, end: nat, x0: nat, p: nat, b: nat, x: nat)
    requires base % 4096 == 0 && Proper(s.mem, s.pos, freed, 0, a, 1, base, end) && Swapped(s, m', p, x0, b)
    requires base <= x < base + Cap(1) && x < end && base <= x0 < base + Cap(1) && p == ParentOf(s.mem, a, 1, base, x0)
    ensures LeafOf(m', a, 1, base, x) == if x / 4096 == x0 / 4096 then b else LeafOf(s.mem, a, 1, base, x)
  {
    SlotOfLeaf(base, x, x0);
    hide Slot, ChildBase, Cap;
  }

  /** Swapping one leaf changes the leaf for exactly the offsets of its block. */
  lemma {:induction false} SwapLeaf(s: Snap, m': Mem, freed: set<nat>, a: nat, h: nat, base: nat, end: nat, x0: nat, p: nat, b: nat, x: nat)
    requires h > 0 && base % 4096 == 0 && Proper(s.mem, s.pos, freed, 0, a, h, base, end) && Swapped(s, m', p, x0, b)
    requires base <= x < base + Cap(h) && x < end && x0 < end
    requires base <= x0 < base + Cap(h) ==> p == ParentOf(s.mem, a, h, base, x0)
    requires !(base <= x0 < base + Cap(h)) ==> !In(s.pos[p], 0, h, base)
    ensures LeafOf(m', a, h, base, x) == if x / 4096 == x0 / 4096 then b else LeafOf(s.mem, a, h, base, x)
    decreases h
  {
    if !(base <= x0 < base + Cap(h)) {
      OtherLeaf(h, base, x, x0);
      SwapElsewhere(s, m', freed, a, h, base, end, x0, p, b, x);
    } else if h == 1 {
      SwapLast(s, m', freed, a, base, end, x0, p, b, x);
    } else {
      SwapStep(s, m', freed, a, h, base, end, x0, p, b, x);
      hide Proper, Swapped, ParentOf, In, Cap, ChildBase, Slot;
      var k := Slot(h, base, x);
      SwapLeaf(s, m', freed, Addr(Get(s.mem, a), k), h - 1, ChildBase(h, base, k), end, x0, p, b, x);
    }
  }

  /** One level above the swapped leaf's parent nothing changes, and the child on the way to x is as the tree is. */
  lemma SwapStep(s: Snap, m': Mem, freed: set<nat>, a: nat, h: nat, base: nat, end: nat, x0: nat, p: nat, b: nat, x: nat)
    requires h > 1 && base % 4096 == 0 && Proper(s.mem, s.pos, freed, 0, a, h, base, end) && Swapped(s, m', p, x0, b)
    requires base <= x < base + Cap(h) && x < end && x0 < end
    requires base <= x0 < base + Cap(h) && p == ParentOf(s.mem, a, h, base, x0)
    ensures Get(m', a) == Get(s.mem, a) && a != 0
    ensures var k := Slot(h, base, x); var child, cb := Addr(Get(s.mem, a), k), ChildBase(h, base, k);
      && cb % 4096 == 0 && Proper(s.mem, s.pos, freed, 0, child, h - 1, cb, end)
      && (if cb <= x0 < cb + Cap(h - 1) then p == ParentOf(s.mem, child, h - 1, cb, x0) else !In(s.pos[p], 0, h - 1, cb))
  {
    var k, k0 := Slot(h, base, x), Slot(h, base, x0);
    ChildAligned(h, base, k);
    hide Cap, ChildBase, Slot;
    assert ProperSlots(s.mem, s.pos, freed, 0, Get(s.mem, a), h, base, end);
    assert Proper(s.mem, s.pos, freed, 0, Addr(Get(s.mem, a), k), h - 1, ChildBase(h, base, k), end);
    assert Proper(s.mem, s.pos, freed, 0, Addr(Get(s.mem, a), k0), h - 1, ChildBase(h, base, k0), end);
    hide Proper, ProperSlots;
    if k != k0 {
      ParentIn(s, freed, Addr(Get(s.mem, a), k0), h - 1, ChildBase(h, base, k0), end, x0);
      SlotUniqueOut(h, base, x0, k0, k, s.pos[p]);
    }
  }

  lemma SlotUniqueOut(h: nat, base: nat, x: nat, k0: nat, k: nat, l: Label)
    requires h > 0 && k0 < 512 && k < 512 && k != k0
    requires ChildBase(h, base, k0) <= x < ChildBase(h, base, k0) + Cap(h - 1)
    ensures !(ChildBase(h, base, k) <= x < ChildBase(h, base, k) + Cap(h - 1))
    ensures In(l, 0, h - 1, ChildBase(h, base, k0)) ==> !In(l, 0, h - 1, ChildBase(h, base, k))
  {
    ChildBaseOrder(h, base);
  }

  lemma {:induction false} SwapElsewhere(s: Snap, m': Mem, freed: set<nat>, a: nat, h: nat, base: nat, end: nat, x0: nat, p: nat, b: nat, x: nat)
    requires Proper(s.mem, s.pos, freed, 0, a, h, base, end) && Swapped(s, m', p, x0, b)
    requires base <= x < base + Cap(h) && x < end && !In(s.pos[p], 0, h, base)
    ensures LeafOf(m', a, h, base, x) == LeafOf(s.mem, a, h, base, x)
    decreases h
  {
    if a != 0 && h > 0 {
      var k := Slot(h, base, x);
      assert ProperSlots(s.mem, s.pos, freed, 0, Get(s.mem, a), h, base, end);
      ChildBaseOrder(h, base);
      assert Get(m', a) == Get(s.mem, a);
      SwapElsewhere(s, m', freed, Addr(Get(s.mem, a), k), h - 1, ChildBase(h, base, k), end, x0, p, b, x);
    }
  }

  lemma SameFileProper(s: Snap, s': Snap, freed: set<nat>, t: nat, rb: nat, ro: nat)
    requires ro < 511 && FileProper(s, freed, t, rb, ro) && s'.mem == s.mem && s'.pos == s.pos
    ensures FileProper(s', freed, t, rb, ro)
  {
  }

  /** From s to s' the leaf of offset x0 was swapped: the new leaf b is in use and the old one, old0, freed. */
  ghost predicate LeafSwap(s: Snap, s': Snap, freed: set<nat>, end: nat, x0: nat, p: nat, b: nat, old0: nat) {
    && Swapped(s, s'.mem, p, x0, b) && x0 < end && Extends(s.pos, s'.pos)
    && b != 0 && b in s'.pos && s'.pos[b] == Label(0, 0, LeafStart(x0)) && b !in s'.freed
    && old0 in s.pos && s.pos[old0] == Label(0, 0, LeafStart(x0))
    && forall c {:trigger c in s'.freed} | c in s.pos && s.pos[c].tree == 0 && c in s'.freed :: c in freed || c == old0
  }

  /** The parent p of x0 lies in the subtree exactly when x0 does. */
  ghost predicate ParentHere(s: Snap, a: nat, h: nat, base: nat, x0: nat, p: nat)
    requires h > 0
  {
    if base <= x0 < base + Cap(h) then p == ParentOf(s.mem, a, h, base, x0) else p in s.pos && !In(s.pos[p], 0, h, base)
  }

  /** The swapped tree is proper. */
  lemma {:induction false} SwapProper(s: Snap, s': Snap, freed: set<nat>, a: nat, h: nat, base: nat, end: nat, x0: nat, p: nat, b: nat, old0: nat)
    requires h > 0 && base % 4096 == 0 && Proper(s.mem, s.pos, freed, 0, a, h, base, end)
    requires LeafSwap(s, s', freed, end, x0, p, b, old0) && ParentHere(s, a, h, base, x0, p)
    ensures Proper(s'.mem, s'.pos, s'.freed, 0, a, h, base, end)
    decreases h
  {
    if a != 0 {
      var tbl := Get(s.mem, a);
      assert ProperSlots(s.mem, s.pos, freed, 0, tbl, h, base, end);
      ChildBaseOrder(h, base);
      forall k: nat {:trigger ChildBase(h, base, k)} | k < 512 && ChildBase(h, base, k) < end
        ensures Proper(s'.mem, s'.pos, s'.freed, 0, Addr(Get(s'.mem, a), k), h - 1, ChildBase(h, base, k), end)
      {
        ChildAligned(h, base, k);
        if base <= x0 < base + Cap(h) && Slot(h, base, x0) == k {
          if h == 1 {
            SwapHere(s, s', freed, a, base, end, x0, p, b, old0);
          } else {
            assert Get(s'.mem, a) == tbl;
            SwapProper(s, s', freed, Addr(tbl, k), h - 1, ChildBase(h, base, k), end, x0, p, b, old0);
          }
        } else {
          SwapSibling(s, s', freed, a, h, base, end, x0, p, b, old0, k);
        }
      }
      assert ProperSlots(s'.mem, s'.pos, s'.freed, 0, Get(s'.mem, a), h, base, end);
    }
  }

  lemma SwapHere(s: Snap, s': Snap, freed: set<nat>, a: nat, base: nat, end: nat, x0: nat, p: nat, b: nat, old0: nat)
    requires base % 4096 == 0 && a != 0 && Proper(s.mem, s.pos, freed, 0, a, 1, base, end) && base <= x0 < base + Cap(1)
    requires LeafSwap(s, s', freed, end, x0, p, b, old0) && ParentHere(s, a, 1, base, x0, p)
    ensures var k := Slot(1, base, x0); Proper(s'.mem, s'.pos, s'.freed, 0, Addr(Get(s'.mem, a), k), 0, ChildBase(1, base, k), end)
  {
    var k := Slot(1, base, x0);
    assert ChildBase(1, base, k) % 4096 == 0 by { ChildBaseMul(1, base, k); TimesAligned(0, k, base); }
    BlockDivMod(ChildBase(1, base, k), x0 - ChildBase(1, base, k), x0);
  }

  /** Where the parent is not: in the subtrees of entries other than that of x0. */
  lemma ParentElsewhere(s: Snap, freed: set<nat>, a: nat, h: nat, base: nat, end: nat, x0: nat, p: nat, k: nat)
    requires h > 0 && a != 0 && p != 0 && Proper(s.mem, s.pos, freed, 0, a, h, base, end) && x0 < end && ParentHere(s, a, h, base, x0, p)
    requires k < 512 && !(base <= x0 < base + Cap(h) && Slot(h, base, x0) == k)
    ensures p in s.pos && !In(s.pos[p], 0, h - 1, ChildBase(h, base, k))
    ensures !(ChildBase(h, base, k) <= x0 < ChildBase(h, base, k) + Cap(h - 1))
  {
    var tbl := Get(s.mem, a);
    ChildBaseOrder(h, base);
    if base <= x0 < base + Cap(h) {
      var k0 := Slot(h, base, x0);
      if h > 1 {
        assert ProperSlots(s.mem, s.pos, freed, 0, tbl, h, base, end);
        ParentIn(s, freed, Addr(tbl, k0), h - 1, ChildBase(h, base, k0), end, x0);
      }
      SlotUniqueOut(h, base, x0, k0, k, s.pos[p]);
    }
  }

  lemma LeafNotIn(x0: nat, h: nat, base: nat)
    requires base % 4096 == 0 && !(base <= x0 < base + Cap(h))
    ensures !In(Label(0, 0, LeafStart(x0)), 0, h, base)
  {
    CapAligned(h);
  }

  /** A subtree without the swapped leaf stays proper. */
  lemma SwapSibling(s: Snap, s': Snap, freed: set<nat>, a: nat, h: nat, base: nat, end: nat, x0: nat, p: nat, b: nat, old0: nat, k: nat)
    requires h > 0 && base % 4096 == 0 && a != 0 && Proper(s.mem, s.pos, freed, 0, a, h, base, end)
    requires LeafSwap(s, s', freed, end, x0, p, b, old0) && ParentHere(s, a, h, base, x0, p)
    requires k < 512 && ChildBase(h, base, k) < end && ChildBase(h, base, k) % 4096 == 0
    requires !(base <= x0 < base + Cap(h) && Slot(h, base, x0) == k)
    ensures Proper(s'.mem, s'.pos, s'.freed, 0, Addr(Get(s'.mem, a), k), h - 1, ChildBase(h, base, k), end)
  {
    var tbl, c := Get(s.mem, a), ChildBase(h, base, k);
    assert ProperSlots(s.mem, s.pos, freed, 0, tbl, h, base, end);
    ParentElsewhere(s, freed, a, h, base, end, x0, p, k);
    LeafNotIn(x0, h - 1, c);
    SwapEntry(s, s', a, h, base, x0, p, b, k);
    hide ParentHere;
    assert Kept(s.mem, s'.mem, s.pos, freed, s'.freed, 0, h - 1, c);
    ProperFrame(s.mem, s'.mem, s.pos, s'.pos, freed, s'.freed, 0, Addr(tbl, k), h - 1, c, end);
  }

  lemma SwapEntry(s: Snap, s': Snap, a: nat, h: nat, base: nat, x0: nat, p: nat, b: nat, k: nat)
    requires h > 0 && a in s.pos && s.pos[a] == Label(0, h, base) && Swapped(s, s'.mem, p, x0, b) && k < 512
    requires !(base <= x0 < base + Cap(h) && Slot(h, base, x0) == k)
    ensures Addr(Get(s'.mem, a), k) == Addr(Get(s.mem, a), k)
  {
  }

  /** The write made a copy nb of the inode's block, and one store to block q then made the volume use it. */
  ghost predicate Moved(s0: Snap, s1: Snap, s2: Snap, v: Vol, files: map<nat, File>, k: nat, g: seq<Byte>, nb: nat, q: nat) {
    && VolProper(s0, v) && VolShows(s0.mem, v, files) && k in v.live
    && nb != 0 && nb != InodeBlock(s0.mem, v, k)
    && Written(s0, s1, k + 1, InodeBlock(s0.mem, v, k), RootWordOf(k), files[k].bytes, g, 0, nb)
    && s2.pos == s1.pos && s2.freed == s1.freed && OnlyBlock(s1.mem, s2.mem, q)
    && q in s0.pos && (q == v.irb || (s0.pos[q].tree == 0 && s0.pos[q].level == 1))
    && (forall i {:trigger InodeBlock(s2.mem, v, i)} | i in v.live ::
          InodeBlock(s2.mem, v, i) == if i / 32 == k / 32 then nb else InodeBlock(s0.mem, v, i))
  }

  /** Blocks of the files, and inode blocks other than the old and the new one of k, are as they were. */
  lemma MovedBlocks(s0: Snap, s1: Snap, s2: Snap, v: Vol, files: map<nat, File>, k: nat, g: seq<Byte>, nb: nat, q: nat, i: nat, c: nat)
    requires Moved(s0, s1, s2, v, files, k, g, nb, q) && i in v.live && i != k
    requires c in s0.pos && (s0.pos[c].tree == i + 1 || (s0.pos[c].tree == 0 && s0.pos[c].level == 0 && c != InodeBlock(s0.mem, v, k)))
    ensures Get(s2.mem, c) == Get(s0.mem, c)
  {
    RootApart(s0, v, i);
    InodeAt(s0, v, k);
    hide RootWordOf, InodeBlock, VolProper, VolShows, FileShows, FileProper, FileIs;
    assert Get(s1.mem, c) == Get(s0.mem, c);
    assert c != q;
  }

  /** The words of the other inodes are found unchanged where the volume now has them. */
  lemma MovedWords(s0: Snap, s1: Snap, s2: Snap, v: Vol, files: map<nat, File>, k: nat, g: seq<Byte>, nb: nat, q: nat, i: nat, j: nat)
    requires Moved(s0, s1, s2, v, files, k, g, nb, q) && i in v.live && i != k && j < 16
    ensures InodeWord(Get(s2.mem, InodeBlock(s2.mem, v, i)), i, j) == InodeWord(Get(s0.mem, InodeBlock(s0.mem, v, i)), i, j)
  {
    InodeAt(s0, v, i);
    InodeAt(s0, v, k);
    InodePlace(i);
    InodePlace(k);
    hide RootWordOf, InodeBlock, VolProper, VolShows, InodeOff, FileShows, FileProper, FileIs;
    if i / 32 == k / 32 {
      assert Get(s2.mem, nb) == Get(s1.mem, nb);
      SameBlock(s0, v, i, k);
    } else {
      MovedBlocks(s0, s1, s2, v, files, k, g, nb, q, i, InodeBlock(s0.mem, v, i));
    }
  }

  /** Inodes of one block of the inode tree have one leaf. */
  lemma SameBlock(s: Snap, v: Vol, i: nat, k: nat)
    requires VolProper(s, v) && i in v.live && k in v.live && i / 32 == k / 32
    ensures InodeBlock(s.mem, v, i) == InodeBlock(s.mem, v, k)
  {
    assert InodeOff(i) / 4096 == i / 32 && InodeOff(k) / 4096 == k / 32;
    LeafSame(s.mem, RootAddr(Get(s.mem, v.irb), 0), v.h, 0, InodeOff(i), InodeOff(k));
  }

  lemma BlockInRange(base: nat, len: nat, x: nat, y: nat)
    requires base % 4096 == 0 && len % 4096 == 0 && base <= x < base + len && x / 4096 == y / 4096
    ensures base <= y < base + len
  {
  }

  lemma {:induction false} LeafSame(m: Mem, a: nat, h: nat, base: nat, x: nat, y: nat)
    requires base <= x < base + Cap(h) && base <= y < base + Cap(h) && x / 4096 == y / 4096 && base % 4096 == 0
    ensures LeafOf(m, a, h, base, x) == LeafOf(m, a, h, base, y)
    decreases h
  {
    if a != 0 && h > 0 {
      var k := Slot(h, base, x);
      var c := ChildBase(h, base, k);
      assert c % 4096 == 0 by { ChildBaseMul(h, base, k); TimesAligned(h - 1, k, base); }
      CapAligned(h - 1);
      BlockInRange(c, Cap(h - 1), x, y);
      SlotUnique(h, base, y, k);
      LeafSame(m, Addr(Get(m, a), k), h - 1, c, x, y);
    }
  }

  /** Only blocks of file k, and the old block of its inode, were freed. */
  lemma MovedFreed(s0: Snap, s1: Snap, s2: Snap, v: Vol, files: map<nat, File>, k: nat, g: seq<Byte>, nb: nat, q: nat, i: nat, c: nat)
    requires Moved(s0, s1, s2, v, files, k, g, nb, q) && i in v.live && i != k
    requires c in s2.pos && s2.pos[c].tree == i + 1 && c in s2.freed
    ensures c in s0.freed
  {
    InodeAt(s0, v, k);
    hide RootWordOf, InodeBlock, VolProper, VolShows, FileShows, FileProper, FileIs, RootFrame, FileCrashes;
  }

  /** Every other file is unchanged where the volume now has its inode. */
  lemma MovedOther(s0: Snap, s1: Snap, s2: Snap, v: Vol, files: map<nat, File>, k: nat, g: seq<Byte>, nb: nat, q: nat, i: nat)
    requires Moved(s0, s1, s2, v, files, k, g, nb, q) && i in v.live && i != k
    requires InodeProper(s0, v, i) && i in files && InodeShows(s0.mem, InodeBlock(s0.mem, v, i), i, files[i])
    ensures InodeShows(s2.mem, InodeBlock(s2.mem, v, i), i, files[i])
    ensures FileProper(s2, s2.freed, i + 1, InodeBlock(s2.mem, v, i), RootWordOf(i))
    ensures HaHeight(Get(s2.mem, InodeBlock(s2.mem, v, i)), RootWordOf(i)) <= 5
  {
    var b, b' := InodeBlock(s0.mem, v, i), InodeBlock(s2.mem, v, i);
    assert FileProper(s0, s0.freed, i + 1, b, RootWordOf(i)) && HaHeight(Get(s0.mem, b), RootWordOf(i)) <= 5;
    hide *;
    MovedFacts(s0, s1, s2, v, files, k, g, nb, q);
    forall j {:trigger InodeWord(Get(s2.mem, b'), i, j)} | 0 <= j < 16
      ensures InodeWord(Get(s2.mem, b'), i, j) == InodeWord(Get(s0.mem, b), i, j)
    {
      MovedWords(s0, s1, s2, v, files, k, g, nb, q, i, j);
    }
    forall c {:trigger Get(s2.mem, c)} | c in s0.pos && s0.pos[c].tree == i + 1
      ensures Get(s2.mem, c) == Get(s0.mem, c)
    {
      MovedBlocks(s0, s1, s2, v, files, k, g, nb, q, i, c);
    }
    forall c {:trigger c in s2.freed} | c in s2.pos && s2.pos[c].tree == i + 1 && c in s2.freed
      ensures c in s0.freed
    {
      MovedFreed(s0, s1, s2, v, files, k, g, nb, q, i, c);
    }
    InodeMovedTo(s0, s2, files[i], i, b, b');
  }

  /** The written file is the new one where the volume now has its inode. */
  lemma MovedSelf(s0: Snap, s1: Snap, s2: Snap, v: Vol, files: map<nat, File>, k: nat, g: seq<Byte>, nb: nat, q: nat)
    requires Moved(s0, s1, s2, v, files, k, g, nb, q)
    ensures InodeBlock(s2.mem, v, k) == nb
    ensures InodeShows(s2.mem, nb, k, File(files[k].words, g))
    ensures FileProper(s2, s2.freed, k + 1, nb, RootWordOf(k))
    ensures HaHeight(Get(s2.mem, nb), RootWordOf(k)) <= 5
  {
    var b := InodeBlock(s0.mem, v, k);
    InodeAt(s0, v, k);
    RootApart(s0, v, k);
    assert InodeShows(s0.mem, b, k, files[k]);
    assert InodeBlock(s2.mem, v, k) == nb;
    hide RootWordOf, VolProper, VolShows, FileShows, FileProper, InodeBlock;
    assert nb != q && Get(s2.mem, nb) == Get(s1.mem, nb);
    FileKept(s1, s2.mem, s1.freed, k + 1, nb, RootWordOf(k), g);
    forall j {:trigger InodeWord(Get(s2.mem, nb), k, j)} | 0 <= j < 16 && j != 4 && j != 5
      ensures InodeWord(Get(s2.mem, nb), k, j) == files[k].words[j]
    {
      assert InodeWord(Get(s0.mem, b), k, j) == files[k].words[j];
    }
  }

  lemma InodeFacts(s: Snap, v: Vol, files: map<nat, File>, i: nat)
    requires VolProper(s, v) && VolShows(s.mem, v, files) && i in v.live
    ensures i in files && InodeShows(s.mem, InodeBlock(s.mem, v, i), i, files[i])
    ensures InodeProper(s, v, i)
  {
    hide InodeBlock, InodeShows, InodeProper, Proper;
    assert InodeProper(s, v, i);
    assert i in files.Keys;
  }

  /** Every inode is proper and shows its file. */
  lemma MovedInode(s0: Snap, s1: Snap, s2: Snap, v: Vol, files: map<nat, File>, k: nat, g: seq<Byte>, nb: nat, q: nat, i: nat)
    requires Moved(s0, s1, s2, v, files, k, g, nb, q) && i in v.live && k in files
    requires Nbytes(Get(s2.mem, v.irb), 0) == Nbytes(Get(s0.mem, v.irb), 0)
    ensures i in files && InodeShows(s2.mem, InodeBlock(s2.mem, v, i), i, WithBytes(files, k, g)[i])
    ensures InodeProper(s2, v, i)
  {
    MovedFacts(s0, s1, s2, v, files, k, g, nb, q);
    InodeFacts(s0, v, files, i);
    if i != k {
      assert InodeBlock(s2.mem, v, i) == if i / 32 == k / 32 then nb else InodeBlock(s0.mem, v, i);
      hide RootWordOf, VolProper, VolShows, FileShows, FileProper, InodeShows, Moved, InodeBlock, FileCrashes, HaHeight;
      MovedOther(s0, s1, s2, v, files, k, g, nb, q, i);
    } else {
      hide RootWordOf, VolProper, VolShows, FileShows, FileProper, InodeShows, Written, InodeBlock, FileCrashes, HaHeight;
      MovedSelf(s0, s1, s2, v, files, k, g, nb, q);
    }
  }

  lemma MovedVolume(s0: Snap, s1: Snap, s2: Snap, v: Vol, files: map<nat, File>, k: nat, g: seq<Byte>, nb: nat, q: nat)
    requires Moved(s0, s1, s2, v, files, k, g, nb, q)
    requires Get(s2.mem, v.irb)[1] == Get(s0.mem, v.irb)[1] && HaHeight(Get(s2.mem, v.irb), 0) == v.h
    requires Proper(s2.mem, s2.pos, s2.freed, 0, RootAddr(Get(s2.mem, v.irb), 0), v.h, 0, Nbytes(Get(s2.mem, v.irb), 0))
    ensures VolShows(s2.mem, v, WithBytes(files, k, g)) && VolProper(s2, v)
  {
    hide RootWordOf, FileShows, FileProper, InodeShows, Proper, InodeProper, Moved, FileCrashes, InodeBlock, HaHeight;
    MovedFacts(s0, s1, s2, v, files, k, g, nb, q);
    MovedRoot(s0, s1, s2, v, files, k, g, nb, q);
    var files' := WithBytes(files, k, g);
    assert Nbytes(Get(s2.mem, v.irb), 0) == Nbytes(Get(s0.mem, v.irb), 0);
    forall i {:trigger files'[i]} {:trigger InodeProper(s2, v, i)} | i in v.live
      ensures InodeShows(s2.mem, InodeBlock(s2.mem, v, i), i, files'[i])
      ensures InodeProper(s2, v, i)
    {
      MovedInode(s0, s1, s2, v, files, k, g, nb, q, i);
    }
  }

  lemma MovedRoot(s0: Snap, s1: Snap, s2: Snap, v: Vol, files: map<nat, File>, k: nat, g: seq<Byte>, nb: nat, q: nat)
    requires Moved(s0, s1, s2, v, files, k, g, nb, q)
    ensures v.irb !in s2.freed
  {
    RootApart(s0, v, k);
    InodeAt(s0, v, k);
    hide FileShows, FileProper, FileIs, RootFrame, VolShows, InodeBlock, RootWordOf, FileCrashes;
  }

  lemma MovedFacts(s0: Snap, s1: Snap, s2: Snap, v: Vol, files: map<nat, File>, k: nat, g: seq<Byte>, nb: nat, q: nat)
    requires Moved(s0, s1, s2, v, files, k, g, nb, q)
    ensures VolProper(s0, v) && VolShows(s0.mem, v, files) && k in v.live && k in files && s0.crashes <= s1.crashes
    ensures FileCrashes(s0, s1, k + 1, InodeBlock(s0.mem, v, k), RootWordOf(k), files[k].bytes, g, false)
    ensures Extends(s0.pos, s2.pos)
  {
    hide FileShows, FileProper, FileIs, RootFrame;
  }

  /** One store moves the volume from the old file to the new one. */
  lemma MoveCommits(s0: Snap, s1: Snap, s2: Snap, v: Vol, files: map<nat, File>, k: nat, g: seq<Byte>, nb: nat, q: nat)
    requires Moved(s0, s1, s2, v, files, k, g, nb, q) && s2.crashes == s1.crashes + iset{s2.mem}
    requires Get(s2.mem, v.irb)[1] == Get(s0.mem, v.irb)[1] && HaHeight(Get(s2.mem, v.irb), 0) == v.h
    requires Proper(s2.mem, s2.pos, s2.freed, 0, RootAddr(Get(s2.mem, v.irb), 0), v.h, 0, Nbytes(Get(s2.mem, v.irb), 0))
    ensures VolWritten(s0, s2, v, files, k, g, 0)
  {
    hide VolShows, VolProper, Moved, FileCrashes, Proper, HaHeight, InodeBlock, RootAddr, Nbytes, RootWordOf, Extends, Get;
    MovedFacts(s0, s1, s2, v, files, k, g, nb, q);
    MovedVolume(s0, s1, s2, v, files, k, g, nb, q);
    VolCrashes(s0, s1, v, files, k, g, false);
    forall m' {:trigger m' in s2.crashes} | m' in s2.crashes
      ensures m' in s0.crashes || VolShows(m', v, files) || VolShows(m', v, WithBytes(files, k, g))
    {
      if m' in s1.crashes {
      }
    }
  }

  lemma {:induction false} ParentKept(s: Snap, m': Mem, freed: set<nat>, a: nat, h: nat, base: nat, end: nat, x: nat)
    requires h > 0 && Proper(s.mem, s.pos, freed, 0, a, h, base, end) && base <= x < base + Cap(h) && x < end
    requires forall b {:trigger Get(m', b)} | b in s.pos && s.pos[b].tree == 0 && s.pos[b].level > 0 :: Get(m', b) == Get(s.mem, b)
    ensures ParentOf(m', a, h, base, x) == ParentOf(s.mem, a, h, base, x)
    decreases h
  {
    if a != 0 && h > 1 {
      var k := Slot(h, base, x);
      assert ProperSlots(s.mem, s.pos, freed, 0, Get(s.mem, a), h, base, end);
      assert Get(m', a) == Get(s.mem, a);
      ParentKept(s, m', freed, Addr(Get(s.mem, a), k), h - 1, ChildBase(h, base, k), end, x);
    }
  }

  /** A write on a copy of the inode's block, up to the store that makes the volume use the copy. */
  ghost predicate OnCopy(s0: Snap, s1: Snap, v: Vol, files: map<nat, File>, k: nat, g: seq<Byte>, nb: nat) {
    && VolProper(s0, v) && VolShows(s0.mem, v, files) && k in v.live
    && nb != 0 && nb != InodeBlock(s0.mem, v, k)
    && Written(s0, s1, k + 1, InodeBlock(s0.mem, v, k), RootWordOf(k), files[k].bytes, g, 0, nb)
  }

  /** The inode tree as it stands just before that store. */
  lemma CopyTree(s0: Snap, s1: Snap, v: Vol, files: map<nat, File>, k: nat, g: seq<Byte>, nb: nat)
    requires OnCopy(s0, s1, v, files, k, g, nb)
    ensures Get(s1.mem, v.irb) == Get(s0.mem, v.irb)
    ensures Proper(s1.mem, s1.pos, s0.freed, 0, RootAddr(Get(s0.mem, v.irb), 0), v.h, 0, Nbytes(Get(s0.mem, v.irb), 0))
    ensures forall b {:trigger Get(s1.mem, b)} | b in s0.pos && s0.pos[b].tree == 0 && s0.pos[b].level > 0 :: Get(s1.mem, b) == Get(s0.mem, b)
    ensures forall i {:trigger InodeBlock(s0.mem, v, i)} | i in v.live :: InodeBlock(s1.mem, v, i) == InodeBlock(s0.mem, v, i)
  {
    InodeAt(s0, v, k);
    RootApart(s0, v, k);
    hide RootWordOf, FileShows, FileProper, FileIs, FileCrashes;
    InodesStay(s0, s1.mem, v, k, k);
    ProperIndirect(s0, s1, s0.freed, s0.freed, 0, RootAddr(Get(s0.mem, v.irb), 0), v.h, 0, Nbytes(Get(s0.mem, v.irb), 0));
    forall i {:trigger InodeBlock(s0.mem, v, i)} | i in v.live
      ensures InodeBlock(s1.mem, v, i) == InodeBlock(s0.mem, v, i)
    {
      InodesStay(s0, s1.mem, v, k, i);
    }
  }

  /** The copy's place in the inode tree, and what was freed for it. */
  lemma CopyPlace(s0: Snap, s1: Snap, v: Vol, files: map<nat, File>, k: nat, g: seq<Byte>, nb: nat)
    requires OnCopy(s0, s1, v, files, k, g, nb)
    ensures nb in s1.pos && s1.pos[nb] == Label(0, 0, LeafStart(InodeOff(k))) && nb !in s1.freed && Extends(s0.pos, s1.pos)
    ensures InodeBlock(s0.mem, v, k) in s1.pos && s1.pos[InodeBlock(s0.mem, v, k)] == s1.pos[nb]
    ensures forall c {:trigger c in s1.freed} | c in s1.pos && s1.pos[c].tree == 0 && c in s1.freed :: c in s0.freed || c == InodeBlock(s0.mem, v, k)
  {
    InodeAt(s0, v, k);
    hide RootWordOf, FileShows, FileProper, FileCrashes, VolProper, VolShows, InodeBlock, RootFrame;
  }

  lemma RootElsewhere(s: Snap, v: Vol, k: nat, p: nat)
    requires VolProper(s, v) && k in v.live && p in s.pos && s.pos[p].tree == 0
    ensures v.irb != p && InodeOff(k) < Nbytes(Get(s.mem, v.irb), 0) && InodeBlock(s.mem, v, k) != 0
  {
    hide Proper, InodeBlock, FileProper, HaHeight;
    assert InodeProper(s, v, k);
  }

  /** Storing the pointer to the copy in the parent of the inode's block swaps the leaf. */
  lemma PointerSwap(s0: Snap, s1: Snap, s2: Snap, v: Vol, files: map<nat, File>, k: nat, g: seq<Byte>, nb: nat, p: nat, start: nat)
    requires OnCopy(s0, s1, v, files, k, g, nb) && v.h > 0
    requires p != 0 && p in s0.pos && s0.pos[p] == Label(0, 1, start)
    requires start <= InodeOff(k) < start + Cap(1) && nb < 0x1_0000_0000_0000_0000
    requires s2.mem == s1.mem[p := Get(s1.mem, p)[Slot(1, start, InodeOff(k)) := ToWord(nb)]] && s2.pos == s1.pos && s2.freed == s1.freed
    ensures LeafSwap(s1, s2, s0.freed, Nbytes(Get(s0.mem, v.irb), 0), InodeOff(k), p, nb, InodeBlock(s0.mem, v, k))
    ensures v.irb != p && OnlyBlock(s1.mem, s2.mem, p)
  {
    assert nb != 0 && VolOk(v);
    hide OnCopy, VolProper, InodeBlock, Proper, Nbytes, LeafSwap, Slot, LeafStart, Get;
    CopyPlace(s0, s1, v, files, k, g, nb);
    CopyRoot(s0, s1, v, files, k, g, nb, p);
    EntrySwap(s1, s2, s0.freed, Nbytes(Get(s0.mem, v.irb), 0), InodeOff(k), p, start, nb, InodeBlock(s0.mem, v, k));
  }

  lemma CopyRoot(s0: Snap, s1: Snap, v: Vol, files: map<nat, File>, k: nat, g: seq<Byte>, nb: nat, p: nat)
    requires OnCopy(s0, s1, v, files, k, g, nb) && p in s0.pos && s0.pos[p].tree == 0
    ensures v.irb != p && InodeOff(k) < Nbytes(Get(s0.mem, v.irb), 0)
  {
    RootElsewhere(s0, v, k, p);
  }

  lemma EntrySwap(s1: Snap, s2: Snap, freed: set<nat>, end: nat, x0: nat, p: nat, start: nat, nb: nat, was: nat)
    requires p != 0 && p in s1.pos && s1.pos[p] == Label(0, 1, start) && start <= x0 < start + Cap(1) && x0 < end
    requires 0 < nb < 0x1_0000_0000_0000_0000
    requires s2.mem == s1.mem[p := Get(s1.mem, p)[Slot(1, start, x0) := ToWord(nb)]] && s2.pos == s1.pos && s2.freed == s1.freed
    requires nb in s1.pos && s1.pos[nb] == Label(0, 0, LeafStart(x0)) && nb !in s1.freed
    requires was in s1.pos && s1.pos[was] == Label(0, 0, LeafStart(x0))
    requires forall c {:trigger c in s1.freed} | c in s1.pos && s1.pos[c].tree == 0 && c in s1.freed :: c in freed || c == was
    ensures LeafSwap(s1, s2, freed, end, x0, p, nb, was) && OnlyBlock(s1.mem, s2.mem, p)
  {
    WordRoundTrip(nb);
    assert OnlyBlock(s1.mem, s2.mem, p);
  }

  /** That store commits the write. */
  lemma ParentStored(s0: Snap, s1: Snap, s2: Snap, v: Vol, files: map<nat, File>, k: nat, g: seq<Byte>, nb: nat, p: nat, start: nat)
    requires OnCopy(s0, s1, v, files, k, g, nb) && v.h > 0
    requires p == ParentOf(s0.mem, RootAddr(Get(s0.mem, v.irb), 0), v.h, 0, InodeOff(k)) && p != 0 && p in s0.pos && s0.pos[p] == Label(0, 1, start)
    requires start <= InodeOff(k) < start + Cap(1) && nb < 0x1_0000_0000_0000_0000
    requires s2 == Snap(s1.mem[p := Get(s1.mem, p)[Slot(1, start, InodeOff(k)) := ToWord(nb)]], s1.pos, s1.freed, s1.crashes + iset{s2.mem})
    ensures VolWritten(s0, s2, v, files, k, g, 0)
  {
    ParentSwapped(s0, s1, s2, v, files, k, g, nb, p, start);
    assert VolOk(v) && s0.pos[p].level == 1;
    hide Proper, VolProper, InodeBlock, VolShows, Slot, Written;
    MoveCommits(s0, s1, s2, v, files, k, g, nb, p);
  }

  lemma StoreMoves(s0: Snap, s1: Snap, s2: Snap, v: Vol, files: map<nat, File>, k: nat, g: seq<Byte>, nb: nat, p: nat)
    requires OnCopy(s0, s1, v, files, k, g, nb)
    requires p in s0.pos && (p == v.irb || (s0.pos[p].tree == 0 && s0.pos[p].level == 1)) && s2.pos == s1.pos && s2.freed == s1.freed && OnlyBlock(s1.mem, s2.mem, p)
    requires forall i {:trigger InodeBlock(s2.mem, v, i)} | VolOk(v) && i in v.live ::
      InodeBlock(s2.mem, v, i) == if i / 32 == k / 32 then nb else InodeBlock(s0.mem, v, i)
    ensures Moved(s0, s1, s2, v, files, k, g, nb, p)
  {
    assert VolOk(v);
    hide Proper, VolProper, InodeBlock, VolShows, Written, RootWordOf;
  }

  /** It leaves a proper inode tree that has the copy in place of the old block. */
  lemma ParentSwapped(s0: Snap, s1: Snap, s2: Snap, v: Vol, files: map<nat, File>, k: nat, g: seq<Byte>, nb: nat, p: nat, start: nat)
    requires OnCopy(s0, s1, v, files, k, g, nb) && v.h > 0
    requires p == ParentOf(s0.mem, RootAddr(Get(s0.mem, v.irb), 0), v.h, 0, InodeOff(k)) && p != 0 && p in s0.pos && s0.pos[p] == Label(0, 1, start)
    requires start <= InodeOff(k) < start + Cap(1) && nb < 0x1_0000_0000_0000_0000
    requires s2 == Snap(s1.mem[p := Get(s1.mem, p)[Slot(1, start, InodeOff(k)) := ToWord(nb)]], s1.pos, s1.freed, s1.crashes + iset{s2.mem})
    ensures OnlyBlock(s1.mem, s2.mem, p)
    ensures Get(s2.mem, v.irb) == Get(s0.mem, v.irb) && HaHeight(Get(s2.mem, v.irb), 0) == v.h
    ensures Proper(s2.mem, s2.pos, s2.freed, 0, RootAddr(Get(s2.mem, v.irb), 0), v.h, 0, Nbytes(Get(s2.mem, v.irb), 0))
    ensures forall i {:trigger InodeBlock(s2.mem, v, i)} | i in v.live ::
      InodeBlock(s2.mem, v, i) == if i / 32 == k / 32 then nb else InodeBlock(s0.mem, v, i)
    ensures FileFills(s0.mem, v.irb, s2.mem, v.irb, 0, 0, 0)
  {
    var x0, a, n := InodeOff(k), RootAddr(Get(s0.mem, v.irb), 0), Nbytes(Get(s0.mem, v.irb), 0);
    assert InodeProper(s0, v, k) && HaHeight(Get(s0.mem, v.irb), 0) == v.h;
    CopyTree(s0, s1, v, files, k, g, nb);
    ParentKept(s0, s1.mem, s0.freed, a, v.h, 0, n, x0);
    PointerSwap(s0, s1, s2, v, files, k, g, nb, p, start);
    hide Written, Proper, LeafSwap, InodeProper, VolShows;
    SwapProper(s1, s2, s0.freed, a, v.h, 0, n, x0, p, nb, InodeBlock(s0.mem, v, k));
    assert Get(s2.mem, v.irb) == Get(s0.mem, v.irb);
    forall i {:trigger InodeBlock(s2.mem, v, i)} | i in v.live
      ensures InodeBlock(s2.mem, v, i) == if i / 32 == k / 32 then nb else InodeBlock(s0.mem, v, i)
    {
      SwapOf(s1, s2, s0.freed, n, x0, p, nb, InodeBlock(s0.mem, v, k));
      ParentSwaps(s0, s1, s2, v, a, n, x0, p, nb, i, k);
    }
    SwapOf(s1, s2, s0.freed, n, x0, p, nb, InodeBlock(s0.mem, v, k));
    ParentFills(s0, s1, s2, v, a, n, x0, p, nb);
  }

  /** No block of the inode tree is lost. */
  lemma ParentFills(s0: Snap, s1: Snap, s2: Snap, v: Vol, a: nat, n: nat, x0: nat, p: nat, nb: nat)
    requires VolProper(s0, v) && v.h > 0 && x0 < n && x0 < Cap(v.h) && nb != 0
    requires a == RootAddr(Get(s0.mem, v.irb), 0) && n == Nbytes(Get(s0.mem, v.irb), 0)
    requires Proper(s1.mem, s1.pos, s0.freed, 0, a, v.h, 0, n) && Swapped(s1, s2.mem, p, x0, nb)
    requires p == ParentOf(s1.mem, a, v.h, 0, x0)
    requires Get(s1.mem, v.irb) == Get(s0.mem, v.irb) == Get(s2.mem, v.irb)
    requires forall b {:trigger Get(s1.mem, b)} | b in s0.pos && s0.pos[b].tree == 0 && s0.pos[b].level > 0 :: Get(s1.mem, b) == Get(s0.mem, b)
    ensures FileFills(s0.mem, v.irb, s2.mem, v.irb, 0, 0, 0)
  {
    assert Proper(s0.mem, s0.pos, s0.freed, 0, a, v.h, 0, n) && RootHeight(Get(s0.mem, v.irb), 0) == v.h;
    hide VolProper, Proper, Swapped, ParentOf, LeafOf, Cap;
    forall x: nat {:trigger InTree(s2.mem, v.irb, 0, x)} | x < n && InTree(s0.mem, v.irb, 0, x)
      ensures InTree(s2.mem, v.irb, 0, x)
    {
      LeafKept(s0, s1.mem, s0.freed, 0, a, v.h, 0, n, x);
      SwapLeaf(s1, s2.mem, s0.freed, a, v.h, 0, n, x0, p, nb, x);
    }
  }

  lemma SwapOf(s: Snap, s': Snap, freed: set<nat>, end: nat, x0: nat, p: nat, b: nat, old0: nat)
    requires LeafSwap(s, s', freed, end, x0, p, b, old0)
    ensures Swapped(s, s'.mem, p, x0, b)
  {
  }

  lemma ParentSwaps(s0: Snap, s1: Snap, s2: Snap, v: Vol, a: nat, n: nat, x0: nat, p: nat, nb: nat, i: nat, k: nat)
    requires VolProper(s0, v) && v.h > 0 && i in v.live && k in v.live && x0 == InodeOff(k) < n
    requires a == RootAddr(Get(s0.mem, v.irb), 0) && n == Nbytes(Get(s0.mem, v.irb), 0)
    requires Proper(s1.mem, s1.pos, s0.freed, 0, a, v.h, 0, n) && Swapped(s1, s2.mem, p, x0, nb)
    requires p == ParentOf(s1.mem, a, v.h, 0, x0) && x0 < Cap(v.h)
    requires Get(s1.mem, v.irb) == Get(s0.mem, v.irb) == Get(s2.mem, v.irb)
    requires InodeBlock(s1.mem, v, i) == InodeBlock(s0.mem, v, i)
    ensures InodeBlock(s2.mem, v, i) == if i / 32 == k / 32 then nb else InodeBlock(s0.mem, v, i)
  {
    assert InodeProper(s0, v, i);
    assert InodeOff(i) / 4096 == i / 32 && x0 / 4096 == k / 32;
    SwapLeaf(s1, s2.mem, s0.freed, a, v.h, 0, n, x0, p, nb, InodeOff(i));
  }

  /** When the inode tree is a single block, the store goes to its root. */
  lemma RootSwapped(s0: Snap, s1: Snap, s2: Snap, v: Vol, files: map<nat, File>, k: nat, g: seq<Byte>, nb: nat)
    requires OnCopy(s0, s1, v, files, k, g, nb) && v.h == 0 && nb < 0x2000_0000_0000_0000
    requires s2 == Snap(s1.mem[v.irb := Get(s1.mem, v.irb)[0 := HaWord(0, nb)]], s1.pos, s1.freed, s1.crashes + iset{s2.mem})
    ensures VolWritten(s0, s2, v, files, k, g, 0)
  {
    hide Written, VolShows, VolProper, Proper, InodeBlock, HaHeight, RootAddr, LeafStart, InodeOff, Nbytes, HaWord;
    CopyTree(s0, s1, v, files, k, g, nb);
    CopyPlace(s0, s1, v, files, k, g, nb);
    SetRoot(Get(s0.mem, v.irb), nb);
    FirstLeaf(s0, v, k);
    OneBlock(s0, s2, v, k, nb);
    MoveCommits(s0, s1, s2, v, files, k, g, nb, v.irb);
  }

  lemma RootPaid(s0: Snap, s1: Snap, s2: Snap, v: Vol, files: map<nat, File>, k: nat, g: seq<Byte>, nb: nat, lo: nat, hi: nat)
    requires k in files && OnCopy(s0, s1, v, files, k, g, nb) && v.h == 0 && nb < 0x2000_0000_0000_0000 && hi <= |g| && |files[k].bytes| <= |g|
    requires s2 == Snap(s1.mem[v.irb := Get(s1.mem, v.irb)[0 := HaWord(0, nb)]], s1.pos, s1.freed, s1.crashes + iset{s2.mem}) && v.irb in s1.mem
    requires VolOk(v) && TreePaid(s0, s1, k + 1, InodeBlock(s0.mem, v, k), nb, RootWordOf(k), lo, hi, 0)
    ensures VolPaid(s0, s2, v, k, lo, hi, 0)
  {
    hide *;
    OneStore(s1.mem, v.irb, Get(s1.mem, v.irb)[0 := HaWord(0, nb)]);
    CopyExtends(s0, s1, v, files, k, g, nb);
    CopyTree(s0, s1, v, files, k, g, nb);
    CopyPlace(s0, s1, v, files, k, g, nb);
    SetRoot(Get(s0.mem, v.irb), nb);
    FirstLeaf(s0, v, k);
    OneBlock(s0, s2, v, k, nb);
    StoreMoves(s0, s1, s2, v, files, k, g, nb, v.irb);
    MovePaid(s0, s1, s2, v, files, k, g, nb, v.irb, lo, hi);
  }

  lemma OneStore(m: Mem, b: nat, blk: Block)
    ensures OnlyBlock(m, m[b := blk], b) && Get(m[b := blk], b) == blk
  {
  }

  lemma OneBlock(s0: Snap, s2: Snap, v: Vol, k: nat, nb: nat)
    requires VolProper(s0, v) && v.h == 0 && k in v.live && nb != 0 && RootSet(Get(s0.mem, v.irb), Get(s2.mem, v.irb), nb)
    requires nb in s2.pos && s2.pos[nb] == Label(0, 0, 0) && nb !in s2.freed
    ensures forall i {:trigger InodeBlock(s2.mem, v, i)} | i in v.live ::
      InodeBlock(s2.mem, v, i) == if i / 32 == k / 32 then nb else InodeBlock(s0.mem, v, i)
    ensures v.irb in s0.pos
    ensures Proper(s2.mem, s2.pos, s2.freed, 0, RootAddr(Get(s2.mem, v.irb), 0), v.h, 0, Nbytes(Get(s2.mem, v.irb), 0))
    ensures FileFills(s0.mem, v.irb, s2.mem, v.irb, 0, 0, 0) && Nbytes(Get(s2.mem, v.irb), 0) == Nbytes(Get(s0.mem, v.irb), 0)
  {
    hide Nbytes, HaHeight;
  }

  lemma FirstLeaf(s: Snap, v: Vol, k: nat)
    requires VolProper(s, v) && v.h == 0 && k in v.live
    ensures LeafStart(InodeOff(k)) == 0
  {
  }

  /** The root of blk' is a single block, nb, and the size is that of blk. */
  predicate RootSet(blk: Block, blk': Block, nb: nat) {
    HaHeight(blk', 0) == 0 && Nbytes(blk', 0) == Nbytes(blk, 0) && (Nbytes(blk, 0) > 0 ==> RootAddr(blk', 0) == nb)
  }

  lemma SetRoot(blk: Block, nb: nat)
    requires nb < 0x2000_0000_0000_0000
    ensures RootSet(blk, blk[0 := HaWord(0, nb)], nb)
  {
    HaRoundTrip(0, nb);
    hide HaWord;
  }

  /** Every block that a file or the inode tree had it still has, and file k has every block of the range lo to hi. */
  ghost predicate VolFills(m: Mem, m': Mem, v: Vol, k: nat, lo: nat, hi: nat)
    requires VolOk(v)
  {
    && FileFills(m, v.irb, m', v.irb, 0, 0, 0) && Nbytes(Get(m', v.irb), 0) == Nbytes(Get(m, v.irb), 0)
    && forall i {:trigger InodeBlock(m', v, i)} | i in v.live ::
         FileFills(m, InodeBlock(m, v, i), m', InodeBlock(m', v, i), RootWordOf(i), if i == k then lo else 0, if i == k then hi else 0)
  }

  /** Neither the inode tree nor a directory has a hole. */
  ghost predicate Solid(m: Mem, v: Vol, dirs: set<nat>) {
    && VolOk(v) && dirs <= v.live && Whole(m, v.irb, 0)
    && forall i {:trigger InodeBlock(m, v, i)} | i in dirs :: Whole(m, InodeBlock(m, v, i), RootWordOf(i))
  }

  /** Directories grow by what is appended at their end, so they never have a hole: a write to one starts inside it or at its
      end, and what is written elsewhere takes no block from it. */
  lemma SolidKept(m: Mem, m': Mem, v: Vol, files: map<nat, File>, dirs: set<nat>, k: nat, lo: nat, got: seq<Byte>)
    requires Solid(m, v, dirs) && VolShows(m, v, files) && k in files && (k in dirs ==> lo <= |files[k].bytes|)
    requires VolFills(m, m', v, k, lo, lo + |got|) && VolShows(m', v, WithBytes(files, k, FlatWrite(files[k].bytes, lo, got)))
    ensures Solid(m', v, dirs)
  {
    var files' := WithBytes(files, k, FlatWrite(files[k].bytes, lo, got));
    assert Nbytes(Get(m', v.irb), 0) == Nbytes(Get(m, v.irb), 0);
    hide InodeBlock, Whole, FileFills, RootWordOf, RootHeight;
    WholeFills(m, v.irb, m', v.irb, 0, 0, 0);
    forall i {:trigger InodeBlock(m', v, i)} | i in dirs
      ensures Whole(m', InodeBlock(m', v, i), RootWordOf(i))
    {
      assert i in files.Keys && InodeShows(m, InodeBlock(m, v, i), i, files[i]) && InodeShows(m', InodeBlock(m', v, i), i, files'[i]);
      WholeFills(m, InodeBlock(m, v, i), m', InodeBlock(m', v, i), RootWordOf(i), if i == k then lo else 0, if i == k then lo + |got| else 0);
    }
  }

  /** So does a write that failed and lost nothing. */
  lemma SolidAnyway(m: Mem, m': Mem, v: Vol, files: map<nat, File>, dirs: set<nat>, k: nat)
    requires Solid(m, v, dirs) && VolShows(m, v, files) && k in files
    requires VolFills(m, m', v, k, 0, 0) && VolShows(m', v, files)
    ensures Solid(m', v, dirs)
  {
    assert FlatWrite(files[k].bytes, 0, []) == files[k].bytes;
    SameBytesSameFiles(files, k);
    hide Solid, VolShows, VolFills, FlatWrite;
    SolidKept(m, m', v, files, dirs, k, 0, []);
  }

  /** A file whose root words and indirect blocks are unchanged has the blocks it had. */
  lemma FillsKept(s: Snap, m': Mem, freed: set<nat>, t: nat, rb: nat, rb': nat, ro: nat)
    requires ro < 511 && FileProper(s, freed, t, rb, ro)
    requires Get(m', rb')[ro] == Get(s.mem, rb)[ro] && Get(m', rb')[ro + 1] == Get(s.mem, rb)[ro + 1]
    requires forall b {:trigger Get(m', b)} | b in s.pos && s.pos[b].tree == t && s.pos[b].level > 0 :: Get(m', b) == Get(s.mem, b)
    ensures FileFills(s.mem, rb, m', rb', ro, 0, 0)
  {
    var blk := Get(s.mem, rb);
    hide Proper, LeafOf, Cap;
    forall x: nat {:trigger InTree(m', rb', ro, x)} | x < Nbytes(blk, ro) && InTree(s.mem, rb, ro, x)
      ensures InTree(m', rb', ro, x)
    {
      LeafKept(s, m', freed, t, RootAddr(blk, ro), RootHeight(blk, ro), 0, Nbytes(blk, ro), x);
    }
  }

  lemma OtherFills(s: Snap, m': Mem, v: Vol, k: nat, i: nat)
    requires VolProper(s, v) && k in v.live && i in v.live && i != k
    requires RootFrame(s, m', k + 1, InodeBlock(s.mem, v, k), RootWordOf(k))
    ensures FileFills(s.mem, InodeBlock(s.mem, v, i), m', InodeBlock(m', v, i), RootWordOf(i), 0, 0)
  {
    assert InodeProper(s, v, i);
    InodeAt(s, v, k);
    InodesStay(s, m', v, k, i);
    OtherWords(s, m', v, k, i, 4);
    OtherWords(s, m', v, k, i, 5);
    var b := InodeBlock(s.mem, v, i);
    assert FileProper(s, s.freed, i + 1, b, RootWordOf(i));
    assert Get(m', b)[RootWordOf(i)] == InodeWord(Get(m', b), i, 4) && Get(m', b)[RootWordOf(i) + 1] == InodeWord(Get(m', b), i, 5);
    hide RootWordOf, VolProper, InodeBlock, FileProper, FileFills;
    FillsKept(s, m', s.freed, i + 1, b, b, RootWordOf(i));
  }

  lemma InodesFill(s: Snap, m': Mem, v: Vol, k: nat)
    requires VolProper(s, v) && k in v.live
    requires RootFrame(s, m', k + 1, InodeBlock(s.mem, v, k), RootWordOf(k))
    ensures FileFills(s.mem, v.irb, m', v.irb, 0, 0, 0)
  {
    InodeAt(s, v, k);
    InodesStay(s, m', v, k, k);
    assert FileProper(s, s.freed, 0, v.irb, 0);
    hide RootWordOf, VolProper, InodeBlock, FileProper, FileFills;
    FillsKept(s, m', s.freed, 0, v.irb, v.irb, 0);
  }

  /** A change of file k that leaves its inode in place takes no block from any file. */
  lemma StayFills(s: Snap, m': Mem, v: Vol, k: nat, lo: nat, hi: nat)
    requires VolProper(s, v) && k in v.live
    requires RootFrame(s, m', k + 1, InodeBlock(s.mem, v, k), RootWordOf(k))
    requires FileFills(s.mem, InodeBlock(s.mem, v, k), m', InodeBlock(s.mem, v, k), RootWordOf(k), lo, hi)
    ensures VolFills(s.mem, m', v, k, lo, hi) && InodeBlock(m', v, k) == InodeBlock(s.mem, v, k)
  {
    assert VolOk(v);
    hide RootWordOf, VolProper, InodeBlock, FileFills, RootFrame;
    InodesStay(s, m', v, k, k);
    InodesFill(s, m', v, k);
    forall i {:trigger InodeBlock(m', v, i)} | i in v.live && i != k
      ensures FileFills(s.mem, InodeBlock(s.mem, v, i), m', InodeBlock(m', v, i), RootWordOf(i), 0, 0)
    {
      OtherFills(s, m', v, k, i);
    }
  }

  /** The space that a write of the bytes lo to hi of file k took. When it ran out, an abort gives back the volume of before
      exactly if the write had not replaced a pointer that the old file is read through. */
  ghost predicate VolPaid(s0: Snap, s1: Snap, v: Vol, k: nat, lo: nat, hi: nat, r: int)
    requires VolOk(v) && k in v.live
  {
    var rb, ro := InodeBlock(s0.mem, v, k), RootWordOf(k);
    && TreePaid(s0, s1, k + 1, rb, InodeBlock(s1.mem, v, k), ro, lo, hi, r)
    && (r == 0 ==> VolFills(s0.mem, s1.mem, v, k, lo, hi))
    && (r != 0 ==> (VolProper(Rolled(s0, s1), v) <==> !Loses(s0.mem, rb, ro, lo, hi, FreeBlocks(s0.mem, s0.pos))))
    && (r != 0 && VolProper(Rolled(s0, s1), v) ==> VolFills(s0.mem, s1.mem, v, k, 0, 0))
  }

  lemma PaidFor(s0: Snap, s1: Snap, t: nat, rb: nat, newrb: nat, ro: nat, lo: nat, hi: nat, r: int)
    requires TreePaid(s0, s1, t, rb, newrb, ro, lo, hi, r)
    ensures ro < 511 && lo < hi
    ensures r == 0 ==> FileFills(s0.mem, rb, s1.mem, newrb, ro, lo, hi)
    ensures r != 0 ==> Undone(s0, s1, t, rb, ro, Loses(s0.mem, rb, ro, lo, hi, FreeBlocks(s0.mem, s0.pos)))
    ensures r != 0 ==> forall b: nat :: TreePaid(s0, s1, t, rb, b, ro, lo, hi, r)
  {
    hide FileFills, Undone, Loses, WriteCost, FreeBlocks;
  }

  /** The space of a write that ran out of it. */
  lemma FailPaid(s0: Snap, s1: Snap, v: Vol, files: map<nat, File>, k: nat, lo: nat, hi: nat, r: int)
    requires VolProper(s0, v) && VolShows(s0.mem, v, files) && k in v.live && r != 0
    requires RootFrame(s0, s1.mem, k + 1, InodeBlock(s0.mem, v, k), RootWordOf(k)) && HaHeight(Get(s1.mem, InodeBlock(s0.mem, v, k)), RootWordOf(k)) <= 5
    requires TreePaid(s0, s1, k + 1, InodeBlock(s0.mem, v, k), 0, RootWordOf(k), lo, hi, r)
    ensures VolPaid(s0, s1, v, k, lo, hi, r)
  {
    var rb, ro, s := InodeBlock(s0.mem, v, k), RootWordOf(k), Rolled(s0, s1);
    assert VolOk(v);
    InodesStay(s0, s1.mem, v, k, k);
    PaidFor(s0, s1, k + 1, rb, 0, ro, lo, hi, r);
    hide RootWordOf, VolShows, InodeBlock, FileFills, RootFrame, TreePaid, FileProper, HaHeight, Loses, Proper, FreeBlocks;
    if VolProper(s, v) {
      assert InodeProper(s, v, k);
    } else if FileProper(s, s0.freed, k + 1, rb, ro) {
      hide VolProper;
      VolProperLift(s0, s, v, files, k);
    }
    hide VolProper;
    if FileProper(s, s0.freed, k + 1, rb, ro) {
      StayFills(s0, s1.mem, v, k, 0, 0);
    }
  }

  /** The space of a write that committed inside the file or its root. */
  lemma StayPaid(s0: Snap, s1: Snap, v: Vol, k: nat, lo: nat, hi: nat)
    requires VolProper(s0, v) && k in v.live
    requires RootFrame(s0, s1.mem, k + 1, InodeBlock(s0.mem, v, k), RootWordOf(k))
    requires TreePaid(s0, s1, k + 1, InodeBlock(s0.mem, v, k), InodeBlock(s0.mem, v, k), RootWordOf(k), lo, hi, 0)
    ensures VolPaid(s0, s1, v, k, lo, hi, 0)
  {
    assert VolOk(v);
    hide RootWordOf, VolProper, InodeBlock, FileFills, RootFrame, TreePaid, VolFills;
    PaidFor(s0, s1, k + 1, InodeBlock(s0.mem, v, k), InodeBlock(s0.mem, v, k), RootWordOf(k), lo, hi, 0);
    StayFills(s0, s1.mem, v, k, lo, hi);
  }

  lemma ProperInode(s: Snap, v: Vol, i: nat)
    requires VolProper(s, v) && i in v.live
    ensures VolOk(v) && RootWordOf(i) < 511 && FileProper(s, s.freed, i + 1, InodeBlock(s.mem, v, i), RootWordOf(i))
  {
    hide Proper, FileProper, InodeBlock;
    assert InodeProper(s, v, i);
  }

  lemma RootWords(blk: Block, i: nat)
    ensures RootWordOf(i) < 511 && InodeWord(blk, i, 4) == blk[RootWordOf(i)] && InodeWord(blk, i, 5) == blk[RootWordOf(i) + 1]
  {
  }

  lemma MovedFillsOther(s0: Snap, s1: Snap, s2: Snap, v: Vol, files: map<nat, File>, k: nat, g: seq<Byte>, nb: nat, q: nat, i: nat)
    requires Moved(s0, s1, s2, v, files, k, g, nb, q) && VolOk(v) && i in v.live && i != k
    ensures FileFills(s0.mem, InodeBlock(s0.mem, v, i), s2.mem, InodeBlock(s2.mem, v, i), RootWordOf(i), 0, 0)
  {
    hide *;
    MovedFacts(s0, s1, s2, v, files, k, g, nb, q);
    ProperInode(s0, v, i);
    var b, b' := InodeBlock(s0.mem, v, i), InodeBlock(s2.mem, v, i);
    RootWords(Get(s0.mem, b), i);
    RootWords(Get(s2.mem, b'), i);
    MovedWords(s0, s1, s2, v, files, k, g, nb, q, i, 4);
    MovedWords(s0, s1, s2, v, files, k, g, nb, q, i, 5);
    forall c {:trigger Get(s2.mem, c)} | c in s0.pos && s0.pos[c].tree == i + 1
      ensures Get(s2.mem, c) == Get(s0.mem, c)
    {
      MovedBlocks(s0, s1, s2, v, files, k, g, nb, q, i, c);
    }
    FillsKept(s0, s2.mem, s0.freed, i + 1, b, b', RootWordOf(i));
  }

  lemma MovedFillsSelf(s0: Snap, s1: Snap, s2: Snap, v: Vol, files: map<nat, File>, k: nat, g: seq<Byte>, nb: nat, q: nat, lo: nat, hi: nat)
    requires Moved(s0, s1, s2, v, files, k, g, nb, q) && FileFills(s0.mem, InodeBlock(s0.mem, v, k), s1.mem, nb, RootWordOf(k), lo, hi)
    requires k in files && hi <= |g| && |files[k].bytes| <= |g|
    ensures FileFills(s0.mem, InodeBlock(s0.mem, v, k), s2.mem, nb, RootWordOf(k), lo, hi)
  {
    var b, ro := InodeBlock(s0.mem, v, k), RootWordOf(k);
    InodeAt(s0, v, k);
    RootApart(s0, v, k);
    InodeFacts(s0, v, files, k);
    hide RootWordOf, VolProper, VolShows, FileProper, InodeBlock, InTree;
    assert nb != q && Get(s2.mem, nb) == Get(s1.mem, nb);
    FillsKept(s1, s2.mem, s1.freed, k + 1, nb, nb, ro);
    forall x: nat {:trigger InTree(s2.mem, nb, ro, x)} | lo <= x < hi || (x < Nbytes(Get(s0.mem, b), ro) && InTree(s0.mem, b, ro, x))
      ensures InTree(s2.mem, nb, ro, x)
    {
      assert InTree(s1.mem, nb, ro, x);
    }
  }

  /** The space of a write that moved the inode. */
  lemma MovePaid(s0: Snap, s1: Snap, s2: Snap, v: Vol, files: map<nat, File>, k: nat, g: seq<Byte>, nb: nat, q: nat, lo: nat, hi: nat)
    requires Moved(s0, s1, s2, v, files, k, g, nb, q) && k in files && hi <= |g| && |files[k].bytes| <= |g|
    requires TreePaid(s0, s1, k + 1, InodeBlock(s0.mem, v, k), nb, RootWordOf(k), lo, hi, 0)
    requires FileFills(s0.mem, v.irb, s2.mem, v.irb, 0, 0, 0) && Nbytes(Get(s2.mem, v.irb), 0) == Nbytes(Get(s0.mem, v.irb), 0) && s2.mem.Keys == s1.mem.Keys
    ensures VolOk(v) && VolPaid(s0, s2, v, k, lo, hi, 0)
  {
    assert VolOk(v) && s2.pos == s1.pos;
    hide *;
    MovedFacts(s0, s1, s2, v, files, k, g, nb, q);
    MovedSelf(s0, s1, s2, v, files, k, g, nb, q);
    PaidFor(s0, s1, k + 1, InodeBlock(s0.mem, v, k), nb, RootWordOf(k), lo, hi, 0);
    SameFree(s1.mem, s2.mem, s1.pos);
    MovedFillsSelf(s0, s1, s2, v, files, k, g, nb, q, lo, hi);
    PaidAfter(s0, s1, s2, k + 1, InodeBlock(s0.mem, v, k), nb, RootWordOf(k), lo, hi);
    forall i {:trigger InodeBlock(s2.mem, v, i)} | i in v.live && i != k
      ensures FileFills(s0.mem, InodeBlock(s0.mem, v, i), s2.mem, InodeBlock(s2.mem, v, i), RootWordOf(i), 0, 0)
    {
      MovedFillsOther(s0, s1, s2, v, files, k, g, nb, q, i);
    }
    MovedPaid(s0, s2, v, k, nb, lo, hi);
  }

  lemma PaidAfter(s0: Snap, s1: Snap, s2: Snap, t: nat, rb: nat, newrb: nat, ro: nat, lo: nat, hi: nat)
    requires TreePaid(s0, s1, t, rb, newrb, ro, lo, hi, 0) && FreeBlocks(s2.mem, s2.pos) == FreeBlocks(s1.mem, s1.pos)
    requires FileFills(s0.mem, rb, s2.mem, newrb, ro, lo, hi)
    ensures TreePaid(s0, s2, t, rb, newrb, ro, lo, hi, 0)
  {
    hide FileFills, Undone, Loses, WriteCost, FreeBlocks;
  }

  lemma MovedPaid(s0: Snap, s2: Snap, v: Vol, k: nat, nb: nat, lo: nat, hi: nat)
    requires VolOk(v) && k in v.live && InodeBlock(s2.mem, v, k) == nb
    requires TreePaid(s0, s2, k + 1, InodeBlock(s0.mem, v, k), nb, RootWordOf(k), lo, hi, 0)
    requires FileFills(s0.mem, InodeBlock(s0.mem, v, k), s2.mem, nb, RootWordOf(k), lo, hi)
    requires FileFills(s0.mem, v.irb, s2.mem, v.irb, 0, 0, 0) && Nbytes(Get(s2.mem, v.irb), 0) == Nbytes(Get(s0.mem, v.irb), 0)
    requires forall i {:trigger InodeBlock(s2.mem, v, i)} | i in v.live && i != k ::
      FileFills(s0.mem, InodeBlock(s0.mem, v, i), s2.mem, InodeBlock(s2.mem, v, i), RootWordOf(i), 0, 0)
    ensures VolPaid(s0, s2, v, k, lo, hi, 0)
  {
    hide RootWordOf, VolProper, InodeBlock, FileFills, TreePaid, Loses, FreeBlocks;
  }

  /** The write that a request makes to file k. */
  predicate WriteOk(files: map<nat, File>, k: nat, off: nat, buf: seq<Byte>) {
    k in files && |buf| > 0 && off + |buf| <= MAX_SIZE
  }

  /** The bytes got are what the file holds after a write of buf: they are buf, save for bytes that cross the store unit;
      those stay as they were when the write is made in place. */
  ghost predicate Arrives(m: Mem, v: Vol, files: map<nat, File>, k: nat, off: nat, buf: seq<Byte>, got: seq<Byte>, r: int)
    requires VolOk(v) && k in v.live && k in files
  {
    && |got| == |buf| && got[..WriteRoom(off, |buf|)] == buf[..WriteRoom(off, |buf|)]
    && (Overwrites(m, v, files, k, off, |buf|) ==>
          r == 0 && got == buf[..WriteRoom(off, |buf|)] + files[k].bytes[off + WriteRoom(off, |buf|)..off + |buf|])
  }

  /** The write lies in one word, inside the file and in a block that exists. */
  predicate Overwrites(m: Mem, v: Vol, files: map<nat, File>, k: nat, off: nat, n: nat)
    requires VolOk(v) && k in v.live && k in files
  {
    var blk, ro := Get(m, InodeBlock(m, v, k)), RootWordOf(k);
    && OneStoreAt(off, n) && off + n <= |files[k].bytes|
    && off < Cap(RootHeight(blk, ro)) && LeafOf(m, RootAddr(blk, ro), RootHeight(blk, ro), 0, off) != 0
  }

  /** What the crawl of the file's tree delivers is what arrives. */
  lemma TreeArrives(m: Mem, v: Vol, files: map<nat, File>, k: nat, off: nat, buf: seq<Byte>, got: seq<Byte>, r: int)
    requires VolOk(v) && k in v.live && k in files
    requires Delivered(Job(k + 1, files[k].bytes, off, buf), Job(k + 1, files[k].bytes, off, got))
    requires FileSure(m, Job(k + 1, files[k].bytes, off, buf), InodeBlock(m, v, k), RootWordOf(k)) ==>
      r == 0 && Job(k + 1, files[k].bytes, off, got) == Job(k + 1, files[k].bytes, off, buf).InPlace()
    ensures Arrives(m, v, files, k, off, buf, got, r)
  {
    hide InodeBlock, RootWordOf, RootHeight, RootAddr, LeafOf, Cap, OneStoreAt, WriteRoom;
    if Overwrites(m, v, files, k, off, |buf|) {
      assert FileSure(m, Job(k + 1, files[k].bytes, off, buf), InodeBlock(m, v, k), RootWordOf(k));
    }
  }

  /** callback_crawl_data: write the file whose inode is in block rb. */
  method WriteBelow(fs: Bpram, rb: nat, k: nat, off: nat, buf: seq<Byte>, ghost v: Vol, ghost files: map<nat, File>) returns (r: int, newrb: nat, ghost got: seq<Byte>)
    requires fs.Valid() && VolProper(Now(fs), v) && VolShows(fs.mem, v, files) && k in v.live && WriteOk(files, k, off, buf)
    requires rb == InodeBlock(fs.mem, v, k)
    modifies fs
    ensures fs.Valid() && (r == 0 || r == ENOSPC) && VolOk(v) && Arrives(old(fs.mem), v, files, k, off, buf, got, r)
    ensures r == 0 && newrb != rb ==> OnCopy(old(Now(fs)), Now(fs), v, files, k, FlatWrite(files[k].bytes, off, got), newrb)
    ensures r == 0 && newrb != rb ==> newrb in fs.mem && newrb < 0x2000_0000_0000_0000
    ensures r != 0 || newrb == rb ==> VolWritten(old(Now(fs)), Now(fs), v, files, k, FlatWrite(files[k].bytes, off, got), r)
    ensures TreePaid(old(Now(fs)), Now(fs), k + 1, rb, newrb, RootWordOf(k), off, off + |buf|, r)
    ensures r != 0 || newrb == rb ==> VolPaid(old(Now(fs)), Now(fs), v, k, off, off + |buf|, r)
  {
    hide *;
    ghost var s0 := Now(fs);
    BelowReady(s0, v, files, k, rb, off, buf);
    r, newrb, got := CrawlTree(fs, rb, RootWordOf(k), off, buf, k + 1, files[k].bytes);
    TreeArrives(s0.mem, v, files, k, off, buf, got, r);
    ghost var g := FlatWrite(files[k].bytes, off, got);
    if r == 0 && newrb != rb {
      BelowCopied(fs, s0, v, files, k, g, newrb);
    } else {
      if r != 0 {
        PaidFor(s0, Now(fs), k + 1, rb, newrb, RootWordOf(k), off, off + |buf|, r);
        WrittenZero(s0, Now(fs), k + 1, rb, RootWordOf(k), files[k].bytes, g, r, newrb);
        newrb := 0;
      }
      WriteStays(s0, Now(fs), v, files, k, g, r);
      PaidStays(s0, Now(fs), v, files, k, g, off, off + |buf|, r, newrb);
      WrittenOr(s0, Now(fs), k + 1, rb, RootWordOf(k), files[k].bytes, g, r, newrb);
    }
  }

  lemma BelowReady(s: Snap, v: Vol, files: map<nat, File>, k: nat, rb: nat, off: nat, buf: seq<Byte>)
    requires VolProper(s, v) && VolShows(s.mem, v, files) && k in v.live && WriteOk(files, k, off, buf) && rb == InodeBlock(s.mem, v, k)
    ensures RootWordOf(k) < 511 && VolOk(v) && k in files && FileIs(s, s.freed, k + 1, rb, RootWordOf(k), files[k].bytes) && rb !in s.freed
    ensures |buf| > 0 && off + |buf| <= MAX_SIZE
  {
    assert InodeProper(s, v, k) && InodeShows(s.mem, rb, k, files[k]);
    InodeAt(s, v, k);
    hide VolProper, VolShows, RootWordOf, InodeBlock, FileProper, FileShows;
  }

  lemma BelowCopied(fs: Bpram, s0: Snap, v: Vol, files: map<nat, File>, k: nat, g: seq<Byte>, nb: nat)
    requires fs.Valid() && VolProper(s0, v) && VolShows(s0.mem, v, files) && k in v.live && nb != InodeBlock(s0.mem, v, k)
    requires Written(s0, Now(fs), k + 1, InodeBlock(s0.mem, v, k), RootWordOf(k), files[k].bytes, g, 0, nb)
    ensures OnCopy(s0, Now(fs), v, files, k, g, nb) && nb in fs.mem && nb < 0x2000_0000_0000_0000
  {
    assert VolOk(v) && k in files;
    hide VolProper, VolShows, RootWordOf, InodeBlock, Written;
    WrittenPlace(s0, Now(fs), k + 1, InodeBlock(s0.mem, v, k), RootWordOf(k), files[k].bytes, g, nb);
    assert nb in fs.mem;
  }

  lemma WrittenOr(s0: Snap, s1: Snap, t: nat, rb: nat, ro: nat, was: seq<Byte>, now: seq<Byte>, r: int, newrb: nat)
    requires Written(s0, s1, t, rb, ro, was, now, r, newrb)
    ensures r == 0 || r == ENOSPC
  {
  }

  lemma WrittenPlace(s0: Snap, s1: Snap, t: nat, rb: nat, ro: nat, was: seq<Byte>, now: seq<Byte>, newrb: nat)
    requires Written(s0, s1, t, rb, ro, was, now, 0, newrb)
    ensures newrb in s1.pos
  {
  }

  lemma WrittenZero(s0: Snap, s1: Snap, t: nat, rb: nat, ro: nat, was: seq<Byte>, now: seq<Byte>, r: int, newrb: nat)
    requires Written(s0, s1, t, rb, ro, was, now, r, newrb) && r != 0
    ensures Written(s0, s1, t, rb, ro, was, now, r, 0)
  {
  }

  /** The path from an indirect block of the inode tree to the inode with index k. */
  ghost predicate PathHere(s0: Snap, v: Vol, k: nat, a: nat, h: nat, base: nat)
    requires VolOk(v) && k in v.live
  {
    var x0, root := InodeOff(k), RootAddr(Get(s0.mem, v.irb), 0);
    && 0 < h <= v.h && base <= x0 < base + Cap(h) && base % 4096 == 0
    && a != 0 && Proper(s0.mem, s0.pos, s0.freed, 0, a, h, base, Nbytes(Get(s0.mem, v.irb), 0))
    && LeafOf(s0.mem, a, h, base, x0) == InodeBlock(s0.mem, v, k)
    && ParentOf(s0.mem, a, h, base, x0) == ParentOf(s0.mem, root, v.h, 0, x0)
  }

  lemma PathChild(s0: Snap, v: Vol, k: nat, a: nat, h: nat, base: nat)
    requires VolProper(s0, v) && k in v.live && PathHere(s0, v, k, a, h, base)
    ensures var no := Slot(h, base, InodeOff(k)); var child := Addr(Get(s0.mem, a), no);
      && child != 0
      && (h > 1 ==> PathHere(s0, v, k, child, h - 1, ChildBase(h, base, no)))
      && (h == 1 ==> child == InodeBlock(s0.mem, v, k) && a == ParentOf(s0.mem, RootAddr(Get(s0.mem, v.irb), 0), v.h, 0, InodeOff(k)))
      && a in s0.pos && s0.pos[a] == Label(0, h, base)
  {
    var n := Nbytes(Get(s0.mem, v.irb), 0);
    assert VolOk(v);
    hide VolProper, Nbytes, RootAddr, Decode;
    RootElsewhere(s0, v, k, a);
    assert ProperSlots(s0.mem, s0.pos, s0.freed, 0, Get(s0.mem, a), h, base, n);
    var x, no := InodeOff(k), Slot(h, base, InodeOff(k));
    ChildAligned(h, base, no);
    var child, cb := Addr(Get(s0.mem, a), no), ChildBase(h, base, no);
    assert cb <= x < cb + Cap(h - 1) && Proper(s0.mem, s0.pos, s0.freed, 0, child, h - 1, cb, n);
    assert LeafOf(s0.mem, a, h, base, x) == LeafOf(s0.mem, child, h - 1, cb, x);
    assert h > 1 ==> ParentOf(s0.mem, a, h, base, x) == ParentOf(s0.mem, child, h - 1, cb, x);
  }

  /** The lowest indirect block: write the file below entry no and, if its inode's block was copied, commit by one store. */
  method WriteAtParent(fs: Bpram, prev: nat, no: nat, k: nat, off: nat, buf: seq<Byte>,
                       ghost base: nat, ghost v: Vol, ghost files: map<nat, File>) returns (r: int, ghost got: seq<Byte>)
    requires fs.Valid() && VolProper(Now(fs), v) && VolShows(fs.mem, v, files) && k in v.live && k in files && WriteOk(files, k, off, buf)
    requires v.h > 0 && prev != 0 && prev in fs.pos && fs.pos[prev] == Label(0, 1, base)
    requires base <= InodeOff(k) < base + Cap(1) && no == Slot(1, base, InodeOff(k)) < 512
    requires prev == ParentOf(fs.mem, RootAddr(Get(fs.mem, v.irb), 0), v.h, 0, InodeOff(k))
    requires Addr(Get(fs.mem, prev), no) == InodeBlock(fs.mem, v, k)
    modifies fs
    ensures fs.Valid() && VolWritten(old(Now(fs)), Now(fs), v, files, k, FlatWrite(files[k].bytes, off, got), r)
    ensures VolOk(v) && Arrives(old(fs.mem), v, files, k, off, buf, got, r) && VolPaid(old(Now(fs)), Now(fs), v, k, off, off + |buf|, r)
  {
    hide *;
    ghost var s0 := Now(fs);
    var child := Addr(Get(fs.mem, prev), no);
    var childNew;
    r, childNew, got := WriteBelow(fs, child, k, off, buf, v, files);
    ghost var g := FlatWrite(files[k].bytes, off, got);
    if r == 0 && childNew != child {
      ghost var s1 := Now(fs);
      StillUsed(fs, s0, v, files, k, g, childNew, prev);
      fs.StoreWord(prev, no, ToWord(childNew));
      ParentStored(s0, s1, Now(fs), v, files, k, g, childNew, prev, base);
      ParentSwapped(s0, s1, Now(fs), v, files, k, g, childNew, prev, base);
      StoreMoves(s0, s1, Now(fs), v, files, k, g, childNew, prev);
      ArrivesLength(s0.mem, v, files, k, off, buf, got, r);
      MovePaid(s0, s1, Now(fs), v, files, k, g, childNew, prev, off, off + |buf|);
    }
  }

  /** crawl_indir over the inode tree for the 128 bytes of one inode: one entry at each level, committed in place. */
  method CrawlInodeIndir(fs: Bpram, prev: nat, inoff: nat, h: nat, maxNblocks: nat, k: nat, off: nat, buf: seq<Byte>,
                         ghost base: nat, ghost v: Vol, ghost files: map<nat, File>) returns (r: int, newno: nat, ghost got: seq<Byte>)
    requires fs.Valid() && VolProper(Now(fs), v) && VolShows(fs.mem, v, files) && k in v.live && k in files && WriteOk(files, k, off, buf)
    requires h > 0 && maxNblocks == MaxBlocks(h) && PathHere(Now(fs), v, k, prev, h, base) && inoff == InodeOff(k) - base
    modifies fs
    ensures fs.Valid() && VolWritten(old(Now(fs)), Now(fs), v, files, k, FlatWrite(files[k].bytes, off, got), r)
    ensures VolOk(v) && Arrives(old(fs.mem), v, files, k, off, buf, got, r) && VolPaid(old(Now(fs)), Now(fs), v, k, off, off + |buf|, r)
    ensures r == 0 ==> newno == prev
    decreases h
  {
    hide *;
    ChildBlocks(maxNblocks, h);
    InodeEntry(Now(fs), v, k, prev, h, base, inoff, Cap(h - 1));
    var childMaxNblocks := maxNblocks / 512;
    var c := childMaxNblocks * 4096;
    var no := FirstNo(inoff, c);
    if h == 1 {
      r, got := WriteAtParent(fs, prev, no, k, off, buf, base, v, files);
    } else {
      var childNew;
      r, childNew, got := CrawlInodeIndir(fs, Addr(Get(fs.mem, prev), no), ChildOff(inoff, c, no, no), h - 1, childMaxNblocks, k, off, buf,
                                     ChildBase(h, base, no), v, files);
    }
    newno := prev;
  }

  /** The entry of an indirect block on the path, as crawl_indir computes it. */
  lemma InodeEntry(s0: Snap, v: Vol, k: nat, a: nat, h: nat, base: nat, inoff: nat, c: nat)
    requires VolProper(s0, v) && k in v.live && PathHere(s0, v, k, a, h, base)
    requires h > 0 && c == Cap(h - 1) && inoff == InodeOff(k) - base
    ensures base <= InodeOff(k) < base + Cap(h)
    ensures var no := FirstNo(inoff, c);
      && no == Slot(h, base, InodeOff(k))
      && (var child := Addr(Get(s0.mem, a), no);
          && (h > 1 ==> PathHere(s0, v, k, child, h - 1, ChildBase(h, base, no)) && ChildOff(inoff, c, no, no) == InodeOff(k) - ChildBase(h, base, no))
          && (h == 1 ==> child == InodeBlock(s0.mem, v, k) && a == ParentOf(s0.mem, RootAddr(Get(s0.mem, v.irb), 0), v.h, 0, InodeOff(k))))
    ensures a != 0 && a in s0.pos && s0.pos[a] == Label(0, h, base) && v.h > 0
  {
    assert base <= InodeOff(k) < base + Cap(h) && a != 0 && v.h > 0;
    hide VolProper, PathHere, InodeBlock, ParentOf, LeafOf, Proper, InodeOff, FirstNo, ChildOff, Slot, Cap, ChildBase;
    EntryNo(h, base, InodeOff(k));
    PathChild(s0, v, k, a, h, base);
  }

  /** The entry and the offset in it that the crawl computes are the true ones. */
  lemma EntryNo(h: nat, base: nat, x: nat)
    requires h > 0 && base <= x < base + Cap(h)
    ensures var c := Cap(h - 1); var no := Slot(h, base, x);
      FirstNo(x - base, c) == no && ChildOff(x - base, c, no, no) == x - ChildBase(h, base, no)
  {
    ChildBaseMul(h, base, Slot(h, base, x));
    DivMod(x - base, Cap(h - 1));
  }

  lemma StillUsed(fs: Bpram, s0: Snap, v: Vol, files: map<nat, File>, k: nat, g: seq<Byte>, nb: nat, b: nat)
    requires fs.Valid() && OnCopy(s0, Now(fs), v, files, k, g, nb) && b in s0.pos
    ensures b in fs.used && b in fs.mem
  {
    CopyExtends(s0, Now(fs), v, files, k, g, nb);
  }

  lemma CopyExtends(s0: Snap, s1: Snap, v: Vol, files: map<nat, File>, k: nat, g: seq<Byte>, nb: nat)
    requires OnCopy(s0, s1, v, files, k, g, nb)
    ensures Extends(s0.pos, s1.pos) && VolProper(s0, v) && k in v.live && nb != 0
  {
  }

  /** A write to the file with index k: every crash shows the volume before or after it, and nothing in between. The file
      then holds got at off, which is buf unless its bytes cross the store unit. */
  method WriteFile(fs: Bpram, v: Vol, k: nat, off: nat, buf: seq<Byte>, ghost files: map<nat, File>) returns (r: int, ghost got: seq<Byte>)
    requires fs.Valid() && VolProper(Now(fs), v) && VolShows(fs.mem, v, files) && k in v.live && k in files && WriteOk(files, k, off, buf)
    modifies fs
    ensures fs.Valid() && VolWritten(old(Now(fs)), Now(fs), v, files, k, FlatWrite(files[k].bytes, off, got), r)
    ensures Arrives(old(fs.mem), v, files, k, off, buf, got, r) && VolPaid(old(Now(fs)), Now(fs), v, k, off, off + |buf|, r)
  {
    hide *;
    ghost var s0 := Now(fs);
    var root := RootAddr(Get(fs.mem, v.irb), 0);
    RootReady(fs, v, k);
    if v.h == 0 {
      var nb;
      r, nb, got := WriteBelow(fs, root, k, off, buf, v, files);
      if r == 0 && nb != root {
        ghost var g := FlatWrite(files[k].bytes, off, got);
        ghost var s1 := Now(fs);
        StillUsed(fs, s0, v, files, k, g, nb, v.irb);
        fs.StoreWord(v.irb, 0, HaWord(0, nb));
        RootSwapped(s0, s1, Now(fs), v, files, k, g, nb);
        ArrivesLength(s0.mem, v, files, k, off, buf, got, r);
        RootPaid(s0, s1, Now(fs), v, files, k, g, nb, off, off + |buf|);
      }
    } else {
      var maxNblocks := TreeMaxNblocks(v.h);
      var newno;
      r, newno, got := CrawlInodeIndir(fs, root, InodeOff(k), v.h, maxNblocks, k, off, buf, 0, v, files);
    }
  }

  /** The inode tree at its root. */
  lemma RootReady(fs: Bpram, v: Vol, k: nat)
    requires fs.Valid() && VolProper(Now(fs), v) && k in v.live
    ensures VolOk(v) && v.irb in fs.pos && v.h <= 5
    ensures var root := RootAddr(Get(fs.mem, v.irb), 0);
      if v.h == 0 then root == InodeBlock(fs.mem, v, k) else PathHere(Now(fs), v, k, root, v.h, 0)
  {
    assert InodeProper(Now(fs), v, k);
    hide Proper, FileProper, ParentOf;
  }

  lemma ArrivesLength(m: Mem, v: Vol, files: map<nat, File>, k: nat, off: nat, buf: seq<Byte>, got: seq<Byte>, r: int)
    requires WriteOk(files, k, off, buf) && VolOk(v) && k in v.live && Arrives(m, v, files, k, off, buf, got, r)
    ensures |got| == |buf| > 0 && var g := FlatWrite(files[k].bytes, off, got); off + |buf| <= |g| && |files[k].bytes| <= |g|
  {
  }

  lemma ArrivesAll(m: Mem, v: Vol, files: map<nat, File>, k: nat, off: nat, buf: seq<Byte>, got: seq<Byte>, r: int)
    requires VolOk(v) && k in v.live && k in files && Arrives(m, v, files, k, off, buf, got, r)
    ensures ArrivesWhole(off, |buf|) ==> got == buf
  {
    if ArrivesWhole(off, |buf|) {
      assert got[..|buf|] == got && buf[..|buf|] == buf;
    }
  }

  /** Whatever the file and the buffer hold, a write made in place leaves the file that was asked for exactly when its bytes
      do not cross the store unit. */
  lemma WriteExact(off: nat, n: nat)
    requires n > 0
    ensures (forall was: seq<Byte>, buf: seq<Byte> {:trigger FlatWrite(was, off, buf)} | |buf| == n && off + n <= |was| ::
        FlatWrite(was, off, buf[..WriteRoom(off, n)] + was[off + WriteRoom(off, n)..off + n]) == FlatWrite(was, off, buf))
      <==> ArrivesWhole(off, n)
  {
    var room := WriteRoom(off, n);
    if ArrivesWhole(off, n) {
      forall was: seq<Byte>, buf: seq<Byte> {:trigger FlatWrite(was, off, buf)} | |buf| == n && off + n <= |was|
        ensures FlatWrite(was, off, buf[..room] + was[off + room..off + n]) == FlatWrite(was, off, buf)
      {
        assert buf[..room] + was[off + room..off + n] == buf;
      }
    } else {
      var was, buf := seq<Byte>(off + n, _ => 0), seq<Byte>(n, _ => 1);
      var left := FlatWrite(was, off, buf[..room] + was[off + room..off + n]);
      assert left[off + n - 1] == 0 && FlatWrite(was, off, buf)[off + n - 1] == 1;
    }
  }
}
