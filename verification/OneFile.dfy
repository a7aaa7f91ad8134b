/** Volumes with a single file, for concrete inputs: block 1 is the root of the inode tree and block 2 its only block. */
module OneFile {
  import opened Words
  import opened Geometry
  import opened Tree
  import opened Bpram
  import opened WriteSpec
  import opened Root
  import opened Volume

  /** A block that is zero but for a root at words ro and ro + 1. */
  function RootBlock(h: nat, addr: nat, size: nat, ro: nat): (b: Block)
    requires ro < 511 && h < 8 && addr < 0x2000_0000_0000_0000
  {
    ZeroBlock()[ro := HaWord(h, addr)][ro + 1 := ToWord(size)]
  }

  lemma RootBlockReads(h: nat, addr: nat, size: nat, ro: nat)
    requires ro < 511 && h < 8 && addr < 0x2000_0000_0000_0000 && 0 < size < 0x1_0000_0000_0000_0000
    ensures var b := RootBlock(h, addr, size, ro); Nbytes(b, ro) == size && HaHeight(b, ro) == RootHeight(b, ro) == h && RootAddr(b, ro) == addr
  {
    WordRoundTrip(size);
    HaRoundTrip(h, addr);
    hide Decode, HaWord, ToWord;
  }

  const VOL: Vol := Vol(1, 0, {0})

  function Files(f: seq<Byte>): map<nat, File> {
    map[0 := File(seq(16, _ => ZERO_WORD), f)]
  }

  function Zeros(n: nat): (f: seq<Byte>)
    ensures |f| == n && forall x {:trigger f[x]} | 0 <= x < n :: f[x] == 0
  {
    seq(n, _ => 0)
  }

  /** The file has n bytes in a tree of height h at addr. */
  predicate Single(m: Mem, h: nat, addr: nat, n: nat) {
    && h <= 5 && addr < 0x2000_0000_0000_0000 && 0 < n < 0x1_0000_0000_0000_0000
    && Get(m, 1) == RootBlock(0, 2, 128, 0) && Get(m, 2) == RootBlock(h, addr, n, 4)
  }

  lemma Facts(m: Mem, h: nat, addr: nat, n: nat)
    requires Single(m, h, addr, n)
    ensures Nbytes(Get(m, 1), 0) == 128 && HaHeight(Get(m, 1), 0) == RootHeight(Get(m, 1), 0) == 0 && RootAddr(Get(m, 1), 0) == 2
    ensures Nbytes(Get(m, 2), 4) == n && HaHeight(Get(m, 2), 4) == RootHeight(Get(m, 2), 4) == h && RootAddr(Get(m, 2), 4) == addr
    ensures VolOk(VOL) && 0 in VOL.live && InodeBlock(m, VOL, 0) == 2 && RootWordOf(0) == 4
  {
    RootBlockReads(0, 2, 128, 0);
    RootBlockReads(h, addr, n, 4);
    hide RootBlock, Nbytes, HaHeight, RootHeight, RootAddr;
  }

  lemma ZeroWords(h: nat, addr: nat, n: nat, j: nat)
    requires h <= 5 && addr < 0x2000_0000_0000_0000 && j < 16 && j != 4 && j != 5
    ensures InodeWord(RootBlock(h, addr, n, 4), 0, j) == ZERO_WORD
  {
    assert RootWordOf(0) == 4;
    hide RootWordOf, HaWord, ToWord;
    assert ZeroBlock()[j] == ZERO_WORD;
    hide ZeroBlock;
  }

  lemma ShowsInode(m: Mem, h: nat, addr: nat, f: seq<Byte>, file: File)
    requires Single(m, h, addr, |f|) && FileShows(m, 2, 4, f) && file == File(seq(16, _ => ZERO_WORD), f)
    ensures InodeShows(m, 2, 0, file)
  {
    Facts(m, h, addr, |f|);
    hide RootBlock, FileShows, InodeWord, InodeBlock, RootWordOf, Nbytes, RootAddr, HaHeight, RootHeight;
    forall j {:trigger InodeWord(Get(m, 2), 0, j)} | 0 <= j < 16 && j != 4 && j != 5
      ensures InodeWord(Get(m, 2), 0, j) == file.words[j]
    {
      ZeroWords(h, addr, |f|, j);
    }
  }

  lemma ShowsFile(m: Mem, h: nat, addr: nat, f: seq<Byte>)
    requires Single(m, h, addr, |f|) && FileShows(m, 2, 4, f)
    ensures VolShows(m, VOL, Files(f)) && 0 in Files(f) && Files(f)[0].bytes == f
  {
    hide Single, FileShows, InodeShows, InodeBlock, RootWordOf, Get;
    Facts(m, h, addr, |f|);
    var file := File(seq(16, _ => ZERO_WORD), f);
    assert Files(f)[0] == file;
    ShowsInode(m, h, addr, f, file);
  }

  lemma IsProper(s: Snap, h: nat, addr: nat, n: nat)
    requires Single(s.mem, h, addr, n) && s.freed == {} && Proper(s.mem, s.pos, {}, 1, addr, h, 0, n)
    requires 1 in s.pos && s.pos[1] == Label(2, 0, 0) && 2 in s.pos && s.pos[2] == Label(0, 0, 0)
    ensures VolProper(s, VOL)
  {
    Facts(s.mem, h, addr, n);
    hide RootBlock, Nbytes, HaHeight, RootHeight, RootAddr;
    assert InodeProper(s, VOL, 0);
  }

  /** A block of zeros reads as zeros, as a leaf and as a table. */
  lemma ZeroReads(m: Mem, a: nat, h: nat, base: nat, x: nat)
    requires Get(m, a) == ZeroBlock() && base <= x < base + Cap(h)
    ensures Read(m, a, h, base, x) == 0
  {
    if h == 0 {
      assert (x - base) / 8 < 512;
    } else {
      var s := Slot(h, base, x);
      hide Slot, ChildBase, Cap;
      assert ZeroBlock()[s] == ZERO_WORD;
      assert Addr(ZeroBlock(), s) == 0;
    }
  }

  /** A table of zeros is a proper tree. */
  lemma ZeroProper(m: Mem, pos: Labels, t: nat, a: nat, h: nat, base: nat, end: nat)
    requires Get(m, a) == ZeroBlock() && h > 0 && a in pos && pos[a] == Label(t, h, base)
    ensures Proper(m, pos, {}, t, a, h, base, end)
  {
    forall k: nat {:trigger ChildBase(h, base, k)} | k < 512 && ChildBase(h, base, k) < end
      ensures Proper(m, pos, {}, t, Addr(ZeroBlock(), k), h - 1, ChildBase(h, base, k), end)
    {
      assert ZeroBlock()[k] == ZERO_WORD;
      assert Addr(ZeroBlock(), k) == 0;
    }
  }

  lemma ShowsZeros(m: Mem, h: nat, addr: nat, n: nat)
    requires Single(m, h, addr, n)
    requires forall x: nat {:trigger Read(m, addr, h, 0, x)} | x < Cap(h) && x < n :: Read(m, addr, h, 0, x) == 0
    ensures FileShows(m, 2, 4, Zeros(n))
  {
    hide RootBlock, Read, Cap;
    Facts(m, h, addr, n);
    FileShowsTree(m, 2, 4, Zeros(n));
  }
}
