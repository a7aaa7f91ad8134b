/** Byte-addressable persistent memory: its stores, what a crash can leave of them, and block allocation. */
module Bpram {
  import opened Words
  import opened Geometry
  import opened Tree

  const ENOSPC: int := -28

  lemma NoSpaceCode()
    ensures ENOSPC != 0
  {
  }

  /** True exactly when the bytes [off, off + size) lie in one aligned 8-byte word. */
  predicate CanAtomicWrite(off: nat, size: nat)
    requires size > 0
  {
    var last := off + size - 1;
    last - off < ATOMIC_SIZE && off % ATOMIC_SIZE <= last % ATOMIC_SIZE
  }

  lemma CanAtomicWriteIffOneWord(off: nat, size: nat)
    requires size > 0
    ensures CanAtomicWrite(off, size) <==> off / 8 == (off + size - 1) / 8
  {
  }

  /** Width of the single store that atomic_memcpy uses for n bytes: the least power of two that holds them. */
  function StoreUnit(n: nat): (u: nat)
    ensures u == 1 || u == 2 || u == 4 || u == 8
    ensures 0 < n <= 8 ==> n <= u && (u > 1 ==> u < 2 * n)
  {
    if n == 1 then 1 else if n == 2 then 2 else if n <= 4 then 4 else 8
  }

  predicate FitsUnit(off: nat, n: nat) {
    off % StoreUnit(n) + n <= StoreUnit(n)
  }

  /** How many of n bytes at off fall inside the store unit. */
  function StoreRoom(off: nat, n: nat): (room: nat)
    requires n > 0
    ensures 0 < room <= n && (room == n <==> FitsUnit(off, n))
  {
    if FitsUnit(off, n) then n else StoreUnit(n) - off % StoreUnit(n)
  }

  /** What atomic_memcpy leaves in the block: only the bytes inside the aligned store unit arrive. */
  function AtomicPatch(b: Block, off: nat, src: seq<Byte>): Block
    requires 0 < |src| && off + |src| <= 4096 && CanAtomicWrite(off, |src|)
  {
    Patch(b, off, src[..StoreRoom(off, |src|)])
  }

  /** The bytes at off after atomic_memcpy: those that arrive, and behind them those that were there. */
  function Arrived(b: Block, off: nat, src: seq<Byte>): (got: seq<Byte>)
    requires 0 < |src| && off + |src| <= 4096
    ensures |got| == |src|
    ensures forall i {:trigger got[i]} | 0 <= i < |src| :: got[i] == if i < StoreRoom(off, |src|) then src[i] else ByteAt(b, off + i)
  {
    src[..StoreRoom(off, |src|)] + Bytes(b)[off + StoreRoom(off, |src|)..off + |src|]
  }

  lemma AtomicPatchArrived(b: Block, off: nat, src: seq<Byte>)
    requires 0 < |src| && off + |src| <= 4096 && CanAtomicWrite(off, |src|)
    ensures AtomicPatch(b, off, src) == Patch(b, off, Arrived(b, off, src))
  {
    hide StoreRoom, CanAtomicWrite;
    var x, y := AtomicPatch(b, off, src), Patch(b, off, Arrived(b, off, src));
    hide Arrived, ByteAt, Patch;
    SameBytes(x, y);
  }

  /** atomic_memcpy copies all its bytes for every content exactly when they do not cross the store unit. */
  lemma AtomicPatchExact(off: nat, n: nat)
    requires 0 < n && off + n <= 4096 && CanAtomicWrite(off, n)
    ensures (forall b: Block, src: seq<Byte> | |src| == n :: AtomicPatch(b, off, src) == Patch(b, off, src))
      <==> FitsUnit(off, n)
  {
    if FitsUnit(off, n) {
      assert forall src: seq<Byte> {:trigger src[..n]} | |src| == n :: src[..n] == src;
    } else {
      var b := ZeroBlock();
      var src: seq<Byte> := seq<Byte>(n, _ => 1);
      assert ByteAt(b, off + n - 1) == ZERO_WORD[(off + n - 1) % 8] == 0;
      assert ByteAt(Patch(b, off, src), off + n - 1) == 1;
      assert ByteAt(AtomicPatch(b, off, src), off + n - 1) == 0;
      assert AtomicPatch(b, off, src) != Patch(b, off, src);
    }
  }

  /** m' differs from m at most in bytes [off, off + n) of block b, which may hold anything. */
  ghost predicate Torn(m: Mem, m': Mem, b: nat, off: nat, n: nat) {
    && (forall c {:trigger Get(m', c)} | c != b :: Get(m', c) == Get(m, c))
    && (forall x {:trigger ByteAt(Get(m', b), x)} | 0 <= x < 4096 && !(off <= x < off + n) ::
          ByteAt(Get(m', b), x) == ByteAt(Get(m, b), x))
  }

  /** m' differs from m at most in block b. */
  ghost predicate OnlyBlock(m: Mem, m': Mem, b: nat) {
    forall c {:trigger Get(m', c)} | c != b :: Get(m', c) == Get(m, c)
  }

  /** How many blocks are not in use. */
  function FreeBlocks(mem: Mem, pos: Labels): nat {
    |mem.Keys - pos.Keys|
  }

  lemma NoneFree(mem: Mem, pos: Labels)
    ensures FreeBlocks(mem, pos) == 0 <==> mem.Keys <= pos.Keys
  {
    var free := mem.Keys - pos.Keys;
    if free == {} {
      assert forall b | b in mem.Keys :: b in pos.Keys || b in free;
    }
    if mem.Keys <= pos.Keys {
      assert free == {};
    }
  }

  /** A block taken is one free block less. */
  lemma OneTaken(mem: Mem, pos: Labels, b: nat, l: Label)
    requires b in mem && b !in pos
    ensures FreeBlocks(mem, pos) == FreeBlocks(mem, pos[b := l]) + 1
  {
    assert mem.Keys - pos[b := l].Keys == (mem.Keys - pos.Keys) - {b};
  }

  lemma SameFree(mem: Mem, mem': Mem, pos: Labels)
    requires mem'.Keys == mem.Keys
    ensures FreeBlocks(mem', pos) == FreeBlocks(mem, pos)
  {
  }

  /** The blocks that were in use when the transaction began. */
  class Transaction {
    ghost var before: set<nat>

    constructor (before: set<nat>)
      ensures this.before == before
    {
      this.before := before;
    }
  }

  /** Persistent memory with the block bitmap. Allocations and frees are staged: blocks that are freed stay in use until the commit,
      and an abort takes the allocations back. */
  class Bpram {
    var mem: Mem
    var used: set<nat>
    var allocs: set<nat>
    var freed: set<nat>
    const tx: Transaction
    ghost var pos: Labels
    /** Every memory that a crash so far could have left behind. */
    ghost var crashes: iset<Mem>

    /** The blocks in use are those of before and those allocated since. */
    ghost predicate Staged()
      reads this, tx
    {
      used == tx.before + allocs && tx.before !! allocs
    }

    ghost predicate Valid()
      reads this, tx
    {
      && Staged()
      && used == pos.Keys <= mem.Keys
      && 0 !in mem
      && (forall b {:trigger b in mem} | b in mem :: b < 0x2000_0000_0000_0000)
      && mem in crashes
      && freed <= used
    }

    /** Memory as a mount finds it. */
    constructor (mem: Mem, used: set<nat>, ghost pos: Labels)
      requires used == pos.Keys <= mem.Keys && 0 !in mem && forall b {:trigger b in mem} | b in mem :: b < 0x2000_0000_0000_0000
      ensures Valid() && fresh(tx) && this.mem == mem && this.used == used && this.pos == pos && Idle() && crashes == iset{mem}
    {
      this.mem, this.used, this.pos := mem, used, pos;
      allocs, freed, crashes := {}, {}, iset{mem};
      tx := new Transaction(used);
    }

    /** Nothing is staged. */
    predicate Idle()
      reads this
    {
      allocs == {} && freed == {}
    }

    /** One aligned store: a crash sees all of it or none of it. */
    method StoreWord(b: nat, i: nat, w: Word)
      requires Valid() && b in used && i < 512
      modifies this`mem, this`crashes
      ensures Valid()
      ensures mem == old(mem)[b := Get(old(mem), b)[i := w]]
      ensures crashes == old(crashes) + iset{mem}
    {
      mem := mem[b := Get(mem, b)[i := w]];
      crashes := crashes + iset{mem};
    }

    /** atomic_memcpy: a single aligned store of at most eight bytes. */
    method AtomicMemcpy(b: nat, off: nat, src: seq<Byte>)
      requires Valid() && b in used
      requires 0 < |src| && off + |src| <= 4096 && CanAtomicWrite(off, |src|)
      modifies this`mem, this`crashes
      ensures Valid()
      ensures mem == old(mem)[b := AtomicPatch(Get(old(mem), b), off, src)]
      ensures crashes == old(crashes) + iset{mem}
    {
      mem := mem[b := AtomicPatch(Get(mem, b), off, src)];
      crashes := crashes + iset{mem};
    }

    /** memcpy or memset: a crash may leave anything in the bytes being written. */
    method Memcpy(b: nat, off: nat, src: seq<Byte>)
      requires Valid() && b in used && off + |src| <= 4096
      modifies this`mem, this`crashes
      ensures Valid()
      ensures mem == old(mem)[b := Patch(Get(old(mem), b), off, src)]
      ensures crashes == old(crashes) + iset m' | Torn(old(mem), m', b, off, |src|)
    {
      ghost var torn := iset m' | Torn(mem, m', b, off, |src|);
      mem := mem[b := Patch(Get(mem, b), off, src)];
      crashes := crashes + torn;
    }

    /** Take any block that is not in use; 0 when there is none. Its contents are whatever they were. */
    method AllocBlock(ghost l: Label) returns (b: nat)
      requires Valid()
      modifies this`used, this`allocs, this`pos
      ensures Valid()
      ensures b == 0 <==> FreeBlocks(mem, old(pos)) == 0
      ensures b == 0 ==> used == old(used) && pos == old(pos)
      ensures b != 0 ==> b in mem && b !in old(used) && used == old(used) + {b} && pos == old(pos)[b := l]
    {
      NoneFree(mem, pos);
      hide FreeBlocks;
      if free :| free in mem && free !in used {
        b := free;
        used, allocs := used + {b}, allocs + {b};
        pos := pos[b := l];
      } else {
        b := 0;
      }
    }

    /** Stage a block as freed. */
    method FreeBlock(b: nat)
      requires Valid() && b in used
      modifies this`freed
      ensures Valid()
      ensures freed == old(freed) + {b}
    {
      freed := freed + {b};
    }

    /** Copy a block except for bytes [off, off + size) and the part beyond its valid bytes. */
    method CowBlock(b: nat, off: nat, size: nat, valid: nat) returns (b': nat)
      requires Valid() && b in used && off + size <= 4096 && valid <= 4096
      modifies this
      ensures Valid() && mem.Keys == old(mem.Keys)
      ensures b' == 0 <==> FreeBlocks(old(mem), old(pos)) == 0
      ensures b' == 0 ==> mem == old(mem) && pos == old(pos) && freed == old(freed) && crashes == old(crashes)
      ensures b' != 0 ==>
        && b' in mem && b' !in old(pos) && pos == old(pos)[b' := old(pos)[b]] && freed == old(freed) + {b}
        && (forall x {:trigger ByteAt(Get(mem, b'), x)} | 0 <= x < 4096 && (x < off || off + size <= x < valid) ::
              ByteAt(Get(mem, b'), x) == ByteAt(Get(old(mem), b), x))
        && OnlyBlock(old(mem), mem, b')
        && old(crashes) <= crashes
        && (forall m' {:trigger m' in crashes} | m' in crashes :: m' in old(crashes) || OnlyBlock(old(mem), m', b'))
    {
      hide ByteAt, FreeBlocks;
      b' := AllocBlock(pos[b]);
      if b' == 0 {
        return;
      }
      Surround(b', Bytes(Get(mem, b)), off, size, valid);
      FreeBlock(b);
    }

    /** Fill a block from src, except for bytes [off, off + size) and the part beyond its valid bytes. */
    method Surround(b: nat, src: seq<Byte>, off: nat, size: nat, valid: nat)
      requires Valid() && b in used && |src| == 4096 && off + size <= 4096 && valid <= 4096
      modifies this`mem, this`crashes
      ensures Valid() && mem.Keys == old(mem.Keys) && OnlyBlock(old(mem), mem, b) && old(crashes) <= crashes
      ensures forall x {:trigger ByteAt(Get(mem, b), x)} | 0 <= x < 4096 ::
        ByteAt(Get(mem, b), x) == if x < off || off + size <= x < valid then src[x] else ByteAt(Get(old(mem), b), x)
      ensures forall m' {:trigger m' in crashes} | m' in crashes :: m' in old(crashes) || OnlyBlock(old(mem), m', b)
    {
      hide ByteAt;
      hide Patch;
      Memcpy(b, 0, src[..off]);
      if off + size < valid {
        Memcpy(b, off + size, src[off + size..valid]);
      }
    }

    /** A new block, zero outside bytes [off, off + size) up to its valid bytes; the other bytes are left as they were. */
    method CowBlockHole(off: nat, size: nat, valid: nat, ghost l: Label) returns (b: nat)
      requires Valid() && off + size <= 4096 && valid <= 4096
      modifies this
      ensures Valid() && mem.Keys == old(mem.Keys) && freed == old(freed)
      ensures b == 0 <==> FreeBlocks(old(mem), old(pos)) == 0
      ensures b == 0 ==> mem == old(mem) && pos == old(pos) && crashes == old(crashes)
      ensures b != 0 ==>
        && b in mem && b in used && b !in old(pos) && pos == old(pos)[b := l]
        && (forall x {:trigger ByteAt(Get(mem, b), x)} | 0 <= x < 4096 ::
              ByteAt(Get(mem, b), x) == if x < off || off + size <= x < valid then 0 else ByteAt(Get(old(mem), b), x))
        && OnlyBlock(old(mem), mem, b)
        && old(crashes) <= crashes
        && (forall m' {:trigger m' in crashes} | m' in crashes :: m' in old(crashes) || OnlyBlock(old(mem), m', b))
    {
      hide ByteAt, FreeBlocks;
      b := AllocBlock(l);
      if b == 0 {
        return;
      }
      Surround(b, seq<Byte>(4096, _ => 0), off, size, valid);
    }

    /** Copy a whole block. */
    method CowBlockEntire(b: nat) returns (b': nat)
      requires Valid() && b in used
      modifies this
      ensures Valid() && mem.Keys == old(mem.Keys)
      ensures b' == 0 <==> FreeBlocks(old(mem), old(pos)) == 0
      ensures b' == 0 ==> mem == old(mem) && pos == old(pos) && freed == old(freed) && crashes == old(crashes)
      ensures b' != 0 ==>
        && b' in mem && b' !in old(pos) && pos == old(pos)[b' := old(pos)[b]] && freed == old(freed) + {b}
        && Get(mem, b') == Get(old(mem), b)
        && OnlyBlock(old(mem), mem, b')
        && old(crashes) <= crashes
        && (forall m' {:trigger m' in crashes} | m' in crashes :: m' in old(crashes) || OnlyBlock(old(mem), m', b'))
    {
      hide ByteAt, Patch, FreeBlocks;
      b' := AllocBlock(pos[b]);
      if b' == 0 {
        return;
      }
      var src := Bytes(Get(mem, b));
      Memcpy(b', 0, src);
      SameBytes(Get(mem, b'), Get(old(mem), b));
      FreeBlock(b);
    }

    /** commit_blocks: what was staged as freed is free, and a new transaction begins. */
    method CommitBlocks()
      requires Valid()
      modifies this`used, this`allocs, this`pos, this`freed, tx
      ensures Valid() && pos == old(pos) - old(freed) && used == old(used) - old(freed) && Idle()
    {
      used, allocs := used - freed, {};
      pos := pos - freed;
      freed := {};
      tx.before := used;
    }

    /** abort_blocks: the staged allocations are taken back and the staged frees forgotten, so the blocks in use are again those of
        before the transaction. */
    method AbortBlocks()
      requires Valid()
      modifies this`used, this`allocs, this`pos, this`freed
      ensures Valid() && used == tx.before && pos == old(pos) - old(allocs) && Idle()
    {
      used := used - allocs;
      pos := pos - allocs;
      allocs, freed := {}, {};
    }
  }
}
