/** A request from its first store to the commit or the abort that ends it. */
module Request {
  import opened Words
  import opened Geometry
  import opened Tree
  import opened Bpram
  import opened WriteSpec
  import opened SpaceSpec
  import opened Root
  import opened Height
  import opened TreeSpace
  import opened TreeWrite
  import opened Volume
  import opened RenameCrawl
  import opened Rename

  /** The state that a commit leaves: what was staged as freed is no longer in use. */
  ghost function Committed(s: Snap): Snap {
    Snap(s.mem, s.pos - s.freed, {}, s.crashes)
  }

  /** No block of a proper tree is freed by the commit. */
  lemma {:induction false} CommitTree(s: Snap, t: nat, a: nat, h: nat, base: nat, end: nat)
    requires Proper(s.mem, s.pos, s.freed, t, a, h, base, end)
    ensures Proper(s.mem, s.pos - s.freed, {}, t, a, h, base, end)
    decreases h
  {
    if a != 0 && h > 0 {
      var tbl := Get(s.mem, a);
      assert ProperSlots(s.mem, s.pos, s.freed, t, tbl, h, base, end);
      forall k: nat {:trigger ChildBase(h, base, k)} | k < 512 && ChildBase(h, base, k) < end
        ensures Proper(s.mem, s.pos - s.freed, {}, t, Addr(tbl, k), h - 1, ChildBase(h, base, k), end)
      {
        CommitTree(s, t, Addr(tbl, k), h - 1, ChildBase(h, base, k), end);
      }
    }
  }

  /** A commit frees no block of a proper volume. */
  lemma CommitProper(s: Snap, v: Vol)
    requires VolProper(s, v)
    ensures VolProper(Committed(s), v)
  {
    var s' := Committed(s);
    CommitTree(s, 0, RootAddr(Get(s.mem, v.irb), 0), v.h, 0, Nbytes(Get(s.mem, v.irb), 0));
    hide Proper;
    forall k {:trigger InodeProper(s', v, k)} | k in v.live
      ensures InodeProper(s', v, k)
    {
      assert InodeProper(s, v, k);
      var blk, ro := Get(s.mem, InodeBlock(s.mem, v, k)), RootWordOf(k);
      CommitTree(s, k + 1, RootAddr(blk, ro), RootHeight(blk, ro), 0, Nbytes(blk, ro));
    }
  }

  /** What a request to write g to file k from s0 on leaves. A crash shows the volume before or after it. It
      fails exactly when there are fewer free blocks than it takes. If it failed, the blocks in use are those of
      before, and they hold the volume exactly if no pointer was lost; directories keep having no holes. */
  ghost predicate Ended(s0: Snap, s1: Snap, v: Vol, files: map<nat, File>, k: nat, lo: nat, hi: nat, g: seq<Byte>, dirs: set<nat>, r: int)
    requires VolOk(v) && k in v.live && k in files
  {
    var rb, ro, free := InodeBlock(s0.mem, v, k), RootWordOf(k), FreeBlocks(s0.mem, s0.pos);
    && (r == 0 || r == ENOSPC) && s0.crashes <= s1.crashes && lo < hi
    && (r == 0 <==> WriteCost(s0.mem, rb, ro, lo, hi) <= free)
    && (r == 0 ==> VolProper(s1, v) && VolShows(s1.mem, v, WithBytes(files, k, g)))
    && (r != 0 ==> s1.pos == s0.pos && VolShows(s1.mem, v, files))
    && (r != 0 ==> (VolProper(s1, v) <==> !Loses(s0.mem, rb, ro, lo, hi, free)))
    && (Solid(s0.mem, v, dirs) && VolProper(s1, v) ==> Solid(s1.mem, v, dirs))
    && forall m' {:trigger m' in s1.crashes} | m' in s1.crashes ::
         m' in s0.crashes || VolShows(m', v, files) || (r == 0 && VolShows(m', v, WithBytes(files, k, g)))
  }

  /** A request that passed the guard leaves the blocks in use holding the volume, whether it succeeded or not. */
  lemma GuardedRequest(s0: Snap, s1: Snap, v: Vol, files: map<nat, File>, k: nat, lo: nat, hi: nat, g: seq<Byte>, dirs: set<nat>, r: int)
    requires VolOk(v) && k in v.live && k in files && Ended(s0, s1, v, files, k, lo, hi, g, dirs, r)
    requires Guarded(s0.mem, InodeBlock(s0.mem, v, k), RootWordOf(k), lo, hi)
    ensures VolProper(s1, v)
  {
    var rb, ro, free := InodeBlock(s0.mem, v, k), RootWordOf(k), FreeBlocks(s0.mem, s0.pos);
    hide VolProper, VolShows, Solid, Loses, WriteCost, Guarded, WithBytes, InodeBlock, RootWordOf, FreeBlocks;
    if Loses(s0.mem, rb, ro, lo, hi, free) {
      GuardedWrite(s0.mem, rb, ro, lo, hi, free);
    }
  }

  /** A request that must raise the file's tree loses it whenever exactly the blocks for the new levels are free. */
  lemma RaiseLost(s0: Snap, s1: Snap, v: Vol, files: map<nat, File>, k: nat, lo: nat, hi: nat, g: seq<Byte>, dirs: set<nat>, r: int)
    requires VolOk(v) && k in v.live && k in files && Ended(s0, s1, v, files, k, lo, hi, g, dirs, r)
    requires var rb, ro := InodeBlock(s0.mem, v, k), RootWordOf(k);
      FreeBlocks(s0.mem, s0.pos) == NewLevels(s0.mem, rb, ro, hi) > 0
    ensures r == ENOSPC && !VolProper(s1, v)
  {
    hide VolProper, VolShows, Solid, WriteCost, WithBytes, InodeBlock, RootWordOf, FreeBlocks, NewLevels;
    RaiseCosts(s0.mem, InodeBlock(s0.mem, v, k), RootWordOf(k), lo, hi);
  }

  lemma WriteCommits(s0: Snap, s1: Snap, v: Vol, files: map<nat, File>, k: nat, off: nat, got: seq<Byte>, dirs: set<nat>)
    requires VolProper(s0, v) && VolShows(s0.mem, v, files) && k in v.live && k in files && (k in dirs ==> off <= |files[k].bytes|) && VolOk(v)
    requires VolWritten(s0, s1, v, files, k, FlatWrite(files[k].bytes, off, got), 0) && VolPaid(s0, s1, v, k, off, off + |got|, 0)
    ensures Ended(s0, Committed(s1), v, files, k, off, off + |got|, FlatWrite(files[k].bytes, off, got), dirs, 0)
  {
    hide VolProper, VolShows, Solid, VolFills, Loses, WriteCost, FileFills, FreeBlocks, Undone, InodeBlock, RootWordOf, WithBytes, FlatWrite;
    CommitProper(s1, v);
    if Solid(s0.mem, v, dirs) {
      SolidKept(s0.mem, s1.mem, v, files, dirs, k, off, got);
    }
  }

  lemma WriteAborts(s0: Snap, s1: Snap, v: Vol, files: map<nat, File>, k: nat, lo: nat, hi: nat, g: seq<Byte>, dirs: set<nat>, r: int)
    requires VolProper(s0, v) && VolShows(s0.mem, v, files) && k in v.live && k in files && VolOk(v) && r != 0 && s0.freed == {}
    requires VolWritten(s0, s1, v, files, k, g, r) && VolPaid(s0, s1, v, k, lo, hi, r)
    ensures Ended(s0, Rolled(s0, s1), v, files, k, lo, hi, g, dirs, r)
  {
    hide VolProper, VolShows, Solid, VolFills, Loses, WriteCost, FileFills, FreeBlocks, Undone, InodeBlock, RootWordOf, WithBytes;
    if Solid(s0.mem, v, dirs) && VolProper(Rolled(s0, s1), v) {
      SolidAnyway(s0.mem, s1.mem, v, files, dirs, k);
    }
  }

  /** bpfs_commit. */
  method Commit(fs: Bpram)
    requires fs.Valid()
    modifies fs, fs.tx
    ensures fs.Valid() && fs.Idle() && Now(fs) == Committed(old(Now(fs)))
  {
    fs.CommitBlocks();
  }

  /** bpfs_abort, in a transaction that began in state s0. */
  method Abort(fs: Bpram, ghost s0: Snap)
    requires fs.Valid() && s0.pos.Keys == fs.tx.before && s0.freed == {} && Extends(s0.pos, fs.pos)
    modifies fs
    ensures fs.Valid() && fs.Idle() && Now(fs) == Rolled(s0, old(Now(fs))) && fs.used == s0.pos.Keys
  {
    fs.AbortBlocks();
    assert fs.pos.Keys == s0.pos.Keys;
    assert fs.pos == s0.pos;
  }

  lemma Began(fs: Bpram)
    requires fs.Valid() && fs.Idle()
    ensures fs.pos.Keys == fs.tx.before && fs.freed == {}
  {
  }

  lemma WrittenExtends(s0: Snap, s1: Snap, v: Vol, files: map<nat, File>, k: nat, g: seq<Byte>, r: int)
    requires VolWritten(s0, s1, v, files, k, g, r)
    ensures Extends(s0.pos, s1.pos)
  {
  }

  /** fuse_write: a write to the file with index k, then the commit, or the abort if the write failed. */
  method WriteRequest(fs: Bpram, v: Vol, k: nat, off: nat, buf: seq<Byte>, ghost files: map<nat, File>, ghost dirs: set<nat>)
    returns (r: int, ghost got: seq<Byte>)
    requires fs.Valid() && fs.Idle() && VolProper(Now(fs), v) && VolShows(fs.mem, v, files) && k in v.live && WriteOk(files, k, off, buf)
    requires k in files && (k in dirs ==> off <= |files[k].bytes|)
    modifies fs, fs.tx
    ensures fs.Valid() && fs.Idle() && VolOk(v) && Arrives(old(fs.mem), v, files, k, off, buf, got, r)
    ensures Ended(old(Now(fs)), Now(fs), v, files, k, off, off + |buf|, FlatWrite(files[k].bytes, off, got), dirs, r)
  {
    hide *;
    ghost var s0 := Now(fs);
    ProperInode(s0, v, k);
    Began(fs);
    r, got := WriteFile(fs, v, k, off, buf, files);
    ghost var s1 := Now(fs);
    if r == 0 {
      Commit(fs);
      ArrivesLength(s0.mem, v, files, k, off, buf, got, r);
      WriteCommits(s0, s1, v, files, k, off, got, dirs);
    } else {
      WrittenExtends(s0, s1, v, files, k, FlatWrite(files[k].bytes, off, got), r);
      Abort(fs, s0);
      WriteAborts(s0, s1, v, files, k, off, off + |buf|, FlatWrite(files[k].bytes, off, got), dirs, r);
    }
  }

  /** crawl_data_2 with the commit or the abort after it: both words are replaced or neither, and either way the blocks in use hold
      the volume. */
  method ReplaceWords(fs: Bpram, v: Vol, dst: Dirent, src: Dirent, ghost files: map<nat, File>, ghost dirs: set<nat>) returns (r: int)
    requires fs.Valid() && fs.Idle() && VolProper(Now(fs), v) && VolShows(fs.mem, v, files)
    requires InFile(dst, files) && InFile(src, files) && (dst.k != src.k || dst.x != src.x)
    requires Solid(fs.mem, v, dirs) && dst.k in dirs && src.k in dirs
    modifies fs, fs.tx
    ensures fs.Valid() && fs.Idle() && (r == 0 || r == ENOSPC) && VolProper(Now(fs), v) && Solid(fs.mem, v, dirs)
    ensures r == 0 ==> VolShows(fs.mem, v, SetOne(SetOne(files, dst), src))
    ensures r != 0 ==> fs.used == old(fs.used) && fs.pos == old(fs.pos) && VolShows(fs.mem, v, files)
    ensures VolOk(v) && dst.k in v.live && src.k in v.live
    ensures r == 0 <==> RenameCost(old(fs.mem), v, dst.k, dst.x, src.k, src.x) <= FreeBlocks(old(fs.mem), old(fs.pos))
    ensures forall m' {:trigger m' in fs.crashes} | m' in fs.crashes ::
      m' in old(fs.crashes) || VolShows(m', v, files) || (r == 0 && VolShows(m', v, SetOne(SetOne(files, dst), src)))
  {
    ghost var s0 := Now(fs);
    hide VolProper, VolShows, Solid, SetOne, InFile, Extends, RenameCost, FreeBlocks;
    r := SetDirents(fs, v, dst, src, files, dirs);
    if r == 0 {
      CommitProper(Now(fs), v);
      Commit(fs);
    } else {
      Abort(fs, s0);
    }
  }
}
