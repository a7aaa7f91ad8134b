/** Shadow paging: the two copies of the super block, their update and their recovery after a crash. */
module SuperBlock {
  import opened Words

  const FS_MAGIC: nat := 0xB9F5
  const COMMIT_SP: nat := 0
  const COMMIT_SCSP: nat := 1

  // The words of struct bpfs_super that matter here.

  function Magic(s: Block): nat {
    Decode(s[0][..4])
  }

  function RootAddr(s: Block): Word {
    s[4]
  }

  function RootAddr2(s: Block): Word {
    s[5]
  }

  function CommitMode(s: Block): Byte {
    s[6][0]
  }

  predicate Consistent(s: Block) {
    RootAddr(s) == RootAddr2(s)
  }

  /** Both copies, the first one being the one in use. */
  datatype Supers = Supers(first: Block, second: Block)

  /** recover_superblock: the return value and the two copies it leaves. */
  function Recover(p: Supers): (int, Supers) {
    if CommitMode(p.first) != CommitMode(p.second) then (-1, p)
    else if CommitMode(p.first) == COMMIT_SCSP then (0, p)
    else if CommitMode(p.first) != COMMIT_SP then (-1, p)
    else if Magic(p.second) != FS_MAGIC then (-1, p)
    else if Consistent(p.first) then (0, if Consistent(p.second) then p else Supers(p.first, p.first))
    else if Consistent(p.second) then (0, Supers(p.second, p.second))
    else (-2, p)
  }

  /** When recovery succeeds, in either mode, and when it finds both copies torn. */
  lemma RecoverCodes(p: Supers)
    ensures var mode, found := CommitMode(p.first), Magic(p.second) == FS_MAGIC; var r := Recover(p).0;
      && (r == 0 <==> mode == CommitMode(p.second) && (mode == COMMIT_SCSP || (mode == COMMIT_SP && found && (Consistent(p.first) || Consistent(p.second)))))
      && (r == -2 <==> mode == CommitMode(p.second) && mode == COMMIT_SP && found && !Consistent(p.first) && !Consistent(p.second))
  {
  }

  /** Recovery is complete: a second one changes nothing. The root that is found was the root of a copy. */
  lemma RecoverTwice(p: Supers)
    requires Recover(p).0 == 0 && Magic(p.first) == FS_MAGIC
    ensures var q := Recover(p).1;
      && Recover(q) == (0, q)
      && (RootAddr(q.first) == RootAddr(p.first) || RootAddr(q.first) == RootAddr(p.second))
      && (CommitMode(p.first) == COMMIT_SCSP ==> q == p) && (Consistent(p.first) ==> q.first == p.first)
  {
    RecoverCodes(p);
  }

  /** With short-circuit shadow paging one store into the super block commits, and recovery keeps what it finds: the old root or the new
      one, whichever the store left. Only the first copy is used, so it makes no difference that the second stays behind. */
  lemma ScspRecovers(p: Supers, i: nat, w: Word, c: Supers)
    requires CommitMode(p.first) == CommitMode(p.second) == COMMIT_SCSP && i < 512 && i != 6
    requires c == p || c == Supers(p.first[i := w], p.second)
    ensures Recover(c) == (0, c)
    ensures RootAddr(Recover(c).1.first) == RootAddr(p.first) || (i == 4 && RootAddr(Recover(c).1.first) == w)
  {
    assert c.first[6] == p.first[6];
  }

  /** Some words of a have been replaced by those of b. */
  ghost predicate Torn(a: Block, b: Block, m: Block) {
    forall i {:trigger m[i]} | 0 <= i < 512 :: m[i] == a[i] || m[i] == b[i]
  }

  /** What a crash during persist_superblock can leave: the second copy is written after the first is complete. */
  ghost predicate Crash(p: Supers, staged: Block, c: Supers) {
    CrashFirst(p, staged, c) || CrashSecond(p, staged, c)
  }

  ghost predicate CrashFirst(p: Supers, staged: Block, c: Supers) {
    Torn(p.first, staged, c.first) && c.second == p.second
  }

  ghost predicate CrashSecond(p: Supers, staged: Block, c: Supers) {
    c.first == staged && Torn(p.second, staged, c.second)
  }

  predicate Usable(s: Block) {
    CommitMode(s) == COMMIT_SP && Magic(s) == FS_MAGIC && Consistent(s)
  }

  /** Recovery succeeds and gives the old root or the new one. */
  ghost predicate Recovers(p: Supers, staged: Block, c: Supers) {
    var (r, q) := Recover(c);
    r == 0 && Consistent(q.first) && (RootAddr(q.first) == RootAddr(p.first) || RootAddr(q.first) == RootAddr(staged))
  }

  /** From two copies with the same root every crash recovers to the old root or the new one. */
  lemma OneCrash(p: Supers, staged: Block, c: Supers)
    requires Usable(p.first) && Usable(p.second) && Usable(staged) && Crash(p, staged, c)
    requires RootAddr(p.second) == RootAddr(p.first)
    ensures Recovers(p, staged, c)
  {
    TornFields(p, staged, c);
  }

  lemma TornFields(p: Supers, staged: Block, c: Supers)
    requires Usable(p.first) && Usable(p.second) && Usable(staged) && Crash(p, staged, c)
    ensures CommitMode(c.first) == CommitMode(c.second) == COMMIT_SP && Magic(c.second) == FS_MAGIC
    ensures c.first[4] == p.first[4] || c.first[4] == staged[4]
    ensures c.first[5] == p.first[4] || c.first[5] == staged[4]
    ensures c.first == staged || c.second == p.second
  {
    assert c.second[0] == p.second[0] || c.second[0] == staged[0];
    assert c.first[6] == p.first[6] || c.first[6] == staged[6];
    assert c.second[6] == p.second[6] || c.second[6] == staged[6];
  }

  /** The first copy with only its first root word written. */
  function HalfWritten(p: Supers, staged: Block): Supers {
    Supers(p.first[4 := staged[4]], p.second)
  }

  /** In general every crash recovers to the old or the new root exactly when the second copy's root is one of them, or there is nothing to write. */
  lemma EveryCrash(p: Supers, staged: Block)
    requires Usable(p.first) && Usable(p.second) && Usable(staged)
    ensures (forall c {:trigger Crash(p, staged, c)} | Crash(p, staged, c) :: Recovers(p, staged, c)) <==>
      RootAddr(p.first) == RootAddr(staged) || RootAddr(p.second) == RootAddr(p.first) || RootAddr(p.second) == RootAddr(staged)
  {
    if RootAddr(p.first) == RootAddr(staged) || RootAddr(p.second) == RootAddr(p.first) || RootAddr(p.second) == RootAddr(staged) {
      forall c {:trigger Crash(p, staged, c)} | Crash(p, staged, c)
        ensures Recovers(p, staged, c)
      {
        TornFields(p, staged, c);
      }
    } else {
      var c := HalfWritten(p, staged);
      assert Torn(p.first, staged, c.first);
      assert Crash(p, staged, c);
      TornFields(p, staged, c);
      assert !Recovers(p, staged, c);
    }
  }

  /** Recovery makes the copies equal exactly when it found one of them inconsistent, or equal already. */
  lemma NotEqualised(p: Supers)
    requires CommitMode(p.first) == CommitMode(p.second) == COMMIT_SP && Magic(p.second) == FS_MAGIC && (Consistent(p.first) || Consistent(p.second))
    ensures var q := Recover(p).1; q.first == q.second <==> p.first == p.second || !Consistent(p.first) || !Consistent(p.second)
  {
  }

  /** So a second crash, after a recovery, can bring back a root that is older than both. */
  lemma TwoCrashes(p: Supers, staged: Block, staged2: Block)
    requires p.first == p.second && Usable(p.first) && Usable(staged) && Usable(staged2)
    requires RootAddr(p.first) != RootAddr(staged) && RootAddr(p.first) != RootAddr(staged2) && RootAddr(staged) != RootAddr(staged2)
    ensures var c := Supers(staged, p.second); var d := HalfWritten(c, staged2);
      && Crash(p, staged, c) && Recover(c) == (0, c)
      && Crash(c, staged2, d) && Recover(d).0 == 0 && RootAddr(Recover(d).1.first) == RootAddr(p.first)
  {
    var c := Supers(staged, p.second);
    var d := HalfWritten(c, staged2);
    assert Torn(c.first, staged2, d.first);
    assert Torn(p.first, staged, c.first);
    TornFields(c, staged2, d);
  }

  /** Recovery has one copy to go by. */
  predicate Recoverable(c: Supers) {
    && CommitMode(c.first) == CommitMode(c.second) == COMMIT_SP && Magic(c.first) == Magic(c.second) == FS_MAGIC
    && (Consistent(c.first) || Consistent(c.second))
  }

  /** What a crash during recover_superblock can leave: the copy it was writing may be torn. */
  ghost predicate RecoveryCrash(c: Supers, d: Supers) {
    var q := Recover(c).1;
    Torn(c.first, q.first, d.first) && Torn(c.second, q.second, d.second)
  }

  /** Recovering again after such a crash gives the same root. */
  lemma RecoverAgain(c: Supers, d: Supers)
    requires Recoverable(c) && RecoveryCrash(c, d)
    ensures Recoverable(d) && Recover(d).0 == 0 && Recover(c).0 == 0
    ensures Consistent(Recover(d).1.first) && RootAddr(Recover(d).1.first) == RootAddr(Recover(c).1.first)
  {
    var q := Recover(c).1;
    assert d.first[0] == c.first[0] || d.first[0] == q.first[0];
    assert d.second[0] == c.second[0] || d.second[0] == q.second[0];
    assert d.first[6] == c.first[6] || d.first[6] == q.first[6];
    assert d.second[6] == c.second[6] || d.second[6] == q.second[6];
    assert (d.first[4] == c.first[4] || d.first[4] == q.first[4]) && (d.first[5] == c.first[5] || d.first[5] == q.first[5]);
    assert (d.second[4] == c.second[4] || d.second[4] == q.second[4]) && (d.second[5] == c.second[5] || d.second[5] == q.second[5]);
    hide Magic;
  }

  /** So it does after any number of them. */
  lemma {:induction false} RecoverAtLast(run: seq<Supers>)
    requires |run| > 0 && Recoverable(run[0]) && forall i {:trigger run[i]} | 0 < i < |run| :: RecoveryCrash(run[i - 1], run[i])
    ensures var c, d := run[0], run[|run| - 1];
      && Recoverable(d) && Recover(d).0 == 0 && Consistent(Recover(d).1.first) && RootAddr(Recover(d).1.first) == RootAddr(Recover(c).1.first)
  {
    hide Recover, Magic, CommitMode, Torn;
    if |run| == 1 {
      RecoverSelf(run[0]);
    } else {
      var n := |run| - 1;
      var before := run[..n];
      assert before[0] == run[0] && before[n - 1] == run[n - 1];
      RecoverAtLast(before);
      RecoverAgain(run[n - 1], run[n]);
    }
  }

  lemma RecoverSelf(c: Supers)
    requires Recoverable(c)
    ensures Recover(c).0 == 0 && Consistent(Recover(c).1.first)
  {
    hide Magic;
  }

  /** A crash while the super block is written, and any number of crashes while it is recovered, still give the old root or the new
      one. */
  lemma CrashesRecover(p: Supers, staged: Block, run: seq<Supers>)
    requires Usable(p.first) && Usable(p.second) && Usable(staged) && RootAddr(p.second) == RootAddr(p.first)
    requires |run| > 0 && Crash(p, staged, run[0]) && forall i {:trigger run[i]} | 0 < i < |run| :: RecoveryCrash(run[i - 1], run[i])
    ensures Recovers(p, staged, run[|run| - 1])
  {
    OneCrash(p, staged, run[0]);
    TornFields(p, staged, run[0]);
    TornMagic(p, staged, run[0]);
    RecoverAtLast(run);
  }

  lemma TornMagic(p: Supers, staged: Block, c: Supers)
    requires Usable(p.first) && Usable(p.second) && Usable(staged) && Crash(p, staged, c)
    ensures Magic(c.first) == FS_MAGIC
  {
    assert c.first[0] == p.first[0] || c.first[0] == staged[0];
  }

  class Persistent {
    var supers: Supers
    ghost var crashes: iset<Supers>

    /** persist_superblock */
    method Persist(staged0: Block) returns (staged: Block)
      requires Usable(supers.first) && Usable(supers.second) && CommitMode(staged0) == COMMIT_SP && Magic(staged0) == FS_MAGIC
      modifies this
      ensures staged == if old(supers).first == staged0 then staged0 else staged0[5 := staged0[4]]
      ensures old(supers).first == staged0 ==> supers == old(supers) && crashes == old(crashes)
      ensures old(supers).first != staged0 ==> supers == Supers(staged, staged) && Usable(staged)
      ensures forall c {:trigger c in crashes} | c in crashes :: c in old(crashes) || Crash(old(supers), staged, c)
    {
      staged := staged0;
      if supers.first == staged {
        return;
      }
      staged := staged[5 := staged[4]];
      ghost var p := supers;
      crashes := crashes + iset c | CrashFirst(p, staged, c);
      supers := supers.(first := staged);
      crashes := crashes + iset c | CrashSecond(p, staged, c);
      supers := supers.(second := staged);
    }
  }
}
