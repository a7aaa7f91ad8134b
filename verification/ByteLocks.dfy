/** POSIX byte-range locks of one node: the list of locks and the bytes that each owner holds. */
module ByteLocks {
  const OFFSET_MAX: int := 0x7fff_ffff_ffff_ffff

  datatype Type = Read | Write | Unlock

  datatype Lock = Lock(owner: nat, start: int, end: int, kind: Type, pid: int)

  predicate LockOk(l: Lock) {
    0 <= l.start <= l.end <= OFFSET_MAX
  }

  /** Two locks of one owner, in list order: disjoint, and not to be merged. */
  predicate Apart(l: Lock, k: Lock) {
    l.owner == k.owner ==> l.end < k.start && (l.kind == k.kind ==> l.end + 1 < k.start)
  }

  /** Every owner's locks are sorted, disjoint and merged as far as possible. */
  ghost predicate Sorted(s: seq<Lock>) {
    && (forall i {:trigger s[i]} | 0 <= i < |s| :: LockOk(s[i]) && s[i].kind != Unlock)
    && (forall i, j {:trigger s[i], s[j]} | 0 <= i < j < |s| :: Apart(s[i], s[j]))
  }

  predicate Hits(l: Lock, o: nat, b: int, t: Type) {
    l.owner == o && l.start <= b <= l.end && l.kind == t
  }

  /** Owner o holds byte b with a lock of kind t. */
  ghost predicate Covers(s: seq<Lock>, o: nat, b: int, t: Type) {
    exists i {:trigger s[i]} :: 0 <= i < |s| && Hits(s[i], o, b, t)
  }

  lemma CoversConcat(p: seq<Lock>, q: seq<Lock>, o: nat, b: int, t: Type)
    ensures Covers(p + q, o, b, t) <==> Covers(p, o, b, t) || Covers(q, o, b, t)
  {
    var s := p + q;
    if Covers(p, o, b, t) {
      var i :| 0 <= i < |p| && Hits(p[i], o, b, t);
      assert s[i] == p[i];
    }
    if Covers(q, o, b, t) {
      var i :| 0 <= i < |q| && Hits(q[i], o, b, t);
      assert s[|p| + i] == q[i];
    }
  }

  /** Covers of a list cut at position i. */
  lemma CoversCut(p: seq<Lock>, l: Lock, q: seq<Lock>, o: nat, b: int, t: Type)
    ensures Covers(p + [l] + q, o, b, t) <==> Covers(p, o, b, t) || Hits(l, o, b, t) || Covers(q, o, b, t)
  {
    CoversConcat(p + [l], q, o, b, t);
    CoversConcat(p, [l], o, b, t);
    assert [l][0] == l;
  }

  /** A byte is held with one kind only. */
  lemma OneKind(s: seq<Lock>, o: nat, b: int, t: Type, t': Type)
    requires Sorted(s) && Covers(s, o, b, t) && Covers(s, o, b, t')
    ensures t == t'
  {
    var i :| 0 <= i < |s| && Hits(s[i], o, b, t);
    var j :| 0 <= j < |s| && Hits(s[j], o, b, t');
    assert i < j ==> Apart(s[i], s[j]);
    assert j < i ==> Apart(s[j], s[i]);
  }

  /** What the insertion of l has to achieve. */
  ghost predicate Set(s: seq<Lock>, s': seq<Lock>, l: Lock) {
    forall o, b, t {:trigger Covers(s', o, b, t)} | t != Unlock ::
      Covers(s', o, b, t) <==> if o == l.owner && l.start <= b <= l.end then t == l.kind else Covers(s, o, b, t)
  }

  /** Lock l is the new one, or part of one that was there: same owner, kind and process. */
  ghost predicate From(l: Lock, s: seq<Lock>, lock: Lock) {
    || (l.owner == lock.owner && l.kind == lock.kind && l.pid == lock.pid)
    || exists i {:trigger s[i]} :: 0 <= i < |s| && s[i].owner == l.owner && s[i].kind == l.kind && s[i].pid == l.pid
  }

  ghost predicate AllFrom(p: seq<Lock>, s: seq<Lock>, lock: Lock) {
    forall i {:trigger p[i]} | 0 <= i < |p| :: From(p[i], s, lock)
  }

  lemma FromStart(s: seq<Lock>, lock: Lock)
    ensures AllFrom(s, s, lock) && AllFrom([], s, lock)
  {
  }

  lemma FromJoin(p: seq<Lock>, q: seq<Lock>, s: seq<Lock>, lock: Lock)
    requires AllFrom(p, s, lock) && AllFrom(q, s, lock)
    ensures AllFrom(p + q, s, lock)
  {
    hide From;
  }

  lemma FromOne(p: seq<Lock>, l: Lock, s: seq<Lock>, lock: Lock)
    requires AllFrom(p, s, lock) && From(l, s, lock)
    ensures AllFrom(p + [l], s, lock)
  {
    hide From;
  }

  lemma FromFirst(l: Lock, q: seq<Lock>, s: seq<Lock>, lock: Lock)
    requires AllFrom(q, s, lock) && From(l, s, lock)
    ensures AllFrom([l] + q, s, lock)
  {
    hide From;
  }

  lemma FromHead(x: Lock, q: seq<Lock>, s: seq<Lock>, lock: Lock)
    requires AllFrom([x] + q, s, lock)
    ensures From(x, s, lock) && AllFrom(q, s, lock)
  {
    hide From;
    var r := [x] + q;
    assert r[0] == x;
    forall i {:trigger q[i]} | 0 <= i < |q|
      ensures From(q[i], s, lock)
    {
      assert q[i] == r[i + 1];
    }
  }

  lemma FromNew(l: Lock, s: seq<Lock>, lock: Lock)
    requires l.owner == lock.owner && l.kind == lock.kind && l.pid == lock.pid
    ensures From(l, s, lock)
  {
  }

  lemma FromTrim(l: Lock, a: int, b: int, s: seq<Lock>, lock: Lock)
    requires From(l, s, lock)
    ensures From(l.(start := a), s, lock) && From(l.(end := b), s, lock)
  {
  }

  /** In the middle: p is done, q is not looked at, and cur is the lock grown so far. */
  ghost predicate Middle(s: seq<Lock>, p: seq<Lock>, q: seq<Lock>, l: Lock, cur: Lock) {
    && Sorted(s) && Sorted(p + q) && LockOk(l) && LockOk(cur)
    && cur.owner == l.owner && cur.kind == l.kind && cur.start <= l.start && l.end <= cur.end
    && (forall i {:trigger p[i]} | 0 <= i < |p| :: Apart(p[i], cur))
    && (forall o, b, t {:trigger Covers(s, o, b, t)} {:trigger Covers(p, o, b, t)} | !(o == l.owner && cur.start <= b <= cur.end) ::
          Covers(s, o, b, t) <==> Covers(p, o, b, t) || Covers(q, o, b, t))
    && (forall b, t {:trigger Covers(s, l.owner, b, t)} | cur.start <= b <= cur.end && !(l.start <= b <= l.end) ::
          Covers(s, l.owner, b, t) <==> t == l.kind)
    && AllFrom(p, s, l) && AllFrom(q, s, l) && cur.pid == l.pid
  }

  lemma SortedPart(p: seq<Lock>, x: seq<Lock>, q: seq<Lock>)
    requires Sorted(p + x + q)
    ensures Sorted(p + q) && Sorted(p) && Sorted(q)
  {
    var s, s' := p + x + q, p + q;
    forall i {:trigger s'[i]} | 0 <= i < |s'|
      ensures s'[i] == s[if i < |p| then i else i + |x|]
    {
    }
    assert forall i {:trigger p[i]} | 0 <= i < |p| :: p[i] == s[i];
    assert forall i {:trigger q[i]} | 0 <= i < |q| :: q[i] == s[|p| + |x| + i];
  }

  /** A lock may stand between p and q when it is apart from each. */
  lemma SortedWith(p: seq<Lock>, k: Lock, q: seq<Lock>)
    requires Sorted(p + q) && LockOk(k) && k.kind != Unlock
    requires forall i {:trigger p[i]} | 0 <= i < |p| :: Apart(p[i], k)
    requires forall i {:trigger q[i]} | 0 <= i < |q| :: Apart(k, q[i])
    ensures Sorted(p + [k] + q)
  {
    var s, s' := p + q, p + [k] + q;
    assert forall i {:trigger s[i]} | 0 <= i < |s| :: s[i] == if i < |p| then p[i] else q[i - |p|];
    forall i {:trigger s'[i]} | 0 <= i < |s'|
      ensures s'[i] == if i < |p| then s[i] else if i == |p| then k else s[i - 1]
    {
    }
    forall i, j {:trigger s'[i], s'[j]} | 0 <= i < j < |s'|
      ensures Apart(s'[i], s'[j])
    {
      if i < |p| && j > |p| {
        assert Apart(s[i], s[j - 1]);
      } else if j < |p| {
        assert Apart(s[i], s[j]);
      } else if i > |p| {
        assert Apart(s[i - 1], s[j - 1]);
      } else if i == |p| {
        assert s[j - 1] == q[j - 1 - |p|];
      }
    }
  }

  lemma Begin(s: seq<Lock>, l: Lock)
    requires Sorted(s) && LockOk(l)
    ensures Middle(s, [], s, l, l)
  {
    assert [] + s == s;
    FromStart(s, l);
  }

  /** The end: cur is inserted unless it unlocks; what follows lies beyond it. */
  lemma Finish(s: seq<Lock>, p: seq<Lock>, q: seq<Lock>, l: Lock, cur: Lock)
    requires Middle(s, p, q, l, cur)
    requires forall i {:trigger q[i]} | 0 <= i < |q| :: Apart(cur, q[i])
    ensures var s' := if l.kind == Unlock then p + q else p + [cur] + q; Sorted(s') && Set(s, s', l) && AllFrom(s', s, l)
  {
    FromNew(cur, s, l);
    FromOne(p, cur, s, l);
    FromJoin(p + [cur], q, s, l);
    FromJoin(p, q, s, l);
    hide From, AllFrom;
    var s' := if l.kind == Unlock then p + q else p + [cur] + q;
    if l.kind != Unlock {
      SortedWith(p, cur, q);
    }
    forall o, b, t {:trigger Covers(s', o, b, t)} | t != Unlock
      ensures Covers(s', o, b, t) <==> if o == l.owner && l.start <= b <= l.end then t == l.kind else Covers(s, o, b, t)
    {
      if l.kind == Unlock {
        CoversConcat(p, q, o, b, t);
      } else {
        CoversCut(p, cur, q, o, b, t);
      }
      if o == l.owner && cur.start <= b <= cur.end {
        assert !Covers(p, o, b, t) && !Covers(q, o, b, t);
      }
    }
  }

  lemma Skip(s: seq<Lock>, p: seq<Lock>, x: Lock, q: seq<Lock>, l: Lock, cur: Lock)
    requires Middle(s, p, [x] + q, l, cur) && Apart(x, cur)
    ensures Middle(s, p + [x], q, l, cur)
  {
    assert p + ([x] + q) == p + [x] + q;
    Regroup(p, x, q);
    FromHead(x, q, s, l);
    FromOne(p, x, s, l);
    hide From, AllFrom;
  }

  lemma Regroup(p: seq<Lock>, x: Lock, q: seq<Lock>)
    ensures forall o, b, t {:trigger Covers(p + [x], o, b, t)} :: Covers(p + [x], o, b, t) <==> Covers(p, o, b, t) || Hits(x, o, b, t)
    ensures forall o, b, t {:trigger Covers([x] + q, o, b, t)} :: Covers([x] + q, o, b, t) <==> Hits(x, o, b, t) || Covers(q, o, b, t)
  {
    forall o, b, t
      ensures Covers(p + [x], o, b, t) <==> Covers(p, o, b, t) || Hits(x, o, b, t)
      ensures Covers([x] + q, o, b, t) <==> Hits(x, o, b, t) || Covers(q, o, b, t)
    {
      CoversConcat(p, [x], o, b, t);
      CoversConcat([x], q, o, b, t);
      assert [x][0] == x;
    }
  }

  /** Everything that follows a lock beyond cur is beyond cur. */
  lemma Beyond(p: seq<Lock>, x: Lock, q: seq<Lock>, cur: Lock)
    requires Sorted(p + [x] + q) && x.owner == cur.owner && Apart(cur, x)
    ensures forall i {:trigger ([x] + q)[i]} | 0 <= i < |[x] + q| :: Apart(cur, ([x] + q)[i])
  {
    var s, r := p + [x] + q, [x] + q;
    forall i {:trigger r[i]} | 0 <= i < |r|
      ensures Apart(cur, r[i])
    {
      assert r[i] == s[|p| + i] && s[|p|] == x;
      if i > 0 {
        assert Apart(s[|p|], s[|p| + i]);
      }
    }
  }

  /** A lock of the same kind already holds all of cur. */
  lemma Held(s: seq<Lock>, p: seq<Lock>, x: Lock, q: seq<Lock>, l: Lock, cur: Lock)
    requires Middle(s, p, [x] + q, l, cur) && x.owner == l.owner && x.kind == l.kind && x.start <= cur.start && cur.end <= x.end
    ensures Set(s, p + [x] + q, l) && AllFrom(p + [x] + q, s, l)
  {
    FromHead(x, q, s, l);
    FromOne(p, x, s, l);
    FromJoin(p + [x], q, s, l);
    hide From, AllFrom;
    var s' := p + [x] + q;
    assert p + ([x] + q) == s';
    forall o, b, t {:trigger Covers(s', o, b, t)} | t != Unlock
      ensures Covers(s', o, b, t) <==> if o == l.owner && l.start <= b <= l.end then t == l.kind else Covers(s, o, b, t)
    {
      CoversCut(p, x, q, o, b, t);
      CoversConcat(p, [x] + q, o, b, t);
      if o == l.owner && cur.start <= b <= cur.end {
        assert s'[|p|] == x && Hits(x, o, b, l.kind) && Covers(s', o, b, l.kind);
        if Covers(s', o, b, t) {
          OneKind(s', o, b, t, l.kind);
        }
      }
    }
  }

  /** A lock of the same kind that touches cur is taken into it. */
  lemma Merge(s: seq<Lock>, p: seq<Lock>, x: Lock, q: seq<Lock>, l: Lock, cur: Lock, cur': Lock)
    requires Middle(s, p, [x] + q, l, cur) && x.owner == l.owner && x.kind == l.kind
    requires cur.start - 1 <= x.end && x.start - 1 <= cur.end
    requires cur' == cur.(start := if x.start < cur.start then x.start else cur.start, end := if cur.end < x.end then x.end else cur.end)
    ensures Middle(s, p, q, l, cur')
  {
    FromHead(x, q, s, l);
    hide From, AllFrom;
    var s' := p + [x] + q;
    assert p + ([x] + q) == s';
    SortedPart(p, [x], q);
    Regroup(p, x, q);
    assert s'[|p|] == x;
    forall i {:trigger p[i]} | 0 <= i < |p|
      ensures Apart(p[i], cur')
    {
      assert p[i] == s'[i] && Apart(s'[i], s'[|p|]);
    }
    forall b, t {:trigger Covers(s, l.owner, b, t)} | cur'.start <= b <= cur'.end && !(l.start <= b <= l.end)
      ensures Covers(s, l.owner, b, t) <==> t == l.kind
    {
      if !(cur.start <= b <= cur.end) {
        assert Hits(x, l.owner, b, l.kind) && Covers(s, l.owner, b, l.kind);
        if Covers(s, l.owner, b, t) {
          OneKind(s, l.owner, b, t, l.kind);
        }
      }
    }
  }

  /** A lock of another kind inside cur is dropped. */
  lemma Drop(s: seq<Lock>, p: seq<Lock>, x: Lock, q: seq<Lock>, l: Lock, cur: Lock)
    requires Middle(s, p, [x] + q, l, cur) && x.owner == l.owner && cur.start <= x.start && x.end <= cur.end
    ensures Middle(s, p, q, l, cur)
  {
    FromHead(x, q, s, l);
    hide From, AllFrom;
    assert p + ([x] + q) == p + [x] + q;
    SortedPart(p, [x], q);
    Regroup(p, x, q);
  }

  /** A shorter lock in place of x. */
  lemma SortedTrim(p: seq<Lock>, x: Lock, x': Lock, q: seq<Lock>)
    requires Sorted(p + [x] + q) && LockOk(x') && x'.owner == x.owner && x'.kind == x.kind && x.start <= x'.start && x'.end <= x.end
    ensures Sorted(p + [x'] + q)
  {
    SortedPart(p, [x], q);
    var s := p + [x] + q;
    assert s[|p|] == x;
    assert forall i {:trigger p[i]} | 0 <= i < |p| :: p[i] == s[i] && Apart(s[i], s[|p|]);
    assert forall i {:trigger q[i]} | 0 <= i < |q| :: q[i] == s[|p| + 1 + i] && Apart(s[|p|], s[|p| + 1 + i]);
    SortedWith(p, x', q);
  }

  /** A lock of another kind that reaches into cur from below keeps what lies below. */
  lemma TrimTail(s: seq<Lock>, p: seq<Lock>, x: Lock, q: seq<Lock>, l: Lock, cur: Lock)
    requires Middle(s, p, [x] + q, l, cur) && x.owner == l.owner && x.kind != l.kind && x.start < cur.start <= x.end <= cur.end
    ensures Middle(s, p + [x.(end := cur.start - 1)], q, l, cur)
  {
    var x' := x.(end := cur.start - 1);
    FromHead(x, q, s, l);
    FromTrim(x, x.start, cur.start - 1, s, l);
    FromOne(p, x', s, l);
    hide From, AllFrom;
    assert p + ([x] + q) == p + [x] + q;
    assert x in [x] + q && LockOk((p + [x] + q)[|p|]);
    SortedTrim(p, x, x', q);
    Regroup(p, x, q);
    Regroup(p, x', q);
  }

  /** One that reaches out of cur at the end keeps what lies beyond. */
  lemma TrimHead(s: seq<Lock>, p: seq<Lock>, x: Lock, q: seq<Lock>, l: Lock, cur: Lock)
    requires Middle(s, p, [x] + q, l, cur) && x.owner == l.owner && x.kind != l.kind && cur.start <= x.start <= cur.end < x.end
    ensures Middle(s, p, [x.(start := cur.end + 1)] + q, l, cur)
  {
    var x' := x.(start := cur.end + 1);
    FromHead(x, q, s, l);
    FromTrim(x, cur.end + 1, x.end, s, l);
    FromFirst(x', q, s, l);
    hide From, AllFrom;
    assert p + ([x] + q) == p + [x] + q && p + ([x'] + q) == p + [x'] + q;
    assert LockOk((p + [x] + q)[|p|]);
    SortedTrim(p, x, x', q);
    Regroup(p, x, q);
    Regroup(p, x', q);
  }

  /** One that reaches out on both sides is split. */
  lemma Split(s: seq<Lock>, p: seq<Lock>, x: Lock, q: seq<Lock>, l: Lock, cur: Lock)
    requires Middle(s, p, [x] + q, l, cur) && x.owner == l.owner && x.kind != l.kind && x.start < cur.start && cur.end < x.end
    ensures Middle(s, p + [x.(end := cur.start - 1)], [x.(start := cur.end + 1)] + q, l, cur)
  {
    var x1, x2 := x.(end := cur.start - 1), x.(start := cur.end + 1);
    FromHead(x, q, s, l);
    FromTrim(x, cur.end + 1, cur.start - 1, s, l);
    FromOne(p, x1, s, l);
    FromFirst(x2, q, s, l);
    hide From, AllFrom;
    assert p + ([x] + q) == p + [x] + q;
    SplitSorted(p, x, x1, x2, q);
    assert p + [x1] + ([x2] + q) == p + [x1] + [x2] + q;
    Regroup(p, x, q);
    Regroup(p, x1, q);
    Regroup(p, x2, q);
  }

  lemma SplitSorted(p: seq<Lock>, x: Lock, x1: Lock, x2: Lock, q: seq<Lock>)
    requires Sorted(p + [x] + q) && x1 == x.(end := x1.end) && x2 == x.(start := x2.start)
    requires x.start <= x1.end && x1.end + 1 < x2.start <= x.end
    ensures Sorted(p + [x1] + [x2] + q)
  {
    var s := p + [x] + q;
    assert s[|p|] == x;
    SortedTrim(p, x, x1, q);
    assert forall i {:trigger p[i]} | 0 <= i < |p| :: p[i] == s[i] && Apart(s[i], s[|p|]);
    assert forall i {:trigger q[i]} | 0 <= i < |q| :: q[i] == s[|p| + 1 + i] && Apart(s[|p|], s[|p| + 1 + i]);
    SortedWith(p + [x1], x2, q);
  }

  const ENOLCK: int := -37

  /** A lock of another owner that overlaps, one of the two being a write lock. */
  predicate Conflicts(l: Lock, lock: Lock) {
    l.owner != lock.owner && lock.start <= l.end && l.start <= lock.end && (l.kind == Write || lock.kind == Write)
  }

  /** No byte is write-locked by one owner and locked by another. */
  ghost predicate Exclusive(s: seq<Lock>) {
    forall o, o', b, t {:trigger Covers(s, o, b, Write), Covers(s, o', b, t)} | Covers(s, o, b, Write) && Covers(s, o', b, t) && t != Unlock :: o == o'
  }

  /** locks_conflict finds nothing exactly when no byte of the lock is in conflict. */
  lemma ConflictBytes(s: seq<Lock>, lock: Lock)
    requires Sorted(s) && LockOk(lock)
    ensures (exists i {:trigger s[i]} :: 0 <= i < |s| && Conflicts(s[i], lock)) <==>
      exists o, b, t {:trigger Covers(s, o, b, t)} :: o != lock.owner && lock.start <= b <= lock.end && Covers(s, o, b, t) && (t == Write || lock.kind == Write)
  {
    if i :| 0 <= i < |s| && Conflicts(s[i], lock) {
      var b := if s[i].start < lock.start then lock.start else s[i].start;
      assert Hits(s[i], s[i].owner, b, s[i].kind);
      assert Covers(s, s[i].owner, b, s[i].kind);
    }
    if o, b, t :| o != lock.owner && lock.start <= b <= lock.end && Covers(s, o, b, t) && (t == Write || lock.kind == Write) {
      var i :| 0 <= i < |s| && Hits(s[i], o, b, t);
      assert Conflicts(s[i], lock);
    }
  }

  /** An insertion that meets no conflict, or unlocks, keeps write locks exclusive. */
  lemma InsertExclusive(s: seq<Lock>, s': seq<Lock>, lock: Lock)
    requires Sorted(s) && LockOk(lock) && Exclusive(s) && Set(s, s', lock)
    requires lock.kind == Unlock || forall i {:trigger s[i]} | 0 <= i < |s| :: !Conflicts(s[i], lock)
    ensures Exclusive(s')
  {
    ConflictBytes(s, lock);
    forall o, o', b, t {:trigger Covers(s', o, b, Write), Covers(s', o', b, t)} | Covers(s', o, b, Write) && Covers(s', o', b, t) && t != Unlock
      ensures o == o'
    {
      if o != lock.owner || !(lock.start <= b <= lock.end) {
        assert Covers(s, o, b, Write);
      }
      if o' != lock.owner || !(lock.start <= b <= lock.end) {
        assert Covers(s, o', b, t);
      }
    }
  }

  /** When each owner is one process, every lock tells it: what F_GETLK answers with. */
  lemma OneProcess(p: seq<Lock>, s: seq<Lock>, lock: Lock, pids: map<nat, int>)
    requires AllFrom(p, s, lock) && lock.owner in pids && lock.pid == pids[lock.owner]
    requires forall i {:trigger s[i]} | 0 <= i < |s| :: s[i].owner in pids && s[i].pid == pids[s[i].owner]
    ensures forall i {:trigger p[i]} | 0 <= i < |p| :: p[i].owner in pids && p[i].pid == pids[p[i].owner]
  {
  }

  class Node {
    var locks: seq<Lock>

    method LocksConflict(lock: Lock) returns (i: int)
      ensures i < 0 ==> forall j {:trigger locks[j]} | 0 <= j < |locks| :: !Conflicts(locks[j], lock)
      ensures i >= 0 ==> i < |locks| && Conflicts(locks[i], lock) && forall j {:trigger locks[j]} | 0 <= j < i :: !Conflicts(locks[j], lock)
    {
      i := 0;
      while i < |locks|
        invariant 0 <= i <= |locks| && forall j {:trigger locks[j]} | 0 <= j < i :: !Conflicts(locks[j], lock)
      {
        var l := locks[i];
        if l.owner != lock.owner && lock.start <= l.end && l.start <= lock.end && (l.kind == Write || lock.kind == Write) {
          return;
        }
        i := i + 1;
      }
      i := -1;
    }

    /** locks_insert; room tells whether both new list elements can be allocated. */
    method LocksInsert(lock: Lock, room: bool) returns (r: int)
      requires Sorted(locks) && LockOk(lock)
      modifies this
      ensures Sorted(locks)
      ensures r == 0 ==> Set(old(locks), locks, lock) && AllFrom(locks, old(locks), lock)
      ensures r != 0 ==> r == ENOLCK && locks == old(locks)
      ensures r == 0 <==> room || (lock.kind == Unlock && lock.start == 0 && lock.end == OFFSET_MAX)
    {
      var spare := false;
      if lock.kind != Unlock || lock.start != 0 || lock.end != OFFSET_MAX {
        if !room {
          return ENOLCK;
        }
        spare := true;
      }
      ghost var s, all := locks, spare;
      // The cursor cuts the list into what it has passed and what is ahead.
      var passed, ahead, cur := [], locks, lock;
      Begin(s, lock);
      hide Middle, Sorted, Set, Apart, AllFrom;
      while ahead != []
        invariant Middle(s, passed, ahead, lock, cur)
        invariant cur.owner == lock.owner && cur.kind == lock.kind && cur.start <= lock.start && lock.end <= cur.end
        invariant !spare && all ==> ahead != [] && ahead[0].owner == lock.owner && ahead[0].kind != lock.kind && cur.end < ahead[0].start
        invariant !all ==> !spare && cur.start <= 0 && lock.kind == Unlock
        decreases |ahead|, spare
      {
        var l, q := ahead[0], ahead[1..];
        assert ahead == [l] + q;
        LockFacts(s, passed, l, q, lock, cur);
        if l.owner != lock.owner {
          Elsewhere(l, cur);
          Skip(s, passed, l, q, lock, cur);
          passed, ahead := passed + [l], q;
        } else if lock.kind == l.kind {
          if l.end < cur.start - 1 {
            Before(l, cur);
            Skip(s, passed, l, q, lock, cur);
            passed, ahead := passed + [l], q;
          } else if cur.end < l.start - 1 {
            break;
          } else if l.start <= cur.start && cur.end <= l.end {
            Held(s, passed, l, q, lock, cur);
            StillSorted(s, passed, l, q, lock, cur);
            locks := passed + [l] + q;
            return 0;
          } else {
            ghost var was := cur;
            if l.start < cur.start {
              cur := cur.(start := l.start);
            }
            if cur.end < l.end {
              cur := cur.(end := l.end);
            }
            Merge(s, passed, l, q, lock, was, cur);
            ahead := q;
          }
        } else {
          if l.end < cur.start {
            Before(l, cur);
            Skip(s, passed, l, q, lock, cur);
            passed, ahead := passed + [l], q;
          } else if cur.end < l.start {
            break;
          } else if cur.start <= l.start && l.end <= cur.end {
            Drop(s, passed, l, q, lock, cur);
            ahead := q;
          } else if l.end <= cur.end {
            TrimTail(s, passed, l, q, lock, cur);
            passed, ahead := passed + [l.(end := cur.start - 1)], q;
          } else if cur.start <= l.start {
            TrimHead(s, passed, l, q, lock, cur);
            ahead := [l.(start := cur.end + 1)] + q;
            break;
          } else {
            assert spare;
            Split(s, passed, l, q, lock, cur);
            passed, ahead := passed + [l.(end := cur.start - 1)], [l.(start := cur.end + 1)] + q;
            spare := false;
          }
        }
      }
      Rest(s, passed, ahead, lock, cur);
      Finish(s, passed, ahead, lock, cur);
      locks := if lock.kind != Unlock then passed + [cur] + ahead else passed + ahead;
      r := 0;
    }
  }

  lemma LockFacts(s: seq<Lock>, p: seq<Lock>, x: Lock, q: seq<Lock>, l: Lock, cur: Lock)
    requires Middle(s, p, [x] + q, l, cur)
    ensures x.kind != Unlock && 0 <= x.start <= x.end
  {
    assert (p + ([x] + q))[|p|] == x;
  }

  lemma Elsewhere(x: Lock, cur: Lock)
    requires x.owner != cur.owner
    ensures Apart(x, cur)
  {
  }

  lemma Before(x: Lock, cur: Lock)
    requires if x.kind == cur.kind then x.end < cur.start - 1 else x.end < cur.start
    ensures Apart(x, cur)
  {
  }

  lemma StillSorted(s: seq<Lock>, p: seq<Lock>, x: Lock, q: seq<Lock>, l: Lock, cur: Lock)
    requires Middle(s, p, [x] + q, l, cur)
    ensures Sorted(p + [x] + q)
  {
    assert p + ([x] + q) == p + [x] + q;
  }

  /** Where the loop stops nothing more is to be done. */
  lemma Rest(s: seq<Lock>, p: seq<Lock>, q: seq<Lock>, l: Lock, cur: Lock)
    requires Middle(s, p, q, l, cur)
    requires q != [] ==> q[0].owner == l.owner && (if q[0].kind == l.kind then cur.end < q[0].start - 1 else cur.end < q[0].start)
    ensures forall j {:trigger q[j]} | 0 <= j < |q| :: Apart(cur, q[j])
  {
    if q != [] {
      assert q == [q[0]] + q[1..] && p + q == p + [q[0]] + q[1..];
      Beyond(p, q[0], q[1..], cur);
    }
  }

  /** Any run in which locks are set only after locks_conflict found nothing. */
  method Run(node: Node, requests: seq<(Lock, bool)>)
    requires Sorted(node.locks) && Exclusive(node.locks)
    requires forall i {:trigger requests[i]} | 0 <= i < |requests| :: LockOk(requests[i].0)
    modifies node
    ensures Sorted(node.locks) && Exclusive(node.locks)
  {
    for i := 0 to |requests|
      invariant Sorted(node.locks) && Exclusive(node.locks)
    {
      ghost var s := node.locks;
      var lock := requests[i].0;
      var c := node.LocksConflict(lock);
      if lock.kind == Unlock || c < 0 {
        var r := node.LocksInsert(lock, requests[i].1);
        if r == 0 {
          InsertExclusive(s, node.locks, lock);
        }
      }
    }
  }
}
