/**
 * The tree locks of the node layer: who holds what, and how a node's treelock field says so.
 *
 * A request locks the path from a directory up to the root for reading and, for some requests, one entry
 * of that directory for writing. The field is WRITE for a writer, k for k readers, and WAIT_OFFSET + k for
 * k readers while a writer waits.
 */
module TreeLockSpec {
  const ROOT: nat := 1
  const WRITE: int := -1
  const WAIT_OFFSET: int := -0x8000_0000
  const EAGAIN: int := -11
  const ENOENT: int := -2

  /** The node tree: place gives parent and name of a linked node; the root and unlinked nodes have none. */
  datatype Shape = Shape(nodes: set<nat>, place: map<nat, (nat, string)>, rank: map<nat, nat>)

  ghost predicate ShapeOk(sh: Shape) {
    && ROOT in sh.nodes && 0 !in sh.nodes && ROOT !in sh.place && sh.nodes <= sh.rank.Keys
    && (forall n {:trigger sh.place[n]} | n in sh.place ::
          n in sh.nodes && sh.place[n].0 in sh.nodes && sh.rank[sh.place[n].0] < sh.rank[n])
    && (forall n, m {:trigger sh.place[n], sh.place[m]} | n in sh.place && m in sh.place && sh.place[n] == sh.place[m] :: n == m)
  }

  /** Node n leads up to the root. */
  ghost predicate Linked(sh: Shape, n: nat)
    requires ShapeOk(sh) && n in sh.nodes
    decreases sh.rank[n]
  {
    n == ROOT || (n in sh.place && Linked(sh, sh.place[n].0))
  }

  /** The nodes from n up to, and without, the top. */
  ghost function Chain(sh: Shape, n: nat): seq<nat>
    requires ShapeOk(sh) && n in sh.nodes
    decreases sh.rank[n]
  {
    if n !in sh.place then [] else [n] + Chain(sh, sh.place[n].0)
  }

  /** What locking the path from n for reading comes to: the first obstacle on the way up decides. */
  ghost function Outcome(sh: Shape, tl: map<nat, int>, n: nat): int
    requires ShapeOk(sh) && n in sh.nodes && tl.Keys == sh.nodes
    decreases sh.rank[n]
  {
    if n == ROOT then 0
    else if n !in sh.place then ENOENT
    else if tl[n] < 0 then EAGAIN
    else Outcome(sh, tl, sh.place[n].0)
  }

  /** Request id and which of its two paths. */
  type Key = (nat, bool)

  /** One path locked: the directory, the entry locked for writing or 0, and the nodes locked for reading. */
  datatype Hold = Hold(dir: nat, w: nat, path: seq<nat>)

  type Holds = map<Key, Hold>

  ghost function Readers(holds: Holds, n: nat): set<Key> {
    set h | h in holds && n in holds[h].path
  }

  ghost function Writers(holds: Holds, n: nat): set<Key> {
    set h | h in holds && holds[h].w == n
  }

  /** The field's value for a number of writers and readers. */
  predicate Encodes(v: int, writers: nat, readers: nat) {
    || (writers == 1 && readers == 0 && v == WRITE)
    || (writers == 0 && v == readers)
    || (writers == 0 && readers > 0 && v == WAIT_OFFSET + readers)
  }

  ghost predicate Exact(tl: map<nat, int>, holds: Holds) {
    && |holds| < 0x7fff_ffff
    && forall n {:trigger tl[n]} | n in tl :: Encodes(tl[n], |Writers(holds, n)|, |Readers(holds, n)|)
  }

  /** Each hold is the present path of its directory; what it locked for writing is unlinked or still beside a locked path. */
  ghost predicate HoldOk(sh: Shape, holds: Holds, h: Key)
    requires ShapeOk(sh) && h in holds
  {
    var x := holds[h];
    && x.dir in sh.nodes && Linked(sh, x.dir) && x.path == Chain(sh, x.dir)
    && (x.w != 0 ==> x.w in sh.nodes && x.w != ROOT)
    && (x.w in sh.place ==> sh.place[x.w].0 == x.dir || (!h.1 && (h.0, true) in holds && sh.place[x.w].0 == holds[(h.0, true)].dir))
  }

  ghost predicate HoldsOk(sh: Shape, holds: Holds)
    requires ShapeOk(sh)
  {
    forall h {:trigger HoldOk(sh, holds, h)} | h in holds :: HoldOk(sh, holds, h)
  }

  /** The field after locking and after unlocking a path. */
  function Grab(tl: map<nat, int>, w: nat, path: seq<nat>): map<nat, int> {
    map n | n in tl :: if n == w then WRITE else if n in path then tl[n] + 1 else tl[n]
  }

  function Less(v: int): int {
    if v - 1 == WAIT_OFFSET then 0 else v - 1
  }

  function Drop(tl: map<nat, int>, w: nat, path: seq<nat>): map<nat, int> {
    map n | n in tl :: if n == w then 0 else if n in path then Less(tl[n]) else tl[n]
  }

  /** The field after a writer was turned away from w. */
  function Mark(tl: map<nat, int>, w: nat): map<nat, int> {
    if w in tl && tl[w] > 0 then tl[w := tl[w] + WAIT_OFFSET] else tl
  }

  lemma SubsetSize<T>(a: set<T>, b: set<T>)
    requires a <= b
    ensures |a| <= |b|
  {
    assert b == a + (b - a);
  }

  lemma FewReaders(holds: Holds, n: nat)
    ensures |Readers(holds, n)| <= |holds|
  {
    SubsetSize(Readers(holds, n), holds.Keys);
    assert |holds.Keys| == |holds|;
  }

  lemma CountGrab(holds: Holds, h: Key, x: Hold, n: nat)
    requires h !in holds
    ensures |Readers(holds[h := x], n)| == |Readers(holds, n)| + if n in x.path then 1 else 0
    ensures |Writers(holds[h := x], n)| == |Writers(holds, n)| + if n == x.w then 1 else 0
  {
    OneMore(h, Readers(holds, n), Readers(holds[h := x], n), n in x.path);
    OneMore(h, Writers(holds, n), Writers(holds[h := x], n), n == x.w);
  }

  lemma OneMore(h: Key, a: set<Key>, a': set<Key>, more: bool)
    requires h !in a && (h in a' <==> more)
    requires forall k | k != h :: k in a' <==> k in a
    ensures |a'| == |a| + if more then 1 else 0
  {
    if more {
      assert a' == a + {h};
    } else {
      assert a' == a;
    }
  }

  lemma CountDrop(holds: Holds, h: Key, n: nat)
    requires h in holds
    ensures |Readers(holds - {h}, n)| == |Readers(holds, n)| - if n in holds[h].path then 1 else 0
    ensures |Writers(holds - {h}, n)| == |Writers(holds, n)| - if n == holds[h].w then 1 else 0
  {
    var rest := holds - {h};
    assert rest[h := holds[h]] == holds;
    CountGrab(rest, h, holds[h], n);
  }

  /** A free path locked by one more request is encoded exactly. */
  lemma GrabExact(tl: map<nat, int>, holds: Holds, h: Key, x: Hold)
    requires Exact(tl, holds) && h !in holds && |holds| + 1 < 0x7fff_ffff
    requires forall n {:trigger n in x.path} | n in x.path :: n in tl ==> tl[n] >= 0
    requires x.w != 0 ==> x.w in tl && tl[x.w] == 0 && x.w !in x.path
    requires 0 !in tl
    ensures Exact(Grab(tl, x.w, x.path), holds[h := x])
  {
    var tl', holds' := Grab(tl, x.w, x.path), holds[h := x];
    assert |holds'| == |holds| + 1;
    forall n {:trigger tl'[n]} | n in tl'
      ensures Encodes(tl'[n], |Writers(holds', n)|, |Readers(holds', n)|)
    {
      FewReaders(holds, n);
      assert Encodes(tl[n], |Writers(holds, n)|, |Readers(holds, n)|);
      CountGrab(holds, h, x, n);
      hide Readers, Writers;
    }
  }

  /** The checks unlock_path makes hold. */
  lemma HeldValues(tl: map<nat, int>, holds: Holds, h: Key, n: nat)
    requires Exact(tl, holds) && h in holds && n in tl
    ensures n == holds[h].w ==> tl[n] == WRITE && n !in holds[h].path
    ensures n in holds[h].path ==> tl[n] != 0 && tl[n] != WAIT_OFFSET && tl[n] != WRITE
  {
    FewReaders(holds, n);
    assert Encodes(tl[n], |Writers(holds, n)|, |Readers(holds, n)|);
    if n == holds[h].w {
      assert h in Writers(holds, n);
    }
    if n in holds[h].path {
      assert h in Readers(holds, n);
    }
  }

  /** Unlocking a path is encoded exactly. */
  lemma DropExact(tl: map<nat, int>, holds: Holds, h: Key)
    requires Exact(tl, holds) && h in holds
    ensures Exact(Drop(tl, holds[h].w, holds[h].path), holds - {h})
  {
    var x := holds[h];
    var tl', holds' := Drop(tl, x.w, x.path), holds - {h};
    assert holds'.Keys == holds.Keys - {h};
    assert |holds'| == |holds'.Keys| && |holds| == |holds.Keys|;
    forall n {:trigger tl'[n]} | n in tl'
      ensures Encodes(tl'[n], |Writers(holds', n)|, |Readers(holds', n)|)
    {
      FewReaders(holds, n);
      HeldValues(tl, holds, h, n);
      assert Encodes(tl[n], |Writers(holds, n)|, |Readers(holds, n)|);
      CountDrop(holds, h, n);
      hide Readers, Writers;
    }
  }

  lemma MarkExact(tl: map<nat, int>, holds: Holds, w: nat)
    requires Exact(tl, holds)
    ensures Exact(Mark(tl, w), holds)
  {
    var tl' := Mark(tl, w);
    forall n {:trigger tl'[n]} | n in tl'
      ensures Encodes(tl'[n], |Writers(holds, n)|, |Readers(holds, n)|)
    {
      FewReaders(holds, n);
      assert Encodes(tl[n], |Writers(holds, n)|, |Readers(holds, n)|);
    }
  }

  /** What the field says, for every node and every reachable state. */
  lemma ExactHolders(tl: map<nat, int>, holds: Holds, n: nat)
    requires Exact(tl, holds) && n in tl
    ensures tl[n] == WRITE <==> |Writers(holds, n)| == 1
    ensures |Writers(holds, n)| <= 1
    ensures Writers(holds, n) == {} || Readers(holds, n) == {}
    ensures tl[n] >= 0 ==> |Readers(holds, n)| == tl[n]
    ensures tl[n] < WRITE ==> |Readers(holds, n)| == tl[n] - WAIT_OFFSET > 0
  {
    FewReaders(holds, n);
    assert Encodes(tl[n], |Writers(holds, n)|, |Readers(holds, n)|);
  }

  /** Ranks fall along a chain, so it visits no node twice. */
  lemma {:induction false} ChainRank(sh: Shape, n: nat, m: nat)
    requires ShapeOk(sh) && n in sh.nodes && m in Chain(sh, n)
    ensures m in sh.place && m in sh.nodes && sh.rank[m] <= sh.rank[n]
    decreases sh.rank[n]
  {
    if n in sh.place && m != n {
      ChainRank(sh, sh.place[n].0, m);
    }
  }

  /** Every node on the chain of a linked node is linked. */
  lemma {:induction false} ChainLinked(sh: Shape, n: nat, m: nat)
    requires ShapeOk(sh) && n in sh.nodes && m in Chain(sh, n)
    ensures m in sh.nodes && (Linked(sh, n) ==> Linked(sh, m))
    decreases sh.rank[n]
  {
    if n in sh.place && m != n {
      ChainLinked(sh, sh.place[n].0, m);
    }
  }

  /** What is locked and still has a place is linked. */
  lemma HeldLinked(sh: Shape, holds: Holds, h: Key, n: nat)
    requires ShapeOk(sh) && HoldsOk(sh, holds) && h in holds && n in sh.place
    requires n in holds[h].path || n == holds[h].w
    ensures Linked(sh, n)
  {
    assert HoldOk(sh, holds, h);
    if n in holds[h].path {
      ChainLinked(sh, holds[h].dir, n);
    } else if sh.place[n].0 != holds[h].dir {
      assert HoldOk(sh, holds, (h.0, true));
    }
  }

  /** No node that is cut off from the root, other than the top one, is locked. */
  lemma CutFree(sh: Shape, tl: map<nat, int>, holds: Holds, n: nat)
    requires ShapeOk(sh) && tl.Keys == sh.nodes && Exact(tl, holds) && HoldsOk(sh, holds)
    requires n in sh.place && !Linked(sh, n)
    ensures tl[n] == 0
  {
    assert Encodes(tl[n], |Writers(holds, n)|, |Readers(holds, n)|);
    forall h | h in holds
      ensures h !in Readers(holds, n) && h !in Writers(holds, n)
    {
      if n in holds[h].path || n == holds[h].w {
        HeldLinked(sh, holds, h, n);
      }
    }
    assert Readers(holds, n) == {} && Writers(holds, n) == {};
  }

  /** Locking from a node fails for good exactly when the node is cut off from the root. */
  lemma {:induction false} CutOutcome(sh: Shape, tl: map<nat, int>, holds: Holds, n: nat)
    requires ShapeOk(sh) && tl.Keys == sh.nodes && Exact(tl, holds) && HoldsOk(sh, holds) && n in sh.nodes
    ensures Outcome(sh, tl, n) == ENOENT <==> !Linked(sh, n)
    decreases sh.rank[n]
  {
    if n in sh.place {
      if !Linked(sh, n) {
        CutFree(sh, tl, holds, n);
      }
      CutOutcome(sh, tl, holds, sh.place[n].0);
    }
  }

  // Changes of the tree: each touches the place of one node e.

  function Unlink(sh: Shape, e: nat): Shape {
    sh.(place := sh.place - {e})
  }

  /** Node e moves below d; the ranks of what lies below e rise with it. */
  ghost function Relink(sh: Shape, e: nat, d: nat, name: string): Shape
    requires ShapeOk(sh) && e in sh.nodes && d in sh.nodes
  {
    Shape(sh.nodes, sh.place[e := (d, name)],
          map n | n in sh.nodes :: if e in Chain(sh, n) then sh.rank[n] + sh.rank[d] + 1 else sh.rank[n])
  }

  function NewNode(sh: Shape, e: nat, d: nat, name: string): Shape
    requires d in sh.rank
  {
    Shape(sh.nodes + {e}, sh.place[e := (d, name)], sh.rank[e := sh.rank[d] + 1])
  }

  function Delete(sh: Shape, e: nat): Shape {
    Shape(sh.nodes - {e}, sh.place - {e}, sh.rank)
  }

  /** From sh to sh' only the place of e changes. */
  ghost predicate OnlyPlace(sh: Shape, sh': Shape, e: nat) {
    && ShapeOk(sh) && ShapeOk(sh')
    && (forall m {:trigger m in sh'.nodes} {:trigger m in sh.nodes} | m != e :: m in sh'.nodes <==> m in sh.nodes)
    && (forall m {:trigger sh'.place[m]} {:trigger sh.place[m]} {:trigger m in sh'.place} {:trigger m in sh.place} | m != e ::
          if m in sh.place then m in sh'.place && sh'.place[m].0 == sh.place[m].0 else m !in sh'.place)
    && (e in sh.place || forall m {:trigger sh.place[m]} | m in sh.place :: sh.place[m].0 != e)
  }

  /** Such a change does not reach a node whose way up avoids e. */
  lemma {:induction false} ChainKept(sh: Shape, sh': Shape, e: nat, n: nat)
    requires OnlyPlace(sh, sh', e) && n in sh.nodes && n != e && e !in Chain(sh, n)
    ensures n in sh'.nodes && Chain(sh', n) == Chain(sh, n) && Linked(sh', n) == Linked(sh, n)
    decreases sh.rank[n]
  {
    if n in sh.place {
      var p := sh.place[n].0;
      assert Chain(sh, n) == [n] + Chain(sh, p);
      assert p in sh.place ==> Chain(sh, p)[0] == p;
      assert p != e;
      ChainKept(sh, sh', e, p);
    }
  }

  /** A node below a linked node is linked. */
  lemma {:induction false} BelowLinked(sh: Shape, n: nat, e: nat)
    requires ShapeOk(sh) && n in sh.nodes && e in Chain(sh, n) && e in sh.nodes && Linked(sh, e)
    ensures Linked(sh, n)
    decreases sh.rank[n]
  {
    if n in sh.place && n != e {
      BelowLinked(sh, sh.place[n].0, e);
    }
  }

  lemma RelinkOk(sh: Shape, e: nat, d: nat, name: string)
    requires ShapeOk(sh) && e in sh.place && d in sh.nodes && e !in Chain(sh, d)
    requires forall m {:trigger sh.place[m]} | m in sh.place && m != e :: sh.place[m] != (d, name)
    ensures ShapeOk(Relink(sh, e, d, name)) && OnlyPlace(sh, Relink(sh, e, d, name), e)
  {
    var sh' := Relink(sh, e, d, name);
    forall n {:trigger sh'.place[n]} | n in sh'.place
      ensures n in sh'.nodes && sh'.place[n].0 in sh'.nodes && sh'.rank[sh'.place[n].0] < sh'.rank[n]
    {
      if n != e {
        var p := sh.place[n].0;
        assert Chain(sh, n) == [n] + Chain(sh, p);
      } else {
        assert e in Chain(sh, e);
      }
    }
  }

  lemma UnlinkOk(sh: Shape, e: nat)
    requires ShapeOk(sh) && e in sh.place
    ensures ShapeOk(Unlink(sh, e)) && OnlyPlace(sh, Unlink(sh, e), e)
  {
  }

  /** Unlinking cuts nodes off, it never links one. */
  lemma {:induction false} UnlinkCuts(sh: Shape, e: nat, n: nat)
    requires ShapeOk(sh) && e in sh.place && n in sh.nodes && ShapeOk(Unlink(sh, e))
    ensures Linked(Unlink(sh, e), n) ==> Linked(sh, n)
    decreases sh.rank[n]
  {
    if n in sh.place {
      UnlinkCuts(sh, e, sh.place[n].0);
    }
  }

  lemma NewNodeOk(sh: Shape, e: nat, d: nat, name: string)
    requires ShapeOk(sh) && e !in sh.nodes && e != 0 && d in sh.nodes
    requires forall m {:trigger sh.place[m]} | m in sh.place :: sh.place[m] != (d, name)
    ensures ShapeOk(NewNode(sh, e, d, name)) && OnlyPlace(sh, NewNode(sh, e, d, name), e)
  {
  }

  lemma DeleteOk(sh: Shape, e: nat)
    requires ShapeOk(sh) && e in sh.nodes && e != ROOT
    requires forall m {:trigger sh.place[m]} | m in sh.place :: sh.place[m].0 != e
    ensures ShapeOk(Delete(sh, e)) && OnlyPlace(sh, Delete(sh, e), e)
  {
  }

  /** No chain leads through a node without children other than its own. */
  lemma {:induction false} ChildlessElsewhere(sh: Shape, n: nat, e: nat)
    requires ShapeOk(sh) && n in sh.nodes && n != e
    requires forall m {:trigger sh.place[m]} | m in sh.place :: sh.place[m].0 != e
    ensures e !in Chain(sh, n)
    decreases sh.rank[n]
  {
    if n in sh.place {
      ChildlessElsewhere(sh, sh.place[n].0, e);
    }
  }

  /** Holds stay right when only the place of e changes, e is on no locked path, and e was locked beside one if it moved. */
  lemma HoldsKept(sh: Shape, sh': Shape, e: nat, holds: Holds)
    requires OnlyPlace(sh, sh', e) && HoldsOk(sh, holds)
    requires forall h {:trigger holds[h]} | h in holds :: e !in holds[h].path && holds[h].dir != e
    requires forall h {:trigger holds[h]} | h in holds && holds[h].w == e ::
      e in sh'.nodes &&
      (e in sh'.place ==> sh'.place[e].0 == holds[h].dir || (!h.1 && (h.0, true) in holds && sh'.place[e].0 == holds[(h.0, true)].dir))
    ensures HoldsOk(sh', holds)
  {
    forall h {:trigger HoldOk(sh', holds, h)} | h in holds
      ensures HoldOk(sh', holds, h)
    {
      assert HoldOk(sh, holds, h);
      ChainKept(sh, sh', e, holds[h].dir);
    }
  }
}

/** Locking and unlocking paths, as single requests do it. */
module TreeLockPaths {
  import opened TreeLockSpec
  import opened Sequences

  /** Going up from n along path leads to stop. */
  ghost predicate Climb(place: map<nat, (nat, string)>, n: nat, path: seq<nat>, stop: nat)
    decreases path
  {
    if path == [] then n == stop
    else path[0] == n && n != stop && n in place && Climb(place, place[n].0, path[1..], stop)
  }

  lemma {:induction false} ClimbChain(sh: Shape, n: nat)
    requires ShapeOk(sh) && n in sh.nodes && Linked(sh, n)
    ensures Climb(sh.place, n, Chain(sh, n), ROOT)
    decreases sh.rank[n]
  {
    if n in sh.place {
      ClimbChain(sh, sh.place[n].0);
      assert Chain(sh, n)[1..] == Chain(sh, sh.place[n].0);
    }
  }

  lemma {:induction false} ClimbOn(sh: Shape, n: nat, path: seq<nat>, stop: nat)
    requires ShapeOk(sh) && Climb(sh.place, n, path, stop) && stop in sh.place && stop !in path && n in sh.nodes
    requires sh.place[stop].0 !in path && sh.place[stop].0 != stop
    ensures Climb(sh.place, n, path + [stop], sh.place[stop].0)
    decreases path
  {
    if path != [] {
      assert (path + [stop])[1..] == path[1..] + [stop];
      ClimbOn(sh, sh.place[n].0, path[1..], stop);
    }
  }

  lemma {:induction false} ChainDistinct(sh: Shape, n: nat)
    requires ShapeOk(sh) && n in sh.nodes
    ensures Distinct(Chain(sh, n))
    decreases sh.rank[n]
  {
    if n in sh.place {
      var p := sh.place[n].0;
      ChainDistinct(sh, p);
      if n in Chain(sh, p) {
        ChainRank(sh, p, n);
      }
    }
  }

  lemma DropStep(tl: map<nat, int>, path: seq<nat>, i: nat)
    requires i < |path| && Distinct(path) && path[i] in tl
    ensures path[i] !in path[..i] && Drop(tl, 0, path[..i])[path[i]] == (if path[i] == 0 then 0 else tl[path[i]])
    ensures path[i] != 0 ==> Drop(tl, 0, path[..i])[path[i] := Less(tl[path[i]])] == Drop(tl, 0, path[..i + 1])
  {
    assert path[..i + 1] == path[..i] + [path[i]];
  }

  /** One step of unlock_path. */
  lemma UnlockStart(sh: Shape, tl: map<nat, int>, path: seq<nat>)
    requires ShapeOk(sh) && tl.Keys == sh.nodes
    ensures ROOT !in sh.place && 0 !in sh.place && path[0..] == path && Drop(tl, 0, path[..0]) == tl
  {
    assert path[0..] == path && path[..0] == [];
    assert Drop(tl, 0, []) == tl;
  }

  lemma UnlockStep(sh: Shape, tl: map<nat, int>, path: seq<nat>, i: nat, node: nat, end: nat)
    requires ShapeOk(sh) && tl.Keys == sh.nodes && i <= |path| && Distinct(path) && node in tl
    requires Climb(sh.place, node, path[i..], if end == 0 then ROOT else end) && node != end && node != ROOT
    ensures i < |path| && path[i] == node && node in sh.place && sh.place[node].0 in tl
    ensures Climb(sh.place, sh.place[node].0, path[i + 1..], if end == 0 then ROOT else end)
    ensures Drop(tl, 0, path[..i])[node] == tl[node] && Drop(tl, 0, path[..i])[node := Less(tl[node])] == Drop(tl, 0, path[..i + 1])
  {
    assert path[i..][1..] == path[i + 1..];
    hide Drop;
    DropStep(tl, path, i);
  }

  lemma UnlockEnd(place: map<nat, (nat, string)>, node: nat, path: seq<nat>, i: nat, end: nat)
    requires i <= |path| && ROOT !in place && (node == end || node == ROOT)
    requires Climb(place, node, path[i..], if end == 0 then ROOT else end) && (end == 0 ==> 0 !in place)
    ensures path[..i] == path
  {
  }

  lemma DropEnds(tl: map<nat, int>, w: nat, path: seq<nat>)
    requires w != 0 ==> w in tl && w !in path
    requires 0 !in tl
    ensures Drop(if w != 0 then tl[w := 0] else tl, 0, []) == if w != 0 then tl[w := 0] else tl
    ensures Drop(if w != 0 then tl[w := 0] else tl, 0, path) == Drop(tl, w, path)
  {
  }

  lemma GrabStep(tl: map<nat, int>, w: nat, path: seq<nat>, n: nat)
    requires n in tl && n !in path && n != w
    ensures Grab(tl, w, path)[n] == tl[n]
    ensures Grab(tl, w, path)[n := tl[n] + 1] == Grab(tl, w, path + [n])
  {
  }

  /** Rolling back restores every field. */
  lemma GrabDrop(tl: map<nat, int>, w: nat, path: seq<nat>)
    requires forall n {:trigger n in path} | n in path && n in tl :: tl[n] >= 0
    requires w in tl ==> tl[w] == 0
    ensures Drop(Grab(tl, w, path), w, path) == tl
  {
    assert Drop(Grab(tl, w, path), w, path).Keys == tl.Keys;
  }

  /** The entry of directory dir with a name, or 0. */
  ghost function Entry(place: map<nat, (nat, string)>, dir: nat, name: string): nat {
    if m :| m in place && place[m] == (dir, name) then m else 0
  }

  /** From dir up to node every node on path is linked and free of writers. */
  ghost predicate Along(sh: Shape, tl: map<nat, int>, dir: nat, path: seq<nat>, node: nat)
  {
    && ShapeOk(sh) && tl.Keys == sh.nodes && dir in sh.nodes && node in sh.nodes && sh.rank[node] <= sh.rank[dir]
    && Climb(sh.place, dir, path, node) && Distinct(path)
    && Chain(sh, dir) == path + Chain(sh, node) && Linked(sh, dir) == Linked(sh, node)
    && Outcome(sh, tl, dir) == Outcome(sh, tl, node)
    && (forall n {:trigger n in path} | n in path :: n in sh.place && n in tl && tl[n] >= 0 && sh.rank[node] < sh.rank[n] <= sh.rank[dir])
  }

  lemma AlongStart(sh: Shape, tl: map<nat, int>, dir: nat)
    requires ShapeOk(sh) && tl.Keys == sh.nodes && dir in sh.nodes
    ensures Along(sh, tl, dir, [], dir) && Grab(tl, 0, []) == tl
  {
  }

  lemma AlongStep(sh: Shape, tl: map<nat, int>, dir: nat, path: seq<nat>, node: nat)
    requires Along(sh, tl, dir, path, node) && node in sh.nodes && node != ROOT
    ensures node in Grab(tl, 0, path) && Grab(tl, 0, path)[node] == tl[node]
    ensures node !in sh.place ==> Outcome(sh, tl, dir) == ENOENT
    ensures node in sh.place ==> sh.place[node].0 in sh.nodes && sh.nodes <= sh.rank.Keys && 0 <= sh.rank[sh.place[node].0] < sh.rank[node]
    ensures node in sh.place && tl[node] < 0 ==> Outcome(sh, tl, dir) == EAGAIN
    ensures node in sh.place && tl[node] >= 0 ==>
      && Along(sh, tl, dir, path + [node], sh.place[node].0)
      && Grab(tl, 0, path)[node := tl[node] + 1] == Grab(tl, 0, path + [node])
  {
    assert node !in path;
    GrabStep(tl, 0, path, node);
    if node in sh.place && tl[node] >= 0 {
      var up := sh.place[node].0;
      ClimbOn(sh, dir, path, node);
      assert Chain(sh, node) == [node] + Chain(sh, up);
      assert path + Chain(sh, node) == path + [node] + Chain(sh, up);
    }
  }

  lemma AlongRoot(sh: Shape, tl: map<nat, int>, dir: nat, path: seq<nat>)
    requires Along(sh, tl, dir, path, ROOT)
    ensures Outcome(sh, tl, dir) == 0 && Chain(sh, dir) == path && Linked(sh, dir)
  {
  }

  /** A path to lock: the directory and, to lock an entry for writing, its name. */
  datatype Want = Want(dir: nat, write: bool, name: string)

  ghost function Wanted(place: map<nat, (nat, string)>, want: Want): nat {
    if want.write then Entry(place, want.dir, want.name) else 0
  }

  /** What a request comes to: the entry is tried first, then the path. */
  ghost function Verdict(sh: Shape, tl: map<nat, int>, want: Want): int
    requires ShapeOk(sh) && tl.Keys == sh.nodes && want.dir in sh.nodes
  {
    var w := Wanted(sh.place, want);
    if w in tl && tl[w] != 0 then EAGAIN else Outcome(sh, tl, want.dir)
  }

  function Refused(tl: map<nat, int>, w: nat): map<nat, int> {
    if w in tl && tl[w] != 0 then Mark(tl, w) else tl
  }

  lemma EntryFacts(sh: Shape, dir: nat, name: string)
    requires ShapeOk(sh) && dir in sh.nodes
    ensures var w := Entry(sh.place, dir, name);
      w != 0 ==> w in sh.place && sh.place[w] == (dir, name) && w in sh.nodes && w != ROOT && sh.rank[dir] < sh.rank[w]
  {
  }

  /** An entry of dir is not on the way up from dir. */
  lemma {:induction false} OutcomeElsewhere(sh: Shape, tl: map<nat, int>, tl': map<nat, int>, w: nat, n: nat)
    requires ShapeOk(sh) && tl.Keys == sh.nodes && tl'.Keys == sh.nodes && n in sh.nodes && w in sh.nodes && sh.rank[n] < sh.rank[w]
    requires forall m {:trigger tl'[m]} | m in tl && m != w :: tl'[m] == tl[m]
    ensures Outcome(sh, tl', n) == Outcome(sh, tl, n)
    decreases sh.rank[n]
  {
    if n in sh.place {
      OutcomeElsewhere(sh, tl, tl', w, sh.place[n].0);
    }
  }

  /** After the entry has been locked, or there is none, the path decides. */
  lemma WantedFacts(sh: Shape, tl: map<nat, int>, tl1: map<nat, int>, want: Want, w: nat)
    requires ShapeOk(sh) && tl.Keys == sh.nodes && want.dir in sh.nodes && w == Wanted(sh.place, want)
    requires w != 0 ==> w in tl && tl[w] == 0
    requires tl1 == if w != 0 then tl[w := WRITE] else tl
    ensures tl1.Keys == sh.nodes && Shape(tl1.Keys, sh.place, sh.rank) == sh
    ensures Verdict(sh, tl, want) == Outcome(sh, tl1, want.dir)
  {
    EntryFacts(sh, want.dir, want.name);
    if w != 0 {
      OutcomeElsewhere(sh, tl, tl1, w, want.dir);
    }
  }

  /** A writer turned away at the entry. */
  lemma EntryRefused(sh: Shape, tl: map<nat, int>, holds: Holds, want: Want, w: nat)
    requires ShapeOk(sh) && Exact(tl, holds) && tl.Keys == sh.nodes && want.dir in sh.nodes
    requires w == Wanted(sh.place, want) && w in tl && tl[w] != 0
    ensures Verdict(sh, tl, want) == EAGAIN && Refused(tl, w) == Mark(tl, w)
    ensures Mark(tl, w).Keys == sh.nodes && Exact(Mark(tl, w), holds)
  {
    MarkExact(tl, holds, w);
  }

  lemma HoldsAdded(sh: Shape, holds: Holds, h: Key, x: Hold)
    requires ShapeOk(sh) && HoldsOk(sh, holds) && h !in holds && x.dir in sh.nodes
    requires Linked(sh, x.dir) && x.path == Chain(sh, x.dir)
    requires x.w != 0 ==> x.w in sh.place && sh.place[x.w].0 == x.dir
    ensures HoldsOk(sh, holds[h := x])
  {
    hide Linked, Chain;
    var holds' := holds[h := x];
    forall k {:trigger HoldOk(sh, holds', k)} | k in holds'
      ensures HoldOk(sh, holds', k)
    {
      if k != h {
        assert HoldOk(sh, holds, k);
      }
    }
  }

  lemma WantedApart(sh: Shape, want: Want, w: nat)
    requires ShapeOk(sh) && want.dir in sh.nodes && w == Wanted(sh.place, want) && w != 0
    ensures w !in Chain(sh, want.dir)
  {
    EntryFacts(sh, want.dir, want.name);
    if w in Chain(sh, want.dir) {
      ChainRank(sh, want.dir, w);
    }
  }

  lemma GrabEntry(tl: map<nat, int>, w: nat, path: seq<nat>)
    requires 0 !in tl && (w != 0 ==> w in tl && w !in path)
    ensures Grab(if w != 0 then tl[w := WRITE] else tl, 0, path) == Grab(tl, w, path) && Grab(tl, w, path).Keys == tl.Keys
  {
  }

  lemma LockDone(sh: Shape, tl: map<nat, int>, holds: Holds, want: Want, w: nat, h: Key)
    requires ShapeOk(sh) && HoldsOk(sh, holds) && Exact(tl, holds) && tl.Keys == sh.nodes && want.dir in sh.nodes
    requires h !in holds && |holds| + 1 < 0x7fff_ffff && w == Wanted(sh.place, want) && (w != 0 ==> w in tl && tl[w] == 0)
    requires Linked(sh, want.dir)
    requires forall n {:trigger n in Chain(sh, want.dir)} | n in Chain(sh, want.dir) :: n in tl && tl[n] >= 0
    ensures var tl1 := if w != 0 then tl[w := WRITE] else tl; var path := Chain(sh, want.dir);
      && Grab(tl1, 0, path) == Grab(tl, w, path) && Grab(tl, w, path).Keys == sh.nodes
      && Exact(Grab(tl, w, path), holds[h := Hold(want.dir, w, path)]) && HoldsOk(sh, holds[h := Hold(want.dir, w, path)])
  {
    EntryFacts(sh, want.dir, want.name);
    if w != 0 {
      WantedApart(sh, want, w);
    }
    hide Exact, HoldsOk, Grab, Linked, Chain;
    var x := Hold(want.dir, w, Chain(sh, want.dir));
    GrabExact(tl, holds, h, x);
    HoldsAdded(sh, holds, h, x);
    GrabEntry(tl, w, x.path);
  }

  lemma AlongFree(sh: Shape, tl: map<nat, int>, tl1: map<nat, int>, want: Want, w: nat, path: seq<nat>)
    requires Along(sh, tl1, want.dir, path, ROOT) && path == Chain(sh, want.dir) && w == Wanted(sh.place, want)
    requires w != 0 ==> w in tl && tl[w] == 0
    requires tl1 == if w != 0 then tl[w := WRITE] else tl
    ensures forall n {:trigger n in Chain(sh, want.dir)} | n in Chain(sh, want.dir) :: n in tl && tl[n] >= 0
  {
  }

  lemma LockFails(sh: Shape, tl: map<nat, int>, tl1: map<nat, int>, want: Want, w: nat, path: seq<nat>, node: nat)
    requires Along(sh, tl1, want.dir, path, node) && w == Wanted(sh.place, want) && tl.Keys == sh.nodes
    requires w != 0 ==> w in tl && tl[w] == 0
    requires tl1 == if w != 0 then tl[w := WRITE] else tl
    ensures var tl2 := Grab(tl1, 0, path);
      && tl2.Keys == sh.nodes && node != 0 && Climb(sh.place, want.dir, path, node) && Distinct(path)
      && (w != 0 ==> w in tl2 && tl2[w] == WRITE && w !in path)
      && (forall n {:trigger n in path} | n in path :: n in tl2 && tl2[n] != 0 && tl2[n] != WAIT_OFFSET && tl2[n] != WRITE)
      && Drop(tl2, w, path) == tl && Refused(tl, w) == tl
  {
    EntryFacts(sh, want.dir, want.name);
    assert w != 0 ==> w !in path;
    assert Grab(tl1, 0, path) == Grab(tl, w, path);
    GrabDrop(tl, w, path);
  }

  /** A waiting request for one path or two, or a forget that waits for one node. */
  datatype Elem =
    | PathWait(id: nat, want1: Want, two: bool, want2: Want, first: bool, second: bool, w1: nat, w2: nat, done: bool, err: int)
    | NodeWait(id: nat, node: nat)

  predicate Full(e: Elem)
    requires e.PathWait?
  {
    e.first && (e.two ==> e.second)
  }

  /** An element's flags say which of its paths are held. */
  ghost predicate Flags(sh: Shape, holds: Holds, e: Elem) {
    match e
    case NodeWait(id, node) => node in sh.nodes && (id, false) !in holds && (id, true) !in holds
    case PathWait(id, want1, two, want2, first, second, w1, w2, _, _) =>
      && want1.dir in sh.nodes && (two ==> want2.dir in sh.nodes) && (second ==> two)
      && (first <==> (id, false) in holds) && (second <==> (id, true) in holds)
      && (first ==> holds[(id, false)].dir == want1.dir && holds[(id, false)].w == w1)
      && (second ==> holds[(id, true)].dir == want2.dir && holds[(id, true)].w == w2)
  }

  /** The way up from the directory of a wanted path ends at an unlinked node. */
  ghost predicate Cut(sh: Shape, want: Want) {
    ShapeOk(sh) && want.dir in sh.nodes && !Linked(sh, want.dir)
  }

  /** A finished element holds all it asked for, or nothing and never will; only the head of the queue holds a part. */
  ghost predicate Settled(sh: Shape, e: Elem, i: int) {
    e.PathWait? ==>
      && (e.done && e.err == 0 ==> Full(e))
      && (e.done && e.err != 0 ==> e.err == ENOENT && !e.first && !e.second && (Cut(sh, e.want1) || (e.two && Cut(sh, e.want2))))
      && (!e.done ==> !Full(e) && (e.first || e.second ==> i == 0))
  }

  /** busy is the index of an element being dealt with. */
  ghost predicate QueueOk(sh: Shape, holds: Holds, clients: set<nat>, q: seq<Elem>, busy: int) {
    && (forall i {:trigger q[i]} | 0 <= i < |q| :: q[i].id in clients)
    && (forall i, j {:trigger q[i], q[j]} | 0 <= i < j < |q| :: q[i].id != q[j].id)
    && (forall i {:trigger Flags(sh, holds, q[i])} | 0 <= i < |q| :: Flags(sh, holds, q[i]))
    && (forall i {:trigger Settled(sh, q[i], i)} | 0 <= i < |q| && i != busy :: Settled(sh, q[i], i))
  }

  /** Fewer than 2 to the 30 requests are in progress. */
  ghost predicate Bound(clients: set<nat>, holds: Holds) {
    |clients| < 0x3fff_ffff && forall h: Key {:trigger h in holds} | h in holds :: h.0 in clients
  }

  function Keys(clients: set<nat>): set<Key> {
    (set t | t in clients :: (t, false)) + (set t | t in clients :: (t, true))
  }

  lemma {:induction false} KeysSize(clients: set<nat>)
    ensures |Keys(clients)| == 2 * |clients|
    decreases |clients|
  {
    if clients == {} {
      assert Keys(clients) == {};
    } else {
      var t :| t in clients;
      var rest := clients - {t};
      KeysSize(rest);
      assert Keys(clients) == Keys(rest) + {(t, false), (t, true)};
      assert (t, false) !in Keys(rest) && (t, true) !in Keys(rest);
    }
  }

  lemma FewHolds(clients: set<nat>, holds: Holds)
    requires Bound(clients, holds)
    ensures |holds| + 2 < 0x7fff_ffff
  {
    KeysSize(clients);
    assert holds.Keys <= Keys(clients) by {
      forall h | h in holds
        ensures h in Keys(clients)
      {
        if h.1 {
          assert h == (h.0, true);
        } else {
          assert h == (h.0, false);
        }
      }
    }
    SubsetSize(holds.Keys, Keys(clients));
    assert |holds.Keys| == |holds|;
  }

  /** A request fails for good exactly when its directory is cut off from the root. */
  lemma VerdictCut(sh: Shape, tl: map<nat, int>, holds: Holds, want: Want)
    requires ShapeOk(sh) && tl.Keys == sh.nodes && Exact(tl, holds) && HoldsOk(sh, holds) && want.dir in sh.nodes
    ensures Verdict(sh, tl, want) == ENOENT <==> !Linked(sh, want.dir)
    ensures Verdict(sh, tl, want) in {0, EAGAIN, ENOENT}
  {
    CutOutcome(sh, tl, holds, want.dir);
    OutcomeRange(sh, tl, want.dir);
    EntryFacts(sh, want.dir, want.name);
    var w := Wanted(sh.place, want);
    if w != 0 && !Linked(sh, want.dir) {
      CutFree(sh, tl, holds, w);
    }
  }

  lemma {:induction false} OutcomeRange(sh: Shape, tl: map<nat, int>, n: nat)
    requires ShapeOk(sh) && tl.Keys == sh.nodes && n in sh.nodes
    ensures Outcome(sh, tl, n) in {0, EAGAIN, ENOENT}
    decreases sh.rank[n]
  {
    if n in sh.place {
      OutcomeRange(sh, tl, sh.place[n].0);
    }
  }

  /** A path can be locked: its directory leads up to the root, nobody writes or waits to write on the way, and the entry wanted for
      writing, if there is one, is not locked at all. */
  ghost predicate PathFree(sh: Shape, tl: map<nat, int>, want: Want)
    requires ShapeOk(sh) && tl.Keys == sh.nodes && want.dir in sh.nodes
  {
    var w := Wanted(sh.place, want);
    Linked(sh, want.dir) && Clear(tl, Chain(sh, want.dir)) && (w in tl ==> tl[w] == 0)
  }

  /** No node of the path has a writer, or one that waits. */
  predicate Clear(tl: map<nat, int>, path: seq<nat>) {
    forall n {:trigger n in path} | n in path :: n in tl && tl[n] >= 0
  }

  lemma ClearStep(tl: map<nat, int>, n: nat, path: seq<nat>)
    ensures Clear(tl, [n] + path) <==> n in tl && tl[n] >= 0 && Clear(tl, path)
  {
    var all := [n] + path;
    assert forall m: nat {:trigger m in all} {:trigger m in path} :: m in all <==> m == n || m in path;
    assert n in all;
  }

  /** Two paths can be locked together: each by itself, and neither writes an entry that the other locks. */
  ghost predicate BothFree(sh: Shape, tl: map<nat, int>, want1: Want, want2: Want)
    requires ShapeOk(sh) && tl.Keys == sh.nodes && want1.dir in sh.nodes && want2.dir in sh.nodes
  {
    var w1, w2 := Wanted(sh.place, want1), Wanted(sh.place, want2);
    && PathFree(sh, tl, want1) && PathFree(sh, tl, want2)
    && (w1 in tl ==> w1 !in Chain(sh, want2.dir) && w1 != w2)
    && (w2 in tl ==> w2 !in Chain(sh, want1.dir))
  }

  lemma {:induction false} OutcomeFree(sh: Shape, tl: map<nat, int>, n: nat)
    requires ShapeOk(sh) && tl.Keys == sh.nodes && n in sh.nodes
    ensures Outcome(sh, tl, n) == 0 <==> Linked(sh, n) && Clear(tl, Chain(sh, n))
    decreases sh.rank[n]
  {
    if n in sh.place {
      OutcomeFree(sh, tl, sh.place[n].0);
      ClearStep(tl, n, Chain(sh, sh.place[n].0));
      hide Clear;
    }
  }

  /** A path is locked exactly when it is free. */
  lemma VerdictFree(sh: Shape, tl: map<nat, int>, want: Want)
    requires ShapeOk(sh) && tl.Keys == sh.nodes && want.dir in sh.nodes
    ensures Verdict(sh, tl, want) == 0 <==> PathFree(sh, tl, want)
  {
    OutcomeFree(sh, tl, want.dir);
    hide Outcome, Linked, Chain, Wanted, Clear;
  }

  lemma BothFirst(sh: Shape, tl: map<nat, int>, want1: Want, want2: Want)
    requires ShapeOk(sh) && tl.Keys == sh.nodes && want1.dir in sh.nodes && want2.dir in sh.nodes
    ensures BothFree(sh, tl, want1, want2) ==> PathFree(sh, tl, want1)
    ensures PathFree(sh, tl, want1) ==> Linked(sh, want1.dir)
  {
    hide Clear, Wanted, Linked;
  }

  lemma HoldBack(holds: Holds, h: Key, x: Hold)
    requires h !in holds
    ensures holds[h := x] - {h} == holds
  {
  }

  lemma NoConfusion()
    ensures EAGAIN != 0 && ENOENT != 0 && EAGAIN != ENOENT
  {
  }

  /** After the first path is taken the second is free exactly when the two are free together. */
  lemma SecondFree(sh: Shape, tl: map<nat, int>, want1: Want, want2: Want, tl': map<nat, int>)
    requires ShapeOk(sh) && tl.Keys == sh.nodes && want1.dir in sh.nodes && want2.dir in sh.nodes && PathFree(sh, tl, want1)
    requires tl' == Grab(tl, Wanted(sh.place, want1), Chain(sh, want1.dir))
    ensures PathFree(sh, tl', want2) <==> BothFree(sh, tl, want1, want2)
  {
    hide Wanted, Chain, Linked, ShapeOk;
  }

  /** A change of one request's holds leaves the other elements' flags right. */
  lemma FlagsKept(sh: Shape, holds: Holds, holds': Holds, clients: set<nat>, q: seq<Elem>, i: nat, e: Elem)
    requires i < |q| && QueueOk(sh, holds, clients, q, i) && e.id == q[i].id && Flags(sh, holds', e) && SameBut(holds, holds', e.id)
    ensures QueueOk(sh, holds', clients, q[i := e], i)
  {
    var q' := q[i := e];
    forall j {:trigger Flags(sh, holds', q'[j])} | 0 <= j < |q'|
      ensures Flags(sh, holds', q'[j])
    {
      if j != i {
        assert Flags(sh, holds, q[j]);
        assert q[i].id != q[j].id;
      }
    }
    forall j {:trigger Settled(sh, q'[j], j)} | 0 <= j < |q'| && j != i
      ensures Settled(sh, q'[j], j)
    {
      assert Settled(sh, q[j], j);
    }
  }

  lemma HoldsRemoved(sh: Shape, holds: Holds, h: Key)
    requires ShapeOk(sh) && HoldsOk(sh, holds) && h in holds
    requires h.1 && (h.0, false) in holds && holds[(h.0, false)].w in sh.place ==> sh.place[holds[(h.0, false)].w].0 == holds[(h.0, false)].dir
    ensures HoldsOk(sh, holds - {h})
  {
    hide Linked, Chain;
    var holds' := holds - {h};
    forall k {:trigger HoldOk(sh, holds', k)} | k in holds'
      ensures HoldOk(sh, holds', k)
    {
      assert HoldOk(sh, holds, k);
    }
  }

  function Part(e: Elem, second: bool): Want
    requires e.PathWait?
  {
    if second then e.want2 else e.want1
  }

  predicate Has(e: Elem, second: bool)
    requires e.PathWait?
  {
    if second then e.second else e.first
  }

  function PartW(e: Elem, second: bool): nat
    requires e.PathWait?
  {
    if second then e.w2 else e.w1
  }

  function WithPart(e: Elem, second: bool, w: nat): Elem
    requires e.PathWait?
  {
    if second then e.(second := true, w2 := w) else e.(first := true, w1 := w)
  }

  function WithoutPart(e: Elem, second: bool): Elem
    requires e.PathWait?
  {
    if second then e.(second := false) else e.(first := false)
  }

  /** Dealing with an element ends when it is settled. */
  lemma Settle(sh: Shape, holds: Holds, clients: set<nat>, q: seq<Elem>, i: nat)
    requires i < |q| && QueueOk(sh, holds, clients, q, i) && Settled(sh, q[i], i)
    ensures QueueOk(sh, holds, clients, q, -1)
  {
  }

  ghost predicate SameBut(holds: Holds, holds': Holds, id: nat) {
    forall h: Key {:trigger h in holds'} {:trigger h in holds} | h.0 != id :: (h in holds' <==> h in holds) && (h in holds ==> holds'[h] == holds[h])
  }

  // What a pass over the queue does to the fields.

  /** Where nobody could read before, nothing has changed. */
  ghost predicate NegKept(tl: map<nat, int>, tl': map<nat, int>) {
    tl'.Keys == tl.Keys && forall n {:trigger tl'[n]} | n in tl && tl[n] < 0 :: tl'[n] == tl[n]
  }

  /** The hold is of nodes that were open to readers. */
  ghost predicate Off(tl: map<nat, int>, x: Hold) {
    && (forall n {:trigger n in x.path} | n in x.path && n in tl :: tl[n] >= 0)
    && (x.w in tl ==> tl[x.w] >= 0)
  }

  ghost predicate OwnOff(tl: map<nat, int>, holds: Holds, id: nat) {
    ((id, false) in holds ==> Off(tl, holds[(id, false)])) && ((id, true) in holds ==> Off(tl, holds[(id, true)]))
  }

  ghost predicate Grew(holds: Holds, holds': Holds) {
    forall h: Key {:trigger h in holds} {:trigger h in holds'} | h in holds :: h in holds' && holds'[h] == holds[h]
  }

  /** What was locked, or closed to readers, still is. */
  ghost predicate Tighter(tl: map<nat, int>, tl': map<nat, int>) {
    tl'.Keys == tl.Keys && forall n {:trigger tl'[n]} {:trigger tl[n]} | n in tl :: (tl[n] != 0 ==> tl'[n] != 0) && (tl[n] < 0 ==> tl'[n] < 0)
  }

  lemma TighterExact(tl: map<nat, int>, holds: Holds, tl': map<nat, int>, holds': Holds)
    requires Exact(tl, holds) && Exact(tl', holds') && Grew(holds, holds') && NegKept(tl, tl')
    ensures Tighter(tl, tl')
  {
    forall n {:trigger tl'[n]} | n in tl
      ensures (tl[n] != 0 ==> tl'[n] != 0) && (tl[n] < 0 ==> tl'[n] < 0)
    {
      assert Encodes(tl[n], |Writers(holds, n)|, |Readers(holds, n)|) && Encodes(tl'[n], |Writers(holds', n)|, |Readers(holds', n)|);
      SubsetSize(Writers(holds, n), Writers(holds', n));
      SubsetSize(Readers(holds, n), Readers(holds', n));
      FewReaders(holds', n);
      hide Readers, Writers, Exact;
    }
  }

  lemma FreeBefore(sh: Shape, tl: map<nat, int>, tl': map<nat, int>, want: Want)
    requires ShapeOk(sh) && tl.Keys == sh.nodes && want.dir in sh.nodes && Tighter(tl, tl')
    ensures PathFree(sh, tl', want) ==> PathFree(sh, tl, want)
  {
    hide ShapeOk, Linked, Chain, Wanted;
  }

  lemma BothBefore(sh: Shape, tl: map<nat, int>, tl': map<nat, int>, want1: Want, want2: Want)
    requires ShapeOk(sh) && tl.Keys == sh.nodes && want1.dir in sh.nodes && want2.dir in sh.nodes && Tighter(tl, tl')
    ensures BothFree(sh, tl', want1, want2) ==> BothFree(sh, tl, want1, want2)
  {
    FreeBefore(sh, tl, tl', want1);
    FreeBefore(sh, tl, tl', want2);
    hide PathFree, ShapeOk;
  }

  /** What the element lacks could be locked now. */
  ghost predicate Could(sh: Shape, tl: map<nat, int>, e: Elem)
    requires e.PathWait? && ShapeOk(sh) && tl.Keys == sh.nodes && e.want1.dir in sh.nodes && (e.two ==> e.want2.dir in sh.nodes)
  {
    if !e.two then e.first || PathFree(sh, tl, e.want1)
    else if e.first then e.second || PathFree(sh, tl, e.want2)
    else if e.second then PathFree(sh, tl, e.want1)
    else BothFree(sh, tl, e.want1, e.want2)
  }

  /** An element waits only for what cannot be locked. */
  ghost predicate Stuck(sh: Shape, tl: map<nat, int>, e: Elem) {
    && ShapeOk(sh) && tl.Keys == sh.nodes
    && (e.PathWait? && !e.done ==> e.want1.dir in sh.nodes && (e.two ==> e.want2.dir in sh.nodes) && !Could(sh, tl, e))
  }

  lemma CouldBefore(sh: Shape, tl: map<nat, int>, tl': map<nat, int>, e: Elem)
    requires e.PathWait? && ShapeOk(sh) && tl.Keys == sh.nodes && e.want1.dir in sh.nodes && (e.two ==> e.want2.dir in sh.nodes) && Tighter(tl, tl')
    ensures Could(sh, tl', e) ==> Could(sh, tl, e)
  {
    hide PathFree, BothFree, ShapeOk;
    assert tl'.Keys == sh.nodes;
    FreeBefore(sh, tl, tl', e.want1);
    if e.two {
      FreeBefore(sh, tl, tl', e.want2);
      BothBefore(sh, tl, tl', e.want1, e.want2);
    }
  }

  lemma StuckKept(sh: Shape, tl: map<nat, int>, tl': map<nat, int>, e: Elem)
    requires Stuck(sh, tl, e) && Tighter(tl, tl')
    ensures Stuck(sh, tl', e)
  {
    hide Could, ShapeOk;
    if e.PathWait? && !e.done {
      CouldBefore(sh, tl, tl', e);
    }
  }

  /** Locking a path, or being turned away, closes no more than it must. */
  lemma HoldsGrow(holds: Holds, h: Key, x: Hold, id: nat, second: bool)
    requires h == (id, second) && h !in holds
    ensures Grew(holds, holds[h := x]) && Grew(holds, holds) && ((id, !second) in holds[h := x] <==> (id, !second) in holds)
  {
    assert (id, !second).1 != h.1;
  }

  lemma LockEffect(sh: Shape, tl: map<nat, int>, tl': map<nat, int>, want: Want, w: nat, ok: bool)
    requires ShapeOk(sh) && tl.Keys == sh.nodes && want.dir in sh.nodes && w == Wanted(sh.place, want)
    requires ok <==> PathFree(sh, tl, want)
    requires tl' == if ok then Grab(tl, w, Chain(sh, want.dir)) else Refused(tl, w)
    ensures NegKept(tl, tl') && (ok ==> Off(tl, Hold(want.dir, w, Chain(sh, want.dir))))
  {
    hide ShapeOk, Linked, Chain, Wanted;
  }

  lemma NegTrans(a: map<nat, int>, b: map<nat, int>, c: map<nat, int>)
    requires NegKept(a, b) && NegKept(b, c)
    ensures NegKept(a, c)
  {
  }

  lemma OffBefore(a: map<nat, int>, b: map<nat, int>, x: Hold)
    requires NegKept(a, b) && Off(b, x)
    ensures Off(a, x)
  {
  }

  lemma DropOff(tl0: map<nat, int>, tl: map<nat, int>, x: Hold)
    requires NegKept(tl0, tl) && Off(tl0, x)
    ensures NegKept(tl0, Drop(tl, x.w, x.path))
  {
  }

  /** The directories that the element asks for are there. */
  ghost predicate Dirs(sh: Shape, tl: map<nat, int>, e: Elem) {
    ShapeOk(sh) && tl.Keys == sh.nodes && e.PathWait? && e.want1.dir in sh.nodes && (e.two ==> e.want2.dir in sh.nodes)
  }

  /** One part of an element was tried, or not. */
  ghost predicate Step(sh: Shape, tl: map<nat, int>, holds: Holds, tl': map<nat, int>, holds': Holds, e: Elem, e': Elem, second: bool, tried: bool, err: int)
    requires Dirs(sh, tl, e) && (second ==> e.two)
  {
    if !tried then tl' == tl && holds' == holds && e' == e
    else
      var want := Part(e, second);
      && NegKept(tl, tl') && Grew(holds, holds') && (err == 0 <==> PathFree(sh, tl, want))
      && if err == 0 then
           && tl' == Grab(tl, Wanted(sh.place, want), Chain(sh, want.dir)) && (e.id, second) in holds' && Off(tl, holds'[(e.id, second)])
           && ((e.id, !second) in holds' <==> (e.id, !second) in holds) && e' == WithPart(e, second, Wanted(sh.place, want))
         else holds' == holds && e' == e
  }

  lemma StepNone(sh: Shape, tl: map<nat, int>, holds: Holds, e: Elem, second: bool, err: int)
    requires Dirs(sh, tl, e)
    ensures second ==> e.two ==> Step(sh, tl, holds, tl, holds, e, e, second, false, err)
    ensures !second ==> Step(sh, tl, holds, tl, holds, e, e, second, false, err)
  {
  }

  lemma StepMade(sh: Shape, tl: map<nat, int>, holds: Holds, tl': map<nat, int>, holds': Holds, e: Elem, e': Elem, second: bool, err: int)
    requires Dirs(sh, tl, e) && (second ==> e.two)
    requires NegKept(tl, tl') && Grew(holds, holds') && (err == 0 <==> PathFree(sh, tl, Part(e, second)))
    requires var want := Part(e, second);
      if err == 0 then
        && tl' == Grab(tl, Wanted(sh.place, want), Chain(sh, want.dir)) && (e.id, second) in holds' && Off(tl, holds'[(e.id, second)])
        && ((e.id, !second) in holds' <==> (e.id, !second) in holds) && e' == WithPart(e, second, Wanted(sh.place, want))
      else holds' == holds && e' == e
    ensures Step(sh, tl, holds, tl', holds', e, e', second, true, err)
  {
    hide NegKept, Grew, PathFree, Off, Grab, Chain, Wanted, ShapeOk;
  }

  /** What trying both parts of an element comes to. If one is still missing, it could not be locked; and if nothing was held before, all
      of it could not. */
  ghost predicate Tried(sh: Shape, tl0: map<nat, int>, holds0: Holds, tl: map<nat, int>, holds: Holds, e: Elem, e': Elem, err: int) {
    && Dirs(sh, tl0, e) && Dirs(sh, tl, e') && e'.want1 == e.want1 && e'.two == e.two && e'.want2 == e.want2
    && NegKept(tl0, tl) && Grew(holds0, holds)
    && (!e.first && !e.second ==> OwnOff(tl0, holds, e.id))
    && (err != ENOENT && !Full(e') ==> !Could(sh, tl, e') && (!e.first && !e.second ==> !Could(sh, tl0, e)))
  }

  lemma PartsTried(sh: Shape, tl0: map<nat, int>, was: Holds, tl1: map<nat, int>, mid: Holds, tl2: map<nat, int>, holds: Holds,
                   e: Elem, e1: Elem, e2: Elem, err1: int, err: int)
    requires Dirs(sh, tl0, e) && Dirs(sh, tl1, e1) && e1.two == e.two && (e.second ==> e.two)
    requires Exact(tl0, was) && Exact(tl1, mid) && Exact(tl2, holds)
    requires ((e.id, false) in was <==> e.first) && ((e.id, true) in was <==> e.second)
    requires Step(sh, tl0, was, tl1, mid, e, e1, false, !e.first, err1) && (e.first ==> err1 == 0)
    requires var tried := err1 != ENOENT && !e1.second && e1.two;
      if tried then Step(sh, tl1, mid, tl2, holds, e1, e2, true, true, err) else tl2 == tl1 && holds == mid && e2 == e1 && err == err1
    ensures Tried(sh, tl0, was, tl2, holds, e, e2, err)
  {
    hide *;
    NoConfusion();
    TriedEffects(sh, tl0, was, tl1, mid, tl2, holds, e, e1, e2, err1, err);
    TighterExact(tl0, was, tl2, holds);
    TighterExact(tl1, mid, tl2, holds);
    DirsFacts(sh, tl0, e);
    DirsFacts(sh, tl1, e1);
    if !e.first {
      StepOut(sh, tl0, was, tl1, mid, e, e1, false, err1);
    } else {
      StepSame(sh, tl0, was, tl1, mid, e, e1, false, err1);
    }
    ghost var tried := err1 != ENOENT && !e1.second && e1.two;
    if tried {
      StepOut(sh, tl1, mid, tl2, holds, e1, e2, true, err);
    }
    FreeBefore(sh, tl0, tl2, e.want1);
    if e.two {
      FreeBefore(sh, tl1, tl2, e.want2);
      BothFirst(sh, tl2, e.want1, e.want2);
      BothFirst(sh, tl0, e.want1, e.want2);
      if PathFree(sh, tl0, e.want1) && tl1 == Grab(tl0, Wanted(sh.place, e.want1), Chain(sh, e.want1.dir)) {
        SecondFree(sh, tl0, e.want1, e.want2, tl1);
      }
    }
    TriedMade(sh, tl0, was, tl1, tl2, holds, e, e1, e2, err1, err);
  }

  lemma DirsFacts(sh: Shape, tl: map<nat, int>, e: Elem)
    requires Dirs(sh, tl, e)
    ensures ShapeOk(sh) && tl.Keys == sh.nodes && e.PathWait? && e.want1.dir in sh.nodes && (e.two ==> e.want2.dir in sh.nodes)
  {
  }

  lemma StepOut(sh: Shape, tl: map<nat, int>, holds: Holds, tl': map<nat, int>, holds': Holds, e: Elem, e': Elem, second: bool, err: int)
    requires Dirs(sh, tl, e) && (second ==> e.two) && Step(sh, tl, holds, tl', holds', e, e', second, true, err)
    ensures var want := if second then e.want2 else e.want1;
      && (err == 0 <==> PathFree(sh, tl, want)) && (err != 0 ==> e' == e)
      && (err == 0 ==> tl' == Grab(tl, Wanted(sh.place, want), Chain(sh, want.dir)) && e'.PathWait? && e' == if second then e.(second := true, w2 := e'.w2) else e.(first := true, w1 := e'.w1))
  {
    hide NegKept, Grew, PathFree, Off, Grab, Chain, Wanted, ShapeOk;
  }

  lemma StepSame(sh: Shape, tl: map<nat, int>, holds: Holds, tl': map<nat, int>, holds': Holds, e: Elem, e': Elem, second: bool, err: int)
    requires Dirs(sh, tl, e) && (second ==> e.two) && Step(sh, tl, holds, tl', holds', e, e', second, false, err)
    ensures tl' == tl && e' == e
  {
  }

  /** The cases put together. */
  lemma TriedMade(sh: Shape, tl0: map<nat, int>, was: Holds, tl1: map<nat, int>, tl2: map<nat, int>, holds: Holds, e: Elem, e1: Elem, e2: Elem, err1: int, err: int)
    requires Dirs(sh, tl0, e) && Dirs(sh, tl1, e1) && Dirs(sh, tl2, e2) && e2.want1 == e.want1 && e2.two == e.two && e2.want2 == e.want2 && e1.two == e.two
    requires NegKept(tl0, tl2) && Grew(was, holds) && (!e.first && !e.second ==> OwnOff(tl0, holds, e.id)) && (e.second ==> e.two)
    requires if e.first then err1 == 0 && e1 == e else
      (err1 == 0 <==> PathFree(sh, tl0, e.want1)) && (if err1 == 0 then e1.first && e1.second == e.second else e1 == e)
    requires var tried := err1 != ENOENT && !e1.second && e1.two;
      if tried then (err == 0 <==> PathFree(sh, tl1, e.want2)) && (if err == 0 then e2.second && e2.first == e1.first else e2 == e1) else e2 == e1 && err == err1
    requires PathFree(sh, tl2, e.want1) ==> PathFree(sh, tl0, e.want1)
    requires e.two ==> (PathFree(sh, tl2, e.want2) ==> PathFree(sh, tl1, e.want2))
    requires e.two ==> (BothFree(sh, tl2, e.want1, e.want2) ==> PathFree(sh, tl2, e.want1)) && (BothFree(sh, tl0, e.want1, e.want2) ==> PathFree(sh, tl0, e.want1))
    requires e.two && !e.first && err1 == 0 ==> (PathFree(sh, tl1, e.want2) <==> BothFree(sh, tl0, e.want1, e.want2))
    ensures Tried(sh, tl0, was, tl2, holds, e, e2, err)
  {
    hide NegKept, Grew, OwnOff, PathFree, BothFree, ShapeOk;
  }

  lemma TriedEffects(sh: Shape, tl0: map<nat, int>, was: Holds, tl1: map<nat, int>, mid: Holds, tl2: map<nat, int>, holds: Holds,
                     e: Elem, e1: Elem, e2: Elem, err1: int, err: int)
    requires Dirs(sh, tl0, e) && Dirs(sh, tl1, e1) && e1.two == e.two
    requires ((e.id, false) in was <==> e.first) && ((e.id, true) in was <==> e.second)
    requires Step(sh, tl0, was, tl1, mid, e, e1, false, !e.first, err1)
    requires var tried := err1 != ENOENT && !e1.second && e1.two;
      if tried then Step(sh, tl1, mid, tl2, holds, e1, e2, true, true, err) else tl2 == tl1 && holds == mid && e2 == e1 && err == err1
    ensures NegKept(tl0, tl1) && NegKept(tl1, tl2) && NegKept(tl0, tl2) && Grew(was, mid) && Grew(mid, holds) && Grew(was, holds)
    ensures !e.first && !e.second ==> OwnOff(tl0, holds, e.id)
    ensures tl2.Keys == sh.nodes && Dirs(sh, tl2, e2) && e2.want1 == e.want1 && e2.two == e.two && e2.want2 == e.want2
  {
    hide PathFree, Chain, Wanted, Grab, ShapeOk;
    assert NegKept(tl0, tl1) && Grew(was, mid) && NegKept(tl1, tl2) && Grew(mid, holds);
    NegTrans(tl0, tl1, tl2);
    if (e.id, true) in holds && !e.first && !e.second {
      OffBefore(tl0, tl1, holds[(e.id, true)]);
    }
    hide NegKept, Off;
  }

  lemma OwnDrop(tl0: map<nat, int>, tl: map<nat, int>, holds: Holds, id: nat, second: bool)
    requires (id, second) in holds
    ensures var x := holds[(id, second)];
      NegKept(tl0, tl) && OwnOff(tl0, holds, id) ==> NegKept(tl0, Drop(tl, x.w, x.path)) && OwnOff(tl0, holds - {(id, second)}, id)
  {
    if NegKept(tl0, tl) && OwnOff(tl0, holds, id) {
      DropOff(tl0, tl, holds[(id, second)]);
    }
    hide NegKept, Off, Drop;
  }

  lemma ReleaseFacts(sh: Shape, tl: map<nat, int>, holds: Holds, h: Key)
    requires ShapeOk(sh) && HoldsOk(sh, holds) && Exact(tl, holds) && tl.Keys == sh.nodes && h in holds
    ensures var x := holds[h];
      && x.dir in tl && Climb(sh.place, x.dir, x.path, ROOT) && Distinct(x.path)
      && (x.w != 0 ==> x.w in tl && tl[x.w] == WRITE && x.w !in x.path)
      && (forall n {:trigger n in x.path} | n in x.path :: n in tl && tl[n] != 0 && tl[n] != WAIT_OFFSET && tl[n] != WRITE)
      && Drop(tl, x.w, x.path).Keys == sh.nodes
  {
    var x := holds[h];
    assert HoldOk(sh, holds, h);
    ClimbChain(sh, x.dir);
    ChainDistinct(sh, x.dir);
    if x.w != 0 {
      HeldValues(tl, holds, h, x.w);
    }
    forall n {:trigger n in x.path} | n in x.path
      ensures n in tl && tl[n] != 0 && tl[n] != WAIT_OFFSET && tl[n] != WRITE
    {
      ChainRank(sh, x.dir, n);
      HeldValues(tl, holds, h, n);
    }
  }

  class Locks {
    var treelock: map<nat, int>
    var place: map<nat, (nat, string)>
    var lockq: seq<Elem>
    ghost var rank: map<nat, nat>
    ghost var holds: Holds
    ghost var clients: set<nat>

    ghost function Tree(): Shape
      reads `treelock, `place, `rank
    {
      Shape(treelock.Keys, place, rank)
    }

    ghost predicate Good()
      reads `treelock, `place, `rank, `holds
    {
      ShapeOk(Tree()) && HoldsOk(Tree(), holds) && Exact(treelock, holds)
    }

    /** unlock_path: path lists the nodes from dir up to end, or to the root when end is 0. */
    method UnlockPath(dir: nat, w: nat, end: nat, ghost path: seq<nat>)
      requires ShapeOk(Tree()) && dir in treelock
      requires Climb(place, dir, path, if end == 0 then ROOT else end) && Distinct(path)
      requires w != 0 ==> w in treelock && treelock[w] == WRITE && w !in path
      requires forall n {:trigger n in path} | n in path :: n in treelock && treelock[n] != 0 && treelock[n] != WAIT_OFFSET && treelock[n] != WRITE
      modifies this`treelock
      ensures treelock == Drop(old(treelock), w, path)
    {
      DropEnds(treelock, w, path);
      hide Drop, Climb, ShapeOk, Distinct;
      ghost var nodes := treelock.Keys;
      if w != 0 {
        assert treelock[w] == WRITE;
        treelock := treelock[w := 0];
      }
      assert treelock.Keys == nodes;
      UnlockChain(dir, end, path);
    }

    /** Its loop. */
    method UnlockChain(dir: nat, end: nat, ghost path: seq<nat>)
      requires ShapeOk(Tree()) && dir in treelock
      requires Climb(place, dir, path, if end == 0 then ROOT else end) && Distinct(path)
      requires forall n {:trigger n in path} | n in path :: n in treelock && treelock[n] != 0 && treelock[n] != WAIT_OFFSET && treelock[n] != WRITE
      modifies this`treelock
      ensures treelock == Drop(old(treelock), 0, path)
    {
      hide Drop, Climb, ShapeOk, Distinct;
      ghost var sh, tl, i := Tree(), treelock, 0;
      UnlockStart(sh, tl, path);
      var node := dir;
      while node != end && node != ROOT
        invariant 0 <= i <= |path| && treelock.Keys == sh.nodes && node in treelock
        invariant Climb(place, node, path[i..], if end == 0 then ROOT else end)
        invariant treelock == Drop(tl, 0, path[..i])
        decreases |path| - i
      {
        UnlockStep(sh, tl, path, i, node, end);
        assert node in path;
        assert treelock[node] != 0;
        assert treelock[node] != WAIT_OFFSET;
        assert treelock[node] != WRITE;
        var less := treelock[node] - 1;
        if less == WAIT_OFFSET {
          less := 0;
        }
        treelock := treelock[node := less];
        node := place[node].0;
        i := i + 1;
      }
      UnlockEnd(place, node, path, i, end);
    }

    method LookupNode(dir: nat, name: string) returns (n: nat)
      requires ShapeOk(Tree())
      ensures n == Entry(place, dir, name)
    {
      if m :| m in place && place[m] == (dir, name) {
        n := m;
      } else {
        n := 0;
      }
    }

    /** The loop of try_get_path: locks the nodes on path and stops at node, the root or the first obstacle. */
    method LockChain(dir: nat) returns (err: int, node: nat, ghost path: seq<nat>)
      requires ShapeOk(Tree()) && dir in treelock
      modifies this`treelock
      ensures err == Outcome(old(Tree()), old(treelock), dir)
      ensures treelock == Grab(old(treelock), 0, path)
      ensures node in treelock && Along(old(Tree()), old(treelock), dir, path, node)
      ensures err == 0 <==> node == ROOT
    {
      ghost var sh, tl := Tree(), treelock;
      path := [];
      node := dir;
      AlongStart(sh, tl, dir);
      hide Grab, Along, ShapeOk;
      while node != ROOT
        invariant node in sh.nodes && treelock == Grab(tl, 0, path) && Along(sh, tl, dir, path, node)
        decreases sh.rank[node]
      {
        AlongStep(sh, tl, dir, path, node);
        if node !in place {
          err := ENOENT;
          return;
        }
        if treelock[node] < 0 {
          err := EAGAIN;
          return;
        }
        treelock := treelock[node := treelock[node] + 1];
        path := path + [node];
        node := place[node].0;
      }
      AlongRoot(sh, tl, dir, path);
      err := 0;
    }

    /** Its first part: locks the entry for writing, or marks that a writer waits. */
    method LockEntry(want: Want) returns (w: nat, free: bool)
      requires ShapeOk(Tree()) && want.dir in treelock
      modifies this`treelock
      ensures w == Wanted(place, want) && (w != 0 ==> w in old(treelock))
      ensures free == !(w in old(treelock) && old(treelock)[w] != 0)
      ensures treelock == if !free then Mark(old(treelock), w) else if w != 0 then old(treelock)[w := WRITE] else old(treelock)
    {
      w, free := 0, true;
      EntryFacts(Tree(), want.dir, want.name);
      if want.write {
        w := LookupNode(want.dir, want.name);
        if w != 0 {
          if treelock[w] != 0 {
            if treelock[w] > 0 {
              treelock := treelock[w := treelock[w] + WAIT_OFFSET];
            }
            free := false;
          } else {
            treelock := treelock[w := WRITE];
          }
        }
      }
    }

    /** try_get_path with locks: on success request path h holds the path, on failure nothing is held. */
    method TryGetPath(want: Want, ghost h: Key) returns (err: int, w: nat)
      requires Good() && want.dir in treelock && h !in holds && |holds| + 1 < 0x7fff_ffff
      modifies this`treelock, this`holds
      ensures Good() && treelock.Keys == old(treelock.Keys)
      ensures err == Verdict(old(Tree()), old(treelock), want)
      ensures err == 0 <==> PathFree(old(Tree()), old(treelock), want)
      ensures err == ENOENT <==> !Linked(old(Tree()), want.dir)
      ensures err == 0 ==> w == Wanted(place, want) && holds == old(holds)[h := Hold(want.dir, w, Chain(old(Tree()), want.dir))]
      ensures err == 0 ==> treelock == Grab(old(treelock), w, Chain(old(Tree()), want.dir))
      ensures err != 0 ==> holds == old(holds) && treelock == Refused(old(treelock), Wanted(place, want))
    {
      ghost var sh, tl := Tree(), treelock;
      VerdictFree(sh, tl, want);
      VerdictCut(sh, tl, holds, want);
      hide ShapeOk, HoldsOk, Exact, Wanted, Verdict, Outcome, Grab, Drop, Along, Climb, Linked, Chain, Refused, Mark, PathFree;
      var free;
      w, free := LockEntry(want);
      if !free {
        EntryRefused(sh, tl, holds, want, w);
        assert Tree() == sh;
        err := EAGAIN;
        return;
      }
      ghost var tl1 := treelock;
      WantedFacts(sh, tl, tl1, want, w);
      assert Tree() == sh;
      hide *;
      var node;
      ghost var path;
      err, node, path := LockChain(want.dir);
      if err == 0 {
        AlongRoot(sh, tl1, want.dir, path);
        AlongFree(sh, tl, tl1, want, w, path);
        LockDone(sh, tl, holds, want, w, h);
        holds := holds[h := Hold(want.dir, w, path)];
      } else {
        LockFails(sh, tl, tl1, want, w, path, node);
        UnlockPath(want.dir, w, node, path);
      }
    }

    ghost predicate ValidBut(busy: int)
      reads this
    {
      Good() && Bound(clients, holds) && QueueOk(Tree(), holds, clients, lockq, busy)
    }

    ghost predicate Valid()
      reads this
    {
      ValidBut(-1)
    }

    /** unlock_path up to the root for a path that is held. */
    method Release(dir: nat, w: nat, ghost h: Key)
      requires Good() && h in holds && holds[h].dir == dir && holds[h].w == w
      requires h.1 && (h.0, false) in holds && holds[(h.0, false)].w in place ==> place[holds[(h.0, false)].w].0 == holds[(h.0, false)].dir
      modifies this`treelock, this`holds
      ensures Good() && treelock.Keys == old(treelock.Keys)
      ensures holds == old(holds) - {h} && treelock == Drop(old(treelock), w, old(holds)[h].path)
    {
      ghost var sh, tl, path := Tree(), treelock, holds[h].path;
      hide ShapeOk, HoldsOk, Exact, Climb, Distinct, Drop;
      ReleaseFacts(sh, tl, holds, h);
      HoldsRemoved(sh, holds, h);
      DropExact(tl, holds, h);
      UnlockPath(dir, w, 0, path);
      holds := holds - {h};
      assert Tree() == sh;
    }

    /** try_get_path for one path of a waiting element. */
    method LockPart(i: nat, second: bool) returns (err: int)
      requires ValidBut(i) && i < |lockq| && lockq[i].PathWait? && !Has(lockq[i], second) && (second ==> lockq[i].two)
      modifies this`treelock, this`holds, this`lockq
      ensures ValidBut(i) && treelock.Keys == old(treelock.Keys) && SameBut(old(holds), holds, old(lockq)[i].id)
      ensures err in {0, EAGAIN, ENOENT} && (err == ENOENT <==> Cut(Tree(), Part(old(lockq)[i], second)))
      ensures NegKept(old(treelock), treelock) && Grew(old(holds), holds) && ShapeOk(Tree()) && Part(old(lockq)[i], second).dir in treelock
      ensures err == 0 <==> PathFree(Tree(), old(treelock), Part(old(lockq)[i], second))
      ensures var e := old(lockq)[i]; var want := Part(e, second);
        if err == 0 then
          && treelock == Grab(old(treelock), Wanted(place, want), Chain(Tree(), want.dir)) && (e.id, second) in holds && Off(old(treelock), holds[(e.id, second)])
          && ((e.id, !second) in holds <==> (e.id, !second) in old(holds))
        else holds == old(holds)
      ensures lockq == old(lockq)[i := if err == 0 then WithPart(old(lockq)[i], second, Wanted(place, Part(old(lockq)[i], second))) else old(lockq)[i]]
    {
      hide *;
      PartFacts(this, i, second);
      var e := lockq[i];
      var want := Part(e, second);
      ghost var sh, was, tl := Shape(treelock.Keys, place, rank), holds, treelock;
      SameTree(this, sh);
      var w;
      err, w := TryGetPath(want, (e.id, second));
      SameTree(this, sh);
      LockEffect(sh, tl, treelock, want, Wanted(sh.place, want), err == 0);
      HoldsGrow(was, (e.id, second), Hold(want.dir, w, Chain(sh, want.dir)), e.id, second);
      if err == 0 {
        PartLocked(sh, was, clients, lockq, i, second, holds[(e.id, second)]);
        lockq := lockq[i := WithPart(e, second, w)];
      } else {
        SameKept(was, e.id);
      }
      ValidMade(this, i);
    }

    /** unlock_path for one path of a waiting element. */
    method UnlockPart(i: nat, second: bool)
      requires ValidBut(i) && i < |lockq| && lockq[i].PathWait? && Has(lockq[i], second) && (second ==> !lockq[i].first)
      modifies this`treelock, this`holds, this`lockq
      ensures ValidBut(i) && treelock.Keys == old(treelock.Keys) && SameBut(old(holds), holds, old(lockq)[i].id)
      ensures lockq == old(lockq)[i := WithoutPart(old(lockq)[i], second)]
      ensures var h := (old(lockq)[i].id, second);
        h in old(holds) && holds == old(holds) - {h} && treelock == Drop(old(treelock), old(holds)[h].w, old(holds)[h].path)
    {
      hide *;
      HeldFacts(this, i, second);
      var e := lockq[i];
      ghost var sh, was := Shape(treelock.Keys, place, rank), holds;
      SameTree(this, sh);
      Release(Part(e, second).dir, PartW(e, second), (e.id, second));
      SameTree(this, sh);
      PartUnlocked(sh, was, clients, lockq, i, second);
      lockq := lockq[i := WithoutPart(e, second)];
      ValidMade(this, i);
    }

    method QueueElementUnlock(i: nat, ghost tl0: map<nat, int>)
      requires ValidBut(i) && i < |lockq| && lockq[i].PathWait?
      modifies this`treelock, this`holds, this`lockq
      ensures NegKept(tl0, old(treelock)) && OwnOff(tl0, old(holds), old(lockq)[i].id) ==> NegKept(tl0, treelock)
      ensures ValidBut(i) && treelock.Keys == old(treelock.Keys) && SameBut(old(holds), holds, old(lockq)[i].id)
      ensures lockq == old(lockq)[i := old(lockq)[i].(first := false, second := false)]
    {
      hide ValidBut, Cut, Settled, QueueOk, NegKept, Off, Drop;
      if lockq[i].first {
        ghost var x, tl := holds, treelock;
        UnlockPart(i, false);
        OwnDrop(tl0, tl, x, lockq[i].id, false);
      }
      if lockq[i].second {
        ghost var x, tl := holds, treelock;
        UnlockPart(i, true);
        OwnDrop(tl0, tl, x, lockq[i].id, true);
      }
    }

    /** The element is done: with all it asked for, or with an error and nothing. */
    method Finish(i: nat, err: int)
      requires ValidBut(i) && i < |lockq| && lockq[i].PathWait?
      requires if err == 0 then Full(lockq[i])
        else err == ENOENT && !lockq[i].first && !lockq[i].second && (Cut(Tree(), lockq[i].want1) || (lockq[i].two && Cut(Tree(), lockq[i].want2)))
      modifies this`lockq
      ensures Valid() && lockq == old(lockq)[i := old(lockq)[i].(done := true, err := err)]
    {
      ghost var was := lockq;
      lockq := lockq[i := lockq[i].(done := true, err := err)];
      assert Flags(Tree(), holds, was[i]);
      SameKept(holds, was[i].id);
      FlagsKept(Tree(), holds, holds, clients, was, i, lockq[i]);
      Settle(Tree(), holds, clients, lockq, i);
    }

    /** Its first part: tries to lock what the element does not hold yet. */
    method TryParts(i: nat) returns (err: int)
      requires ValidBut(i) && i < |lockq| && lockq[i].PathWait?
      modifies this`treelock, this`holds, this`lockq
      ensures ValidBut(i) && treelock.Keys == old(treelock.Keys) && SameBut(old(holds), holds, old(lockq)[i].id)
      ensures |lockq| == |old(lockq)| && lockq == old(lockq)[i := lockq[i]] && Closer(old(lockq)[i], lockq[i])
      ensures err == ENOENT <==>
        var e := old(lockq)[i]; (!e.first && Cut(Tree(), e.want1)) || (e.two && !e.second && Cut(Tree(), e.want2))
      ensures err != ENOENT ==> err == 0 || err == EAGAIN
      ensures Tried(Tree(), old(treelock), old(holds), treelock, holds, old(lockq)[i], lockq[i], err)
    {
      hide ValidBut, Cut, QueueOk, SameBut, Wanted, Tree, NegKept, Off, Grew, Grab, Chain, PathFree, Linked, ShapeOk, Tried, Step, Exact, Good;
      ghost var sh, was, tl0, e := Shape(treelock.Keys, place, rank), holds, treelock, lockq[i];
      ElemFacts(this, sh, i);
      SameTree(this, sh);
      SameKept(holds, lockq[i].id);
      err := 0;
      StepNone(sh, tl0, was, e, false, 0);
      if !lockq[i].first {
        err := LockPart(i, false);
        SameTree(this, sh);
        StepMade(sh, tl0, was, treelock, holds, e, lockq[i], false, err);
      }
      ghost var tl1, mid, e1, err1 := treelock, holds, lockq[i], err;
      GoodNow(this, i);
      StepNone(sh, tl1, mid, e1, true, err1);
      if err != ENOENT && !lockq[i].second && lockq[i].two {
        err := LockPart(i, true);
        SameTree(this, sh);
        SameTrans(was, mid, holds, lockq[i].id);
        StepMade(sh, tl1, mid, treelock, holds, e1, lockq[i], true, err);
      }
      GoodNow(this, i);
      PartsTried(sh, tl0, was, tl1, mid, treelock, holds, e, e1, lockq[i], err1, err);
    }

    /** Its last part: the element is done, or gives back what it may not keep. */
    method Conclude(i: nat, err: int, ghost e: Elem, ghost tl0: map<nat, int>, ghost holds0: Holds)
      requires ValidBut(i) && i < |lockq| && lockq[i].PathWait? && e.PathWait? && Closer(e, lockq[i]) && Settled(Tree(), e, i)
      requires err == ENOENT <==> (!e.first && Cut(Tree(), e.want1)) || (e.two && !e.second && Cut(Tree(), e.want2))
      requires Tried(Tree(), tl0, holds0, treelock, holds, e, lockq[i], err) && Exact(tl0, holds0) && SameBut(holds0, holds, e.id)
      requires ((e.id, false) in holds0 <==> e.first) && ((e.id, true) in holds0 <==> e.second)
      modifies this`treelock, this`holds, this`lockq
      ensures Valid() && treelock.Keys == old(treelock.Keys) && SameBut(old(holds), holds, e.id)
      ensures |lockq| == |old(lockq)| && lockq == old(lockq)[i := lockq[i]] && Asks(e, lockq[i])
      ensures Stuck(Tree(), treelock, lockq[i]) && (i > 0 ==> Tighter(tl0, treelock))
    {
      hide ValidBut, Valid, Cut, QueueOk, Flags, ShapeOk, SameBut, Tree, Tried, Exact, Good, Stuck, Tighter, NegKept, OwnOff, Grew, Could;
      ghost var sh := Shape(treelock.Keys, place, rank);
      SameTree(this, sh);
      SameKept(holds, e.id);
      GoodNow(this, i);
      ghost var e1, tl1, was := lockq[i], treelock, holds;
      if err == ENOENT {
        QueueElementUnlock(i, tl0);
        SameTree(this, sh);
        GoodNow(this, i);
        SameTrans(holds0, was, holds, e.id);
        Released(sh, tl0, holds0, tl1, was, treelock, holds, e, e1, err, i);
        Finish(i, err);
        StuckDone(sh, treelock, lockq[i]);
      } else if lockq[i].first && (lockq[i].second || !lockq[i].two) {
        Gained(sh, tl0, holds0, treelock, holds, e, e1, err);
        Finish(i, 0);
        StuckDone(sh, treelock, lockq[i]);
      } else {
        if i != 0 {
          QueueElementUnlock(i, tl0);
          SameTree(this, sh);
          GoodNow(this, i);
          SameTrans(holds0, was, holds, e.id);
          Released(sh, tl0, holds0, tl1, was, treelock, holds, e, e1, err, i);
          StuckReleased(sh, tl0, holds0, tl1, was, treelock, e, e1, lockq[i], err);
        } else {
          StuckStill(sh, tl0, holds0, treelock, holds, e, e1, err);
        }
        SettleNow(this, i);
      }
    }

    method QueueElementWakeup(i: nat)
      requires Valid() && i < |lockq|
      modifies this`treelock, this`holds, this`lockq
      ensures Valid() && treelock.Keys == old(treelock.Keys) && SameBut(old(holds), holds, old(lockq)[i].id)
      ensures |lockq| == |old(lockq)| && lockq == old(lockq)[i := lockq[i]] && Asks(old(lockq)[i], lockq[i])
      ensures Stuck(Tree(), treelock, lockq[i]) && (i > 0 ==> Tighter(old(treelock), treelock))
    {
      hide ValidBut, Valid, Cut, QueueOk, Flags, ShapeOk, SameBut, Tree, Settled, Tried, Exact, Good, Stuck, Tighter;
      ghost var e, was, sh, tl0 := lockq[i], holds, Shape(treelock.Keys, place, rank), treelock;
      SameTree(this, sh);
      SettledNow(this, i);
      SameKept(holds, e.id);
      GoodNow(this, i);
      TighterSelf(tl0);
      if lockq[i].NodeWait? {
        StuckDone(sh, treelock, lockq[i]);
        return;
      }
      ElemFacts(this, sh, i);
      var err := TryParts(i);
      SameTree(this, sh);
      ghost var mid := holds;
      Conclude(i, err, e, tl0, was);
      SameTrans(was, mid, holds, e.id);
    }

    /** wake_up_queued: requests that are not in the queue keep what they hold. */
    method WakeUpQueued()
      requires Valid()
      modifies this`treelock, this`holds, this`lockq
      ensures Valid() && treelock.Keys == old(treelock.Keys) && SameOutside(old(holds), holds, lockq) && SameRequests(old(lockq), lockq)
      ensures forall i {:trigger lockq[i]} | 0 <= i < |lockq| :: Stuck(Tree(), treelock, lockq[i])
    {
      ghost var was, q, sh := holds, lockq, Shape(treelock.Keys, place, rank);
      SameStart(holds, lockq);
      hide ValidBut, Valid, SameBut, SameOutside, SameRequests, Stuck, Tighter, Tree;
      for i := 0 to |lockq|
        invariant |lockq| == |q| && Valid() && treelock.Keys == old(treelock.Keys)
        invariant SameOutside(was, holds, lockq) && SameRequests(q, lockq)
        invariant forall j {:trigger lockq[j]} | 0 <= j < i :: Stuck(sh, treelock, lockq[j])
      {
        ghost var mid, q1, tl := holds, lockq, treelock;
        QueueElementWakeup(i);
        SameTree(this, sh);
        SameStep(was, mid, holds, q, q1, lockq, i);
        forall j {:trigger lockq[j]} | 0 <= j < i
          ensures Stuck(sh, treelock, lockq[j])
        {
          assert lockq[j] == q1[j];
          StuckKept(sh, tl, treelock, q1[j]);
        }
      }
      SameTree(this, sh);
    }

    /** Request t is in progress and does not wait. */
    ghost predicate Runs(t: nat)
      reads this
    {
      Valid() && t in clients && Absent(lockq, t)
    }

    ghost method Join(t: nat)
      requires Valid() && t !in clients && |clients| + 1 < 0x3fff_ffff
      modifies this`clients
      ensures Runs(t) && clients == old(clients) + {t} && (t, false) !in holds && (t, true) !in holds
    {
      assert (t, false).0 == t && (t, true).0 == t;
      clients := clients + {t};
      SameKept(holds, t);
      QueueOther(Tree(), holds, holds, old(clients), clients, lockq, t);
    }

    ghost method Leave(t: nat)
      requires Runs(t) && (t, false) !in holds && (t, true) !in holds
      modifies this`clients
      ensures Valid() && clients == old(clients) - {t}
    {
      clients := clients - {t};
      SameKept(holds, t);
      QueueOther(Tree(), holds, holds, old(clients), clients, lockq, t);
      forall h: Key | h in holds
        ensures h.0 in clients
      {
        if h.1 {
          assert h == (h.0, true);
        } else {
          assert h == (h.0, false);
        }
      }
    }

    /** try_get_path for a running request. */
    method LockFor(t: nat, second: bool, want: Want) returns (err: int, w: nat)
      requires Runs(t) && (t, second) !in holds && want.dir in treelock
      modifies this`treelock, this`holds
      ensures Runs(t) && treelock.Keys == old(treelock.Keys)
      ensures err == Verdict(old(Tree()), old(treelock), want) && err in {0, EAGAIN, ENOENT}
      ensures err == 0 <==> PathFree(old(Tree()), old(treelock), want)
      ensures err == ENOENT <==> !Linked(old(Tree()), want.dir)
      ensures err == 0 ==> w == Wanted(place, want) && holds == old(holds)[(t, second) := Hold(want.dir, w, Chain(old(Tree()), want.dir))]
      ensures err == 0 ==> treelock == Grab(old(treelock), w, Chain(old(Tree()), want.dir))
      ensures err != 0 ==> holds == old(holds) && treelock == Refused(old(treelock), Wanted(place, want))
    {
      ghost var sh, was := Shape(treelock.Keys, place, rank), holds;
      SameTree(this, sh);
      FewHolds(clients, holds);
      VerdictCut(sh, treelock, holds, want);
      assert Good() && Bound(clients, holds) && QueueOk(sh, holds, clients, lockq, -1) && Absent(lockq, t) && t in clients;
      hide ValidBut, QueueOk, Tree, Bound, Good, Verdict, Wanted, Chain, Grab, Refused, Absent, ShapeOk, Linked, SameBut, HoldsOk, Exact, PathFree;
      err, w := TryGetPath(want, (t, second));
      SameTree(this, sh);
      SameKey(was, t, second, Hold(want.dir, w, Chain(sh, want.dir)));
      Changed(sh, was, holds, clients, lockq, t);
      ValidMade(this, -1);
    }

    /** unlock_path for a running request. */
    method ReleaseFor(t: nat, second: bool, dir: nat, w: nat)
      requires Runs(t) && (t, second) in holds && holds[(t, second)].dir == dir && holds[(t, second)].w == w
      requires second ==> (t, false) !in holds
      modifies this`treelock, this`holds
      ensures Runs(t) && treelock.Keys == old(treelock.Keys)
      ensures holds == old(holds) - {(t, second)} && treelock == Drop(old(treelock), w, old(holds)[(t, second)].path)
    {
      ghost var sh, was := Shape(treelock.Keys, place, rank), holds;
      SameTree(this, sh);
      assert Good() && Bound(clients, holds) && QueueOk(sh, holds, clients, lockq, -1) && Absent(lockq, t) && t in clients;
      hide ValidBut, QueueOk, Tree, Bound, Good, Drop, Absent, SameBut;
      Release(dir, w, (t, second));
      SameTree(this, sh);
      SameKey(was, t, second, was[(t, second)]);
      Changed(sh, was, holds, clients, lockq, t);
      ValidMade(this, -1);
    }

    /** queue_path */
    method QueuePath(e: Elem)
      requires Runs(e.id) && (e.id, false) !in holds && (e.id, true) !in holds
      requires if e.NodeWait? then e.node in treelock
        else e.want1.dir in treelock && (e.two ==> e.want2.dir in treelock) && !e.first && !e.second && !e.done
      modifies this`lockq
      ensures Valid() && lockq == old(lockq) + [e]
    {
      Enqueued(Tree(), holds, clients, lockq, e);
      lockq := lockq + [e];
    }

    /** get_path_common: the path is locked, or the request waits in the queue, or it has failed for good. */
    method GetPath(t: nat, want: Want) returns (err: int, w: nat)
      requires Valid() && t !in clients && |clients| + 1 < 0x3fff_ffff && want.dir in treelock
      modifies this`treelock, this`holds, this`lockq, this`clients
      ensures Valid() && treelock.Keys == old(treelock.Keys)
      ensures err in {0, EAGAIN, ENOENT} && (err == 0 <==> PathFree(old(Tree()), old(treelock), want))
      ensures err == ENOENT <==> !Linked(old(Tree()), want.dir)
      ensures clients == if err == ENOENT then old(clients) else old(clients) + {t}
      ensures err == 0 ==> Runs(t) && lockq == old(lockq) && w == Wanted(place, want)
      ensures err == 0 ==> holds == old(holds)[(t, false) := Hold(want.dir, w, Chain(old(Tree()), want.dir))]
      ensures err != 0 ==> holds == old(holds)
      ensures lockq == if err == EAGAIN then old(lockq) + [PathWait(t, want, false, want, false, false, 0, 0, false, 0)] else old(lockq)
    {
      hide Valid, ValidBut, Verdict, Wanted, Chain, Grab, Refused, PathFree, Linked;
      Join(t);
      err, w := LockFor(t, false, want);
      if err == EAGAIN {
        QueuePath(PathWait(t, want, false, want, false, false, 0, 0, false, 0));
      } else if err != 0 {
        Leave(t);
      }
    }

    /** try_get_path2 and get_path2: both paths are locked or neither is. */
    method GetPath2(t: nat, want1: Want, want2: Want) returns (err: int, w1: nat, w2: nat)
      requires Valid() && t !in clients && |clients| + 1 < 0x3fff_ffff && want1.dir in treelock && want2.dir in treelock
      modifies this`treelock, this`holds, this`lockq, this`clients
      ensures Valid() && treelock.Keys == old(treelock.Keys) && err in {0, EAGAIN, ENOENT}
      ensures err == 0 <==> BothFree(old(Tree()), old(treelock), want1, want2)
      ensures err == ENOENT <==> !Linked(old(Tree()), want1.dir) || (PathFree(old(Tree()), old(treelock), want1) && !Linked(old(Tree()), want2.dir))
      ensures clients == if err == ENOENT then old(clients) else old(clients) + {t}
      ensures err == 0 ==> Runs(t) && w1 == Wanted(place, want1) && w2 == Wanted(place, want2)
      ensures err == 0 ==> holds == old(holds)[(t, false) := Hold(want1.dir, w1, Chain(old(Tree()), want1.dir))][(t, true) := Hold(want2.dir, w2, Chain(old(Tree()), want2.dir))]
      ensures err != 0 ==> holds == old(holds)
      ensures lockq == if err == EAGAIN then old(lockq) + [PathWait(t, want1, true, want2, false, false, 0, 0, false, 0)] else old(lockq)
    {
      hide Valid, ValidBut, Wanted, Chain, PathFree, BothFree, Linked, ShapeOk, Tree;
      ghost var sh := Shape(treelock.Keys, place, rank);
      SameTree(this, sh);
      Join(t);
      SameTree(this, sh);
      err, w1, w2 := TryGetPath2(t, want1, want2);
      if err == EAGAIN {
        QueuePath(PathWait(t, want1, true, want2, false, false, 0, 0, false, 0));
      } else if err != 0 {
        Leave(t);
      }
    }

    /** try_get_path2 */
    method TryGetPath2(t: nat, want1: Want, want2: Want) returns (err: int, w1: nat, w2: nat)
      requires Runs(t) && (t, false) !in holds && (t, true) !in holds && want1.dir in treelock && want2.dir in treelock
      modifies this`treelock, this`holds
      ensures Runs(t) && treelock.Keys == old(treelock.Keys) && err in {0, EAGAIN, ENOENT}
      ensures err == 0 <==> BothFree(old(Tree()), old(treelock), want1, want2)
      ensures err == ENOENT <==> !Linked(old(Tree()), want1.dir) || (PathFree(old(Tree()), old(treelock), want1) && !Linked(old(Tree()), want2.dir))
      ensures err == 0 ==> w1 == Wanted(place, want1) && w2 == Wanted(place, want2)
      ensures err == 0 ==> holds == old(holds)[(t, false) := Hold(want1.dir, w1, Chain(old(Tree()), want1.dir))][(t, true) := Hold(want2.dir, w2, Chain(old(Tree()), want2.dir))]
      ensures err != 0 ==> holds == old(holds)
    {
      ghost var was, sh, tl := holds, Shape(treelock.Keys, place, rank), treelock;
      SameTree(this, sh);
      BothFirst(sh, tl, want1, want2);
      hide *;
      NoConfusion();
      w2 := 0;
      err, w1 := LockFor(t, false, want1);
      SameTree(this, sh);
      if err == 0 {
        SecondFree(sh, tl, want1, want2, treelock);
        err, w2 := LockFor(t, true, want2);
        if err != 0 {
          HoldBack(was, (t, false), Hold(want1.dir, w1, Chain(sh, want1.dir)));
          ReleaseFor(t, false, want1.dir, w1);
        }
      }
    }

    /** wait_path returns: element i is done and leaves the queue. */
    method WaitPathDone(i: nat) returns (err: int)
      requires Valid() && i < |lockq| && lockq[i].PathWait? && lockq[i].done
      modifies this`lockq, this`clients
      ensures Valid() && err == old(lockq)[i].err && lockq == old(lockq)[..i] + old(lockq)[i + 1..]
      ensures err == 0 ==> Runs(old(lockq)[i].id) && (old(lockq)[i].id, false) in holds && (old(lockq)[i].two ==> (old(lockq)[i].id, true) in holds)
      ensures err != 0 ==> clients == old(clients) - {old(lockq)[i].id} && (old(lockq)[i].id, false) !in holds && (old(lockq)[i].id, true) !in holds
    {
      var e := lockq[i];
      SettledNow(this, i);
      Dequeued(Tree(), holds, clients, lockq, i);
      lockq := lockq[..i] + lockq[i + 1..];
      err := e.err;
      assert Runs(e.id);
      if err != 0 {
        Leave(e.id);
      }
    }

    /** free_path and free_path_wrlock */
    method FreePath(t: nat, dir: nat, w: nat)
      requires Runs(t) && (t, false) in holds && holds[(t, false)].dir == dir && holds[(t, false)].w == w && (t, true) !in holds
      modifies this`treelock, this`holds, this`lockq, this`clients
      ensures Valid() && treelock.Keys == old(treelock.Keys) && clients == old(clients) - {t}
      ensures SameOutside(old(holds) - {(t, false)}, holds, lockq) && SameRequests(old(lockq), lockq)
      ensures forall i {:trigger lockq[i]} | 0 <= i < |lockq| :: Stuck(Tree(), treelock, lockq[i])
    {
      hide ValidBut, Drop, SameOutside, SameRequests, Stuck;
      ReleaseFor(t, false, dir, w);
      Leave(t);
      SameStart(holds, lockq);
      if lockq != [] {
        WakeUpQueued();
      }
    }

    method FreePath2(t: nat, dir1: nat, dir2: nat, w1: nat, w2: nat)
      requires Runs(t) && (t, false) in holds && holds[(t, false)].dir == dir1 && holds[(t, false)].w == w1
      requires (t, true) in holds && holds[(t, true)].dir == dir2 && holds[(t, true)].w == w2
      modifies this`treelock, this`holds, this`lockq, this`clients
      ensures Valid() && treelock.Keys == old(treelock.Keys) && clients == old(clients) - {t}
      ensures SameOutside(old(holds) - {(t, false), (t, true)}, holds, lockq) && SameRequests(old(lockq), lockq)
      ensures forall i {:trigger lockq[i]} | 0 <= i < |lockq| :: Stuck(Tree(), treelock, lockq[i])
    {
      hide ValidBut, Drop, SameOutside, SameRequests, Stuck;
      ReleaseFor(t, false, dir1, w1);
      ReleaseFor(t, true, dir2, w2);
      assert holds == old(holds) - {(t, false), (t, true)};
      Leave(t);
      WakeUpQueued();
    }

    constructor ()
      ensures Valid() && treelock == map[ROOT := 0] && place == map[] && lockq == [] && holds == map[] && clients == {}
    {
      treelock, place, lockq := map[ROOT := 0], map[], [];
      rank, holds, clients := map[ROOT := 0], map[], {};
      new;
      assert Readers(holds, ROOT) == {} && Writers(holds, ROOT) == {};
    }

    /** remove_node: unlinks an entry that request t has locked for writing. */
    method RemoveNode(t: nat, ghost second: bool, w: nat)
      requires Runs(t) && (t, second) in holds && holds[(t, second)].w == w && w in place
      modifies this`place
      ensures Runs(t) && place == old(place) - {w}
    {
      ghost var sh := Tree();
      Unlinked(sh, treelock, holds, (t, second));
      QueueEdit(sh, Unlink(sh, w), holds, clients, lockq);
      place := place - {w};
      assert Tree() == Unlink(sh, w);
    }

    /** rename_node: moves an entry that request t has locked for writing below a directory whose path it has locked. */
    method RenameNode(t: nat, w1: nat, newdir: nat, newname: string)
      requires Runs(t) && (t, false) in holds && holds[(t, false)].w == w1 && w1 in place
      requires newdir == holds[(t, false)].dir || ((t, true) in holds && newdir == holds[(t, true)].dir)
      requires var w2 := Entry(place, newdir, newname); w2 != 0 ==> (t, true) in holds && holds[(t, true)].w == w2
      modifies this`place, this`rank
      ensures Runs(t) && place == (old(place) - {Entry(old(place), newdir, newname)})[w1 := (newdir, newname)]
    {
      ghost var sh := Tree();
      HeldDirs(sh, holds, t);
      EntryFacts(sh, newdir, newname);
      NameFree(sh, newdir, newname);
      hide Entry, ShapeOk, Exact, HoldsOk, QueueOk, Bound;
      var w2 := LookupNode(newdir, newname);
      if w2 != 0 {
        OneWriter(sh, treelock, holds, t);
        RemoveNode(t, true, w2);
      } else {
        assert place == place - {w2};
      }
      hide ValidBut;
      MoveNode(t, w1, newdir, newname);
    }

    /** find_node: a new node, linked below its parent. */
    method AddNode(n: nat, dir: nat, name: string)
      requires Valid() && n !in treelock && n != 0 && dir in treelock && Entry(place, dir, name) == 0
      modifies this`treelock, this`place, this`rank
      ensures Valid() && place == old(place)[n := (dir, name)] && treelock == old(treelock)[n := 0]
    {
      ghost var sh' := AddFacts(this, n, dir, name);
      hide ShapeOk, HoldsOk, Exact, QueueOk, Bound, Entry, ValidBut;
      place := place[n := (dir, name)];
      treelock := treelock[n := 0];
      rank := sh'.rank;
      SameTree(this, sh');
      ValidMade(this, -1);
    }

    /** delete_node: a node without children that is not locked and that no request names. */
    method DeleteNode(n: nat)
      requires Valid() && n in treelock && n != ROOT && treelock[n] == 0
      requires forall m {:trigger place[m]} | m in place :: place[m].0 != n
      requires forall i {:trigger lockq[i]} | 0 <= i < |lockq| ::
        if lockq[i].NodeWait? then lockq[i].node != n else lockq[i].want1.dir != n && (lockq[i].two ==> lockq[i].want2.dir != n)
      modifies this`treelock, this`place
      ensures Valid() && place == old(place) - {n} && treelock == old(treelock) - {n}
    {
      ghost var sh, tl := Tree(), treelock;
      hide ShapeOk, HoldsOk, Exact, Bound, CutsKept, Settled;
      Deleted(sh, tl, holds, n);
      forall i {:trigger lockq[i]} | 0 <= i < |lockq|
        ensures if lockq[i].NodeWait? then lockq[i].node in Delete(sh, n).nodes
          else lockq[i].want1.dir in Delete(sh, n).nodes && (lockq[i].two ==> lockq[i].want2.dir in Delete(sh, n).nodes)
      {
        assert Flags(sh, holds, lockq[i]);
      }
      QueueEdit(sh, Delete(sh, n), holds, clients, lockq);
      place := place - {n};
      treelock := treelock - {n};
      assert Tree() == Delete(sh, n);
    }

    /** forget_node waits for a node to be unlocked. */
    method ForgetWait(t: nat, n: nat)
      requires Valid() && t !in clients && |clients| + 1 < 0x3fff_ffff && n in treelock
      modifies this`lockq, this`clients
      ensures Valid() && lockq == old(lockq) + [NodeWait(t, n)] && clients == old(clients) + {t}
    {
      Join(t);
      QueuePath(NodeWait(t, n));
    }

    method ForgetDone(i: nat)
      requires Valid() && i < |lockq| && lockq[i].NodeWait?
      modifies this`lockq, this`clients
      ensures Valid() && lockq == old(lockq)[..i] + old(lockq)[i + 1..] && clients == old(clients) - {old(lockq)[i].id}
    {
      ghost var e := lockq[i];
      SettledNow(this, i);
      Dequeued(Tree(), holds, clients, lockq, i);
      lockq := lockq[..i] + lockq[i + 1..];
      Leave(e.id);
    }

    method MoveNode(t: nat, w: nat, newdir: nat, newname: string)
      requires Runs(t) && (t, false) in holds && holds[(t, false)].w == w && w in place
      requires newdir == holds[(t, false)].dir || ((t, true) in holds && newdir == holds[(t, true)].dir)
      requires forall m {:trigger place[m]} | m in place && m != w :: place[m] != (newdir, newname)
      modifies this`place, this`rank
      ensures Runs(t) && place == old(place)[w := (newdir, newname)]
    {
      hide ValidBut, Good, Relink, ShapeOk, HoldsOk, Exact, QueueOk, Bound, Absent, Tree;
      ValidParts(this);
      MoveOk(Tree(), treelock, holds, clients, lockq, t, newdir, newname);
      ghost var sh := Relink(Tree(), w, newdir, newname);
      place := place[w := (newdir, newname)];
      rank := sh.rank;
      SameTree(this, sh);
      GoodMade(this);
      ValidMade(this, -1);
    }
  }

  lemma ValidParts(f: Locks)
    requires f.Valid()
    ensures ShapeOk(f.Tree()) && HoldsOk(f.Tree(), f.holds) && Exact(f.treelock, f.holds) && f.Tree().nodes == f.treelock.Keys && f.Tree().place == f.place
    ensures Bound(f.clients, f.holds) && QueueOk(f.Tree(), f.holds, f.clients, f.lockq, -1)
  {
    hide ShapeOk, HoldsOk, Exact, QueueOk, Bound;
  }

  lemma GoodMade(f: Locks)
    requires ShapeOk(f.Tree()) && HoldsOk(f.Tree(), f.holds) && Exact(f.treelock, f.holds)
    ensures f.Good()
  {
  }

  lemma MoveOk(sh: Shape, tl: map<nat, int>, holds: Holds, clients: set<nat>, q: seq<Elem>, t: nat, d: nat, name: string)
    requires ShapeOk(sh) && HoldsOk(sh, holds) && Exact(tl, holds) && tl.Keys == sh.nodes && QueueOk(sh, holds, clients, q, -1)
    requires (t, false) in holds && holds[(t, false)].w in sh.place
    requires d == holds[(t, false)].dir || ((t, true) in holds && d == holds[(t, true)].dir)
    requires forall m {:trigger sh.place[m]} | m in sh.place && m != holds[(t, false)].w :: sh.place[m] != (d, name)
    ensures holds[(t, false)].w in sh.nodes && d in sh.nodes
    ensures var sh' := Relink(sh, holds[(t, false)].w, d, name);
      && ShapeOk(sh') && HoldsOk(sh', holds) && QueueOk(sh', holds, clients, q, -1)
      && sh'.nodes == sh.nodes && sh'.place == sh.place[holds[(t, false)].w := (d, name)]
  {
    Relinked(sh, tl, holds, t, d, name);
    assert Relink(sh, holds[(t, false)].w, d, name).place == sh.place[holds[(t, false)].w := (d, name)];
    hide Relink, ShapeOk, HoldsOk, Exact, QueueOk, CutsKept;
    QueueEdit(sh, Relink(sh, holds[(t, false)].w, d, name), holds, clients, q);
  }

  lemma HeldDirs(sh: Shape, holds: Holds, t: nat)
    requires ShapeOk(sh) && HoldsOk(sh, holds)
    ensures 0 !in sh.place
    ensures forall second {:trigger (t, second)} | (t, second) in holds :: holds[(t, second)].dir in sh.nodes
  {
    assert (t, false) in holds ==> HoldOk(sh, holds, (t, false));
    assert (t, true) in holds ==> HoldOk(sh, holds, (t, true));
  }

  ghost predicate CutsKept(sh: Shape, sh': Shape) {
    ShapeOk(sh) && ShapeOk(sh') && forall n {:trigger Linked(sh', n)} | n in sh.nodes && n in sh'.nodes && !Linked(sh, n) :: !Linked(sh', n)
  }

  lemma QueueEdit(sh: Shape, sh': Shape, holds: Holds, clients: set<nat>, q: seq<Elem>)
    requires QueueOk(sh, holds, clients, q, -1) && CutsKept(sh, sh')
    requires sh.nodes <= sh'.nodes || forall i {:trigger q[i]} | 0 <= i < |q| ::
      if q[i].NodeWait? then q[i].node in sh'.nodes else q[i].want1.dir in sh'.nodes && (q[i].two ==> q[i].want2.dir in sh'.nodes)
    ensures QueueOk(sh', holds, clients, q, -1)
  {
    forall i {:trigger Flags(sh', holds, q[i])} | 0 <= i < |q|
      ensures Flags(sh', holds, q[i])
    {
      assert Flags(sh, holds, q[i]);
    }
    forall i {:trigger Settled(sh', q[i], i)} | 0 <= i < |q|
      ensures Settled(sh', q[i], i)
    {
      assert Settled(sh, q[i], i);
    }
  }

  /** What a request has locked for writing nobody else holds. */
  lemma WriterAlone(sh: Shape, tl: map<nat, int>, holds: Holds, h: Key)
    requires ShapeOk(sh) && HoldsOk(sh, holds) && Exact(tl, holds) && tl.Keys == sh.nodes && h in holds && holds[h].w in sh.place
    ensures forall k {:trigger holds[k]} | k in holds :: holds[h].w !in holds[k].path && holds[k].dir != holds[h].w
    ensures forall k {:trigger holds[k]} | k in holds && holds[k].w == holds[h].w :: k == h
  {
    var w := holds[h].w;
    assert h in Writers(holds, w) && w in tl;
    ExactHolders(tl, holds, w);
    forall k {:trigger holds[k]} | k in holds
      ensures w !in holds[k].path && holds[k].dir != w && (holds[k].w == w ==> k == h)
    {
      assert HoldOk(sh, holds, k);
      assert k !in Readers(holds, w);
      if holds[k].w == w {
        assert k in Writers(holds, w);
        OneElement(Writers(holds, w), h, k);
      }
    }
  }

  lemma OneElement<T>(s: set<T>, a: T, b: T)
    requires a in s && b in s && |s| <= 1
    ensures a == b
  {
    assert |s - {a}| == |s| - 1;
    assert s - {a} == {};
  }

  lemma OneWriter(sh: Shape, tl: map<nat, int>, holds: Holds, t: nat)
    requires ShapeOk(sh) && HoldsOk(sh, holds) && Exact(tl, holds) && tl.Keys == sh.nodes
    requires (t, false) in holds && (t, true) in holds && holds[(t, false)].w in sh.place
    ensures holds[(t, false)].w != holds[(t, true)].w
  {
    WriterAlone(sh, tl, holds, (t, false));
    assert HoldOk(sh, holds, (t, true));
  }

  lemma Unlinked(sh: Shape, tl: map<nat, int>, holds: Holds, h: Key)
    requires ShapeOk(sh) && HoldsOk(sh, holds) && Exact(tl, holds) && tl.Keys == sh.nodes && h in holds && holds[h].w in sh.place
    ensures var sh' := Unlink(sh, holds[h].w); ShapeOk(sh') && HoldsOk(sh', holds) && CutsKept(sh, sh') && sh'.nodes == sh.nodes
  {
    var e := holds[h].w;
    UnlinkOk(sh, e);
    WriterAlone(sh, tl, holds, h);
    HoldsKept(sh, Unlink(sh, e), e, holds);
    forall n {:trigger Linked(Unlink(sh, e), n)} | n in sh.nodes && !Linked(sh, n)
      ensures !Linked(Unlink(sh, e), n)
    {
      UnlinkCuts(sh, e, n);
    }
  }

  lemma Relinked(sh: Shape, tl: map<nat, int>, holds: Holds, t: nat, d: nat, name: string)
    requires ShapeOk(sh) && HoldsOk(sh, holds) && Exact(tl, holds) && tl.Keys == sh.nodes
    requires (t, false) in holds && holds[(t, false)].w in sh.place
    requires d == holds[(t, false)].dir || ((t, true) in holds && d == holds[(t, true)].dir)
    requires forall m {:trigger sh.place[m]} | m in sh.place && m != holds[(t, false)].w :: sh.place[m] != (d, name)
    ensures var e := holds[(t, false)].w; e in sh.nodes && d in sh.nodes
    ensures var sh' := Relink(sh, holds[(t, false)].w, d, name);
      ShapeOk(sh') && HoldsOk(sh', holds) && CutsKept(sh, sh') && sh'.nodes == sh.nodes
  {
    var h, e := (t, false), holds[(t, false)].w;
    WriterAlone(sh, tl, holds, h);
    assert HoldOk(sh, holds, h);
    assert (t, true) in holds ==> HoldOk(sh, holds, (t, true));
    RelinkOk(sh, e, d, name);
    var sh' := Relink(sh, e, d, name);
    HoldsKept(sh, sh', e, holds);
    HeldLinked(sh, holds, h, e);
    forall n {:trigger Linked(sh', n)} | n in sh.nodes && !Linked(sh, n)
      ensures !Linked(sh', n)
    {
      if e in Chain(sh, n) {
        BelowLinked(sh, n, e);
      }
      ChainKept(sh, sh', e, n);
    }
  }

  lemma Added(sh: Shape, tl: map<nat, int>, holds: Holds, e: nat, d: nat, name: string)
    requires ShapeOk(sh) && HoldsOk(sh, holds) && Exact(tl, holds) && tl.Keys == sh.nodes
    requires e !in sh.nodes && e != 0 && d in sh.nodes
    requires forall m {:trigger sh.place[m]} | m in sh.place :: sh.place[m] != (d, name)
    ensures var sh' := NewNode(sh, e, d, name);
      ShapeOk(sh') && HoldsOk(sh', holds) && CutsKept(sh, sh') && Exact(tl[e := 0], holds) && sh.nodes <= sh'.nodes
  {
    var sh', tl' := NewNode(sh, e, d, name), tl[e := 0];
    NewNodeOk(sh, e, d, name);
    forall h {:trigger holds[h]} | h in holds
      ensures e !in holds[h].path && holds[h].dir != e && holds[h].w != e
    {
      assert HoldOk(sh, holds, h);
      if e in holds[h].path {
        ChainRank(sh, holds[h].dir, e);
      }
    }
    HoldsKept(sh, sh', e, holds);
    assert Readers(holds, e) == {} && Writers(holds, e) == {};
    forall n {:trigger Linked(sh', n)} | n in sh.nodes && !Linked(sh, n)
      ensures !Linked(sh', n)
    {
      if e in Chain(sh, n) {
        ChainRank(sh, n, e);
      }
      ChainKept(sh, sh', e, n);
    }
  }

  lemma AddFacts(f: Locks, e: nat, d: nat, name: string) returns (sh': Shape)
    requires f.Valid() && e !in f.treelock && e != 0 && d in f.treelock && Entry(f.place, d, name) == 0
    ensures ShapeOk(sh') && HoldsOk(sh', f.holds) && Exact(f.treelock[e := 0], f.holds) && Bound(f.clients, f.holds)
    ensures QueueOk(sh', f.holds, f.clients, f.lockq, -1)
    ensures sh'.nodes == f.treelock[e := 0].Keys && sh'.place == f.place[e := (d, name)]
  {
    NameFree(f.Tree(), d, name);
    assert 0 !in f.place;
    assert d in f.rank;
    sh' := NewNode(f.Tree(), e, d, name);
    hide ShapeOk, HoldsOk, Exact, QueueOk, Bound, CutsKept, Entry;
    Added(f.Tree(), f.treelock, f.holds, e, d, name);
    QueueEdit(f.Tree(), sh', f.holds, f.clients, f.lockq);
  }

  lemma Deleted(sh: Shape, tl: map<nat, int>, holds: Holds, e: nat)
    requires ShapeOk(sh) && HoldsOk(sh, holds) && Exact(tl, holds) && tl.Keys == sh.nodes
    requires e in sh.nodes && e != ROOT && tl[e] == 0
    requires forall m {:trigger sh.place[m]} | m in sh.place :: sh.place[m].0 != e
    ensures var sh' := Delete(sh, e); ShapeOk(sh') && HoldsOk(sh', holds) && CutsKept(sh, sh') && Exact(tl - {e}, holds)
  {
    var sh' := Delete(sh, e);
    DeleteOk(sh, e);
    ExactHolders(tl, holds, e);
    forall h {:trigger holds[h]} | h in holds
      ensures e !in holds[h].path && holds[h].dir != e && holds[h].w != e
    {
      assert HoldOk(sh, holds, h);
      assert h !in Readers(holds, e) && h !in Writers(holds, e);
    }
    HoldsKept(sh, sh', e, holds);
    forall n {:trigger Linked(sh', n)} | n in sh'.nodes && !Linked(sh, n)
      ensures !Linked(sh', n)
    {
      ChildlessElsewhere(sh, n, e);
      ChainKept(sh, sh', e, n);
    }
  }

  lemma NameFree(sh: Shape, d: nat, name: string)
    requires ShapeOk(sh)
    ensures forall m {:trigger sh.place[m]} | m in sh.place && m != Entry(sh.place, d, name) :: sh.place[m] != (d, name)
  {
  }

  ghost predicate Absent(q: seq<Elem>, t: nat) {
    forall i {:trigger q[i]} | 0 <= i < |q| :: q[i].id != t
  }

  ghost predicate SameOutside(holds: Holds, holds': Holds, q: seq<Elem>) {
    forall h: Key {:trigger h in holds'} {:trigger h in holds} | Absent(q, h.0) :: (h in holds' <==> h in holds) && (h in holds ==> holds'[h] == holds[h])
  }

  ghost predicate SameRequests(q: seq<Elem>, q': seq<Elem>) {
    |q'| == |q| && forall i {:trigger q'[i]} {:trigger q[i]} | 0 <= i < |q| :: Asks(q[i], q'[i])
  }

  lemma SameStart(holds: Holds, q: seq<Elem>)
    ensures SameOutside(holds, holds, q) && SameRequests(q, q)
  {
  }

  lemma SameStep(h0: Holds, h1: Holds, h2: Holds, q: seq<Elem>, q1: seq<Elem>, q2: seq<Elem>, i: nat)
    requires SameOutside(h0, h1, q1) && SameRequests(q, q1) && i < |q1| && |q2| == |q1| && q2 == q1[i := q2[i]] && Asks(q1[i], q2[i])
    requires SameBut(h1, h2, q1[i].id)
    ensures SameOutside(h0, h2, q2) && SameRequests(q, q2)
  {
    forall h: Key {:trigger h in h2} {:trigger h in h0} | Absent(q2, h.0)
      ensures (h in h2 <==> h in h0) && (h in h0 ==> h2[h] == h0[h])
    {
      assert q2[i].id != h.0;
      assert Absent(q1, h.0) by {
        forall j {:trigger q1[j]} | 0 <= j < |q1|
          ensures q1[j].id != h.0
        {
          assert q2[j].id != h.0;
        }
      }
    }
  }

  /** Changes to one request outside the queue do not concern the queue. */
  lemma QueueOther(sh: Shape, holds: Holds, holds': Holds, clients: set<nat>, clients': set<nat>, q: seq<Elem>, t: nat)
    requires QueueOk(sh, holds, clients, q, -1) && Absent(q, t) && SameBut(holds, holds', t) && clients - {t} <= clients'
    ensures QueueOk(sh, holds', clients', q, -1)
  {
    forall i {:trigger Flags(sh, holds', q[i])} | 0 <= i < |q|
      ensures Flags(sh, holds', q[i])
    {
      assert Flags(sh, holds, q[i]) && q[i].id != t;
    }
  }

  lemma Changed(sh: Shape, holds: Holds, holds': Holds, clients: set<nat>, q: seq<Elem>, t: nat)
    requires QueueOk(sh, holds, clients, q, -1) && Bound(clients, holds) && Absent(q, t) && t in clients
    requires SameBut(holds, holds', t)
    ensures QueueOk(sh, holds', clients, q, -1) && Bound(clients, holds')
  {
    QueueOther(sh, holds, holds', clients, clients, q, t);
  }

  lemma Enqueued(sh: Shape, holds: Holds, clients: set<nat>, q: seq<Elem>, e: Elem)
    requires QueueOk(sh, holds, clients, q, -1) && Absent(q, e.id) && e.id in clients
    requires Flags(sh, holds, e) && Settled(sh, e, |q|)
    ensures QueueOk(sh, holds, clients, q + [e], -1)
  {
    var q' := q + [e];
    forall i {:trigger Flags(sh, holds, q'[i])} | 0 <= i < |q'|
      ensures Flags(sh, holds, q'[i])
    {
      assert i < |q| ==> Flags(sh, holds, q[i]);
    }
    forall i {:trigger Settled(sh, q'[i], i)} | 0 <= i < |q'|
      ensures Settled(sh, q'[i], i)
    {
      assert i < |q| ==> Settled(sh, q[i], i);
    }
  }

  lemma Dequeued(sh: Shape, holds: Holds, clients: set<nat>, q: seq<Elem>, i: nat)
    requires i < |q| && QueueOk(sh, holds, clients, q, -1)
    ensures QueueOk(sh, holds, clients, q[..i] + q[i + 1..], -1) && Absent(q[..i] + q[i + 1..], q[i].id)
  {
    var q' := q[..i] + q[i + 1..];
    forall j {:trigger q'[j]} | 0 <= j < |q'|
      ensures q'[j] == q[if j < i then j else j + 1]
    {
    }
    forall j {:trigger Flags(sh, holds, q'[j])} | 0 <= j < |q'|
      ensures Flags(sh, holds, q'[j])
    {
      assert Flags(sh, holds, q[if j < i then j else j + 1]);
    }
    forall j {:trigger Settled(sh, q'[j], j)} | 0 <= j < |q'|
      ensures Settled(sh, q'[j], j)
    {
      assert Settled(sh, q[if j < i then j else j + 1], if j < i then j else j + 1);
    }
  }

  /** The same request, holding no less. */
  predicate Closer(e: Elem, e': Elem)
    requires e.PathWait?
  {
    && e'.PathWait? && e'.(first := e.first, second := e.second, w1 := e.w1, w2 := e.w2) == e
    && (e.first ==> e'.first) && (e.second ==> e'.second)
  }

  lemma SameKey(holds: Holds, t: nat, second: bool, x: Hold)
    ensures SameBut(holds, holds[(t, second) := x], t) && SameBut(holds, holds - {(t, second)}, t) && SameBut(holds, holds, t)
  {
  }

  lemma SameTrans(a: Holds, b: Holds, c: Holds, id: nat)
    requires SameBut(a, b, id) && SameBut(b, c, id)
    ensures SameBut(a, c, id)
  {
  }

  /** The same request, whatever it holds by now. */
  predicate Asks(e: Elem, e': Elem) {
    match e
    case NodeWait(_, _) => e' == e
    case PathWait(id, want1, two, want2, _, _, _, _, _, _) =>
      e'.PathWait? && e'.id == id && e'.want1 == want1 && e'.two == two && e'.want2 == want2
  }

  lemma GoodNow(f: Locks, i: int)
    requires f.ValidBut(i)
    ensures f.Good() && ShapeOk(f.Tree()) && Exact(f.treelock, f.holds)
  {
  }

  lemma ElemFacts(f: Locks, sh: Shape, i: nat)
    requires f.ValidBut(i) && i < |f.lockq| && f.lockq[i].PathWait? && f.treelock.Keys == sh.nodes && f.place == sh.place && f.rank == sh.rank
    ensures var e := f.lockq[i];
      && Dirs(sh, f.treelock, e) && Exact(f.treelock, f.holds) && (e.second ==> e.two)
      && ((e.id, false) in f.holds <==> e.first) && ((e.id, true) in f.holds <==> e.second)
  {
    assert f.Tree() == sh;
    assert Flags(sh, f.holds, f.lockq[i]);
    hide ShapeOk, HoldsOk, Exact, QueueOk;
  }

  lemma TighterSelf(tl: map<nat, int>)
    ensures Tighter(tl, tl)
  {
  }

  lemma StuckDone(sh: Shape, tl: map<nat, int>, e: Elem)
    requires ShapeOk(sh) && tl.Keys == sh.nodes && (e.NodeWait? || e.done)
    ensures Stuck(sh, tl, e)
  {
  }

  /** The element has all it asked for. */
  lemma Gained(sh: Shape, tl0: map<nat, int>, holds0: Holds, tl: map<nat, int>, holds: Holds, e: Elem, e1: Elem, err: int)
    requires Tried(sh, tl0, holds0, tl, holds, e, e1, err) && Exact(tl0, holds0) && Exact(tl, holds)
    ensures Tighter(tl0, tl)
  {
    TighterExact(tl0, holds0, tl, holds);
  }

  /** The element gave back what it had just taken. */
  lemma Released(sh: Shape, tl0: map<nat, int>, holds0: Holds, tl1: map<nat, int>, was: Holds, tl: map<nat, int>, holds: Holds, e: Elem, e1: Elem, err: int, i: nat)
    requires Tried(sh, tl0, holds0, tl1, was, e, e1, err) && Exact(tl0, holds0) && Exact(tl, holds) && Settled(sh, e, i) && (err == ENOENT || !Full(e1))
    requires (e.first ==> e1.first) && (e.second ==> e1.second) && e1.two == e.two
    requires err == ENOENT ==> !Full(e)
    requires NegKept(tl0, tl1) && OwnOff(tl0, was, e.id) ==> NegKept(tl0, tl)
    requires SameBut(holds0, holds, e.id) && ((e.id, false) in holds0 <==> e.first) && ((e.id, true) in holds0 <==> e.second)
    ensures i > 0 ==> Tighter(tl0, tl) && !e.first && !e.second
  {
    if i > 0 {
      assert !e.first && !e.second;
      hide Exact, Off, NegKept, Could, Dirs;
      assert Grew(holds0, holds) by { AbsentGrew(holds0, holds, e.id); }
      TighterExact(tl0, holds0, tl, holds);
    }
  }

  lemma KeyOf(h: Key, id: nat)
    ensures h.0 == id ==> h == (id, true) || h == (id, false)
  {
    if h.1 {
      assert h == (h.0, true);
    } else {
      assert h == (h.0, false);
    }
  }

  lemma AbsentGrew(holds: Holds, holds': Holds, id: nat)
    requires SameBut(holds, holds', id) && (id, false) !in holds && (id, true) !in holds
    ensures Grew(holds, holds')
  {
    forall h: Key | h in holds
      ensures h in holds' && holds'[h] == holds[h]
    {
      KeyOf(h, id);
    }
  }

  lemma StuckReleased(sh: Shape, tl0: map<nat, int>, holds0: Holds, tl1: map<nat, int>, was: Holds, tl: map<nat, int>, e: Elem, e1: Elem, e2: Elem, err: int)
    requires Tried(sh, tl0, holds0, tl1, was, e, e1, err) && err != ENOENT && !Full(e1) && !e.first && !e.second && Tighter(tl0, tl)
    requires e2 == e1.(first := false, second := false)
    ensures Stuck(sh, tl, e2)
  {
    hide PathFree, BothFree, OwnOff, NegKept, Grew, ShapeOk;
    assert tl.Keys == sh.nodes by { assert tl0.Keys == sh.nodes; }
    assert !Could(sh, tl0, e2);
    CouldBefore(sh, tl0, tl, e2);
  }

  lemma StuckStill(sh: Shape, tl0: map<nat, int>, holds0: Holds, tl: map<nat, int>, holds: Holds, e: Elem, e1: Elem, err: int)
    requires Tried(sh, tl0, holds0, tl, holds, e, e1, err) && err != ENOENT && !Full(e1)
    ensures Stuck(sh, tl, e1)
  {
    hide Could, OwnOff, NegKept, Grew, ShapeOk;
  }

  lemma SettledNow(f: Locks, i: nat)
    requires f.Valid() && i < |f.lockq|
    ensures f.ValidBut(i) && Settled(f.Tree(), f.lockq[i], i) && Flags(f.Tree(), f.holds, f.lockq[i])
  {
  }

  lemma SettleNow(f: Locks, i: nat)
    requires f.ValidBut(i) && i < |f.lockq| && Settled(f.Tree(), f.lockq[i], i)
    ensures f.Valid()
  {
    Settle(f.Tree(), f.holds, f.clients, f.lockq, i);
  }

  lemma PartFacts(f: Locks, i: nat, second: bool)
    requires f.ValidBut(i) && i < |f.lockq| && f.lockq[i].PathWait? && !Has(f.lockq[i], second) && (second ==> f.lockq[i].two)
    ensures f.Good() && Bound(f.clients, f.holds) && QueueOk(f.Tree(), f.holds, f.clients, f.lockq, i)
    ensures var e := f.lockq[i]; var want := Part(e, second);
      && want.dir in f.treelock && (e.id, second) !in f.holds && |f.holds| + 1 < 0x7fff_ffff && ShapeOk(f.Tree())
      && Verdict(f.Tree(), f.treelock, want) in {0, EAGAIN, ENOENT}
      && (Verdict(f.Tree(), f.treelock, want) == ENOENT <==> Cut(f.Tree(), want))
    ensures EAGAIN != 0 && ENOENT != 0
  {
    var e := f.lockq[i];
    assert Flags(f.Tree(), f.holds, e);
    FewHolds(f.clients, f.holds);
    hide Bound, QueueOk, ShapeOk, HoldsOk, Exact, Linked, Verdict;
    VerdictCut(f.Tree(), f.treelock, f.holds, Part(e, second));
  }

  lemma HeldFacts(f: Locks, i: nat, second: bool)
    requires f.ValidBut(i) && i < |f.lockq| && f.lockq[i].PathWait? && Has(f.lockq[i], second) && (second ==> !f.lockq[i].first)
    ensures f.Good() && Bound(f.clients, f.holds) && QueueOk(f.Tree(), f.holds, f.clients, f.lockq, i)
    ensures var e := f.lockq[i]; var h := (e.id, second);
      && h in f.holds && f.holds[h].dir == Part(e, second).dir && f.holds[h].w == PartW(e, second)
      && (h.1 ==> (h.0, false) !in f.holds)
  {
    assert Flags(f.Tree(), f.holds, f.lockq[i]);
  }

  lemma SameTree(f: Locks, sh: Shape)
    requires f.treelock.Keys == sh.nodes && f.place == sh.place && f.rank == sh.rank
    ensures f.Tree() == sh
  {
  }

  lemma ValidMade(f: Locks, i: int)
    requires f.Good() && Bound(f.clients, f.holds) && QueueOk(f.Tree(), f.holds, f.clients, f.lockq, i)
    ensures f.ValidBut(i)
  {
  }

  lemma SameKept(holds: Holds, id: nat)
    ensures SameBut(holds, holds, id)
  {
  }

  lemma PartLocked(sh: Shape, holds: Holds, clients: set<nat>, q: seq<Elem>, i: nat, second: bool, x: Hold)
    requires i < |q| && q[i].PathWait? && QueueOk(sh, holds, clients, q, i) && Bound(clients, holds) && (second ==> q[i].two)
    requires x.dir == Part(q[i], second).dir
    ensures var e := q[i]; var holds' := holds[(e.id, second) := x];
      QueueOk(sh, holds', clients, q[i := WithPart(e, second, x.w)], i) && Bound(clients, holds') && SameBut(holds, holds', e.id)
  {
    var e := q[i];
    assert Flags(sh, holds, e) && e.id in clients;
    FlagsKept(sh, holds, holds[(e.id, second) := x], clients, q, i, WithPart(e, second, x.w));
  }

  lemma PartUnlocked(sh: Shape, holds: Holds, clients: set<nat>, q: seq<Elem>, i: nat, second: bool)
    requires i < |q| && q[i].PathWait? && QueueOk(sh, holds, clients, q, i) && Bound(clients, holds)
    ensures var e := q[i]; var holds' := holds - {(e.id, second)};
      QueueOk(sh, holds', clients, q[i := WithoutPart(e, second)], i) && Bound(clients, holds') && SameBut(holds, holds', e.id)
  {
    var e := q[i];
    assert Flags(sh, holds, e) && e.id in clients;
    FlagsKept(sh, holds, holds - {(e.id, second)}, clients, q, i, WithoutPart(e, second));
  }

  /** What holds in every state that calls of the operations can reach. */
  lemma LocksSafe(f: Locks)
    requires f.Valid()
    ensures forall n {:trigger f.treelock[n]} | n in f.treelock ::
      && |Writers(f.holds, n)| <= 1 && (Writers(f.holds, n) == {} || Readers(f.holds, n) == {})
      && (f.treelock[n] == WRITE <==> Writers(f.holds, n) != {})
      && (f.treelock[n] >= 0 ==> |Readers(f.holds, n)| == f.treelock[n])
      && (f.treelock[n] < WRITE ==> |Readers(f.holds, n)| == f.treelock[n] - WAIT_OFFSET > 0)
    ensures forall i {:trigger f.lockq[i]} | 0 < i < |f.lockq| && f.lockq[i].PathWait? && !f.lockq[i].done ::
      (f.lockq[i].id, false) !in f.holds && (f.lockq[i].id, true) !in f.holds
  {
    forall n {:trigger f.treelock[n]} | n in f.treelock
      ensures |Writers(f.holds, n)| <= 1 && (Writers(f.holds, n) == {} || Readers(f.holds, n) == {})
      ensures f.treelock[n] == WRITE <==> Writers(f.holds, n) != {}
      ensures f.treelock[n] >= 0 ==> |Readers(f.holds, n)| == f.treelock[n]
      ensures f.treelock[n] < WRITE ==> |Readers(f.holds, n)| == f.treelock[n] - WAIT_OFFSET > 0
    {
      ExactHolders(f.treelock, f.holds, n);
    }
    forall i {:trigger f.lockq[i]} | 0 < i < |f.lockq| && f.lockq[i].PathWait? && !f.lockq[i].done
      ensures (f.lockq[i].id, false) !in f.holds && (f.lockq[i].id, true) !in f.holds
    {
      SettledNow(f, i);
    }
  }
}
