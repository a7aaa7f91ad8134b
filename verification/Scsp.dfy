/** Short-circuit shadow paging: what a reader finds below the super block, slot by slot. */
module ScspSpec {
  import opened Words
  import opened Geometry
  import Tree

  type Mem = Tree.Mem

  const SUPER: nat := 1

  /** Role of a block; left is the number of valid bytes below it. */
  datatype Kind = Super | InodeRoot | Node(h: nat, left: nat, inodes: bool)

  predicate Ha(k: Kind) {
    k.InodeRoot? || (k.Node? && k.h == 0)
  }

  /** Whether slot s holds a valid block number. */
  predicate Ptr(k: Kind, blk: Block, s: nat)
    requires s < 512
  {
    match k
    case Super => s == 4
    case InodeRoot => s == 0 && Decode(blk[1]) > 0
    case Node(h, left, inodes) => if h > 0 then s * Cap(h - 1) < left else inodes && s % 16 == 4 && Decode(blk[s + 1]) > 0
  }

  /** The block number in a word, and what else the word says: the height of the tree it is the root of. */
  function Target(k: Kind, w: Word): nat {
    if Ha(k) then Decode(w) / 8 else Decode(w)
  }

  function Rest(k: Kind, w: Word): nat {
    if Ha(k) then Decode(w) % 8 else 0
  }

  function Sub(k: Kind, blk: Block, s: nat): Kind
    requires s < 512 && Ptr(k, blk, s)
  {
    match k
    case Super => InodeRoot
    case InodeRoot => Node(Rest(k, blk[0]), Decode(blk[1]), true)
    case Node(h, left, inodes) =>
      if h > 0 then Node(h - 1, if left - s * Cap(h - 1) < Cap(h - 1) then left - s * Cap(h - 1) else Cap(h - 1), inodes)
      else Node(Rest(k, blk[s]), Decode(blk[s + 1]), false)
  }

  datatype Seen = Data(w: Word) | Link(hole: bool, rest: nat) | Nothing

  /** What is found along a path of slots. */
  function See(m: Mem, b: nat, k: Kind, path: seq<nat>): Seen
    requires path != []
    decreases |path|
  {
    if path[0] >= 512 then Nothing
    else
      var blk := Tree.Get(m, b);
      if !Ptr(k, blk, path[0]) then (if |path| == 1 then Data(blk[path[0]]) else Nothing)
      else
        var c := Target(k, blk[path[0]]);
        if |path| == 1 then Link(c == 0, Rest(k, blk[path[0]]))
        else if c == 0 then Nothing
        else See(m, c, Sub(k, blk, path[0]), path[1..])
  }

  /** Same contents below two blocks. */
  ghost predicate Same(m: Mem, b: nat, m': Mem, b': nat, k: Kind) {
    forall path: seq<nat> {:trigger See(m', b', k, path)} | path != [] :: See(m', b', k, path) == See(m, b, k, path)
  }

  /** A set of blocks, with their kinds, that no valid pointer leaves. */
  ghost predicate Closed(m: Mem, live: map<nat, Kind>) {
    forall b, s: nat {:trigger Step(m, live, b, s)} | b in live && s < 512 :: Step(m, live, b, s)
  }

  ghost predicate Step(m: Mem, live: map<nat, Kind>, b: nat, s: nat)
    requires b in live && s < 512
  {
    var blk, k := Tree.Get(m, b), live[b];
    Ptr(k, blk, s) && Target(k, blk[s]) != 0 ==> Target(k, blk[s]) in live && live[Target(k, blk[s])] == Sub(k, blk, s)
  }

  /** Blocks outside the set do not matter. */
  lemma {:induction false} SeeKept(m: Mem, m': Mem, live: map<nat, Kind>, b: nat, path: seq<nat>)
    requires Closed(m, live) && b in live && path != []
    requires forall c {:trigger Tree.Get(m', c)} | c in live :: Tree.Get(m', c) == Tree.Get(m, c)
    ensures See(m', b, live[b], path) == See(m, b, live[b], path)
    decreases |path|
  {
    var blk, k := Tree.Get(m, b), live[b];
    if path[0] < 512 && |path| > 1 && Ptr(k, blk, path[0]) && Target(k, blk[path[0]]) != 0 {
      assert Step(m, live, b, path[0]);
      SeeKept(m, m', live, Target(k, blk[path[0]]), path[1..]);
    }
  }

  /** Blocks with their places: the slots that lead to them. Every valid pointer leads one slot further. */
  datatype Place = Place(path: seq<nat>, kind: Kind)

  ghost predicate Placed(m: Mem, place: map<nat, Place>) {
    forall b, s: nat {:trigger Onward(m, place, b, s)} | b in place && s < 512 :: Onward(m, place, b, s)
  }

  ghost predicate Onward(m: Mem, place: map<nat, Place>, b: nat, s: nat)
    requires b in place && s < 512
  {
    var blk, k := Tree.Get(m, b), place[b].kind;
    Ptr(k, blk, s) && Target(k, blk[s]) != 0 ==>
      Target(k, blk[s]) in place && place[Target(k, blk[s])] == Place(place[b].path + [s], Sub(k, blk, s))
  }

  lemma LongerAside(p: seq<nat>, s: nat, l: seq<nat>)
    requires !(p <= l)
    ensures !(p + [s] <= l)
  {
    assert p == (p + [s])[..|p|];
  }

  /** Blocks whose place is not on the way to l lead only to such blocks. */
  lemma {:induction false} SeeAside(m: Mem, m': Mem, place: map<nat, Place>, l: seq<nat>, b: nat, path: seq<nat>)
    requires Placed(m, place) && b in place && !(place[b].path <= l) && path != []
    requires forall c {:trigger Tree.Get(m', c)} | c in place && !(place[c].path <= l) :: Tree.Get(m', c) == Tree.Get(m, c)
    ensures See(m', b, place[b].kind, path) == See(m, b, place[b].kind, path)
    decreases |path|
  {
    var blk, k := Tree.Get(m, b), place[b].kind;
    if path[0] < 512 && |path| > 1 && Ptr(k, blk, path[0]) && Target(k, blk[path[0]]) != 0 {
      assert Onward(m, place, b, path[0]);
      LongerAside(place[b].path, path[0], l);
      SeeAside(m, m', place, l, Target(k, blk[path[0]]), path[1..]);
    }
  }

  /** A pointer replaced by another with the same rest changes nothing else about the block. */
  lemma PointerSwapped(k: Kind, blk: Block, t: nat, w: Word, s: nat)
    requires t < 512 && s < 512 && Ptr(k, blk, t) && Rest(k, w) == Rest(k, blk[t])
    ensures Ptr(k, blk[t := w], s) == Ptr(k, blk, s)
    ensures Ptr(k, blk, s) ==> Sub(k, blk[t := w], s) == Sub(k, blk, s)
  {
  }

  /** Reading through a pointer that was replaced comes to reading the two targets. */
  lemma SeeSwapped(m: Mem, m': Mem, b: nat, b': nat, k: Kind, t: nat, w: Word, path: seq<nat>)
    requires t < 512 && Ptr(k, Tree.Get(m, b), t) && Rest(k, w) == Rest(k, Tree.Get(m, b)[t]) && path != []
    requires Tree.Get(m', b') == Tree.Get(m, b)[t := w] && Target(k, w) != 0 && Target(k, Tree.Get(m, b)[t]) != 0
    requires |path| > 1 && path[0] < 512 && Ptr(k, Tree.Get(m, b), path[0]) && Target(k, Tree.Get(m', b')[path[0]]) != 0 ==>
      See(m', Target(k, Tree.Get(m', b')[path[0]]), Sub(k, Tree.Get(m, b), path[0]), path[1..])
        == See(m, Target(k, Tree.Get(m, b)[path[0]]), Sub(k, Tree.Get(m, b), path[0]), path[1..])
    ensures See(m', b', k, path) == See(m, b, k, path)
  {
    if path[0] < 512 {
      PointerSwapped(k, Tree.Get(m, b), t, w, path[0]);
    }
  }
}

/** indirect_cow.c: copies are kept outside the persistent memory until one store commits them all. */
module Scsp {
  import opened Words
  import opened ScspSpec
  import Tree
  import Bpram

  /** A copied block: the block it replaces, its contents, whether it must be written, and its copied children. */
  datatype Rec = Rec(orig: nat, dram: Block, required: bool, kids: seq<nat>)

  /** Memory as the running system sees it: copies under their own numbers. */
  function View(bpram: Mem, recs: map<nat, Rec>): Mem {
    bpram + map c | c in recs :: recs[c].dram
  }

  /** What is known about a transaction: the old tree's blocks, the new tree's places, and each copy's slot in its parent. */
  datatype Plan = Plan(live: map<nat, Kind>, place: map<nat, Place>, slot: map<nat, nat>)

  /** Copy c points to its copied child kid, where the original does not. */
  ghost predicate KidOk(bpram: Mem, recs: map<nat, Rec>, p: Plan, c: nat, kid: nat)
    requires c in recs
  {
    && kid in recs && kid in p.slot && p.slot[kid] < 512 && c in p.place
    && var (t, k, dram) := (p.slot[kid], p.place[c].kind, recs[c].dram);
    Ptr(k, dram, t) && Target(k, dram[t]) == kid && dram[t] != Tree.Get(bpram, recs[c].orig)[t]
  }

  /** Copy c differs from its original only in the pointer to its one copied child. */
  ghost predicate Lean(bpram: Mem, recs: map<nat, Rec>, p: Plan, c: nat)
    requires c in recs
  {
    && |recs[c].kids| == 1 && KidOk(bpram, recs, p, c, recs[c].kids[0])
    && var (kid, k, dram, orig) := (recs[c].kids[0], p.place[c].kind, recs[c].dram, Tree.Get(bpram, recs[c].orig));
    var t := p.slot[kid];
    && dram == orig[t := dram[t]] && Ptr(k, orig, t)
    && Target(k, orig[t]) == recs[kid].orig && Rest(k, orig[t]) == Rest(k, dram[t])
  }

  ghost predicate RecOk(bpram: Mem, recs: map<nat, Rec>, p: Plan, c: nat)
    requires c in recs
  {
    && c !in p.live && recs[c].orig in p.live && recs[c].orig !in p.place
    && (forall i {:trigger recs[c].kids[i]} | 0 <= i < |recs[c].kids| :: KidOk(bpram, recs, p, c, recs[c].kids[i]))
    && (forall i, j {:trigger recs[c].kids[i], recs[c].kids[j]} | 0 <= i < j < |recs[c].kids| :: recs[c].kids[i] != recs[c].kids[j])
    && (!recs[c].required && |recs| > 1 && Writable(Tree.Get(bpram, recs[c].orig), recs[c].dram) ==> Lean(bpram, recs, p, c))
  }

  /** A transaction ready to commit; sup is the copy of the super block. */
  ghost predicate Staged(bpram: Mem, recs: map<nat, Rec>, sup: nat, p: Plan) {
    && SUPER in p.live && p.live[SUPER] == Super && Closed(bpram, p.live) && 0 !in p.live && 0 !in recs
    && Placed(View(bpram, recs), p.place) && sup in p.place && p.place[sup] == Place([], Super)
    && sup in recs && recs[sup].orig == SUPER && !recs[sup].required
    && (|recs| == 1 ==> recs[sup].kids == [] && recs[sup].dram == Tree.Get(bpram, SUPER))
    && (|recs| > 1 ==> Lean(bpram, recs, p, sup))
    && (forall c {:trigger RecOk(bpram, recs, p, c)} | c in recs :: RecOk(bpram, recs, p, c))
    && (forall c, d {:trigger recs[c], recs[d]} | c in recs && d in recs && recs[c].orig == recs[d].orig :: c == d)
  }

  predicate NextCopy(recs: map<nat, Rec>, chain: seq<nat>, i: int) {
    0 <= i < |chain| - 1 && chain[i] in recs && !recs[chain[i]].required && recs[chain[i]].kids == [chain[i + 1]]
  }

  /** The copies from the super block down, each the only copied child of the one before, all but the last not required. */
  ghost predicate Chain(recs: map<nat, Rec>, sup: nat, chain: seq<nat>) {
    && chain != [] && chain[0] == sup && (forall i {:trigger chain[i]} | 0 <= i < |chain| :: chain[i] in recs)
    && forall i {:trigger NextCopy(recs, chain, i)} | 0 <= i < |chain| - 1 :: NextCopy(recs, chain, i)
  }

  /** One store could write each copy of the chain above the last. */
  ghost predicate Singles(bpram: Mem, recs: map<nat, Rec>, chain: seq<nat>) {
    forall i {:trigger chain[i]} | 0 <= i < |chain| - 1 :: chain[i] in recs && Writable(Tree.Get(bpram, recs[chain[i]].orig), recs[chain[i]].dram)
  }

  /** Where the descent from the super block ends: at the first copy that is required, or whose one copied child differs in more
      than one word. Every copy on the way is written by one store. */
  ghost predicate CommitAt(bpram: Mem, recs: map<nat, Rec>, sup: nat, chain: seq<nat>) {
    && Chain(recs, sup, chain)
    && (forall i {:trigger chain[i]} | 0 <= i < |chain| :: Writable(Tree.Get(bpram, recs[chain[i]].orig), recs[chain[i]].dram))
    && var last := recs[chain[|chain| - 1]];
       last.required || (|last.kids| == 1 && last.kids[0] in recs && !Writable(Tree.Get(bpram, recs[last.kids[0]].orig), recs[last.kids[0]].dram))
  }

  /** The descent does not go on where it could end. */
  lemma NoLonger(bpram: Mem, recs: map<nat, Rec>, sup: nat, x: seq<nat>, y: seq<nat>)
    requires CommitAt(bpram, recs, sup, x) && CommitAt(bpram, recs, sup, y) && |x| <= |y| && y[|x| - 1] == x[|x| - 1]
    ensures |y| == |x|
  {
    hide Writable;
    assert |x| < |y| ==> y[|x|] in recs;
    assert |x| < |y| ==> NextCopy(recs, y, |x| - 1);
  }

  /** There is only one such descent, so the copies that a commit reverts are determined by the transaction. */
  lemma {:induction false} CommitUnique(bpram: Mem, recs: map<nat, Rec>, sup: nat, x: seq<nat>, y: seq<nat>, i: nat)
    requires CommitAt(bpram, recs, sup, x) && CommitAt(bpram, recs, sup, y) && |x| <= |y| && i <= |x|
    ensures x[..i] == y[..i] && (i == |x| ==> x == y)
    decreases i
  {
    if i > 0 {
      CommitUnique(bpram, recs, sup, x, y, i - 1);
      if i > 1 {
        assert NextCopy(recs, x, i - 2) && NextCopy(recs, y, i - 2);
        assert x[i - 2] == x[..i - 1][i - 2] == y[..i - 1][i - 2] == y[i - 2];
      }
      assert x[i - 1] == y[i - 1];
      assert x[..i] == x[..i - 1] + [x[i - 1]] && y[..i] == y[..i - 1] + [y[i - 1]];
      if i == |x| {
        NoLonger(bpram, recs, sup, x, y);
      }
    }
  }

  /** A copied child that stays while its parent is reverted hangs below the last copy reverted. */
  lemma StaysBelow(recs: map<nat, Rec>, sup: nat, chain: seq<nat>, c: nat, kid: nat)
    requires Chain(recs, sup, chain) && c in chain && kid in recs[c].kids && kid !in chain
    ensures c == chain[|chain| - 1]
  {
    var i :| 0 <= i < |chain| && chain[i] == c;
    assert i < |chain| - 1 ==> NextCopy(recs, chain, i);
  }

  /** At most one word differs. */
  ghost predicate Writable(a: Block, b: Block) {
    forall i, j {:trigger a[i], a[j]} | 0 <= i < 512 && 0 <= j < 512 && a[i] != b[i] && a[j] != b[j] :: i == j
  }

  method CowIsAtomicallyWritable(a: Block, b: Block) returns (ok: bool, off: nat, atomicNew: Word)
    ensures ok <==> Writable(a, b)
    ensures ok ==> off <= 512 && b == if off < 512 then a[off := atomicNew] else a
  {
    off, atomicNew := 512, ZERO_WORD;
    var i := 0;
    while i < 512
      invariant 0 <= i <= 512 && (off == 512 || off < i)
      invariant off < 512 ==> a[off] != b[off] && atomicNew == b[off]
      invariant forall j {:trigger a[j]} | 0 <= j < i && j != off :: a[j] == b[j]
    {
      if a[i] != b[i] {
        if off < 512 {
          return false, off, atomicNew;
        }
        off, atomicNew := i, b[i];
      }
      i := i + 1;
    }
    ok := true;
  }

  lemma KidsDiffer(bpram: Mem, recs: map<nat, Rec>, p: Plan, c: nat, x: nat, y: nat)
    requires c in recs && KidOk(bpram, recs, p, c, x) && KidOk(bpram, recs, p, c, y) && x != y
    ensures !Writable(Tree.Get(bpram, recs[c].orig), recs[c].dram)
  {
    hide Ptr;
    var a, b := Tree.Get(bpram, recs[c].orig), recs[c].dram;
    assert a[p.slot[x]] != b[p.slot[x]] && a[p.slot[y]] != b[p.slot[y]] && p.slot[x] != p.slot[y];
  }

  /** A copy that can be written by one store has at most one copied child. */
  lemma OneKid(bpram: Mem, recs: map<nat, Rec>, sup: nat, p: Plan, c: nat)
    requires Staged(bpram, recs, sup, p) && c in recs && Writable(Tree.Get(bpram, recs[c].orig), recs[c].dram)
    ensures |recs[c].kids| <= 1
  {
    assert RecOk(bpram, recs, p, c);
    hide Staged, KidOk, Writable;
    if |recs[c].kids| > 1 {
      KidsDiffer(bpram, recs, p, c, recs[c].kids[0], recs[c].kids[1]);
    }
  }

  lemma LeanWritable(bpram: Mem, recs: map<nat, Rec>, p: Plan, c: nat)
    requires c in recs && Lean(bpram, recs, p, c)
    ensures Writable(Tree.Get(bpram, recs[c].orig), recs[c].dram)
  {
  }

  /** Copied child d is placed one slot below copy c. */
  ghost predicate Below(recs: map<nat, Rec>, p: Plan, c: nat, d: nat) {
    && c in recs && c in p.place && d in p.place && d in p.slot && p.slot[d] < 512
    && Ptr(p.place[c].kind, recs[c].dram, p.slot[d])
    && p.place[d] == Place(p.place[c].path + [p.slot[d]], Sub(p.place[c].kind, recs[c].dram, p.slot[d]))
  }

  lemma KidBelow(bpram: Mem, recs: map<nat, Rec>, p: Plan, c: nat, d: nat)
    requires Placed(View(bpram, recs), p.place) && c in recs && KidOk(bpram, recs, p, c, d) && d != 0
    ensures Below(recs, p, c, d)
  {
    hide Ptr, Sub, Target;
    assert Tree.Get(View(bpram, recs), c) == recs[c].dram;
    assert Onward(View(bpram, recs), p.place, c, p.slot[d]);
  }

  lemma ChainBelow(bpram: Mem, recs: map<nat, Rec>, sup: nat, p: Plan, chain: seq<nat>, i: nat)
    requires Staged(bpram, recs, sup, p) && Chain(recs, sup, chain) && 0 < i < |chain|
    ensures Below(recs, p, chain[i - 1], chain[i])
  {
    var c := chain[i - 1];
    assert NextCopy(recs, chain, i - 1);
    assert RecOk(bpram, recs, p, c) && recs[c].kids[0] == chain[i];
    hide Placed, KidOk, Lean;
    KidBelow(bpram, recs, p, c, chain[i]);
  }

  lemma ChainLean(bpram: Mem, recs: map<nat, Rec>, sup: nat, p: Plan, chain: seq<nat>, i: nat)
    requires Staged(bpram, recs, sup, p) && Chain(recs, sup, chain) && Singles(bpram, recs, chain) && i < |chain| - 1 && |recs| > 1
    ensures Lean(bpram, recs, p, chain[i])
  {
    assert NextCopy(recs, chain, i);
    assert RecOk(bpram, recs, p, chain[i]);
    hide Placed, KidOk, Lean, Writable;
  }

  /** The places of the chain are the beginnings of the place of its last copy. */
  lemma {:induction false} ChainPlace(bpram: Mem, recs: map<nat, Rec>, sup: nat, p: Plan, chain: seq<nat>, i: nat, j: nat)
    requires Staged(bpram, recs, sup, p) && Chain(recs, sup, chain) && i <= j < |chain|
    ensures chain[i] in p.place && chain[j] in p.place && |p.place[chain[i]].path| == i
    ensures p.place[chain[i]].path <= p.place[chain[j]].path
    decreases j
  {
    assert chain[0] in p.place && p.place[chain[0]].path == [];
    hide Staged, Chain, Ptr, Sub;
    if j > 0 {
      ChainBelow(bpram, recs, sup, p, chain, j);
      if i < j {
        ChainPlace(bpram, recs, sup, p, chain, i, j - 1);
        Prefix(p.place[chain[i]].path, p.place[chain[j - 1]].path, p.slot[chain[j]]);
      } else {
        ChainPlace(bpram, recs, sup, p, chain, j - 1, j - 1);
      }
    }
  }

  lemma Prefix(a: seq<nat>, b: seq<nat>, s: nat)
    requires a <= b
    ensures a <= b + [s]
  {
  }

  /** Memory after the commit: the chain's last original holds its copy, every copy off the chain is stored under its number. */
  ghost predicate Committed(bpram: Mem, bpram': Mem, recs: map<nat, Rec>, chain: seq<nat>)
    requires chain != [] && chain[|chain| - 1] in recs
  {
    var last := recs[chain[|chain| - 1]];
    && Tree.Get(bpram', last.orig) == last.dram
    && (forall c {:trigger Tree.Get(bpram', c)} | c in recs && c !in chain && c != last.orig :: Tree.Get(bpram', c) == recs[c].dram)
    && (forall c {:trigger Tree.Get(bpram', c)} | (c !in recs || c in chain) && c != last.orig :: Tree.Get(bpram', c) == Tree.Get(bpram, c))
  }

  /** Off the chain the running system's view has become persistent. */
  lemma AsideStored(bpram: Mem, bpram': Mem, recs: map<nat, Rec>, sup: nat, p: Plan, chain: seq<nat>, c: nat)
    requires Staged(bpram, recs, sup, p) && Chain(recs, sup, chain) && Committed(bpram, bpram', recs, chain)
    requires c in p.place && chain[|chain| - 1] in p.place && !(p.place[c].path <= p.place[chain[|chain| - 1]].path)
    ensures Tree.Get(bpram', c) == Tree.Get(View(bpram, recs), c)
  {
    hide Lean, Closed, Placed, KidOk, NextCopy, Ptr, Target, Rest;
    assert RecOk(bpram, recs, p, chain[|chain| - 1]);
    if c in chain {
      var i :| 0 <= i < |chain| && chain[i] == c;
      ChainPlace(bpram, recs, sup, p, chain, i, |chain| - 1);
    }
  }

  /** Below a block off the chain both show the same. */
  lemma AsideSame(bpram: Mem, bpram': Mem, recs: map<nat, Rec>, sup: nat, p: Plan, chain: seq<nat>, c: nat, path: seq<nat>)
    requires Staged(bpram, recs, sup, p) && Chain(recs, sup, chain) && Committed(bpram, bpram', recs, chain) && path != []
    requires c in p.place && chain[|chain| - 1] in p.place && !(p.place[c].path <= p.place[chain[|chain| - 1]].path)
    ensures See(bpram', c, p.place[c].kind, path) == See(View(bpram, recs), c, p.place[c].kind, path)
  {
    var l := p.place[chain[|chain| - 1]].path;
    forall d {:trigger Tree.Get(bpram', d)} | d in p.place && !(p.place[d].path <= l)
      ensures Tree.Get(bpram', d) == Tree.Get(View(bpram, recs), d)
    {
      AsideStored(bpram, bpram', recs, sup, p, chain, d);
    }
    hide Committed, Chain;
    SeeAside(View(bpram, recs), bpram', p.place, l, c, path);
  }

  /** A valid pointer of a chain copy other than the one to the next copy leads off the chain. */
  lemma LeadsAside(bpram: Mem, recs: map<nat, Rec>, sup: nat, p: Plan, chain: seq<nat>, i: nat, s: nat)
    requires Staged(bpram, recs, sup, p) && Chain(recs, sup, chain) && i < |chain| && s < 512
    requires i < |chain| - 1 ==> chain[i + 1] in p.slot && s != p.slot[chain[i + 1]]
    ensures chain[i] in p.place && chain[|chain| - 1] in p.place
    ensures var (k, dram) := (p.place[chain[i]].kind, recs[chain[i]].dram); Ptr(k, dram, s) && Target(k, dram[s]) != 0 ==>
      && Target(k, dram[s]) in p.place && p.place[Target(k, dram[s])].kind == Sub(k, dram, s)
      && !(p.place[Target(k, dram[s])].path <= p.place[chain[|chain| - 1]].path)
  {
    var c, l := chain[i], |chain| - 1;
    assert Placed(View(bpram, recs), p.place);
    hide Staged, Chain, Ptr, Sub, Target;
    ChainPlace(bpram, recs, sup, p, chain, i, l);
    ChainPlace(bpram, recs, sup, p, chain, l, l);
    assert Tree.Get(View(bpram, recs), c) == recs[c].dram;
    assert Onward(View(bpram, recs), p.place, c, s);
    hide Placed;
    if i < l {
      ChainPlace(bpram, recs, sup, p, chain, i + 1, l);
      ChainBelow(bpram, recs, sup, p, chain, i + 1);
      OtherBranch(p.place[c].path, p.slot[chain[i + 1]], s, p.place[chain[l]].path);
    }
  }

  lemma OtherBranch(a: seq<nat>, t: nat, s: nat, l: seq<nat>)
    requires a + [t] <= l && s != t
    ensures !(a + [s] <= l)
  {
    assert l[|a|] == (a + [t])[|a|] == t;
    assert (a + [s])[|a|] == s;
  }

  /** The chain's last original shows what its copy shows. */
  lemma LastSame(bpram: Mem, bpram': Mem, recs: map<nat, Rec>, sup: nat, p: Plan, chain: seq<nat>, path: seq<nat>)
    requires Staged(bpram, recs, sup, p) && Chain(recs, sup, chain) && Committed(bpram, bpram', recs, chain) && path != []
    ensures var c := chain[|chain| - 1]; c in p.place && See(bpram', recs[c].orig, p.place[c].kind, path) == See(View(bpram, recs), c, p.place[c].kind, path)
  {
    var i := |chain| - 1;
    var c := chain[i];
    ChainPlace(bpram, recs, sup, p, chain, i, i);
    assert Tree.Get(View(bpram, recs), c) == recs[c].dram == Tree.Get(bpram', recs[c].orig);
    if path[0] < 512 && |path| > 1 {
      LeadsAside(bpram, recs, sup, p, chain, i, path[0]);
      var k, dram := p.place[c].kind, recs[c].dram;
      if Ptr(k, dram, path[0]) && Target(k, dram[path[0]]) != 0 {
        hide Staged, Chain, Committed, Ptr, Sub, Target;
        AsideSame(bpram, bpram', recs, sup, p, chain, Target(k, dram[path[0]]), path[1..]);
      }
    }
  }

  /** The originals above the last one keep their contents. */
  lemma OriginalKept(bpram: Mem, bpram': Mem, recs: map<nat, Rec>, sup: nat, p: Plan, chain: seq<nat>, i: nat)
    requires Staged(bpram, recs, sup, p) && Chain(recs, sup, chain) && Committed(bpram, bpram', recs, chain) && i < |chain| - 1
    ensures Tree.Get(bpram', recs[chain[i]].orig) == Tree.Get(bpram, recs[chain[i]].orig)
  {
    var o := recs[chain[i]].orig;
    ChainPlace(bpram, recs, sup, p, chain, i, |chain| - 1);
    ChainPlace(bpram, recs, sup, p, chain, |chain| - 1, |chain| - 1);
    assert RecOk(bpram, recs, p, chain[i]);
    assert o in recs ==> RecOk(bpram, recs, p, o);
  }

  lemma OrigNonzero(bpram: Mem, recs: map<nat, Rec>, sup: nat, p: Plan, d: nat)
    requires Staged(bpram, recs, sup, p) && d in recs
    ensures recs[d].orig != 0 && d != 0
  {
    assert RecOk(bpram, recs, p, d);
  }

  /** A lean copy and its original, slot by slot. */
  lemma LeanNext(bpram: Mem, recs: map<nat, Rec>, p: Plan, c: nat, d: nat, s: nat)
    requires c in recs && Lean(bpram, recs, p, c) && recs[c].kids == [d] && Below(recs, p, c, d) && s < 512
    ensures var (k, t, orig, dram) := (p.place[c].kind, p.slot[d], Tree.Get(bpram, recs[c].orig), recs[c].dram);
      && dram == orig[t := dram[t]] && Ptr(k, orig, t) && Rest(k, dram[t]) == Rest(k, orig[t]) && d in recs
      && Target(k, dram[t]) == d && Target(k, orig[t]) == recs[d].orig && p.place[d].kind == Sub(k, orig, t)
      && (Ptr(k, orig, s) ==> Ptr(k, dram, s) && Sub(k, orig, s) == Sub(k, dram, s))
  {
    var k, t, orig, dram := p.place[c].kind, p.slot[d], Tree.Get(bpram, recs[c].orig), recs[c].dram;
    assert recs[c].kids[0] == d;
    hide Ptr, Sub, Target, Rest;
    PointerSwapped(k, orig, t, dram[t], s);
    PointerSwapped(k, orig, t, dram[t], t);
  }

  /** So does every original of the chain. */
  lemma {:induction false} ChainSame(bpram: Mem, bpram': Mem, recs: map<nat, Rec>, sup: nat, p: Plan, chain: seq<nat>, i: nat, path: seq<nat>)
    requires Staged(bpram, recs, sup, p) && Chain(recs, sup, chain) && Singles(bpram, recs, chain) && Committed(bpram, bpram', recs, chain) && path != []
    requires i < |chain| && (i < |chain| - 1 ==> |recs| > 1)
    ensures var c := chain[i]; c in p.place && See(bpram', recs[c].orig, p.place[c].kind, path) == See(View(bpram, recs), c, p.place[c].kind, path)
    decreases |path|
  {
    if i == |chain| - 1 {
      LastSame(bpram, bpram', recs, sup, p, chain, path);
    } else {
      hide Staged, Chain, Committed, Ptr, Sub, Target, Lean, Below, See, Rest, Singles;
      ChainLink(bpram, bpram', recs, sup, p, chain, i);
      var c, d := chain[i], chain[i + 1];
      var k, t, orig, dram := p.place[c].kind, p.slot[d], Tree.Get(bpram, recs[c].orig), recs[c].dram;
      LeanNext(bpram, recs, p, c, d, t);
      if path[0] < 512 && |path| > 1 && Ptr(k, orig, path[0]) && Target(k, dram[path[0]]) != 0 {
        LeanNext(bpram, recs, p, c, d, path[0]);
        if path[0] == t {
          ChainSame(bpram, bpram', recs, sup, p, chain, i + 1, path[1..]);
        } else {
          LeadsAside(bpram, recs, sup, p, chain, i, path[0]);
          AsideSame(bpram, bpram', recs, sup, p, chain, Target(k, dram[path[0]]), path[1..]);
        }
      }
      SeeSwapped(bpram', View(bpram, recs), recs[c].orig, c, k, t, dram[t], path);
    }
  }

  lemma ChainLink(bpram: Mem, bpram': Mem, recs: map<nat, Rec>, sup: nat, p: Plan, chain: seq<nat>, i: nat)
    requires Staged(bpram, recs, sup, p) && Chain(recs, sup, chain) && Singles(bpram, recs, chain) && Committed(bpram, bpram', recs, chain)
    requires i < |chain| - 1 && |recs| > 1
    ensures var (c, d) := (chain[i], chain[i + 1]);
      && c in recs && d in recs && recs[c].kids == [d] && c in p.place && d in p.slot && p.slot[d] < 512 && d != 0 && recs[d].orig != 0
      && Lean(bpram, recs, p, c) && Below(recs, p, c, d)
      && Tree.Get(bpram', recs[c].orig) == Tree.Get(bpram, recs[c].orig) && Tree.Get(View(bpram, recs), c) == recs[c].dram
  {
    OriginalKept(bpram, bpram', recs, sup, p, chain, i);
    ChainBelow(bpram, recs, sup, p, chain, i + 1);
    ChainLean(bpram, recs, sup, p, chain, i);
    assert NextCopy(recs, chain, i);
    hide Staged, Singles, Lean;
    OrigNonzero(bpram, recs, sup, p, chain[i + 1]);
  }

  /** The persistent tree is the running system's tree. */
  lemma CommitSame(bpram: Mem, bpram': Mem, recs: map<nat, Rec>, sup: nat, p: Plan, chain: seq<nat>)
    requires Staged(bpram, recs, sup, p) && Chain(recs, sup, chain) && Committed(bpram, bpram', recs, chain)
    requires Singles(bpram, recs, chain) && (|chain| > 1 ==> |recs| > 1)
    ensures Same(View(bpram, recs), sup, bpram', SUPER, Super)
  {
    forall path: seq<nat> {:trigger See(bpram', SUPER, Super, path)} | path != []
      ensures See(bpram', SUPER, Super, path) == See(View(bpram, recs), sup, Super, path)
    {
      ChainSame(bpram, bpram', recs, sup, p, chain, 0, path);
    }
  }

  /** Until then every memory that differs only in the copies' own blocks shows the old tree. */
  lemma OldSame(bpram: Mem, m': Mem, recs: map<nat, Rec>, sup: nat, p: Plan)
    requires Staged(bpram, recs, sup, p)
    requires forall b {:trigger Tree.Get(m', b)} | b !in recs :: Tree.Get(m', b) == Tree.Get(bpram, b)
    ensures Same(bpram, SUPER, m', SUPER, Super)
  {
    forall path: seq<nat> {:trigger See(m', SUPER, Super, path)} | path != []
      ensures See(m', SUPER, Super, path) == See(bpram, SUPER, Super, path)
    {
      forall b {:trigger Tree.Get(m', b)} | b in p.live
        ensures Tree.Get(m', b) == Tree.Get(bpram, b)
      {
        assert b in recs ==> RecOk(bpram, recs, p, b);
      }
      SeeKept(bpram, m', p.live, SUPER, path);
    }
  }

  class Cow {
    var bpram: Mem
    var recs: map<nat, Rec>
    var allocs: set<nat>
    var frees: set<nat>
    ghost var crashes: iset<Mem>

    /** Finds the highest copy that one store can write and below which no single store would do. */
    method FindCommit(sup: nat, ghost p: Plan) returns (block: nat, off: nat, atomicNew: Word, ghost chain: seq<nat>)
      requires Staged(bpram, recs, sup, p) && |recs| > 1
      ensures Chain(recs, sup, chain) && Singles(bpram, recs, chain) && block == chain[|chain| - 1]
      ensures off <= 512 && recs[block].dram == (var o := Tree.Get(bpram, recs[block].orig); if off < 512 then o[off := atomicNew] else o)
      ensures |recs[block].kids| <= 1 && CommitAt(bpram, recs, sup, chain)
    {
      hide *;
      block, chain := sup, [sup];
      ChainStart(bpram, recs, sup, p);
      ghost var left := recs.Keys;
      var ok;
      while true
        invariant Chain(recs, sup, chain) && Singles(bpram, recs, chain) && chain != [] && block == chain[|chain| - 1] && block in recs
        invariant Writable(Tree.Get(bpram, recs[block].orig), recs[block].dram)
        invariant forall c {:trigger c in left} | c in recs && c !in chain :: c in left
        decreases left
      {
        ChainEnd(bpram, recs, sup, p, chain);
        var kids := recs[block].kids;
        assert kids != [] || recs[block].required;
        if kids != [] {
          assert |kids| == 1;
          ok, off, atomicNew := CowIsAtomicallyWritable(Tree.Get(bpram, recs[kids[0]].orig), recs[kids[0]].dram);
          if !ok {
            break;
          }
        }
        if recs[block].required {
          break;
        }
        ChainGrows(bpram, recs, sup, p, chain);
        SinglesGrow(bpram, recs, chain, kids[0]);
        chain := chain + [kids[0]];
        left := left - {kids[0]};
        block := kids[0];
      }
      ok, off, atomicNew := CowIsAtomicallyWritable(Tree.Get(bpram, recs[block].orig), recs[block].dram);
      ChainEnd(bpram, recs, sup, p, chain);
      DescentEnds(bpram, recs, sup, chain);
    }

    /** Gives the copies from the super block to the chain's end back and keeps their originals. */
    method Revert(sup: nat, stop: nat, ghost chain: seq<nat>)
      requires Chain(recs, sup, chain) && 0 !in recs
      requires forall a, b {:trigger chain[a], chain[b]} | 0 <= a < b < |chain| :: chain[a] != chain[b]
      requires var kids := recs[chain[|chain| - 1]].kids; stop == if kids == [] then 0 else kids[0]
      requires stop !in chain
      modifies this`recs, this`allocs, this`frees
      ensures recs == Without(old(recs), chain)
      ensures allocs == old(allocs) - set c | c in chain
      ensures frees == old(frees) - set c | c in chain :: old(recs)[c].orig
    {
      ghost var recs0, allocs0, frees0, i := recs, allocs, frees, 0;
      var block := sup;
      while block != stop
        invariant 0 <= i <= |chain| && block == if i < |chain| then chain[i] else stop
        invariant recs == Without(recs0, chain[..i])
        invariant allocs == allocs0 - set c | c in chain[..i]
        invariant frees == frees0 - set c | c in chain[..i] :: recs0[c].orig
        decreases |chain| - i
      {
        assert chain[..i + 1] == chain[..i] + [block];
        assert block in recs0 && block !in chain[..i];
        assert i < |chain| - 1 ==> NextCopy(recs0, chain, i);
        var r := recs[block];
        allocs := allocs - {block};
        frees := frees - {r.orig};
        recs := recs - {block};
        block := if r.kids == [] then 0 else r.kids[0];
        i := i + 1;
      }
      assert chain[..i] == chain;
    }

    /** Stores the remaining copies under their own numbers; a crash may tear the one being stored. */
    method CopyBlocks()
      modifies this`bpram, this`recs, this`crashes
      ensures recs == map[] && Copied(old(bpram), bpram, old(recs), map[])
      ensures old(crashes) <= crashes && forall m {:trigger m in crashes} | m in crashes :: m in old(crashes) || Outside(old(bpram), m, old(recs))
    {
      ghost var recs0, bpram0, crashes0 := recs, bpram, crashes;
      while recs != map[]
        invariant forall c {:trigger c in recs} | c in recs :: c in recs0 && recs[c] == recs0[c]
        invariant Copied(bpram0, bpram, recs0, recs)
        invariant crashes0 <= crashes && forall m {:trigger m in crashes} | m in crashes :: m in crashes0 || Outside(bpram0, m, recs0)
        decreases recs.Keys
      {
        var c :| c in recs;
        var dram := recs[c].dram;
        CopyStep(bpram0, bpram, recs0, recs, c);
        ghost var torn := iset m | Bpram.OnlyBlock(bpram, m, c);
        crashes := crashes + torn;
        recs := recs - {c};
        bpram := bpram[c := dram];
      }
    }

    /** indirect_cow_commit. Every crash before the last store shows the old tree; the end shows the running system's tree. */
    method Commit(sup: nat, ghost p: Plan) returns (ghost chain: seq<nat>)
      requires Staged(bpram, recs, sup, p)
      modifies this
      ensures recs == map[] && Chain(old(recs), sup, chain)
      ensures if |old(recs)| == 1 then chain == [sup] else CommitAt(old(bpram), old(recs), sup, chain)
      ensures Same(View(old(bpram), old(recs)), sup, bpram, SUPER, Super)
      ensures old(crashes) <= crashes
      ensures forall m {:trigger m in crashes} | m in crashes :: m in old(crashes) || Same(old(bpram), SUPER, m, SUPER, Super) || m == bpram
      ensures allocs == old(allocs) - set c | c in chain
      ensures frees == old(frees) - set c | c in chain :: old(recs)[c].orig
    {
      hide *;
      ghost var bpram0, recs0, crashes0 := bpram, recs, crashes;
      if |recs| == 1 {
        chain := [sup];
        OnlySuper(bpram, recs, sup, p);
        OneCopy(recs, sup);
        recs, allocs, frees := recs - {sup}, allocs - {sup}, frees - {SUPER};
        return;
      }
      var block, off, atomicNew;
      ManyRecs(bpram, recs, sup, p);
      block, off, atomicNew, chain := FindCommit(sup, p);
      FoundFacts(bpram, recs, sup, p, chain);
      var r := recs[block];
      Revert(sup, if r.kids == [] then 0 else r.kids[0], chain);
      CopyBlocks();
      CrashesOld(bpram0, crashes0, crashes, recs0, sup, p, chain);
      ghost var stored := bpram;
      if off < 512 {
        bpram := bpram[r.orig := Tree.Get(bpram, r.orig)[off := atomicNew]];
        crashes := crashes + iset{bpram};
      }
      LastStore(bpram0, stored, bpram, recs0, sup, p, chain, off, atomicNew);
    }
  }

  lemma DescentEnds(bpram: Mem, recs: map<nat, Rec>, sup: nat, chain: seq<nat>)
    requires Chain(recs, sup, chain) && Singles(bpram, recs, chain)
    requires var last := recs[chain[|chain| - 1]];
      && Writable(Tree.Get(bpram, last.orig), last.dram)
      && (last.required || (|last.kids| == 1 && last.kids[0] in recs && !Writable(Tree.Get(bpram, recs[last.kids[0]].orig), recs[last.kids[0]].dram)))
    ensures CommitAt(bpram, recs, sup, chain)
  {
    hide Writable;
  }

  lemma OneCopy(recs: map<nat, Rec>, sup: nat)
    requires sup in recs && recs[sup].orig == SUPER
    ensures {sup} == (set c | c in [sup]) && {SUPER} == (set c | c in [sup] :: recs[c].orig)
  {
  }

  lemma FoundFacts(bpram: Mem, recs: map<nat, Rec>, sup: nat, p: Plan, chain: seq<nat>)
    requires Staged(bpram, recs, sup, p) && Chain(recs, sup, chain) && |recs| > 1
    ensures chain != [] && chain[|chain| - 1] in recs && 0 !in recs
    ensures forall a, b {:trigger chain[a], chain[b]} | 0 <= a < b < |chain| :: chain[a] != chain[b]
    ensures var kids := recs[chain[|chain| - 1]].kids; 0 !in chain && (kids != [] ==> kids[0] !in chain)
  {
    ChainDistinct(bpram, recs, sup, p, chain);
    StopOutside(bpram, recs, sup, p, chain);
  }

  /** What remains to be stored is rest; all other copies are under their numbers. */
  ghost predicate Copied(bpram: Mem, bpram': Mem, recs: map<nat, Rec>, rest: map<nat, Rec>) {
    forall b {:trigger Tree.Get(bpram', b)} :: Tree.Get(bpram', b) == if b in recs && b !in rest then recs[b].dram else Tree.Get(bpram, b)
  }

  /** Only the copies' own blocks differ. */
  ghost predicate Outside(bpram: Mem, m: Mem, recs: map<nat, Rec>) {
    forall b {:trigger Tree.Get(m, b)} | b !in recs :: Tree.Get(m, b) == Tree.Get(bpram, b)
  }

  lemma OnlySuper(bpram: Mem, recs: map<nat, Rec>, sup: nat, p: Plan)
    requires Staged(bpram, recs, sup, p) && |recs| == 1
    ensures sup in recs && recs - {sup} == map[] && Chain(recs, sup, [sup]) && recs[sup].orig == SUPER
    ensures Same(View(bpram, recs), sup, bpram, SUPER, Super)
  {
    assert |recs.Keys - {sup}| == |recs.Keys| - 1 == |recs| - 1 == 0;
    assert (recs - {sup}).Keys == recs.Keys - {sup} == {};
    CommitSame(bpram, bpram, recs, sup, p, [sup]);
  }

  lemma ManyRecs(bpram: Mem, recs: map<nat, Rec>, sup: nat, p: Plan)
    requires Staged(bpram, recs, sup, p) && |recs| != 1
    ensures |recs| > 1 && 0 !in recs
  {
    assert recs.Keys != {} && |recs.Keys| == |recs|;
  }

  lemma StopOutside(bpram: Mem, recs: map<nat, Rec>, sup: nat, p: Plan, chain: seq<nat>)
    requires Staged(bpram, recs, sup, p) && Chain(recs, sup, chain)
    ensures var kids := recs[chain[|chain| - 1]].kids; 0 !in chain && (kids != [] ==> kids[0] !in chain)
  {
    var c := chain[|chain| - 1];
    if recs[c].kids != [] && recs[c].kids[0] in chain {
      var i :| 0 <= i < |chain| && chain[i] == recs[c].kids[0];
      assert RecOk(bpram, recs, p, c) && KidOk(bpram, recs, p, c, recs[c].kids[0]);
      ChainPlace(bpram, recs, sup, p, chain, i, |chain| - 1);
      ChainPlace(bpram, recs, sup, p, chain, |chain| - 1, |chain| - 1);
      KidBelow(bpram, recs, p, c, chain[i]);
    }
  }

  lemma CrashesOld(bpram: Mem, crashes: iset<Mem>, crashes': iset<Mem>, recs: map<nat, Rec>, sup: nat, p: Plan, chain: seq<nat>)
    requires Staged(bpram, recs, sup, p)
    requires forall m {:trigger m in crashes'} | m in crashes' :: m in crashes || Outside(bpram, m, Without(recs, chain))
    ensures forall m {:trigger m in crashes'} | m in crashes' :: m in crashes || Same(bpram, SUPER, m, SUPER, Super)
  {
    forall m {:trigger m in crashes'} | m in crashes' && m !in crashes
      ensures Same(bpram, SUPER, m, SUPER, Super)
    {
      hide Staged;
      OldSame(bpram, m, recs, sup, p);
    }
  }

  /** The last store leaves the committed memory. */
  lemma LastStore(bpram: Mem, stored: Mem, bpram': Mem, recs: map<nat, Rec>, sup: nat, p: Plan, chain: seq<nat>, off: nat, w: Word)
    requires Staged(bpram, recs, sup, p) && Chain(recs, sup, chain) && Singles(bpram, recs, chain) && |recs| > 1 && off <= 512
    requires Copied(bpram, stored, Without(recs, chain), map[])
    requires var r := recs[chain[|chain| - 1]]; r.dram == var o := Tree.Get(bpram, r.orig); if off < 512 then o[off := w] else o
    requires var r := recs[chain[|chain| - 1]]; bpram' == if off < 512 then stored[r.orig := Tree.Get(stored, r.orig)[off := w]] else stored
    ensures Same(View(bpram, recs), sup, bpram', SUPER, Super)
  {
    var r := recs[chain[|chain| - 1]];
    assert RecOk(bpram, recs, p, chain[|chain| - 1]);
    assert r.orig in recs ==> RecOk(bpram, recs, p, r.orig);
    hide Staged, Committed, Same, RecOk, Singles;
    StoreCommits(bpram, stored, bpram', recs, chain, off, w);
    CommitSame(bpram, bpram', recs, sup, p, chain);
  }

  lemma StoreCommits(bpram: Mem, stored: Mem, bpram': Mem, recs: map<nat, Rec>, chain: seq<nat>, off: nat, w: Word)
    requires chain != [] && chain[|chain| - 1] in recs && recs[chain[|chain| - 1]].orig !in recs && off <= 512
    requires Copied(bpram, stored, Without(recs, chain), map[])
    requires var r := recs[chain[|chain| - 1]]; r.dram == var o := Tree.Get(bpram, r.orig); if off < 512 then o[off := w] else o
    requires var r := recs[chain[|chain| - 1]]; bpram' == if off < 512 then stored[r.orig := Tree.Get(stored, r.orig)[off := w]] else stored
    ensures Committed(bpram, bpram', recs, chain)
  {
    var r := recs[chain[|chain| - 1]];
    assert Tree.Get(stored, r.orig) == Tree.Get(bpram, r.orig);
    assert forall b {:trigger Tree.Get(bpram', b)} | b != r.orig :: Tree.Get(bpram', b) == Tree.Get(stored, b);
  }

  lemma CopyStep(bpram0: Mem, bpram: Mem, recs0: map<nat, Rec>, recs: map<nat, Rec>, c: nat)
    requires c in recs && c in recs0 && recs[c] == recs0[c] && Copied(bpram0, bpram, recs0, recs)
    ensures Copied(bpram0, bpram[c := recs[c].dram], recs0, recs - {c})
    ensures forall m {:trigger Bpram.OnlyBlock(bpram, m, c)} | Bpram.OnlyBlock(bpram, m, c) :: Outside(bpram0, m, recs0)
  {
    var bpram', rest := bpram[c := recs[c].dram], recs - {c};
    forall b {:trigger Tree.Get(bpram', b)}
      ensures Tree.Get(bpram', b) == if b in recs0 && b !in rest then recs0[b].dram else Tree.Get(bpram0, b)
    {
      assert b != c ==> Tree.Get(bpram', b) == Tree.Get(bpram, b);
    }
    forall m {:trigger Bpram.OnlyBlock(bpram, m, c)} | Bpram.OnlyBlock(bpram, m, c)
      ensures Outside(bpram0, m, recs0)
    {
      forall b {:trigger Tree.Get(m, b)} | b !in recs0
        ensures Tree.Get(m, b) == Tree.Get(bpram0, b)
      {
        assert Tree.Get(m, b) == Tree.Get(bpram, b);
      }
    }
  }

  function Without(recs: map<nat, Rec>, chain: seq<nat>): map<nat, Rec> {
    map c | c in recs && c !in chain :: recs[c]
  }

  lemma ChainDistinct(bpram: Mem, recs: map<nat, Rec>, sup: nat, p: Plan, chain: seq<nat>)
    requires Staged(bpram, recs, sup, p) && Chain(recs, sup, chain)
    ensures forall a, b {:trigger chain[a], chain[b]} | 0 <= a < b < |chain| :: chain[a] != chain[b]
  {
    forall a, b {:trigger chain[a], chain[b]} | 0 <= a < b < |chain|
      ensures chain[a] != chain[b]
    {
      ChainPlace(bpram, recs, sup, p, chain, a, b);
      ChainPlace(bpram, recs, sup, p, chain, b, b);
    }
  }

  lemma ChainStart(bpram: Mem, recs: map<nat, Rec>, sup: nat, p: Plan)
    requires Staged(bpram, recs, sup, p) && |recs| > 1
    ensures sup in recs && Chain(recs, sup, [sup]) && Singles(bpram, recs, [sup]) && Writable(Tree.Get(bpram, recs[sup].orig), recs[sup].dram)
  {
    assert RecOk(bpram, recs, p, sup);
    LeanWritable(bpram, recs, p, sup);
  }

  /** The last copy of the chain is required or has a copied child, and it has no second one. */
  lemma ChainEnd(bpram: Mem, recs: map<nat, Rec>, sup: nat, p: Plan, chain: seq<nat>)
    requires Staged(bpram, recs, sup, p) && |recs| > 1 && Chain(recs, sup, chain)
    requires Writable(Tree.Get(bpram, recs[chain[|chain| - 1]].orig), recs[chain[|chain| - 1]].dram)
    ensures var c := chain[|chain| - 1];
      && c in recs && |recs[c].kids| <= 1 && (recs[c].kids != [] || recs[c].required) && (recs[c].kids != [] ==> recs[c].kids[0] in recs)
  {
    var c := chain[|chain| - 1];
    assert RecOk(bpram, recs, p, c);
    OneKid(bpram, recs, sup, p, c);
    hide Staged, Writable;
    if recs[c].kids != [] {
      assert KidOk(bpram, recs, p, c, recs[c].kids[0]);
    }
  }

  lemma SinglesGrow(bpram: Mem, recs: map<nat, Rec>, chain: seq<nat>, d: nat)
    requires Singles(bpram, recs, chain) && chain != [] && chain[|chain| - 1] in recs
    requires var c := chain[|chain| - 1]; Writable(Tree.Get(bpram, recs[c].orig), recs[c].dram)
    ensures Singles(bpram, recs, chain + [d])
  {
    hide Writable;
  }

  lemma ChainGrows(bpram: Mem, recs: map<nat, Rec>, sup: nat, p: Plan, chain: seq<nat>)
    requires Staged(bpram, recs, sup, p) && |recs| > 1 && Chain(recs, sup, chain) && !recs[chain[|chain| - 1]].required
    requires Writable(Tree.Get(bpram, recs[chain[|chain| - 1]].orig), recs[chain[|chain| - 1]].dram)
    ensures var kids := recs[chain[|chain| - 1]].kids; |kids| == 1 && kids[0] in recs && kids[0] !in chain && Chain(recs, sup, chain + [kids[0]])
  {
    var c := chain[|chain| - 1];
    assert RecOk(bpram, recs, p, c);
    OnlyKid(bpram, recs, p, c);
    hide Staged, RecOk, Writable;
    StopOutside(bpram, recs, sup, p, chain);
    ChainLonger(recs, sup, chain, recs[c].kids[0]);
  }

  lemma OnlyKid(bpram: Mem, recs: map<nat, Rec>, p: Plan, c: nat)
    requires c in recs && Lean(bpram, recs, p, c)
    ensures |recs[c].kids| == 1 && recs[c].kids == [recs[c].kids[0]] && recs[c].kids[0] in recs
  {
  }

  lemma ChainLonger(recs: map<nat, Rec>, sup: nat, chain: seq<nat>, d: nat)
    requires Chain(recs, sup, chain) && d in recs && !recs[chain[|chain| - 1]].required && recs[chain[|chain| - 1]].kids == [d]
    ensures Chain(recs, sup, chain + [d])
  {
    var chain' := chain + [d];
    forall i {:trigger NextCopy(recs, chain', i)} | 0 <= i < |chain'| - 1
      ensures NextCopy(recs, chain', i)
    {
      assert i < |chain| - 1 ==> NextCopy(recs, chain, i);
    }
  }
}
