/** How a transaction comes to be staged: the parent stack, the copies, and the stores into them. */
module StageSpec {
  import opened Words
  import opened ScspSpec
  import opened Sequences
  import Scsp
  import Tree

  /** A block on the way to a change: its copy (0 while there is none), the copy's contents, and its copied children, newest first. */
  datatype Blk = Blk(cow: nat, dram: Block, required: bool, parent: nat, kids: seq<nat>)

  /** By original number: the role each block will have, and the slot of its parent that leads to it. */
  datatype Guide = Guide(kind: map<nat, Kind>, slot: map<nat, nat>)

  /** blocks: by original number. cows: from copy to original. */
  datatype Stage = Stage(bpram: Mem, blocks: map<nat, Blk>, cows: map<nat, nat>)

  /** Both tables know the same copies. */
  ghost predicate Indexed(s: Stage) {
    && 0 !in s.blocks && 0 !in s.cows && s.cows.Keys !! s.blocks.Keys
    && (forall c {:trigger s.cows[c]} | c in s.cows :: s.cows[c] in s.blocks && s.blocks[s.cows[c]].cow == c)
    && (forall o {:trigger s.blocks[o]} | o in s.blocks && s.blocks[o].cow != 0 :: s.blocks[o].cow in s.cows && s.cows[s.blocks[o].cow] == o)
  }

  /** k is a copied child of o. */
  ghost predicate KidOf(s: Stage, o: nat, k: nat) {
    o in s.blocks && k in s.blocks[o].kids
  }

  /** The lists of copied children hold exactly the copies that have a parent, each once. */
  ghost predicate Listed(s: Stage) {
    && (forall o, k {:trigger KidOf(s, o, k)} | KidOf(s, o, k) :: k in s.blocks && s.blocks[k].cow != 0 && s.blocks[k].parent == o)
    && (forall o {:trigger s.blocks[o]} | o in s.blocks :: Distinct(s.blocks[o].kids))
    && (forall k {:trigger s.blocks[k]} | k in s.blocks && s.blocks[k].cow != 0 && s.blocks[k].parent != 0 :: KidOf(s, s.blocks[k].parent, k))
    && (forall k {:trigger s.blocks[k]} | k in s.blocks :: (s.blocks[k].parent == 0 <==> k == SUPER) && s.blocks[k].parent != k)
  }

  /** The copy of o points to the copy of k where the original points to k. */
  ghost predicate Linked(s: Stage, g: Guide, o: nat, k: nat) {
    && o in s.blocks && k in s.blocks && s.blocks[o].cow != 0 && s.blocks[k].cow != 0 && o in g.kind && k in g.slot && g.slot[k] < 512
    && var (t, kind, dram, orig) := (g.slot[k], g.kind[o], s.blocks[o].dram, Tree.Get(s.bpram, o));
    && Ptr(kind, dram, t) && Target(kind, dram[t]) == s.blocks[k].cow
    && Target(kind, orig[t]) == k && Rest(kind, dram[t]) == Rest(kind, orig[t])
  }

  /** Slot t of o leads to a copied child. */
  predicate KidSlot(s: Stage, g: Guide, o: nat, t: nat)
    requires o in s.blocks
  {
    exists i {:trigger s.blocks[o].kids[i]} :: 0 <= i < |s.blocks[o].kids| && s.blocks[o].kids[i] in g.slot && g.slot[s.blocks[o].kids[i]] == t
  }

  /** A copy that is not required differs from its original at most where it leads to copied children. */
  ghost predicate Careful(s: Stage, g: Guide, o: nat)
    requires o in s.blocks
  {
    s.blocks[o].cow != 0 && !s.blocks[o].required ==>
      forall t {:trigger s.blocks[o].dram[t]} | 0 <= t < 512 && s.blocks[o].dram[t] != Tree.Get(s.bpram, o)[t] :: KidSlot(s, g, o, t)
  }

  ghost predicate StageOk(s: Stage, g: Guide) {
    Indexed(s) && Listed(s) && forall o {:trigger Careful(s, g, o)} | o in s.blocks :: Careful(s, g, o)
  }

  function Cows(blocks: map<nat, Blk>, kids: seq<nat>): (r: seq<nat>)
    ensures |r| == |kids| && forall i {:trigger r[i]} | 0 <= i < |kids| :: r[i] == if kids[i] in blocks then blocks[kids[i]].cow else 0
  {
    seq(|kids|, i requires 0 <= i < |kids| => if kids[i] in blocks then blocks[kids[i]].cow else 0)
  }

  /** The copies as the commit sees them. */
  function Recs(s: Stage): map<nat, Scsp.Rec>
    requires forall c {:trigger s.cows[c]} | c in s.cows :: s.cows[c] in s.blocks
  {
    map c | c in s.cows :: var o := s.cows[c]; Scsp.Rec(o, s.blocks[o].dram, s.blocks[o].required, Cows(s.blocks, s.blocks[o].kids))
  }

  /** Nothing left to do: every copied child is linked, and a copy is required or has a copied child, unless the super block's is the only copy. */
  ghost predicate Settled(s: Stage, g: Guide) {
    && StageOk(s, g) && SUPER in s.blocks && s.blocks[SUPER].cow != 0 && !s.blocks[SUPER].required
    && (forall o, k {:trigger KidOf(s, o, k)} | KidOf(s, o, k) :: Linked(s, g, o, k))
    && (|s.cows| > 1 ==> forall o {:trigger s.blocks[o]} | o in s.blocks && s.blocks[o].cow != 0 :: s.blocks[o].required || s.blocks[o].kids != [])
    && (SUPER in g.kind && g.kind[SUPER] == Super)
  }

  /** The tree of the running system, with the roles and slots of the guide. */
  ghost predicate Planned(s: Stage, g: Guide, p: Scsp.Plan)
    requires forall c {:trigger s.cows[c]} | c in s.cows :: s.cows[c] in s.blocks
  {
    && SUPER in p.live && p.live[SUPER] == Super && Closed(s.bpram, p.live) && 0 !in p.live
    && Placed(Scsp.View(s.bpram, Recs(s)), p.place)
    && (forall c {:trigger s.cows[c]} | c in s.cows ::
          && c !in p.live && s.cows[c] in p.live && s.cows[c] !in p.place && c in p.place
          && s.cows[c] in g.kind && p.place[c].kind == g.kind[s.cows[c]]
          && (s.cows[c] in g.slot ==> c in p.slot && p.slot[c] == g.slot[s.cows[c]])
          && (s.cows[c] == SUPER ==> p.place[c] == Place([], Super)))
  }

  /** What is known of a copy and its i-th copied child. */
  lemma KidFacts(s: Stage, g: Guide, c: nat, i: nat)
    requires Settled(s, g) && c in s.cows && s.cows[c] in s.blocks && i < |s.blocks[s.cows[c]].kids|
    ensures var (o, k) := (s.cows[c], s.blocks[s.cows[c]].kids[i]);
      && k in s.blocks && Linked(s, g, o, k) && s.blocks[k].cow != 0 && s.blocks[k].parent == o
      && s.blocks[k].cow in s.cows && s.cows[s.blocks[k].cow] == k && k != SUPER && s.blocks[o].cow == c
  {
    var o := s.cows[c];
    var k := s.blocks[o].kids[i];
    assert KidOf(s, o, k);
    hide Linked, Careful, Distinct;
  }

  lemma RecIs(s: Stage, c: nat)
    requires c in s.cows && forall d {:trigger s.cows[d]} | d in s.cows :: s.cows[d] in s.blocks
    ensures var (r, o) := (Recs(s)[c], s.cows[c]);
      && c in Recs(s) && r.orig == o && r.dram == s.blocks[o].dram && r.required == s.blocks[o].required && r.kids == Cows(s.blocks, s.blocks[o].kids)
  {
  }

  lemma PlanIs(s: Stage, g: Guide, p: Scsp.Plan, c: nat)
    requires forall d {:trigger s.cows[d]} | d in s.cows :: s.cows[d] in s.blocks
    requires Planned(s, g, p) && c in s.cows
    ensures c !in p.live && s.cows[c] in p.live && s.cows[c] !in p.place && c in p.place
    ensures s.cows[c] in g.kind && p.place[c].kind == g.kind[s.cows[c]]
    ensures s.cows[c] in g.slot ==> c in p.slot && p.slot[c] == g.slot[s.cows[c]]
  {
    hide Closed, Placed;
  }

  lemma OrigsIn(s: Stage, g: Guide)
    requires Settled(s, g)
    ensures forall c {:trigger s.cows[c]} | c in s.cows :: s.cows[c] in s.blocks
  {
    hide Linked, Careful, Distinct;
  }

  lemma KidsOk(s: Stage, g: Guide, p: Scsp.Plan, c: nat, i: nat)
    requires Settled(s, g) && (forall d {:trigger s.cows[d]} | d in s.cows :: s.cows[d] in s.blocks) && Planned(s, g, p) && c in s.cows && i < |Recs(s)[c].kids|
    ensures Scsp.KidOk(s.bpram, Recs(s), p, c, Recs(s)[c].kids[i])
  {
    hide Settled, Planned, Recs, Ptr, Target, Rest;
    RecIs(s, c);
    var o := s.cows[c];
    var k := s.blocks[o].kids[i];
    KidFacts(s, g, c, i);
    PlanIs(s, g, p, c);
    PlanIs(s, g, p, s.blocks[k].cow);
    RecIs(s, s.blocks[k].cow);
    TargetsDiffer(g.kind[o], s.blocks[o].dram, Tree.Get(s.bpram, o), g.slot[k], s.blocks[k].cow, k);
    NotItsOwnCopy(s, g, k);
  }

  lemma TargetsDiffer(kind: Kind, a: Block, b: Block, t: nat, x: nat, y: nat)
    requires t < 512 && Target(kind, a[t]) == x && Target(kind, b[t]) == y
    ensures x != y ==> a[t] != b[t]
  {
  }

  lemma NotItsOwnCopy(s: Stage, g: Guide, k: nat)
    requires Settled(s, g) && k in s.blocks && s.blocks[k].cow in s.cows
    ensures s.blocks[k].cow != k
  {
    hide Linked, Careful, Distinct;
  }

  lemma KidsDistinct(s: Stage, g: Guide, c: nat, i: nat, j: nat)
    requires Settled(s, g) && (forall d {:trigger s.cows[d]} | d in s.cows :: s.cows[d] in s.blocks) && c in s.cows && i < j < |Recs(s)[c].kids|
    ensures Recs(s)[c].kids[i] != Recs(s)[c].kids[j]
  {
    assert Distinct(s.blocks[s.cows[c]].kids);
    hide Settled, Recs, Linked;
    RecIs(s, c);
    KidFacts(s, g, c, i);
    KidFacts(s, g, c, j);
  }

  lemma PtrSame(kind: Kind, blk: Block, t: nat, w: Word)
    requires t < 512
    ensures Ptr(kind, blk[t := w], t) == Ptr(kind, blk, t)
  {
  }

  /** With one copied child, a careful copy differs from its original in one word. */
  lemma OneWord(s: Stage, g: Guide, o: nat, k: nat)
    requires o in s.blocks && s.blocks[o].cow != 0 && Careful(s, g, o) && !s.blocks[o].required && s.blocks[o].kids == [k]
    requires k in g.slot && g.slot[k] < 512
    ensures s.blocks[o].dram == Tree.Get(s.bpram, o)[g.slot[k] := s.blocks[o].dram[g.slot[k]]]
  {
    var t, dram, orig := g.slot[k], s.blocks[o].dram, Tree.Get(s.bpram, o);
    forall i | 0 <= i < 512 && i != t
      ensures dram[i] == orig[i]
    {
      assert !KidSlot(s, g, o, i);
    }
  }

  lemma CarefulAt(s: Stage, g: Guide, c: nat)
    requires Settled(s, g) && c in s.cows && s.cows[c] in s.blocks
    ensures Careful(s, g, s.cows[c])
  {
    hide Careful, Linked, Distinct;
  }

  /** A copy with one copied child and no other reason to be written is lean. */
  lemma OneKidLean(s: Stage, g: Guide, p: Scsp.Plan, c: nat)
    requires Settled(s, g) && (forall d {:trigger s.cows[d]} | d in s.cows :: s.cows[d] in s.blocks) && Planned(s, g, p) && c in s.cows
    requires !s.blocks[s.cows[c]].required && |s.blocks[s.cows[c]].kids| == 1
    ensures Scsp.Lean(s.bpram, Recs(s), p, c)
  {
    hide Settled, Planned, Recs, Ptr, Target, Rest, Careful, Scsp.KidOk, Cows;
    var o := s.cows[c];
    var k := s.blocks[o].kids[0];
    CarefulAt(s, g, c);
    KidFacts(s, g, c, 0);
    assert s.blocks[o].kids == [k];
    OneWord(s, g, o, k);
    RecIs(s, c);
    KidsOk(s, g, p, c, 0);
    PlanIs(s, g, p, c);
    PlanIs(s, g, p, s.blocks[k].cow);
    RecIs(s, s.blocks[k].cow);
    PtrSame(g.kind[o], Tree.Get(s.bpram, o), g.slot[k], s.blocks[o].dram[g.slot[k]]);
  }

  lemma SomeReason(s: Stage, g: Guide, c: nat)
    requires Settled(s, g) && c in s.cows && s.cows[c] in s.blocks && |s.cows| > 1
    ensures s.blocks[s.cows[c]].required || s.blocks[s.cows[c]].kids != []
  {
    hide Careful, Linked, Distinct;
  }

  lemma KidsInRec(s: Stage, g: Guide, p: Scsp.Plan, c: nat)
    requires Settled(s, g) && (forall d {:trigger s.cows[d]} | d in s.cows :: s.cows[d] in s.blocks) && Planned(s, g, p) && c in s.cows
    ensures c in Recs(s)
    ensures var kids := Recs(s)[c].kids;
      && (forall i {:trigger kids[i]} | 0 <= i < |kids| :: Scsp.KidOk(s.bpram, Recs(s), p, c, kids[i]))
      && (forall i, j {:trigger kids[i], kids[j]} | 0 <= i < j < |kids| :: kids[i] != kids[j])
  {
    RecIs(s, c);
    hide Settled, Planned, Recs, Scsp.KidOk;
    var kids := Recs(s)[c].kids;
    forall i {:trigger kids[i]} | 0 <= i < |kids|
      ensures Scsp.KidOk(s.bpram, Recs(s), p, c, kids[i])
    {
      KidsOk(s, g, p, c, i);
    }
    forall i, j {:trigger kids[i], kids[j]} | 0 <= i < j < |kids|
      ensures kids[i] != kids[j]
    {
      KidsDistinct(s, g, c, i, j);
    }
  }

  /** A copy that one store could write is required or lean. */
  lemma LeanRec(s: Stage, g: Guide, p: Scsp.Plan, c: nat)
    requires Settled(s, g) && (forall d {:trigger s.cows[d]} | d in s.cows :: s.cows[d] in s.blocks) && Planned(s, g, p) && c in s.cows && |s.cows| > 1
    requires !s.blocks[s.cows[c]].required && c in Recs(s) && Scsp.Writable(Tree.Get(s.bpram, Recs(s)[c].orig), Recs(s)[c].dram)
    ensures Scsp.Lean(s.bpram, Recs(s), p, c)
  {
    hide Settled, Planned, Recs, Scsp.KidOk, Scsp.Writable, Scsp.Lean;
    RecIs(s, c);
    SomeReason(s, g, c);
    var kids := Recs(s)[c].kids;
    if |kids| > 1 {
      KidsOk(s, g, p, c, 0);
      KidsOk(s, g, p, c, 1);
      KidsDistinct(s, g, c, 0, 1);
      Scsp.KidsDiffer(s.bpram, Recs(s), p, c, kids[0], kids[1]);
    } else {
      OneKidLean(s, g, p, c);
    }
  }

  lemma StagedRec(s: Stage, g: Guide, p: Scsp.Plan, c: nat)
    requires Settled(s, g) && (forall d {:trigger s.cows[d]} | d in s.cows :: s.cows[d] in s.blocks) && Planned(s, g, p) && c in s.cows && |Recs(s)| == |s.cows|
    ensures c in Recs(s) && Scsp.RecOk(s.bpram, Recs(s), p, c)
  {
    hide Settled, Planned, Recs, Scsp.KidOk, Scsp.Writable, Scsp.Lean, Cows;
    RecIs(s, c);
    PlanIs(s, g, p, c);
    KidsInRec(s, g, p, c);
    if !Recs(s)[c].required && |s.cows| > 1 && Scsp.Writable(Tree.Get(s.bpram, Recs(s)[c].orig), Recs(s)[c].dram) {
      LeanRec(s, g, p, c);
    }
  }

  /** The super block has one pointer, hence at most one copied child. */
  lemma SuperKids(s: Stage, g: Guide)
    requires Settled(s, g)
    ensures |s.blocks[SUPER].kids| <= 1
  {
    var o := SUPER;
    if |s.blocks[o].kids| > 1 {
      var a, b := s.blocks[o].kids[0], s.blocks[o].kids[1];
      assert KidOf(s, o, a) && KidOf(s, o, b) && Distinct(s.blocks[o].kids);
    }
  }

  lemma AloneKids(s: Stage, g: Guide)
    requires Settled(s, g) && |s.cows| == 1
    ensures s.blocks[SUPER].kids == [] && s.blocks[SUPER].dram == Tree.Get(s.bpram, SUPER)
  {
    var c := s.blocks[SUPER].cow;
    OrigsIn(s, g);
    if s.blocks[SUPER].kids != [] {
      KidFacts(s, g, c, 0);
      var d := s.blocks[s.blocks[SUPER].kids[0]].cow;
      assert {c, d} <= s.cows.Keys && c != d;
      TwoKeys(s.cows, c, d);
    }
    assert Careful(s, g, SUPER);
    hide Settled;
    assert s.blocks[SUPER].dram == Tree.Get(s.bpram, SUPER);
  }

  lemma TwoKeys(m: map<nat, nat>, c: nat, d: nat)
    requires c in m && d in m && c != d
    ensures |m| > 1
  {
    assert |m.Keys - {c} - {d}| == |m.Keys| - 2;
  }

  lemma SuperRec(s: Stage, g: Guide, p: Scsp.Plan)
    requires Settled(s, g) && (forall d {:trigger s.cows[d]} | d in s.cows :: s.cows[d] in s.blocks) && Planned(s, g, p)
    ensures var (recs, sup) := (Recs(s), s.blocks[SUPER].cow);
      && sup in s.cows && s.cows[sup] == SUPER && sup in recs && recs[sup].orig == SUPER && !recs[sup].required
      && sup in p.place && p.place[sup] == Place([], Super)
      && (|s.cows| == 1 ==> recs[sup].kids == [] && recs[sup].dram == Tree.Get(s.bpram, SUPER))
      && (|s.cows| > 1 ==> Scsp.Lean(s.bpram, recs, p, sup))
  {
    var sup := s.blocks[SUPER].cow;
    assert sup in s.cows && s.cows[sup] == SUPER && p.place[sup] == Place([], Super);
    hide Planned, Scsp.Lean, Careful, Linked, Distinct;
    RecIs(s, sup);
    SuperKids(s, g);
    if |s.cows| == 1 {
      AloneKids(s, g);
    } else if |s.cows| > 1 {
      SomeReason(s, g, sup);
      OneKidLean(s, g, p, sup);
    }
  }

  lemma SameKeys(s: Stage)
    requires forall d {:trigger s.cows[d]} | d in s.cows :: s.cows[d] in s.blocks
    ensures Recs(s).Keys == s.cows.Keys && |Recs(s)| == |s.cows|
  {
    assert Recs(s).Keys == s.cows.Keys;
  }

  lemma OneCopyEach(s: Stage, g: Guide, c: nat, d: nat)
    requires Settled(s, g) && (forall d {:trigger s.cows[d]} | d in s.cows :: s.cows[d] in s.blocks) && c in s.cows && d in s.cows
    ensures Recs(s)[c].orig == Recs(s)[d].orig ==> c == d
  {
    hide Careful, Linked, Distinct;
    RecIs(s, c);
    RecIs(s, d);
  }

  lemma PlanStart(s: Stage, g: Guide, p: Scsp.Plan)
    requires Settled(s, g) && (forall d {:trigger s.cows[d]} | d in s.cows :: s.cows[d] in s.blocks) && Planned(s, g, p)
    ensures 0 !in s.cows && SUPER in s.blocks && SUPER in p.live && p.live[SUPER] == Super && Closed(s.bpram, p.live) && 0 !in p.live
    ensures Placed(Scsp.View(s.bpram, Recs(s)), p.place)
  {
    hide Listed, Careful, Linked, Closed, Placed, Scsp.View, Recs;
  }

  lemma AllRecsOk(s: Stage, g: Guide, p: Scsp.Plan)
    requires Settled(s, g) && (forall d {:trigger s.cows[d]} | d in s.cows :: s.cows[d] in s.blocks) && Planned(s, g, p)
    ensures var recs := Recs(s);
      && (forall c {:trigger Scsp.RecOk(s.bpram, recs, p, c)} | c in recs :: Scsp.RecOk(s.bpram, recs, p, c))
      && (forall c, d {:trigger recs[c], recs[d]} | c in recs && d in recs && recs[c].orig == recs[d].orig :: c == d)
  {
    var recs := Recs(s);
    SameKeys(s);
    hide Settled, Planned, Recs, Scsp.RecOk;
    forall c {:trigger Scsp.RecOk(s.bpram, recs, p, c)} | c in recs
      ensures Scsp.RecOk(s.bpram, recs, p, c)
    {
      StagedRec(s, g, p, c);
    }
    forall c, d {:trigger recs[c], recs[d]} | c in recs && d in recs && recs[c].orig == recs[d].orig
      ensures c == d
    {
      OneCopyEach(s, g, c, d);
    }
  }

  /** Staging done by these rules leaves a transaction that the commit can take. */
  lemma Reaches(s: Stage, g: Guide, p: Scsp.Plan)
    requires Settled(s, g) && (forall d {:trigger s.cows[d]} | d in s.cows :: s.cows[d] in s.blocks) && Planned(s, g, p)
    ensures Scsp.Staged(s.bpram, Recs(s), s.blocks[SUPER].cow, p)
  {
    hide Recs, Scsp.RecOk, Scsp.Lean, Closed, Placed;
    var recs, sup := Recs(s), s.blocks[SUPER].cow;
    hide Settled, Planned;
    SameKeys(s);
    SuperRec(s, g, p);
    PlanStart(s, g, p);
    AllRecsOk(s, g, p);
    assert |recs| >= 1;
  }
}

/** parent_push, parent_pop, block_cow, block_required, the stores in between, and abort. */
module ScspStage {
  import opened Words
  import opened ScspSpec
  import opened Sequences
  import opened StageSpec
  import Scsp
  import Tree

  /** A block seen for the first time. */
  function Pushed(s: Stage, o: nat, parent: nat): Stage {
    s.(blocks := s.blocks[o := Blk(0, ZeroBlock(), false, parent, [])])
  }

  lemma PushKeeps(s: Stage, g: Guide, o: nat, parent: nat)
    requires StageOk(s, g) && o != 0 && o !in s.blocks && o !in s.cows && (parent == 0 <==> o == SUPER) && (parent != 0 ==> parent in s.blocks)
    ensures StageOk(Pushed(s, o, parent), g)
  {
    var t := Pushed(s, o, parent);
    PushIndexed(s, o, parent);
    PushListed(s, o, parent);
    hide Listed, Indexed;
    CarefulSame(s, t, g, o);
  }

  lemma PushIndexed(s: Stage, o: nat, parent: nat)
    requires Indexed(s) && o != 0 && o !in s.blocks && o !in s.cows
    ensures Indexed(Pushed(s, o, parent))
  {
  }

  lemma PushListed(s: Stage, o: nat, parent: nat)
    requires Listed(s) && o != 0 && o !in s.blocks && (parent == 0 <==> o == SUPER) && (parent != 0 ==> parent in s.blocks)
    ensures Listed(Pushed(s, o, parent))
  {
    var t := Pushed(s, o, parent);
    forall x, k {:trigger KidOf(t, x, k)} | KidOf(t, x, k)
      ensures k in t.blocks && t.blocks[k].cow != 0 && t.blocks[k].parent == x
    {
      assert KidOf(s, x, k);
    }
    forall k {:trigger t.blocks[k]} | k in t.blocks && t.blocks[k].cow != 0 && t.blocks[k].parent != 0
      ensures KidOf(t, t.blocks[k].parent, k)
    {
      assert KidOf(s, s.blocks[k].parent, k);
    }
  }

  /** Blocks that stay as they are stay careful. */
  lemma CarefulSame(s: Stage, t: Stage, g: Guide, o: nat)
    requires (forall x {:trigger Careful(s, g, x)} | x in s.blocks :: Careful(s, g, x)) && t.bpram == s.bpram && o in t.blocks && Careful(t, g, o)
    requires forall x {:trigger t.blocks[x]} | x in t.blocks && x != o :: x in s.blocks && t.blocks[x] == s.blocks[x]
    ensures forall x {:trigger Careful(t, g, x)} | x in t.blocks :: Careful(t, g, x)
  {
    forall x {:trigger Careful(t, g, x)} | x in t.blocks
      ensures Careful(t, g, x)
    {
      if x != o {
        assert Careful(s, g, x);
        forall n {:trigger t.blocks[x].dram[n]} | t.blocks[x].cow != 0 && !t.blocks[x].required && 0 <= n < 512 && t.blocks[x].dram[n] != Tree.Get(t.bpram, x)[n]
          ensures KidSlot(t, g, x, n)
        {
          assert KidSlot(s, g, x, n);
        }
      }
    }
  }

  /** A block gets a copy. */
  lemma CowKeeps(s: Stage, g: Guide, o: nat, cow: nat, dram: Block, required: bool)
    requires StageOk(s, g) && o in s.blocks && s.blocks[o].cow == 0 && cow != 0 && cow !in s.cows && cow !in s.blocks
    requires (s.blocks[o].parent != 0 ==> s.blocks[o].parent in s.blocks) && (!required ==> dram == Tree.Get(s.bpram, o))
    ensures StageOk(Copied(s, o, cow, dram, required), g)
  {
    CowIndexed(s, o, cow, dram, required);
    CowListed(s, o, cow, dram, required);
    CowCareful(s, g, o, cow, dram, required);
    hide Listed, Careful, Indexed, Copied;
  }

  lemma CowIndexed(s: Stage, o: nat, cow: nat, dram: Block, required: bool)
    requires Indexed(s) && o in s.blocks && s.blocks[o].cow == 0 && cow != 0 && cow !in s.cows && cow !in s.blocks
    ensures Indexed(Copied(s, o, cow, dram, required))
  {
  }

  function Copied(s: Stage, o: nat, cow: nat, dram: Block, required: bool): Stage
    requires o in s.blocks
  {
    var q := s.blocks[o].parent;
    var blocks := s.blocks[o := s.blocks[o].(cow := cow, dram := dram, required := required)];
    s.(blocks := if q in blocks && q != 0 then blocks[q := blocks[q].(kids := [o] + blocks[q].kids)] else blocks, cows := s.cows[cow := o])
  }

  lemma CowListed(s: Stage, o: nat, cow: nat, dram: Block, required: bool)
    requires Listed(s) && o in s.blocks && s.blocks[o].cow == 0 && cow != 0
    requires s.blocks[o].parent != 0 ==> s.blocks[o].parent in s.blocks
    ensures Listed(Copied(s, o, cow, dram, required))
  {
    var q, t := s.blocks[o].parent, Copied(s, o, cow, dram, required);
    CowKids(s, o, cow, dram, required);
    CowDistinct(s, o, cow, dram, required);
    hide Distinct;
    forall k {:trigger t.blocks[k]} | k in t.blocks && t.blocks[k].cow != 0 && t.blocks[k].parent != 0
      ensures KidOf(t, t.blocks[k].parent, k)
    {
      if k != o {
        assert KidOf(s, s.blocks[k].parent, k);
      }
    }
  }

  lemma CowKids(s: Stage, o: nat, cow: nat, dram: Block, required: bool)
    requires Listed(s) && o in s.blocks && s.blocks[o].cow == 0 && cow != 0 && (s.blocks[o].parent != 0 ==> s.blocks[o].parent in s.blocks)
    ensures var t := Copied(s, o, cow, dram, required);
      forall x, k {:trigger KidOf(t, x, k)} | KidOf(t, x, k) :: k in t.blocks && t.blocks[k].cow != 0 && t.blocks[k].parent == x
  {
    hide Distinct;
    var q, t := s.blocks[o].parent, Copied(s, o, cow, dram, required);
    forall x, k {:trigger KidOf(t, x, k)} | KidOf(t, x, k)
      ensures k in t.blocks && t.blocks[k].cow != 0 && t.blocks[k].parent == x
    {
      assert KidOf(s, x, k) || (x == q && k == o);
    }
  }

  lemma CowDistinct(s: Stage, o: nat, cow: nat, dram: Block, required: bool)
    requires Listed(s) && o in s.blocks && s.blocks[o].cow == 0
    ensures var t := Copied(s, o, cow, dram, required); forall x {:trigger t.blocks[x]} | x in t.blocks :: Distinct(t.blocks[x].kids)
  {
    var q, t := s.blocks[o].parent, Copied(s, o, cow, dram, required);
    assert !KidOf(s, q, o);
    hide Distinct;
    forall x {:trigger t.blocks[x]} | x in t.blocks
      ensures Distinct(t.blocks[x].kids)
    {
      assert Distinct(s.blocks[x].kids);
      if x == q {
        ConsDistinct(o, s.blocks[q].kids);
      }
    }
  }

  lemma CowCareful(s: Stage, g: Guide, o: nat, cow: nat, dram: Block, required: bool)
    requires StageOk(s, g) && o in s.blocks && s.blocks[o].cow == 0 && cow != 0 && (!required ==> dram == Tree.Get(s.bpram, o))
    ensures var t := Copied(s, o, cow, dram, required); forall x {:trigger Careful(t, g, x)} | x in t.blocks :: Careful(t, g, x)
  {
    var t := Copied(s, o, cow, dram, required);
    assert s.blocks[o].parent != o;
    hide Listed, Indexed;
    forall x {:trigger Careful(t, g, x)} | x in t.blocks
      ensures Careful(t, g, x)
    {
      assert Careful(s, g, x);
      if x != o {
        MoreKids(s, t, g, x);
      }
    }
  }

  /** More copied children allow more differences. */
  lemma MoreKids(s: Stage, t: Stage, g: Guide, x: nat)
    requires x in s.blocks && x in t.blocks && t.bpram == s.bpram && Careful(s, g, x)
    requires t.blocks[x].cow == s.blocks[x].cow && t.blocks[x].dram == s.blocks[x].dram && t.blocks[x].required == s.blocks[x].required
    requires t.blocks[x].kids == s.blocks[x].kids || (|t.blocks[x].kids| == |s.blocks[x].kids| + 1 && t.blocks[x].kids[1..] == s.blocks[x].kids)
    ensures Careful(t, g, x)
  {
    forall n {:trigger t.blocks[x].dram[n]} | t.blocks[x].cow != 0 && !t.blocks[x].required && 0 <= n < 512 && t.blocks[x].dram[n] != Tree.Get(t.bpram, x)[n]
      ensures KidSlot(t, g, x, n)
    {
      assert KidSlot(s, g, x, n);
      var i :| 0 <= i < |s.blocks[x].kids| && s.blocks[x].kids[i] in g.slot && g.slot[s.blocks[x].kids[i]] == n;
      assert t.blocks[x].kids[if t.blocks[x].kids == s.blocks[x].kids then i else i + 1] == s.blocks[x].kids[i];
    }
  }

  /** A store into the copy of o. */
  function Stored(s: Stage, o: nat, n: nat, w: Word): Stage
    requires o in s.blocks && n < 512
  {
    s.(blocks := s.blocks[o := s.blocks[o].(dram := s.blocks[o].dram[n := w])])
  }

  lemma StoreKeeps(s: Stage, g: Guide, o: nat, n: nat, w: Word)
    requires StageOk(s, g) && o in s.blocks && n < 512 && (s.blocks[o].required || KidSlot(s, g, o, n))
    ensures StageOk(Stored(s, o, n, w), g)
  {
    var t := Stored(s, o, n, w);
    SameLists(s, t);
    assert Careful(s, g, o);
    forall m {:trigger t.blocks[o].dram[m]} | t.blocks[o].cow != 0 && !t.blocks[o].required && 0 <= m < 512 && t.blocks[o].dram[m] != Tree.Get(t.bpram, o)[m]
      ensures KidSlot(t, g, o, m)
    {
      assert KidSlot(s, g, o, m);
    }
    hide Listed;
    CarefulSame(s, t, g, o);
  }

  /** The same copies in the same places. */
  lemma SameLists(s: Stage, t: Stage)
    requires Indexed(s) && Listed(s) && t.cows == s.cows && t.blocks.Keys == s.blocks.Keys
    requires forall x {:trigger t.blocks[x]} | x in t.blocks ::
      t.blocks[x].cow == s.blocks[x].cow && t.blocks[x].parent == s.blocks[x].parent && t.blocks[x].kids == s.blocks[x].kids
    ensures Indexed(t) && Listed(t)
  {
    forall x, k {:trigger KidOf(t, x, k)} | KidOf(t, x, k)
      ensures k in t.blocks && t.blocks[k].cow != 0 && t.blocks[k].parent == x
    {
      assert KidOf(s, x, k);
    }
    forall k {:trigger t.blocks[k]} | k in t.blocks && t.blocks[k].cow != 0 && t.blocks[k].parent != 0
      ensures KidOf(t, t.blocks[k].parent, k)
    {
      assert KidOf(s, s.blocks[k].parent, k);
    }
  }

  /** The links there are stay when another child's pointer is stored. */
  lemma LinksStay(s: Stage, g: Guide, o: nat, k: nat, w: Word, x: nat, y: nat)
    requires Linked(s, g, x, y) && (x == o ==> y != k) && o in s.blocks && o in g.kind && k in g.slot && g.slot[k] < 512
    requires var (t, kind, dram, orig) := (g.slot[k], g.kind[o], s.blocks[o].dram, Tree.Get(s.bpram, o));
      Ptr(kind, dram, t) && Target(kind, orig[t]) == k && Rest(kind, w) == Rest(kind, dram[t])
    ensures Linked(Stored(s, o, g.slot[k], w), g, x, y)
  {
    if x == o {
      PointerSwapped(g.kind[o], s.blocks[o].dram, g.slot[k], w, g.slot[y]);
    }
    hide Ptr, Target, Rest;
  }

  /** The pointer that is stored becomes a link. */
  lemma NowLinked(s: Stage, g: Guide, o: nat, k: nat, w: Word)
    requires Linkable(s, g, o, k, w)
    ensures Linked(Stored(s, o, g.slot[k], w), g, o, k)
  {
    PointerSwapped(g.kind[o], s.blocks[o].dram, g.slot[k], w, g.slot[k]);
    hide Ptr, Target, Rest;
  }

  /** The copy of o still has a pointer where its original leads to k, and w is that pointer with the copy of k for a target. */
  ghost predicate Linkable(s: Stage, g: Guide, o: nat, k: nat, w: Word) {
    && o in s.blocks && k in s.blocks && s.blocks[o].cow != 0 && s.blocks[k].cow != 0 && o in g.kind && k in g.slot && g.slot[k] < 512
    && var (t, kind, dram, orig) := (g.slot[k], g.kind[o], s.blocks[o].dram, Tree.Get(s.bpram, o));
    && Ptr(kind, dram, t) && Target(kind, orig[t]) == k && Rest(kind, dram[t]) == Rest(kind, orig[t])
    && Target(kind, w) == s.blocks[k].cow && Rest(kind, w) == Rest(kind, dram[t])
  }

  lemma KidHasSlot(s: Stage, g: Guide, o: nat, k: nat)
    requires KidOf(s, o, k) && k in g.slot
    ensures KidSlot(s, g, o, g.slot[k])
  {
    var i :| 0 <= i < |s.blocks[o].kids| && s.blocks[o].kids[i] == k;
    assert s.blocks[o].kids[i] in g.slot;
  }

  ghost predicate LinksKept(s: Stage, t: Stage, g: Guide) {
    forall x, y {:trigger Linked(t, g, x, y)} | Linked(s, g, x, y) :: Linked(t, g, x, y)
  }

  /** A new block or a new copy leaves the links alone. */
  lemma PushLinks(s: Stage, g: Guide, o: nat, parent: nat)
    requires o !in s.blocks
    ensures LinksKept(s, Pushed(s, o, parent), g)
  {
    hide Ptr, Target, Rest;
  }

  lemma CowLinks(s: Stage, g: Guide, o: nat, cow: nat, dram: Block, required: bool)
    requires o in s.blocks && s.blocks[o].cow == 0
    ensures LinksKept(s, Copied(s, o, cow, dram, required), g)
  {
    hide Ptr, Target, Rest;
  }

  lemma LinksKeptOn(s: Stage, t: Stage, u: Stage, g: Guide)
    requires LinksKept(s, t, g) && LinksKept(t, u, g)
    ensures LinksKept(s, u, g)
  {
    forall x, y {:trigger Linked(u, g, x, y)} | Linked(s, g, x, y)
      ensures Linked(u, g, x, y)
    {
      assert Linked(t, g, x, y);
    }
    hide Linked;
  }

  /** Storing a pointer makes one link and keeps the others. */
  lemma StoreLinks(s: Stage, g: Guide, o: nat, k: nat, w: Word)
    requires Linkable(s, g, o, k, w)
    ensures LinksKept(s, Stored(s, o, g.slot[k], w), g) && Linked(Stored(s, o, g.slot[k], w), g, o, k)
  {
    NowLinked(s, g, o, k, w);
    var t := Stored(s, o, g.slot[k], w);
    forall x, y {:trigger Linked(t, g, x, y)} | Linked(s, g, x, y)
      ensures Linked(t, g, x, y)
    {
      if x != o || y != k {
        LinksStay(s, g, o, k, w, x, y);
      }
    }
    hide Linked;
  }

  lemma RequiredKeeps(s: Stage, g: Guide, o: nat)
    requires StageOk(s, g) && o in s.blocks
    ensures StageOk(s.(blocks := s.blocks[o := s.blocks[o].(required := true)]), g)
  {
    var t := s.(blocks := s.blocks[o := s.blocks[o].(required := true)]);
    SameLists(s, t);
    hide Listed, Indexed;
    CarefulSame(s, t, g, o);
  }

  /** The block numbers noted for a transaction are those of the copies, and others. */
  ghost predicate Booked(all: set<nat>, others: set<nat>, copies: set<nat>) {
    all == others + copies && others !! copies
  }

  lemma BookOne(all: set<nat>, others: set<nat>, copies: set<nat>, n: nat)
    requires Booked(all, others, copies)
    requires n !in all
    ensures Booked(all + {n}, others, copies + {n}) && Booked(all + {n}, others + {n}, copies)
  {
  }

  lemma BookOff(all: set<nat>, others: set<nat>, copies: set<nat>, n: nat)
    requires Booked(all, others, copies)
    ensures Booked(if n in copies then all - {n} else all, others, copies - {n}) && (n in copies ==> n in all)
  {
  }

  /** The blocks that have a copy. */
  function Origs(s: Stage): set<nat> {
    set o | o in s.blocks && s.blocks[o].cow != 0
  }

  lemma PushOrigs(s: Stage, o: nat, parent: nat)
    requires o !in s.blocks
    ensures Origs(Pushed(s, o, parent)) == Origs(s)
  {
  }

  /** The block has that copy, and is among its parent's copied children. */
  ghost predicate Noted(s: Stage, o: nat, cow: nat, dram: Block, required: bool, parent: nat) {
    && o in s.blocks && s.blocks[o].cow == cow && s.blocks[o].dram == dram && s.blocks[o].required == required && s.blocks[o].parent == parent
    && (parent != 0 ==> KidOf(s, parent, o))
  }

  lemma NotItsParent(s: Stage, g: Guide, o: nat)
    requires StageOk(s, g) && o in s.blocks
    ensures 0 !in s.blocks && s.blocks[o].parent != o
  {
    hide Careful, KidOf, Distinct;
  }

  lemma CowIs(s: Stage, o: nat, cow: nat, dram: Block, required: bool)
    requires o in s.blocks && s.blocks[o].parent != o && (s.blocks[o].parent != 0 ==> s.blocks[o].parent in s.blocks)
    ensures var t := Copied(s, o, cow, dram, required);
      && t.cows == s.cows[cow := o] && t.blocks.Keys == s.blocks.Keys
      && Noted(t, o, cow, dram, required, s.blocks[o].parent)
  {
    var t, q := Copied(s, o, cow, dram, required), s.blocks[o].parent;
    if q != 0 {
      assert t.blocks[q].kids[0] == o;
    }
  }

  /** The copy and its original are noted for the transaction. */
  lemma CowBooked(s: Stage, allocs: set<nat>, allocs0: set<nat>, frees: set<nat>, frees0: set<nat>, o: nat, cow: nat, dram: Block, required: bool)
    requires Booked(allocs, allocs0, s.cows.Keys) && Booked(frees, frees0, Origs(s)) && o in s.blocks && cow != 0 && cow !in allocs && o !in frees
    ensures var t := Copied(s, o, cow, dram, required); Booked(allocs + {cow}, allocs0, t.cows.Keys) && Booked(frees + {o}, frees0, Origs(t))
  {
    CowOrigs(s, o, cow, dram, required);
    assert Copied(s, o, cow, dram, required).cows.Keys == s.cows.Keys + {cow};
    hide Copied, Origs;
    BookOne(allocs, allocs0, s.cows.Keys, cow);
    BookOne(frees, frees0, Origs(s), o);
  }

  lemma CowOrigs(s: Stage, o: nat, cow: nat, dram: Block, required: bool)
    requires o in s.blocks && cow != 0
    ensures Origs(Copied(s, o, cow, dram, required)) == Origs(s) + {o}
  {
  }

  /** One block less, and its copy. */
  function Without(s: Stage, o: nat): Stage
    requires o in s.blocks
  {
    s.(blocks := s.blocks - {o}, cows := s.cows - {s.blocks[o].cow})
  }

  lemma WithoutOne(s: Stage, o: nat)
    requires Indexed(s) && o in s.blocks
    ensures var (c, t) := (s.blocks[o].cow, Without(s, o));
      && Indexed(t) && Origs(t) == Origs(s) - {o} && t.cows.Keys == s.cows.Keys - {c} && |t.blocks| < |s.blocks|
      && 0 !in s.cows && (if c == 0 then o !in Origs(s) else c in s.cows && o in Origs(s))
  {
    WithoutIndexed(s, o);
    WithoutOrigs(s, o);
    CopyListed(s, o);
    FewerBlocks(s.blocks, o);
    hide Indexed, Origs;
  }

  lemma WithoutIndexed(s: Stage, o: nat)
    requires Indexed(s) && o in s.blocks
    ensures Indexed(Without(s, o))
  {
    var t := Without(s, o);
    forall c {:trigger t.cows[c]} | c in t.cows
      ensures t.cows[c] in t.blocks && t.blocks[t.cows[c]].cow == c
    {
      assert s.cows[c] in s.blocks;
    }
    forall x {:trigger t.blocks[x]} | x in t.blocks && t.blocks[x].cow != 0
      ensures t.blocks[x].cow in t.cows && t.cows[t.blocks[x].cow] == x
    {
      assert s.blocks[x].cow in s.cows;
    }
  }

  lemma WithoutOrigs(s: Stage, o: nat)
    requires o in s.blocks
    ensures Origs(Without(s, o)) == Origs(s) - {o} && (o in Origs(s) <==> s.blocks[o].cow != 0)
  {
  }

  lemma CopyListed(s: Stage, o: nat)
    requires Indexed(s) && o in s.blocks
    ensures 0 !in s.cows && (s.blocks[o].cow != 0 ==> s.blocks[o].cow in s.cows)
  {
  }

  lemma FewerBlocks(blocks: map<nat, Blk>, o: nat)
    requires o in blocks
    ensures |blocks - {o}| < |blocks|
  {
    assert (blocks - {o}).Keys == blocks.Keys - {o};
    assert |(blocks - {o}).Keys| < |blocks.Keys|;
  }

  ghost predicate Tallied(s: Stage, allocs: set<nat>, allocs0: set<nat>, frees: set<nat>, frees0: set<nat>) {
    Indexed(s) && Booked(allocs, allocs0, s.cows.Keys) && Booked(frees, frees0, Origs(s))
  }

  function Off(all: set<nat>, some: bool, n: nat): set<nat> {
    if some then all - {n} else all
  }

  lemma AllTallied(s: Stage, g: Guide, allocs: set<nat>, allocs0: set<nat>, frees: set<nat>, frees0: set<nat>)
    requires StageOk(s, g) && Booked(allocs, allocs0, s.cows.Keys) && Booked(frees, frees0, Origs(s))
    ensures Tallied(s, allocs, allocs0, frees, frees0)
  {
    hide Listed, Careful;
  }

  lemma TallyDrop(s: Stage, allocs: set<nat>, allocs0: set<nat>, frees: set<nat>, frees0: set<nat>, o: nat)
    requires Tallied(s, allocs, allocs0, frees, frees0) && o in s.blocks
    ensures var (c, t) := (s.blocks[o].cow, Without(s, o));
      && Tallied(t, Off(allocs, c != 0, c), allocs0, Off(frees, c != 0, o), frees0) && |t.blocks| < |s.blocks|
      && 0 !in s.cows && (c != 0 ==> c in allocs && o in frees)
  {
    hide Indexed, Origs, Booked, Without;
    WithoutOne(s, o);
    BookOff(allocs, allocs0, s.cows.Keys, s.blocks[o].cow);
    BookOff(frees, frees0, Origs(s), o);
  }

  lemma NothingLeft(s: Stage, g: Guide, allocs: set<nat>, allocs0: set<nat>, frees: set<nat>, frees0: set<nat>)
    requires Tallied(s, allocs, allocs0, frees, frees0) && s.blocks == map[]
    ensures s.cows == map[] && StageOk(s, g) && allocs == allocs0 && frees == frees0
    ensures Booked(allocs, allocs0, s.cows.Keys) && Booked(frees, frees0, Origs(s))
  {
  }

  class Stager {
    var bpram: Mem
    var blocks: map<nat, Blk>
    var cows: map<nat, nat>
    /** The parent stack, by original number. */
    var stack: seq<nat>
    var allocs: set<nat>
    var frees: set<nat>
    /** The roles that the blocks will have, and the slots that will lead to them. */
    ghost const g: Guide
    /** What was allocated and freed apart from the copies. */
    ghost var allocs0: set<nat>
    ghost var frees0: set<nat>

    ghost function Now(): Stage
      reads this
    {
      Stage(bpram, blocks, cows)
    }

    ghost predicate Valid()
      reads this
    {
      && StageOk(Now(), g) && (forall i {:trigger stack[i]} | 0 <= i < |stack| :: stack[i] in blocks)
      && Booked(allocs, allocs0, cows.Keys) && Booked(frees, frees0, Origs(Now()))
    }

    constructor (bpram: Mem, ghost g: Guide)
      ensures Valid() && this.bpram == bpram && this.g == g && blocks == map[] && stack == [] && allocs == frees == {}
    {
      this.bpram, this.g := bpram, g;
      blocks, cows, stack, allocs, frees := map[], map[], [], {}, {};
      allocs0, frees0 := {}, {};
    }

    /** The block whose copy has that number, else the block with that number. */
    function Either(blkno: nat): nat
      reads this
    {
      if blkno in cows then cows[blkno] else blkno
    }

    function Top(): nat
      reads this
    {
      if stack == [] then 0 else stack[|stack| - 1]
    }

    lemma TopFits()
      requires Valid()
      ensures (Top() == 0 <==> stack == []) && (stack != [] ==> Top() in blocks)
    {
      hide Listed, Careful;
    }

    lemma EitherKnown(blkno: nat)
      requires Valid()
      ensures blkno in cows ==> Either(blkno) in blocks && blocks[Either(blkno)].cow == blkno
      ensures Either(blkno) !in cows
    {
      hide Listed, Careful;
    }

    /** indirect_cow_parent_push: a pointer to blkno is followed. A block is always met below the same parent. */
    method ParentPush(blkno: nat)
      requires Valid() && blkno != 0 && (stack == [] <==> Either(blkno) == SUPER)
      requires Either(blkno) in blocks ==> blocks[Either(blkno)].parent == Top()
      modifies this`blocks, this`stack
      ensures Valid() && stack == old(stack) + [Either(blkno)]
      ensures Now() == if Either(blkno) in old(blocks) then old(Now()) else Pushed(old(Now()), blkno, old(Top()))
    {
      var o := Either(blkno);
      EitherKnown(blkno);
      if o !in blocks {
        TopFits();
        PushKeeps(Now(), g, o, Top());
        PushOrigs(Now(), o, Top());
        hide StageOk, Origs;
        blocks := blocks[o := Blk(0, ZeroBlock(), false, Top(), [])];
      }
      stack := stack + [o];
    }

    method ParentPop(blkno: nat)
      requires Valid() && stack != [] && Either(blkno) == Top()
      modifies this`stack
      ensures Valid() && stack == old(stack)[..|old(stack)| - 1]
    {
      hide StageOk;
      stack := stack[..|stack| - 1];
    }

    /** A block that is new is taken, one that is no longer needed given back. */
    method Alloc(blkno: nat)
      requires Valid() && blkno !in allocs
      modifies this`allocs, this`allocs0
      ensures Valid() && allocs == old(allocs) + {blkno} && allocs0 == old(allocs0) + {blkno}
    {
      hide StageOk;
      allocs, allocs0 := allocs + {blkno}, allocs0 + {blkno};
    }

    method Free(blkno: nat)
      requires Valid() && blkno !in frees
      modifies this`frees, this`frees0
      ensures Valid() && frees == old(frees) + {blkno} && frees0 == old(frees0) + {blkno}
    {
      hide StageOk;
      frees, frees0 := frees + {blkno}, frees0 + {blkno};
    }

    /** block_create, when cow_block meets a block for the first time. */
    method Create(orig: nat)
      requires Valid() && orig != 0 && orig !in cows && (stack == [] <==> orig == SUPER)
      modifies this`blocks
      ensures Valid() && orig in blocks
      ensures Now() == if orig in old(blocks) then old(Now()) else Pushed(old(Now()), orig, old(Top()))
      ensures LinksKept(old(Now()), Now(), g)
    {
      if orig !in blocks {
        TopFits();
        PushKeeps(Now(), g, orig, Top());
        PushOrigs(Now(), orig, Top());
        PushLinks(Now(), g, orig, Top());
        hide StageOk, Origs, Booked, LinksKept;
        blocks := blocks[orig := Blk(0, ZeroBlock(), false, Top(), [])];
      }
    }

    /** indirect_cow_block_cow with the copying that follows it, and indirect_cow_block_required when the caller asks for it.
        A copy that need not be written is a copy of the whole block. */
    method BlockCow(orig: nat, cow: nat, dram: Block, required: bool)
      requires Valid() && orig != 0 && orig !in cows && cow != 0 && cow !in cows && cow !in blocks && cow != orig && cow !in allocs && orig !in frees
      requires (stack == [] <==> orig == SUPER) && (orig in blocks ==> blocks[orig].cow == 0 && blocks[orig].parent == Top())
      requires !required ==> dram == Tree.Get(bpram, orig)
      modifies this`blocks, this`cows, this`allocs, this`frees
      ensures Valid() && Noted(Now(), orig, cow, dram, required, Top()) && cows == old(cows)[cow := orig]
      ensures allocs == old(allocs) + {cow} && frees == old(frees) + {orig}
      ensures LinksKept(old(Now()), Now(), g)
    {
      hide LinksKept, Origs, Booked, Noted, Copied, StageOk;
      Create(orig);
      ghost var s := Now();
      TopFits();
      NotItsParent(s, g, orig);
      CowKeeps(s, g, orig, cow, dram, required);
      CowBooked(s, allocs, allocs0, frees, frees0, orig, cow, dram, required);
      CowIs(s, orig, cow, dram, required);
      CowLinks(s, g, orig, cow, dram, required);
      LinksKeptOn(old(Now()), s, Copied(s, orig, cow, dram, required), g);
      Note(orig, cow, dram, required);
      allocs, frees := allocs + {cow}, frees + {orig};
    }

    /** The copy is noted with the block, in the table of copies, and first among its parent's copied children. */
    method Note(orig: nat, cow: nat, dram: Block, required: bool)
      requires orig in blocks && blocks[orig].parent != orig && 0 !in blocks && (blocks[orig].parent != 0 ==> blocks[orig].parent in blocks)
      modifies this`blocks, this`cows
      ensures Now() == Copied(old(Now()), orig, cow, dram, required)
    {
      var parent := blocks[orig].parent;
      blocks := blocks[orig := blocks[orig].(cow := cow, dram := dram, required := required)];
      if parent != 0 {
        blocks := blocks[parent := blocks[parent].(kids := [orig] + blocks[parent].kids)];
      }
      cows := cows[cow := orig];
    }

    method BlockRequired(cow: nat)
      requires Valid() && cow in cows
      modifies this`blocks
      ensures Valid() && cows[cow] in old(blocks) && blocks == old(blocks)[cows[cow] := old(blocks)[cows[cow]].(required := true)]
    {
      var o := cows[cow];
      EitherKnown(cow);
      RequiredKeeps(Now(), g, o);
      hide StageOk;
      blocks := blocks[o := blocks[o].(required := true)];
      assert Origs(Now()) == old(Origs(Now()));
    }

    /** A store into a copy. One that need not be written may only get pointers to copied children. */
    method Store(o: nat, n: nat, w: Word)
      requires Valid() && o in blocks && blocks[o].cow != 0 && n < 512 && (blocks[o].required || KidSlot(Now(), g, o, n))
      modifies this`blocks
      ensures Valid() && Now() == Stored(old(Now()), o, n, w)
      ensures forall x, y {:trigger Linked(Now(), g, x, y)} | x != o && old(Linked(Now(), g, x, y)) :: Linked(Now(), g, x, y)
    {
      ghost var s := Now();
      StoreKeeps(s, g, o, n, w);
      hide StageOk, Ptr, Target, Rest, KidSlot;
      blocks := blocks[o := blocks[o].(dram := blocks[o].dram[n := w])];
      assert Origs(Now()) == Origs(s);
    }

    /** A copy's pointer to a copied child is made to lead to the child's copy. */
    method Link(o: nat, k: nat, n: nat, w: Word)
      requires Valid() && KidOf(Now(), o, k) && Linkable(Now(), g, o, k, w) && n == g.slot[k]
      modifies this`blocks
      ensures Valid() && Linked(Now(), g, o, k) && Now() == Stored(old(Now()), o, n, w)
      ensures LinksKept(old(Now()), Now(), g)
    {
      KidHasSlot(Now(), g, o, k);
      StoreLinks(Now(), g, o, k, w);
      hide StageOk, Linked, KidOf, KidSlot, Origs, Stored, LinksKept;
      Store(o, n, w);
    }

    /** indirect_cow_abort takes back the copies and nothing else. */
    method Abort()
      requires Valid() && stack == []
      modifies this`blocks, this`cows, this`allocs, this`frees
      ensures Valid() && blocks == map[] && cows == map[] && allocs == allocs0 && frees == frees0
    {
      hide StageOk, Tallied, Without, Off, Booked, Origs;
      AllTallied(Now(), g, allocs, allocs0, frees, frees0);
      while blocks != map[]
        invariant Tallied(Now(), allocs, allocs0, frees, frees0)
        decreases |blocks|
      {
        var o :| o in blocks;
        TallyDrop(Now(), allocs, allocs0, frees, frees0, o);
        Drop(o);
      }
      NothingLeft(Now(), g, allocs, allocs0, frees, frees0);
    }

    /** The part of the abort that concerns one block. */
    method Drop(o: nat)
      requires o in blocks && 0 !in cows
      requires blocks[o].cow != 0 ==> blocks[o].cow in allocs && o in frees
      modifies this`blocks, this`cows, this`allocs, this`frees
      ensures Now() == Without(old(Now()), o)
      ensures allocs == Off(old(allocs), old(blocks[o].cow != 0), old(blocks[o].cow)) && frees == Off(old(frees), old(blocks[o].cow != 0), o)
    {
      if blocks[o].cow != 0 {
        allocs, frees := allocs - {blocks[o].cow}, frees - {o};
        cows := cows - {blocks[o].cow};
      }
      blocks := blocks - {o};
    }
  }
}
