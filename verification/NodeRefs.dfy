/** Reference counts of the in-memory nodes, and what dropping one of them deletes. */
module RefSpec {
  datatype Link = Link(parent: nat, name: string)

  datatype Entry = Hashed(link: Link) | Unhashed

  datatype Node = Node(nlookup: nat, refctr: int, entry: Entry)

  type Nodes = map<nat, Node>

  predicate ChildOf(c: Node, n: nat) {
    c.entry.Hashed? && c.entry.link.parent == n
  }

  function Kids(s: Nodes, n: nat): set<nat> {
    set m | m in s && ChildOf(s[m], n)
  }

  function Own(c: Node): nat {
    if c.nlookup > 0 then 1 else 0
  }

  /** The references to a node: one if it is looked up, one for each child, one for each pin. */
  function Refs(s: Nodes, pins: multiset<nat>, n: nat): nat
    requires n in s
  {
    Own(s[n]) + |Kids(s, n)| + pins[n]
  }

  /** Every count is right. A reference about to be dropped is still counted among the pins. */
  predicate Counted(s: Nodes, pins: multiset<nat>) {
    forall n {:trigger Refs(s, pins, n)} | n in s :: s[n].refctr == Refs(s, pins, n)
  }

  predicate ParentsIn(s: Nodes) {
    forall m {:trigger s[m]} | m in s && s[m].entry.Hashed? :: s[m].entry.link.parent in s
  }

  predicate Alive(s: Nodes) {
    forall n {:trigger s[n]} | n in s :: s[n].refctr > 0
  }

  /** No two nodes have the same name below the same parent. */
  predicate UniqueNames(s: Nodes) {
    forall m, n {:trigger s[m], s[n]} | m in s && n in s && s[m].entry.Hashed? && s[m].entry == s[n].entry :: m == n
  }

  function Less(c: Node): Node {
    c.(refctr := c.refctr - 1)
  }

  function More(c: Node): Node {
    c.(refctr := c.refctr + 1)
  }

  /** The nodes after one reference to p is dropped: a node without references is deleted, and drops its parent's. */
  function Cascade(s: Nodes, p: nat): (t: Nodes)
    requires p in s
    decreases s.Keys
  {
    if s[p].refctr != 1 then s[p := Less(s[p])]
    else
      var t := s - {p};
      if s[p].entry.Hashed? && s[p].entry.link.parent in t then Cascade(t, s[p].entry.link.parent) else t
  }

  /** The nodes after n has lost its name, and with it the reference to its parent. */
  function Unlink(s: Nodes, n: nat): Nodes
    requires n in s && ParentsIn(s)
  {
    if s[n].entry.Unhashed? then s
    else Cascade(s[n := s[n].(entry := Unhashed)], s[n].entry.link.parent)
  }

  lemma KidsRemove(s: Nodes, p: nat, n: nat)
    ensures Kids(s - {p}, n) == Kids(s, n) - {p}
  {
  }

  lemma KidsUpdate(s: Nodes, p: nat, c: Node, n: nat)
    ensures Kids(s[p := c], n) == if ChildOf(c, n) then Kids(s, n) + {p} else Kids(s, n) - {p}
  {
  }

  /** A change of counts alone changes no references. */
  lemma KidsSame(s: Nodes, p: nat, c: Node, n: nat)
    requires p in s && c.entry == s[p].entry
    ensures Kids(s[p := c], n) == Kids(s, n)
  {
  }

  lemma LessCounted(s: Nodes, pins: multiset<nat>, p: nat)
    requires p in s && Counted(s, pins + multiset{p})
    ensures Counted(s[p := Less(s[p])], pins)
  {
    var t := s[p := Less(s[p])];
    forall n {:trigger Refs(t, pins, n)} | n in t
      ensures t[n].refctr == Refs(t, pins, n)
    {
      KidsSame(s, p, Less(s[p]), n);
      hide Kids;
      assert s[n].refctr == Refs(s, pins + multiset{p}, n);
    }
  }

  /** A node whose last reference is dropped is not looked up, not pinned and no parent. */
  lemma NoReferences(s: Nodes, pins: multiset<nat>, p: nat)
    requires p in s && Counted(s, pins + multiset{p}) && s[p].refctr == 1
    ensures s[p].nlookup == 0 && pins[p] == 0 && Kids(s, p) == {}
  {
    assert Refs(s, pins + multiset{p}, p) == 1;
  }

  lemma RemoveHashed(s: Nodes, pins: multiset<nat>, p: nat)
    requires p in s && Counted(s, pins + multiset{p}) && s[p].refctr == 1 && s[p].entry.Hashed?
    ensures s[p].entry.link.parent != p && Counted(s - {p}, pins + multiset{s[p].entry.link.parent})
  {
    NoReferences(s, pins, p);
    var t, q := s - {p}, s[p].entry.link.parent;
    assert p in Kids(s, q);
    forall n {:trigger Refs(t, pins + multiset{q}, n)} | n in t
      ensures t[n].refctr == Refs(t, pins + multiset{q}, n)
    {
      KidsRemove(s, p, n);
      assert p in Kids(s, n) <==> n == q;
      hide Kids;
      assert s[n].refctr == Refs(s, pins + multiset{p}, n);
    }
  }

  lemma RemoveUnhashed(s: Nodes, pins: multiset<nat>, p: nat)
    requires p in s && Counted(s, pins + multiset{p}) && s[p].refctr == 1 && s[p].entry.Unhashed?
    ensures Counted(s - {p}, pins)
  {
    var t := s - {p};
    forall n {:trigger Refs(t, pins, n)} | n in t
      ensures t[n].refctr == Refs(t, pins, n)
    {
      KidsRemove(s, p, n);
      assert p !in Kids(s, n);
      hide Kids;
      assert s[n].refctr == Refs(s, pins + multiset{p}, n);
    }
  }

  lemma RemoveParents(s: Nodes, p: nat)
    requires p in s && ParentsIn(s) && Kids(s, p) == {}
    ensures ParentsIn(s - {p})
  {
    var t := s - {p};
    forall m {:trigger t[m]} | m in t && t[m].entry.Hashed?
      ensures t[m].entry.link.parent in t
    {
      assert m !in Kids(s, p);
    }
  }

  /** What a cascade leaves: no new nodes, names and lookups as they were; only nodes nobody uses are gone. */
  predicate Trimmed(s: Nodes, pins: multiset<nat>, t: Nodes) {
    && (forall n {:trigger t[n]} | n in t :: n in s && t[n].nlookup == s[n].nlookup && t[n].entry == s[n].entry)
    && (forall n {:trigger n in t} | n in s && n !in t :: s[n].nlookup == 0 && pins[n] == 0)
  }

  /** Dropping a reference keeps every count right, and deletes no node that is looked up, pinned or a parent. */
  lemma {:induction false} CascadeKeeps(s: Nodes, pins: multiset<nat>, p: nat)
    requires p in s && Counted(s, pins + multiset{p}) && ParentsIn(s)
    ensures Counted(Cascade(s, p), pins) && ParentsIn(Cascade(s, p)) && Trimmed(s, pins, Cascade(s, p))
    ensures Alive(s) ==> Alive(Cascade(s, p))
    decreases s.Keys
  {
    assert Refs(s, pins + multiset{p}, p) >= 1;
    if s[p].refctr != 1 {
      LessCounted(s, pins, p);
    } else {
      NoReferences(s, pins, p);
      RemoveParents(s, p);
      if s[p].entry.Hashed? {
        RemoveHashed(s, pins, p);
        CascadeKeeps(s - {p}, pins, s[p].entry.link.parent);
      } else {
        RemoveUnhashed(s, pins, p);
      }
    }
  }

  /** A deleted node leaves no child behind. */
  lemma NoOrphans(s: Nodes, n: nat)
    requires ParentsIn(s) && n !in s
    ensures Kids(s, n) == {}
  {
    forall m
      ensures m !in Kids(s, n)
    {
    }
  }

  /** A node that is nobody's parent takes no part in the cascade. */
  lemma {:induction false} CascadeFrame(s: Nodes, p: nat, n: nat, c: Node)
    requires p in s && n !in s && Kids(s, n) == {}
    ensures Cascade(s[n := c], p) == Cascade(s, p)[n := c]
    decreases s.Keys
  {
    var t := s[n := c];
    if s[p].refctr == 1 {
      assert t - {p} == (s - {p})[n := c];
      assert p !in Kids(s, n);
      if s[p].entry.Hashed? && s[p].entry.link.parent in s - {p} {
        KidsRemove(s, p, n);
        CascadeFrame(s - {p}, s[p].entry.link.parent, n, c);
      }
    }
  }

  /** The nodes form trees: ranks fall from every node to its parent. */
  predicate Ranked(s: Nodes, rank: map<nat, nat>) {
    && s.Keys <= rank.Keys
    && forall m {:trigger s[m]} | m in s && s[m].entry.Hashed? && s[m].entry.link.parent in s :: rank[s[m].entry.link.parent] < rank[m]
  }

  /** The nodes of t are nodes of s, in their old places or without a name. */
  predicate Within(t: Nodes, s: Nodes) {
    forall m {:trigger t[m]} | m in t :: m in s && (t[m].entry == s[m].entry || t[m].entry.Unhashed?)
  }

  lemma RankedWithin(s: Nodes, t: Nodes, rank: map<nat, nat>)
    requires Ranked(s, rank) && Within(t, s)
    ensures Ranked(t, rank)
  {
    forall m {:trigger t[m]} | m in t && t[m].entry.Hashed? && t[m].entry.link.parent in t
      ensures rank[t[m].entry.link.parent] < rank[m]
    {
      assert s[m].entry == t[m].entry && t[t[m].entry.link.parent] == t[t[m].entry.link.parent];
    }
  }

  /** A cascade goes up: it spares every node above which it does not start. */
  lemma {:induction false} CascadeSpares(s: Nodes, rank: map<nat, nat>, p: nat, n: nat)
    requires p in s && n in s && Ranked(s, rank) && rank[p] < rank[n]
    ensures n in Cascade(s, p)
    decreases s.Keys
  {
    if s[p].refctr == 1 && s[p].entry.Hashed? && s[p].entry.link.parent in s - {p} {
      RankedWithin(s, s - {p}, rank);
      CascadeSpares(s - {p}, rank, s[p].entry.link.parent, n);
    }
  }

  /** Climbing from x one comes to n. */
  predicate Under(s: Nodes, rank: map<nat, nat>, x: nat, n: nat)
    requires Ranked(s, rank)
    decreases if x in rank then rank[x] else 0
  {
    x in s && (x == n || (s[x].entry.Hashed? && s[x].entry.link.parent in s && Under(s, rank, s[x].entry.link.parent, n)))
  }

  lemma {:induction false} UnderWithin(s: Nodes, t: Nodes, rank: map<nat, nat>, x: nat, n: nat)
    requires Ranked(s, rank) && Within(t, s) && Ranked(t, rank) && Under(t, rank, x, n)
    ensures Under(s, rank, x, n)
    decreases rank[x]
  {
    if x != n {
      UnderWithin(s, t, rank, t[x].entry.link.parent, n);
    }
  }

  lemma {:induction false} NotUnder(s: Nodes, rank: map<nat, nat>, x: nat, n: nat)
    requires Ranked(s, rank) && x in s && x != n && Kids(s, n) == {}
    ensures !Under(s, rank, x, n)
    decreases rank[x]
  {
    assert x !in Kids(s, n);
    if s[x].entry.Hashed? && s[x].entry.link.parent in s {
      NotUnder(s, rank, s[x].entry.link.parent, n);
    }
  }

  /** Ranks for the nodes once n is below q: everything at or below n moves down. */
  function Reranked(s: Nodes, rank: map<nat, nat>, n: nat, q: nat): map<nat, nat>
    requires Ranked(s, rank) && q in s
  {
    map x | x in rank :: if Under(s, rank, x, n) then rank[x] + rank[q] + 1 else rank[x]
  }

  lemma LinkedRanked(s: Nodes, rank: map<nat, nat>, n: nat, link: Link)
    requires Ranked(s, rank) && n in s && s[n].entry.Unhashed? && link.parent in s && !Under(s, rank, link.parent, n)
    ensures Ranked(Linked(s, n, link), Reranked(s, rank, n, link.parent))
  {
    var t, r := Linked(s, n, link), Reranked(s, rank, n, link.parent);
    forall m {:trigger t[m]} | m in t && t[m].entry.Hashed? && t[m].entry.link.parent in t
      ensures r[t[m].entry.link.parent] < r[m]
    {
      if m != n {
        assert s[m].entry == t[m].entry;
      }
    }
  }

  function Bare(c: Node): Node {
    c.(entry := Unhashed)
  }

  /** A name lost: the reference it held on the parent is now held by whoever removes it. */
  lemma BareCounted(s: Nodes, held: multiset<nat>, n: nat)
    requires n in s && s[n].entry.Hashed? && Counted(s, held) && ParentsIn(s)
    ensures Counted(s[n := Bare(s[n])], held + multiset{s[n].entry.link.parent}) && ParentsIn(s[n := Bare(s[n])])
  {
    var t, q := s[n := Bare(s[n])], s[n].entry.link.parent;
    assert n in Kids(s, q);
    forall m {:trigger Refs(t, held + multiset{q}, m)} | m in t
      ensures t[m].refctr == Refs(t, held + multiset{q}, m)
    {
      KidsUpdate(s, n, Bare(s[n]), m);
      assert n in Kids(s, m) <==> m == q;
      hide Kids;
      assert s[m].refctr == Refs(s, held, m);
    }
  }

  /** A node outlives the cascade that the loss of its name starts. */
  lemma NamelessStays(s: Nodes, held: multiset<nat>, n: nat, rank: map<nat, nat>)
    requires n in s && Ranked(s, rank) && s[n].entry.Hashed? && Counted(s, held) && ParentsIn(s)
    ensures n in Unlink(s, n) && Unlink(s, n)[n].nlookup == s[n].nlookup && Unlink(s, n)[n].entry == Unhashed
  {
    var q, t := s[n].entry.link.parent, s[n := Bare(s[n])];
    BareCounted(s, held, n);
    CascadeKeeps(t, held, q);
    RankedWithin(s, t, rank);
    CascadeSpares(t, rank, q, n);
  }

  /** A node without children takes no part in it. */
  lemma ChildlessUnlink(s: Nodes, n: nat)
    requires n in s && s[n].entry.Hashed? && ParentsIn(s) && Kids(s, n) == {}
    ensures s[n].entry.link.parent in s - {n} && Unlink(s, n) == Cascade(s - {n}, s[n].entry.link.parent)[n := Bare(s[n])]
  {
    NotOwnChild(s, n);
    assert s[n := Bare(s[n])] == (s - {n})[n := Bare(s[n])];
    KidsRemove(s, n, n);
    CascadeFrame(s - {n}, s[n].entry.link.parent, n, Bare(s[n]));
  }

  lemma NotOwnChild(s: Nodes, n: nat)
    requires n in s && s[n].entry.Hashed? && Kids(s, n) == {}
    ensures s[n].entry.link.parent != n
  {
    assert n !in Kids(s, n);
  }

  /** The last reference gone: deleting the node by steps is what the cascade does. */
  lemma DeleteIsCascade(s: Nodes, held: multiset<nat>, p: nat)
    requires p in s && Counted(s, held + multiset{p}) && ParentsIn(s) && s[p].refctr == 1
    ensures var d := s[p := Less(s[p])];
            ParentsIn(d) && Counted(d, held) && Kids(d, p) == {} && p in Unlink(d, p) && Cascade(s, p) == Unlink(d, p) - {p}
  {
    NoReferences(s, held, p);
    LessCounted(s, held, p);
    var d := s[p := Less(s[p])];
    KidsSame(s, p, Less(s[p]), p);
    if s[p].entry.Hashed? {
      ChildlessUnlink(d, p);
      assert d - {p} == s - {p};
      RemoveHashed(s, held, p);
      RemoveParents(s, p);
      CascadeKeeps(s - {p}, held, s[p].entry.link.parent);
      assert p !in Cascade(s - {p}, s[p].entry.link.parent);
      assert (Cascade(s - {p}, s[p].entry.link.parent)[p := Bare(d[p])]) - {p} == Cascade(s - {p}, s[p].entry.link.parent);
    } else {
      assert d - {p} == s - {p};
    }
  }

  function Inc(c: Node): Node {
    c.(nlookup := c.nlookup + 1, refctr := if c.nlookup == 0 then c.refctr + 1 else c.refctr)
  }

  lemma IncCounted(s: Nodes, held: multiset<nat>, n: nat)
    requires n in s && Counted(s, held)
    ensures Counted(s[n := Inc(s[n])], held)
  {
    var t := s[n := Inc(s[n])];
    forall m {:trigger Refs(t, held, m)} | m in t
      ensures t[m].refctr == Refs(t, held, m)
    {
      KidsSame(s, n, Inc(s[n]), m);
      hide Kids;
      assert s[m].refctr == Refs(s, held, m);
    }
  }

  /** Lookups taken back: the last one leaves its reference to be dropped. */
  lemma DecCounted(s: Nodes, held: multiset<nat>, n: nat, k: nat)
    requires n in s && s[n].nlookup > 0 && k <= s[n].nlookup && Counted(s, held)
    ensures var t := s[n := s[n].(nlookup := s[n].nlookup - k)]; Counted(t, if k < s[n].nlookup then held else held + multiset{n})
  {
    var c := s[n].(nlookup := s[n].nlookup - k);
    var t := s[n := c];
    var held' := if k < s[n].nlookup then held else held + multiset{n};
    forall m {:trigger Refs(t, held', m)} | m in t
      ensures t[m].refctr == Refs(t, held', m)
    {
      KidsSame(s, n, c, m);
      hide Kids;
      assert s[m].refctr == Refs(s, held, m);
    }
  }

  /** A pin is one more reference. */
  lemma PinCounted(s: Nodes, held: multiset<nat>, n: nat)
    requires n in s && Counted(s, held)
    ensures Counted(s[n := More(s[n])], held + multiset{n})
  {
    var t := s[n := More(s[n])];
    forall m {:trigger Refs(t, held + multiset{n}, m)} | m in t
      ensures t[m].refctr == Refs(t, held + multiset{n}, m)
    {
      KidsSame(s, n, More(s[n]), m);
      hide Kids;
      assert s[m].refctr == Refs(s, held, m);
    }
  }

  /** A node entered below a parent. */
  function Linked(s: Nodes, n: nat, link: Link): Nodes
    requires n in s && link.parent in s
  {
    var t := s[link.parent := More(s[link.parent])];
    t[n := t[n].(entry := Hashed(link))]
  }

  lemma LinkedCounted(s: Nodes, held: multiset<nat>, n: nat, link: Link)
    requires n in s && s[n].entry.Unhashed? && link.parent in s && Counted(s, held) && ParentsIn(s)
    ensures Counted(Linked(s, n, link), held) && ParentsIn(Linked(s, n, link))
  {
    var t := s[link.parent := More(s[link.parent])];
    PinCounted(s, held, link.parent);
    var u := Linked(s, n, link);
    var q := link.parent;
    forall m {:trigger Refs(u, held, m)} | m in u
      ensures u[m].refctr == Refs(u, held, m)
    {
      KidsUpdate(t, n, t[n].(entry := Hashed(link)), m);
      assert n !in Kids(t, m);
      hide Kids;
      assert t[m].refctr == Refs(t, held + multiset{q}, m);
    }
  }

  lemma NewCounted(s: Nodes, held: multiset<nat>, n: nat, k: nat)
    requires n !in s && Counted(s, held) && ParentsIn(s) && held[n] == 0 && k > 0
    ensures Counted(s[n := Node(k, 1, Unhashed)], held) && ParentsIn(s[n := Node(k, 1, Unhashed)])
  {
    var c := Node(k, 1, Unhashed);
    var t := s[n := c];
    NoOrphans(s, n);
    forall m {:trigger Refs(t, held, m)} | m in t
      ensures t[m].refctr == Refs(t, held, m)
    {
      KidsUpdate(s, n, c, m);
      assert n !in Kids(s, m);
      hide Kids;
      if m != n {
        assert s[m].refctr == Refs(s, held, m);
      }
    }
  }
}

/** The life of the nodes: found, looked up, forgotten, pinned, unlinked, renamed and cleaned. */
module NodeRefs {
  import opened RefSpec

  const ROOT: nat := 1

  ghost predicate Pinned(s: Nodes, pins: multiset<nat>) {
    forall n {:trigger pins[n]} | pins[n] > 0 :: n in s
  }

  predicate Rooted(s: Nodes) {
    ROOT in s && s[ROOT].nlookup > 0 && s[ROOT].entry.Unhashed?
  }

  /** Every reachable state. */
  ghost predicate Good(s: Nodes, pins: multiset<nat>) {
    Counted(s, pins) && ParentsIn(s) && Alive(s) && UniqueNames(s) && Pinned(s, pins) && Rooted(s)
  }

  lemma TrimmedGood(s: Nodes, pins: multiset<nat>, t: Nodes)
    requires Trimmed(s, pins, t) && UniqueNames(s) && Pinned(s, pins) && Rooted(s)
    ensures UniqueNames(t) && Pinned(t, pins) && Rooted(t)
  {
    assert ROOT in t;
  }

  /** Dropping a reference leaves a reachable state. */
  lemma CascadeGood(s: Nodes, pins: multiset<nat>, p: nat)
    requires p in s && Counted(s, pins + multiset{p}) && ParentsIn(s) && Alive(s) && UniqueNames(s) && Pinned(s, pins) && Rooted(s)
    ensures Good(Cascade(s, p), pins) && Trimmed(s, pins, Cascade(s, p)) && Within(Cascade(s, p), s)
  {
    CascadeKeeps(s, pins, p);
    TrimmedGood(s, pins, Cascade(s, p));
  }

  lemma UnlinkKeeps(s: Nodes, held: multiset<nat>, n: nat, rank: map<nat, nat>)
    requires n in s && n != ROOT && Ranked(s, rank)
    requires Counted(s, held) && ParentsIn(s) && Alive(s) && UniqueNames(s) && Pinned(s, held) && Rooted(s)
    ensures Good(Unlink(s, n), held) && Trimmed(s[n := Bare(s[n])], held, Unlink(s, n)) && n in Unlink(s, n) && Within(Unlink(s, n), s)
  {
    if s[n].entry.Hashed? {
      BareCounted(s, held, n);
      NamelessStays(s, held, n, rank);
      CascadeGood(s[n := Bare(s[n])], held, s[n].entry.link.parent);
    } else {
      assert s == s[n := Bare(s[n])];
    }
  }

  lemma LinkedGood(s: Nodes, pins: multiset<nat>, n: nat, link: Link)
    requires Good(s, pins) && n in s && n != ROOT && s[n].entry.Unhashed? && link.parent in s
    requires forall m {:trigger s[m]} | m in s :: s[m].entry != Hashed(link)
    ensures Good(Linked(s, n, link), pins)
  {
    LinkedCounted(s, pins, n, link);
  }

  lemma NewGood(s: Nodes, pins: multiset<nat>, n: nat, k: nat)
    requires Good(s, pins) && n !in s && k > 0
    ensures Good(s[n := Node(k, 1, Unhashed)], pins)
  {
    NewCounted(s, pins, n, k);
  }

  lemma IncGood(s: Nodes, pins: multiset<nat>, n: nat)
    requires Good(s, pins) && n in s
    ensures Good(s[n := Inc(s[n])], pins)
  {
    IncCounted(s, pins, n);
  }

  /** The nodes after k lookups of n are forgotten. */
  function Forgotten(s: Nodes, n: nat, k: nat): Nodes
    requires n in s && k <= s[n].nlookup
  {
    var t := s[n := s[n].(nlookup := s[n].nlookup - k)];
    if k < s[n].nlookup then t else Cascade(t, n)
  }

  /** The last lookup of a node that waits to be cleaned goes with the node, unless something else refers to it. */
  lemma ForgottenOnes(s: Nodes, pins: multiset<nat>, n: nat, k: nat, lru: set<nat>)
    requires Good(s, pins) && n in s && 0 < s[n].nlookup == k && n != ROOT && Ones(s, lru)
    ensures Ones(Forgotten(s, n, k), lru * Forgotten(s, n, k).Keys) <==> !(n in lru && s[n].refctr > 1)
  {
    DecCounted(s, pins, n, k);
    DecParents(s, pins, n, k);
    var t := s[n := s[n].(nlookup := 0)];
    CascadeKeeps(t, pins, n);
    if n in lru && s[n].refctr > 1 {
      assert n in Cascade(t, n) && Cascade(t, n)[n].nlookup == 0;
    } else if n in lru {
      LoneGone(t, n);
    }
  }

  /** What forgetting k lookups does: n has k fewer; nothing else changes while some are left; with the last of them one reference goes,
      and n with it exactly if that was its only one. Every other node that is looked up keeps its lookups and its name. */
  lemma ForgottenExact(s: Nodes, pins: multiset<nat>, n: nat, k: nat)
    requires Good(s, pins) && n in s && 0 < s[n].nlookup && k <= s[n].nlookup && n != ROOT
    ensures var t := Forgotten(s, n, k);
      && (n in t ==> t[n].nlookup == s[n].nlookup - k && t[n].entry == s[n].entry)
      && (k < s[n].nlookup ==> n in t && t.Keys == s.Keys && t[n].refctr == s[n].refctr && forall m | m in s && m != n :: t[m] == s[m])
      && (k == s[n].nlookup ==> (n in t <==> s[n].refctr > 1))
      && (k == s[n].nlookup && n in t ==> t.Keys == s.Keys && t[n].refctr == s[n].refctr - 1 && forall m | m in s && m != n :: t[m] == s[m])
      && (forall m {:trigger m in t} | m in s && m != n && s[m].nlookup > 0 :: m in t && t[m].nlookup == s[m].nlookup && t[m].entry == s[m].entry)
  {
    var t := s[n := s[n].(nlookup := s[n].nlookup - k)];
    assert s[n].refctr > 0 by { assert Alive(s); }
    DecCounted(s, pins, n, k);
    if k == s[n].nlookup {
      CascadeKeeps(t, pins, n);
      if s[n].refctr == 1 {
        LoneGone(t, n);
      }
    }
  }

  lemma ForgottenGood(s: Nodes, pins: multiset<nat>, n: nat, k: nat)
    requires Good(s, pins) && n in s && 0 < s[n].nlookup && k <= s[n].nlookup && n != ROOT
    ensures Good(Forgotten(s, n, k), pins) && Forgotten(s, n, k).Keys <= s.Keys && Within(Forgotten(s, n, k), s)
  {
    DecCounted(s, pins, n, k);
    var t := s[n := s[n].(nlookup := s[n].nlookup - k)];
    if k == s[n].nlookup {
      CascadeGood(t, pins, n);
    }
  }

  /** Forgetting nothing of a node that is not looked up takes a reference that belongs to a child or to a pin. */
  lemma ForgetNothing(s: Nodes, pins: multiset<nat>, n: nat)
    requires Good(s, pins) && n in s && s[n].nlookup == 0
    ensures var t := Forgotten(s, n, 0); if s[n].refctr == 1 then n !in t && (pins[n] > 0 || Kids(s, n) != {}) else n in t && t[n].refctr == Refs(t, pins, n) - 1
  {
    assert s == s[n := s[n].(nlookup := 0)];
    assert s[n].refctr == Refs(s, pins, n);
    if s[n].refctr == 1 {
      LoneGone(s, n);
    } else {
      KidsSame(s, n, Less(s[n]), n);
    }
  }

  lemma {:induction false} CascadeKeys(s: Nodes, p: nat)
    requires p in s
    ensures Cascade(s, p).Keys <= s.Keys
    decreases s.Keys
  {
    if s[p].refctr == 1 && s[p].entry.Hashed? && s[p].entry.link.parent in s - {p} {
      CascadeKeys(s - {p}, s[p].entry.link.parent);
    }
  }

  lemma LoneGone(s: Nodes, p: nat)
    requires p in s && s[p].refctr == 1
    ensures p !in Cascade(s, p)
  {
    if s[p].entry.Hashed? && s[p].entry.link.parent in s - {p} {
      CascadeKeys(s - {p}, s[p].entry.link.parent);
    }
  }

  /** The nodes after an expired node has been cleaned. */
  function Cleaned(s: Nodes, n: nat): Nodes
    requires n in s && ParentsIn(s)
  {
    if s[n].refctr > 1 then s
    else
      var t := s[n := s[n].(nlookup := 0)];
      var u := Unlink(t, n);
      if n in u then Cascade(u, n) else u
  }

  /** An expired node with no other reference is deleted; whatever is looked up stays. */
  lemma CleanedGood(s: Nodes, pins: multiset<nat>, n: nat, rank: map<nat, nat>)
    requires Ranked(s, rank) && Good(s, pins) && n in s && s[n].nlookup == 1 && n != ROOT
    ensures Good(Cleaned(s, n), pins) && (n in Cleaned(s, n) <==> s[n].refctr > 1) && Cleaned(s, n).Keys <= s.Keys && Within(Cleaned(s, n), s)
    ensures forall m {:trigger m in Cleaned(s, n)} | m in s && m != n && s[m].nlookup > 0 :: m in Cleaned(s, n) && Cleaned(s, n)[m].nlookup == s[m].nlookup
  {
    if s[n].refctr == 1 {
      hide Good, Unlink, Cascade, Counted, ParentsIn, Alive, UniqueNames, Rooted, Kids, Trimmed;
      var t := s[n := s[n].(nlookup := 0)];
      LoneDec(s, pins, n);
      Unfold(s, pins);
      Unfold(t, pins + multiset{n});
      RankedWithin(s, t, rank);
      UnlinkKeeps(t, pins + multiset{n}, n, rank);
      CleanedCount(t, pins, n);
      var u := Unlink(t, n);
      LoneGone(u, n);
      CleanedLast(u, pins, n);
      StillThere(s, n, u, pins, Cascade(u, n));
    } else {
      assert Alive(s);
    }
  }

  lemma Unfold(s: Nodes, pins: multiset<nat>)
    requires Good(s, pins)
    ensures Counted(s, pins) && ParentsIn(s) && Alive(s) && UniqueNames(s) && Pinned(s, pins) && Rooted(s)
  {
  }

  lemma StillThere(s: Nodes, n: nat, u: Nodes, pins: multiset<nat>, v: Nodes)
    requires n in s && Trimmed(s[n := Bare(s[n].(nlookup := 0))], pins + multiset{n}, u) && Trimmed(u, pins, v)
    ensures v.Keys <= s.Keys && Within(v, s)
    ensures forall m {:trigger m in v} | m in s && m != n && s[m].nlookup > 0 :: m in v && v[m].nlookup == s[m].nlookup
  {
    forall m {:trigger m in v} | m in s && m != n && s[m].nlookup > 0
      ensures m in v && v[m].nlookup == s[m].nlookup
    {
      assert m in u;
    }
  }

  lemma CleanedLast(u: Nodes, pins: multiset<nat>, n: nat)
    requires Good(u, pins + multiset{n}) && n in u
    ensures Good(Cascade(u, n), pins) && Trimmed(u, pins, Cascade(u, n)) && Within(Cascade(u, n), u)
  {
    assert Pinned(u, pins) by {
      forall m {:trigger pins[m]} | pins[m] > 0
        ensures m in u
      {
        assert (pins + multiset{n})[m] > 0;
      }
    }
    CascadeGood(u, pins, n);
  }

  lemma LoneDec(s: Nodes, pins: multiset<nat>, n: nat)
    requires Good(s, pins) && n in s && s[n].nlookup == 1 && s[n].refctr == 1 && n != ROOT
    ensures var t := s[n := s[n].(nlookup := 0)]; Good(t, pins + multiset{n})
  {
    var t := s[n := s[n].(nlookup := 0)];
    assert s[n].refctr == Refs(s, pins, n);
    DecCounted(s, pins, n, 1);
    KidsSame(s, n, t[n], n);
  }

  lemma CleanedCount(t: Nodes, pins: multiset<nat>, n: nat)
    requires n in t && t[n].nlookup == 0 && t[n].refctr == 1 && Counted(t, pins + multiset{n}) && ParentsIn(t)
    ensures n in Unlink(t, n) && Unlink(t, n)[n].refctr == 1
  {
    NoReferences(t, pins, n);
    if t[n].entry.Hashed? {
      ChildlessUnlink(t, n);
    }
  }

  function HashedNodes(s: Nodes): set<nat> {
    set m | m in s && s[m].entry.Hashed?
  }

  lemma BareShrinks(s: Nodes, n: nat)
    requires n in s && s[n].entry.Hashed?
    ensures |HashedNodes(s[n := Bare(s[n])])| < |HashedNodes(s)|
  {
    assert HashedNodes(s[n := Bare(s[n])]) == HashedNodes(s) - {n};
    assert n in HashedNodes(s);
  }

  lemma LessSame(s: Nodes, n: nat)
    requires n in s
    ensures HashedNodes(s[n := Less(s[n])]) == HashedNodes(s)
  {
  }

  /** The nodes named so; there is at most one. */
  predicate Named(s: Nodes, link: Link, n: nat) {
    n in s && s[n].entry == Hashed(link)
  }

  predicate NoneNamed(s: Nodes, link: Link) {
    forall m {:trigger s[m]} | m in s :: s[m].entry != Hashed(link)
  }

  datatype Found = Found(n: nat) | NotFound

  datatype Outcome = Ok | Busy | NoMemory

  class NodeTree {
    var nodes: Nodes
    /** Nodes held by lookups of "." under way. */
    ghost var pins: multiset<nat>
    /** Nodes waiting to be cleaned. */
    var lru: set<nat>
    /** A witness that the nodes form trees. */
    ghost var rank: map<nat, nat>
    const remember: bool
    const lruEnabled: bool

    ghost predicate Valid()
      reads this
    {
      && Good(nodes, pins) && Ranked(nodes, rank) && lru <= nodes.Keys && ROOT !in lru
      && (lruEnabled ==> remember) && (!lruEnabled ==> lru == {})
    }

    constructor (remember: bool, lruEnabled: bool)
      requires lruEnabled ==> remember
      ensures Valid() && nodes == map[ROOT := Node(1, 1, Unhashed)] && lru == {} && pins == multiset{} && this.remember == remember && this.lruEnabled == lruEnabled
    {
      this.remember, this.lruEnabled := remember, lruEnabled;
      nodes := map[ROOT := Node(1, 1, Unhashed)];
      pins := multiset{};
      lru := {};
      rank := map[ROOT := 0];
      new;
      assert Kids(nodes, ROOT) == {};
    }

    /** Drops a reference to p; whoever calls it held that reference. */
    method Unref(p: nat, ghost held: multiset<nat>)
      requires p in nodes && Counted(nodes, held + multiset{p}) && ParentsIn(nodes) && Ranked(nodes, rank) && lru <= nodes.Keys
      modifies this`nodes, this`lru
      ensures nodes == Cascade(old(nodes), p) && lru == old(lru) * nodes.Keys
      decreases |HashedNodes(nodes)|, 2
    {
      hide Counted, ParentsIn, Unlink, Kids, HashedNodes;
      CascadeKeys(nodes, p);
      LessSame(nodes, p);
      RankedWithin(nodes, nodes[p := Less(nodes[p])], rank);
      if nodes[p].refctr == 1 {
        DeleteIsCascade(nodes, held, p);
        nodes := nodes[p := Less(nodes[p])];
        DeleteNode(p, held);
      } else {
        nodes := nodes[p := Less(nodes[p])];
      }
    }

    method DeleteNode(n: nat, ghost held: multiset<nat>)
      requires n in nodes && Counted(nodes, held) && ParentsIn(nodes) && Kids(nodes, n) == {} && Ranked(nodes, rank) && lru <= nodes.Keys
      modifies this`nodes, this`lru
      ensures nodes == Unlink(old(nodes), n) - {n} && lru == old(lru) * nodes.Keys
      decreases |HashedNodes(nodes)|, 1
    {
      hide Counted, ParentsIn, Unlink, Kids, HashedNodes;
      UnhashName(n, held);
      lru := lru - {n};
      nodes := nodes - {n};
    }

    /** A node's name is taken out of the table, and the reference to its parent dropped. */
    method UnhashName(n: nat, ghost held: multiset<nat>)
      requires n in nodes && Ranked(nodes, rank) && Counted(nodes, held) && ParentsIn(nodes) && lru <= nodes.Keys
      modifies this`nodes, this`lru
      ensures nodes == Unlink(old(nodes), n) && n in nodes && nodes.Keys <= old(nodes).Keys
      ensures lru == old(lru) * nodes.Keys
      decreases |HashedNodes(nodes)|, 0
    {
      hide Counted, Kids, HashedNodes;
      if nodes[n].entry.Hashed? {
        NamelessStays(nodes, held, n, rank);
        BareCounted(nodes, held, n);
        BareShrinks(nodes, n);
        RankedWithin(nodes, nodes[n := Bare(nodes[n])], rank);
        var parent := nodes[n].entry.link.parent;
        nodes := nodes[n := Bare(nodes[n])];
        CascadeKeys(nodes, parent);
        Unref(parent, held);
      }
    }

    method LookupNode(link: Link) returns (r: Found)
      requires Valid()
      ensures r.Found? ==> Named(nodes, link, r.n) && forall m {:trigger Named(nodes, link, m)} | Named(nodes, link, m) :: m == r.n
      ensures r.NotFound? ==> NoneNamed(nodes, link)
    {
      if n :| n in nodes && nodes[n].entry == Hashed(link) {
        return Found(n);
      }
      return NotFound;
    }

    /** Enters a node below a parent; fails without memory for the name. */
    method HashName(n: nat, link: Link, memory: bool) returns (ok: bool)
      requires Valid() && n in nodes && n != ROOT && nodes[n].entry.Unhashed? && link.parent in nodes
      requires NoneNamed(nodes, link) && !Under(nodes, rank, link.parent, n)
      modifies this`nodes, this`rank
      ensures Valid() && ok == memory && nodes == if ok then Linked(old(nodes), n, link) else old(nodes)
    {
      ok := memory;
      if ok {
        LinkedGood(nodes, pins, n, link);
        LinkedRanked(nodes, rank, n, link);
        hide Good, Ranked;
        rank := Reranked(nodes, rank, n, link.parent);
        nodes := Linked(nodes, n, link);
      }
    }

    /** A lookup: the node named so, or the parent itself when there is no name, or a new node. */
    method FindNode(parent: nat, named: bool, name: string, id: nat, memory: bool) returns (r: Found)
      requires Valid() && parent in nodes && id !in nodes
      modifies this`nodes, this`lru, this`rank
      ensures Valid()
      ensures r.NotFound? ==> !memory && nodes == old(nodes)
      ensures r.Found? && r.n in old(nodes) ==> nodes == old(nodes)[r.n := Inc(old(nodes)[r.n])] && (if named then Named(old(nodes), Link(parent, name), r.n) else r.n == parent)
      ensures r.Found? && r.n !in old(nodes) ==> named && r.n == id && Named(nodes, Link(parent, name), id) && nodes[id].nlookup == (if remember then 2 else 1)
      ensures r.Found? && r.n !in old(nodes) ==>
        && NoneNamed(old(nodes), Link(parent, name)) && nodes.Keys == old(nodes.Keys) + {id} && nodes[parent] == More(old(nodes)[parent])
        && forall m {:trigger nodes[m]} | m in old(nodes) && m != parent :: nodes[m] == old(nodes)[m]
      ensures Ones(old(nodes), old(lru)) ==> Ones(nodes, lru)
      ensures lru == if lruEnabled && r.Found? && r.n in old(nodes) && old(nodes)[r.n].nlookup == 1 then old(lru) - {r.n} else old(lru)
    {
      hide Good, Linked;
      var link := Link(parent, name);
      r := Found(parent);
      if named {
        r := LookupNode(link);
      }
      if r.Found? {
        if lruEnabled && nodes[r.n].nlookup == 1 {
          lru := lru - {r.n};
        }
        IncGood(nodes, pins, r.n);
        RankedWithin(nodes, nodes[r.n := Inc(nodes[r.n])], rank);
        nodes := nodes[r.n := Inc(nodes[r.n])];
      } else if memory {
        NewNode(link, id);
        r := Found(id);
      }
    }

    method NewNode(link: Link, id: nat)
      requires Valid() && link.parent in nodes && id !in nodes
      requires NoneNamed(nodes, link)
      modifies this`nodes, this`rank
      ensures Valid() && id in nodes && Named(nodes, link, id) && nodes[id].nlookup == (if remember then 2 else 1)
      ensures nodes.Keys == old(nodes).Keys + {id} && nodes[link.parent] == More(old(nodes)[link.parent])
      ensures forall m {:trigger nodes[m]} | m in old(nodes) && m != link.parent :: nodes[m] == old(nodes)[m]
    {
      NewGood(nodes, pins, id, if remember then 2 else 1);
      RootThere(nodes, pins);
      NewRanked(nodes, pins, rank, id, Node(if remember then 2 else 1, 1, Unhashed), link.parent);
      NewLinked(nodes, id, Node(if remember then 2 else 1, 1, Unhashed), link);
      hide Good, Ranked, Linked, NoneNamed, Under;
      rank := rank[id := 0];
      nodes := nodes[id := Node(if remember then 2 else 1, 1, Unhashed)];
      var ok := HashName(id, link, true);
    }

    /** The kernel forgets k lookups of a node. */
    method ForgetNode(n: nat, k: nat)
      requires Valid() && n in nodes && k <= nodes[n].nlookup && 0 < nodes[n].nlookup
      modifies this`nodes, this`lru
      ensures Valid() && nodes == if n == ROOT then old(nodes) else Forgotten(old(nodes), n, k)
      ensures n != ROOT && n in nodes ==> nodes[n].nlookup == old(nodes)[n].nlookup - k && nodes[n].entry == old(nodes)[n].entry
      ensures n != ROOT && k < old(nodes)[n].nlookup ==>
        n in nodes && nodes.Keys == old(nodes).Keys && nodes[n].refctr == old(nodes)[n].refctr && forall m | m in nodes && m != n :: nodes[m] == old(nodes)[m]
      ensures n != ROOT && k == old(nodes)[n].nlookup ==> (n in nodes <==> old(nodes)[n].refctr > 1)
      ensures lru == (if lruEnabled && n != ROOT && old(nodes)[n].nlookup == k + 1 then old(lru) + {n} else old(lru)) * nodes.Keys
      ensures Ones(old(nodes), old(lru)) ==> (Ones(nodes, lru) <==> !(n in old(lru) && k > 0 && old(nodes)[n].refctr > 1))
    {
      hide Counted, ParentsIn, Alive, UniqueNames, Pinned, Rooted;
      if n == ROOT {
        return;
      }
      DecCounted(nodes, pins, n, k);
      DecParents(nodes, pins, n, k);
      ForgottenGood(nodes, pins, n, k);
      ForgottenExact(nodes, pins, n, k);
      RankedWithin(nodes, Forgotten(nodes, n, k), rank);
      RankedWithin(nodes, nodes[n := nodes[n].(nlookup := nodes[n].nlookup - k)], rank);
      hide Ranked;
      nodes := nodes[n := nodes[n].(nlookup := nodes[n].nlookup - k)];
      if nodes[n].nlookup == 0 {
        if Ones(old(nodes), old(lru)) {
          ForgottenOnes(old(nodes), pins, n, k, lru);
        }
        Unref(n, pins);
      } else if lruEnabled && nodes[n].nlookup == 1 {
        lru := lru + {n};
      }
    }

    /** A lookup of "." pins the directory while it is under way. */
    method PinDot(n: nat) returns (ok: bool)
      requires Valid()
      modifies this`nodes, this`pins
      ensures Valid() && ok == (n in old(nodes))
      ensures if ok then nodes == old(nodes)[n := More(old(nodes)[n])] && pins == old(pins) + multiset{n} else unchanged(this)
    {
      ok := n in nodes;
      if ok {
        PinGood(nodes, pins, n);
        RankedWithin(nodes, nodes[n := More(nodes[n])], rank);
        hide Good, Ranked;
        nodes := nodes[n := More(nodes[n])];
        pins := pins + multiset{n};
      }
    }

    method UnpinDot(n: nat)
      requires Valid() && pins[n] > 0
      modifies this`nodes, this`pins, this`lru
      ensures Valid() && nodes == Cascade(old(nodes), n) && pins == old(pins) - multiset{n}
    {
      hide Counted, ParentsIn, Alive, UniqueNames, Rooted;
      assert pins - multiset{n} + multiset{n} == pins;
      pins := pins - multiset{n};
      UnpinGood(nodes, pins, n);
      RankedWithin(nodes, Cascade(nodes, n), rank);
      hide Ranked;
      Unref(n, pins);
    }

    /** A name is removed. With `remember` the library's own lookup goes too. */
    method UnlinkNode(n: nat)
      requires Valid() && n in nodes && n != ROOT && (remember ==> nodes[n].nlookup > 1)
      modifies this`nodes, this`lru
      ensures Valid() && n in nodes && nodes == Unlinked(old(nodes), n, remember) && lru == old(lru) * nodes.Keys
      ensures old(nodes)[n].entry.Hashed? ==> Keeps(old(nodes), n, LostWithName(remember), nodes)
    {
      hide Good, Unlink, Kids, Cascade, Keeps;
      if nodes[n].entry.Hashed? {
        NameFreed(nodes, pins, n, remember, rank);
      }
      RememberGood(nodes, pins, n);
      if remember {
        RankedWithin(nodes, nodes[n := nodes[n].(nlookup := nodes[n].nlookup - 1)], rank);
        nodes := nodes[n := nodes[n].(nlookup := nodes[n].nlookup - 1)];
      }
      Unfold(nodes, pins);
      UnlinkKeeps(nodes, pins, n, rank);
      RankedWithin(nodes, Unlink(nodes, n), rank);
      hide Counted, ParentsIn, Alive, UniqueNames, Pinned, Rooted, Ranked;
      UnhashName(n, pins);
    }

    method RemoveNode(link: Link) returns (r: Found)
      requires Valid() && (remember ==> forall n {:trigger nodes[n]} | Named(nodes, link, n) :: nodes[n].nlookup > 1)
      modifies this`nodes, this`lru
      ensures Valid()
      ensures r.NotFound? ==> NoneNamed(old(nodes), link) && unchanged(this)
      ensures r.Found? ==> Named(old(nodes), link, r.n) && nodes == Unlinked(old(nodes), r.n, remember) && Keeps(old(nodes), r.n, LostWithName(remember), nodes)
      ensures NoneNamed(nodes, link)
      ensures lru == old(lru) * nodes.Keys && (Ones(old(nodes), old(lru)) ==> Ones(nodes, lru))
    {
      hide Good, Unlink, Kids, Cascade;
      r := LookupNode(link);
      if r.Found? {
        NamedNotRoot(nodes, pins, link, r.n);
        NameFreed(nodes, pins, r.n, remember, rank);
        UnlinkNode(r.n);
      }
    }

    /** A node loses its name, if it has one. */
    method Detach(n: nat)
      requires Valid() && n in nodes && n != ROOT
      modifies this`nodes, this`lru
      ensures Valid() && n in nodes
      ensures lru == old(lru) * nodes.Keys
      ensures if old(nodes)[n].entry.Hashed? then Keeps(old(nodes), n, 0, nodes) else nodes == old(nodes)
    {
      hide Good, Kids, Cascade, Keeps;
      Unfold(nodes, pins);
      UnlinkKeeps(nodes, pins, n, rank);
      RankedWithin(nodes, Unlink(nodes, n), rank);
      if nodes[n].entry.Hashed? {
        NameFreed(nodes, pins, n, false, rank);
      }
      hide Counted, ParentsIn, Alive, UniqueNames, Pinned, Rooted, Ranked;
      UnhashName(n, pins);
    }

    /** A node takes the name of another, which loses it. The kernel has looked up the new parent, and does not ask to move
        a directory below itself. */
    method RenameNode(from: Link, to: Link, hidden: bool, memory: bool) returns (err: Outcome, ghost n: Found, ghost target: Found)
      requires Valid() && to.parent in nodes && nodes[to.parent].nlookup > 0
      requires forall m {:trigger Named(nodes, from, m)} | Named(nodes, from, m) :: !Under(nodes, rank, to.parent, m)
      requires remember ==> forall m {:trigger nodes[m]} | Named(nodes, to, m) :: nodes[m].nlookup > 1
      modifies this`nodes, this`lru, this`rank
      ensures Valid() && Finds(old(nodes), from, n) && Finds(old(nodes), to, target)
      ensures err == Outcome.Busy <==> n.Found? && target.Found? && hidden
      ensures err == NoMemory <==> n.Found? && !memory && !(target.Found? && hidden)
      ensures n.NotFound? || err == Busy ==> nodes == old(nodes)
      ensures n.Found? && err != Busy ==>
        Renamed(old(nodes), n.n, target, LostWithName(remember), nodes, if err == Ok then Hashed(to) else Unhashed)
      ensures lru == old(lru) * nodes.Keys && (Ones(old(nodes), old(lru)) ==> Ones(nodes, lru))
    {
      hide Good, Keeps, Linked, Ranked, Under;
      var node := LookupNode(from);
      var newnode := LookupNode(to);
      n, target := node, newnode;
      if node.NotFound? {
        return Ok, n, target;
      }
      NamedNotRoot(nodes, pins, from, node.n);
      if newnode.Found? {
        if hidden {
          return Busy, n, target;
        }
        NamedNotRoot(nodes, pins, to, newnode.n);
        NameFreed(nodes, pins, newnode.n, remember, rank);
        TargetFreed(nodes, pins, rank, from, to, node.n, newnode.n, remember);
        UnlinkNode(newnode.n);
      }
      ghost var s1 := nodes;
      FirstStep(old(nodes), rank, target, LostWithName(remember), s1, node.n, from, to);
      Detach(node.n);
      SecondStep(s1, node.n, nodes, to);
      BothSteps(old(nodes), node.n, from, target, LostWithName(remember), s1, nodes);
      StillNotUnder(old(nodes), s1, nodes, rank, target, node.n, to.parent);
      LinkStep(old(nodes), node.n, target, LostWithName(remember), nodes, to);
      var ok := HashName(node.n, to, memory);
      err := if ok then Ok else NoMemory;
      if Ones(old(nodes), old(lru)) {
        RenamedOnes(old(nodes), node.n, target, LostWithName(remember), nodes, if ok then Hashed(to) else Unhashed, old(lru));
      }
    }

    method CleanNode(n: nat)
      requires Valid() && n in nodes && nodes[n].nlookup == 1 && n != ROOT
      modifies this`nodes, this`lru
      ensures Valid() && nodes == Cleaned(old(nodes), n) && lru == old(lru) * nodes.Keys
    {
      hide Kids, Cascade, Counted, ParentsIn, Alive, UniqueNames, Rooted, Pinned;
      CleanedGood(nodes, pins, n, rank);
      if nodes[n].refctr > 1 {
        return;
      }
      CleanSteps(nodes, pins, n, rank);
      RankedWithin(nodes, Cleaned(nodes, n), rank);
      hide Ranked;
      CascadeKeys(Unlink(nodes[n := nodes[n].(nlookup := 0)], n), n);
      nodes := nodes[n := nodes[n].(nlookup := 0)];
      UnhashName(n, pins + multiset{n});
      Unref(n, pins);
    }

    /** Expired nodes, oldest first, are deleted unless something else refers to them. */
    method CleanCache(expired: seq<nat>)
      requires Valid() && Ones(nodes, lru) && Listed(lru, expired)
      modifies this`nodes, this`lru
      ensures Valid() && nodes == CleanAll(old(nodes), expired) && lru == old(lru) * nodes.Keys
      ensures forall m {:trigger m in nodes} | m in old(nodes) && m !in expired && old(nodes)[m].nlookup > 0 :: m in nodes
      ensures forall m {:trigger m in nodes} | m in old(nodes) && KernelLookups(old(nodes)[m]) > 0 && m !in nodes ::
        m in expired && old(nodes)[m].entry.Unhashed?
      ensures forall i {:trigger expired[i]} | 0 <= i < |expired| :: expired[i] in nodes <==> Stays(old(nodes), expired, i)
    {
      hide *;
      WaitingStart(nodes, lru, expired);
      for i := 0 to |expired|
        invariant Valid() && lru == old(lru) * nodes.Keys && CleanedTo(old(nodes), old(lru), expired, i, nodes)
      {
        ghost var s := nodes;
        CleanNext(this, old(nodes), old(lru), expired, i);
        CleanNode(expired[i]);
        CleanStep(old(nodes), old(lru), expired, i, s, pins, rank, nodes);
      }
      CleanEnd(old(nodes), old(lru), expired, nodes);
      HeldStay(old(nodes), old(lru), expired, nodes);
    }
  }

  /** When the turn of e[i] comes, something other than its lookup refers to it. */
  ghost predicate Stays(s: Nodes, e: seq<nat>, i: nat)
    requires i < |e|
  {
    var t := CleanAll(s, e[..i]);
    e[i] in t && t[e[i]].refctr > 1
  }

  /** Of the first i expired nodes those are gone that nothing else referred to. */
  ghost predicate Turns(s0: Nodes, e: seq<nat>, i: nat, s: Nodes)
    requires i <= |e|
  {
    forall j {:trigger e[j]} | 0 <= j < i :: if Stays(s0, e, j) then e[j] in s && s[e[j]].nlookup == 1 else e[j] !in s
  }

  lemma TurnsNext(s0: Nodes, e: seq<nat>, i: nat, s: Nodes, t: Nodes)
    requires i < |e| && Once(e) && Turns(s0, e, i, s) && t.Keys <= s.Keys
    requires forall m {:trigger m in t} | m in s && m != e[i] && s[m].nlookup > 0 :: m in t && t[m].nlookup == s[m].nlookup
    requires if Stays(s0, e, i) then e[i] in t && t[e[i]].nlookup == 1 else e[i] !in t
    ensures Turns(s0, e, i + 1, t)
  {
    hide Stays;
    forall j {:trigger e[j]} | 0 <= j < i + 1
      ensures if Stays(s0, e, j) then e[j] in t && t[e[j]].nlookup == 1 else e[j] !in t
    {
      if j < i {
        assert e[j] != e[i];
      }
    }
  }

  /** The first i expired nodes have been cleaned; the others wait, and whatever else is looked up stays. */
  ghost predicate CleanedTo(s0: Nodes, lru0: set<nat>, e: seq<nat>, i: nat, s: Nodes) {
    && i <= |e| && Once(e) && s == CleanAll(s0, e[..i]) && Waiting(s, lru0 * s.Keys, e[i..])
    && Turns(s0, e, i, s)
    && forall m {:trigger m in s} | m in s0 && m !in e && s0[m].nlookup > 0 :: m in s && s[m].nlookup > 0
  }

  lemma CleanNext(t: NodeTree, s0: Nodes, lru0: set<nat>, e: seq<nat>, i: nat)
    requires t.Valid() && CleanedTo(s0, lru0, e, i, t.nodes) && i < |e|
    ensures e[i] in t.nodes && t.nodes[e[i]].nlookup == 1 && (t.lru == lru0 * t.nodes.Keys ==> e[i] != ROOT)
    ensures Good(t.nodes, t.pins) && Ranked(t.nodes, t.rank) && ParentsIn(t.nodes)
  {
    hide Good, Ranked, CleanAll;
    WaitingNext(t.nodes, lru0 * t.nodes.Keys, e[i..]);
    Unfold(t.nodes, t.pins);
  }

  lemma CleanStep(s0: Nodes, lru0: set<nat>, e: seq<nat>, i: nat, s: Nodes, pins: multiset<nat>, rank: map<nat, nat>, t: Nodes)
    requires CleanedTo(s0, lru0, e, i, s) && i < |e| && e[i] in s && s[e[i]].nlookup == 1 && e[i] != ROOT && ParentsIn(s)
    requires t == Cleaned(s, e[i]) && Good(s, pins) && Ranked(s, rank)
    ensures CleanedTo(s0, lru0, e, i + 1, t) && t.Keys <= s.Keys
  {
    CleanedGood(s, pins, e[i], rank);
    assert s[e[i]].refctr > 1 ==> t == s;
    assert Stays(s0, e, i) <==> s[e[i]].refctr > 1;
    hide Good, Ranked, Cleaned, ParentsIn, Stays;
    assert e[..i + 1][..i] == e[..i] && e[i..][1..] == e[i + 1..];
    assert CleanAll(s0, e[..i + 1]) == t;
    hide CleanAll;
    TurnsNext(s0, e, i, s, t);
    hide Turns, Once;
    WaitingNext(s, lru0 * s.Keys, e[i..]);
    WaitingAfter(s, e[i], lru0, e[i + 1..], t, lru0 * t.Keys);
  }

  lemma CleanEnd(s0: Nodes, lru0: set<nat>, e: seq<nat>, t: Nodes)
    requires CleanedTo(s0, lru0, e, |e|, t)
    ensures t == CleanAll(s0, e) && forall m {:trigger m in t} | m in s0 && m !in e && s0[m].nlookup > 0 :: m in t
    ensures forall i {:trigger e[i]} | 0 <= i < |e| :: e[i] in t <==> Stays(s0, e, i)
  {
    assert e[..|e|] == e;
    hide Stays;
  }

  lemma WaitingStart(s: Nodes, lru: set<nat>, e: seq<nat>)
    requires Ones(s, lru) && Listed(lru, e)
    ensures CleanedTo(s, lru, e, 0, s) && lru == lru * s.Keys
  {
    assert e[0..] == e && e[..0] == [];
  }

  /** An expired node has one lookup: the library's if the node has its name, and the kernel's if it has lost it. */
  lemma HeldStay(s: Nodes, lru: set<nat>, e: seq<nat>, t: Nodes)
    requires Ones(s, lru) && Listed(lru, e) && forall m {:trigger m in t} | m in s && m !in e && s[m].nlookup > 0 :: m in t
    ensures forall m {:trigger m in t} | m in s && KernelLookups(s[m]) > 0 && m !in t :: m in e && s[m].entry.Unhashed?
  {
  }

  /** A new node linked below its parent. */
  lemma NewLinked(s: Nodes, id: nat, c: Node, link: Link)
    requires id !in s && link.parent in s && c.entry.Unhashed? && NoneNamed(s, link)
    ensures NoneNamed(s[id := c], link)
    ensures var t := Linked(s[id := c], id, link);
      && Named(t, link, id) && t[id].nlookup == c.nlookup && t.Keys == s.Keys + {id} && t[link.parent] == More(s[link.parent])
      && forall m {:trigger t[m]} | m in s && m != link.parent :: t[m] == s[m]
  {
  }

  /** The lookups that the kernel holds while the library remembers nodes: the library's own goes with the name. */
  function KernelLookups(c: Node): int {
    c.nlookup - if c.entry.Hashed? then 1 else 0
  }

  /** A looked-up node that is neither pinned nor a parent has one reference. */
  lemma Unreferenced(s: Nodes, pins: multiset<nat>, n: nat)
    requires Good(s, pins) && n in s && s[n].nlookup > 0 && pins[n] == 0 && forall m {:trigger s[m]} | m in s :: s[m].entry.Unhashed?
    ensures s[n].refctr == 1
  {
    assert Kids(s, n) == {};
    assert s[n].refctr == Refs(s, pins, n);
  }

  /** The root and one child, looked up twice by the kernel. */
  method LookTwice() returns (t: NodeTree, n: nat)
    ensures t.Valid() && fresh(t) && t.remember && t.lruEnabled && t.lru == {} && t.pins == multiset{}
    ensures n != ROOT && t.nodes.Keys == {ROOT, n} && Named(t.nodes, Link(ROOT, "a"), n) && t.nodes[n].nlookup == 3
  {
    t := new NodeTree(true, true);
    n := ROOT + 1;
    hide Good, Ranked, Kids;
    var first := t.FindNode(ROOT, true, "a", n, true);
    assert first == Found(n);
    var second := t.FindNode(ROOT, true, "a", n + 1, true);
    assert second == Found(n);
  }

  /** Its name is removed. */
  method RemoveName(t: NodeTree, n: nat)
    requires t.Valid() && t.remember && t.lru == {} && t.pins == multiset{}
    requires n != ROOT && t.nodes.Keys == {ROOT, n} && Named(t.nodes, Link(ROOT, "a"), n) && t.nodes[n].nlookup == 3
    modifies t
    ensures t.Valid() && t.lru == {} && t.pins == multiset{}
    ensures t.nodes.Keys == {ROOT, n} && t.nodes[n].nlookup == 2 && t.nodes[n].entry.Unhashed? && t.nodes[ROOT].entry.Unhashed?
  {
    Unfold(t.nodes, t.pins);
    NameFreed(t.nodes, t.pins, n, true, t.rank);
    hide Good, Ranked, Kids, Counted, ParentsIn, Alive, Unlinked;
    var removed := t.RemoveNode(Link(ROOT, "a"));
    assert removed == Found(n);
    assert ROOT in t.nodes && n in t.nodes;
    assert t.nodes.Keys == {ROOT, n};
  }

  /** The kernel looks a node up twice, its name is removed, and the kernel forgets one lookup. The node then has one lookup, as if
      only the library remembered it, and expires while the kernel still holds it. */
  method HeldNodeExpires() returns (t: NodeTree, n: nat, ghost held: int)
    ensures t.Valid() && held == 1 && n !in t.nodes
  {
    t, n := LookTwice();
    RemoveName(t, n);
    hide Good, Ranked, Kids, Counted;
    t.ForgetNode(n, 1);
    held := KernelLookups(t.nodes[n]);
    Unreferenced(t.nodes, t.pins, n);
    CleanedGood(t.nodes, t.pins, n, t.rank);
    Unfold(t.nodes, t.pins);
    CleanOne(t.nodes, n);
    hide Cleaned, CleanAll;
    t.CleanCache([n]);
  }

  lemma CleanOne(s: Nodes, n: nat)
    requires n in s && ParentsIn(s)
    ensures CleanAll(s, [n]) == Cleaned(s, n)
  {
    assert [n][..0] == [] && CleanAll(s, []) == s;
  }

  /** Every node that waits to be cleaned has exactly one lookup. */
  predicate Ones(s: Nodes, lru: set<nat>) {
    forall n {:trigger s[n]} {:trigger n in lru} | n in lru :: n in s && s[n].nlookup == 1
  }

  predicate Once(e: seq<nat>) {
    forall i, j {:trigger e[i], e[j]} | 0 <= i < j < |e| :: e[i] != e[j]
  }

  /** Nodes of the list, each once. */
  predicate Listed(lru: set<nat>, e: seq<nat>) {
    Once(e) && (forall i {:trigger e[i]} | 0 <= i < |e| :: e[i] in lru)
  }

  /** Nodes waiting to be cleaned, each listed once. */
  predicate Waiting(s: Nodes, lru: set<nat>, e: seq<nat>) {
    Once(e) && (forall i {:trigger e[i]} | 0 <= i < |e| :: e[i] in lru && e[i] in s && s[e[i]].nlookup == 1)
  }

  lemma WaitingNext(s: Nodes, lru: set<nat>, e: seq<nat>)
    requires Waiting(s, lru, e) && e != []
    ensures e[0] in lru && e[0] in s && s[e[0]].nlookup == 1 && e[0] !in e[1..] && Waiting(s, lru, e[1..])
  {
  }

  lemma WaitingAfter(s: Nodes, n: nat, lru0: set<nat>, e: seq<nat>, t: Nodes, lru: set<nat>)
    requires Waiting(s, lru0 * s.Keys, e) && n !in e && lru == lru0 * t.Keys
    requires forall m {:trigger m in t} | m in s && m != n && s[m].nlookup > 0 :: m in t && t[m].nlookup == s[m].nlookup
    ensures Waiting(t, lru, e)
  {
    assert forall i {:trigger e[i]} | 0 <= i < |e| :: e[i] in t;
  }

  /** The nodes after a row of expired nodes has been cleaned. */
  function CleanAll(s: Nodes, e: seq<nat>): Nodes {
    if e == [] then s
    else
      var t := CleanAll(s, e[..|e| - 1]);
      var n := e[|e| - 1];
      if n in t && ParentsIn(t) then Cleaned(t, n) else t
  }

  lemma CleanSteps(s: Nodes, pins: multiset<nat>, n: nat, rank: map<nat, nat>)
    requires Ranked(s, rank) && Good(s, pins) && n in s && s[n].nlookup == 1 && s[n].refctr <= 1 && n != ROOT
    ensures var t := s[n := s[n].(nlookup := 0)];
            && Counted(t, pins + multiset{n}) && ParentsIn(t) && ParentsIn(s) && Ranked(t, rank)
            && n in Unlink(t, n) && Counted(Unlink(t, n), pins + multiset{n}) && ParentsIn(Unlink(t, n)) && Ranked(Unlink(t, n), rank)
  {
    var t := s[n := s[n].(nlookup := 0)];
    assert Alive(s);
    LoneDec(s, pins, n);
    RankedWithin(s, t, rank);
    UnlinkKeeps(t, pins + multiset{n}, n, rank);
    RankedWithin(t, Unlink(t, n), rank);
  }

  lemma NewRanked(s: Nodes, pins: multiset<nat>, rank: map<nat, nat>, n: nat, c: Node, parent: nat)
    requires Good(s, pins) && Ranked(s, rank) && n !in s && c.entry.Unhashed? && parent in s
    ensures Ranked(s[n := c], rank[n := 0]) && !Under(s[n := c], rank[n := 0], parent, n)
  {
    var t, r := s[n := c], rank[n := 0];
    forall m {:trigger t[m]} | m in t && t[m].entry.Hashed? && t[m].entry.link.parent in t
      ensures r[t[m].entry.link.parent] < r[m]
    {
      assert s[m].entry == t[m].entry;
    }
    NoOrphans(s, n);
    KidsUpdate(s, n, c, n);
    NotUnder(t, r, parent, n);
  }

  ghost predicate Finds(s: Nodes, link: Link, r: Found) {
    if r.Found? then Named(s, link, r.n) else NoneNamed(s, link)
  }

  /** The entry of a node after a rename. */
  function EntryAfter(s: Nodes, n: nat, target: Found, entry: Entry, m: nat): Entry
    requires m in s
  {
    if m == n then entry else if target == Found(m) then Unhashed else s[m].entry
  }

  /** After a rename of n: nobody else moves, the target has lost its name, and n and all looked-up nodes stay. */
  predicate Renamed(s: Nodes, n: nat, target: Found, lost: nat, t: Nodes, entry: Entry) {
    && n in t
    && (forall m {:trigger t[m]} | m in t :: m in s && t[m].entry == EntryAfter(s, n, target, entry, m))
    && (forall m {:trigger t[m]} | m in t :: t[m].nlookup + (if target == Found(m) then lost else 0) == s[m].nlookup)
    && (forall m {:trigger m in t} | m in s && s[m].nlookup > 0 :: m in t)
  }

  /** The target's parent is looked up, so freeing the target's name deletes nothing. */
  lemma TargetFreed(s: Nodes, pins: multiset<nat>, rank: map<nat, nat>, from: Link, to: Link, n: nat, target: nat, remember: bool)
    requires Good(s, pins) && Ranked(s, rank) && Named(s, from, n) && Named(s, to, target) && target != ROOT && (remember ==> s[target].nlookup > 1)
    requires to.parent in s && s[to.parent].nlookup > 0
    ensures ParentsIn(s) && Unlinked(s, target, remember).Keys == s.Keys && target != to.parent
  {
    var t := if remember then s[target := s[target].(nlookup := s[target].nlookup - 1)] else s;
    RememberGood(s, pins, target);
    var q := to.parent;
    assert t[q].refctr == Refs(t, pins, q) && target in Kids(t, q);
    assert t[q].refctr > 1;
  }

  lemma FirstStep(s: Nodes, rank: map<nat, nat>, target: Found, lost: nat, t: Nodes, n: nat, from: Link, to: Link)
    requires Named(s, from, n) && to.parent in s && s[to.parent].nlookup > 0
    requires if target.Found? then target.n in s && target.n != to.parent && Keeps(s, target.n, lost, t) && NoneNamed(t, to) && t.Keys == s.Keys else t == s && NoneNamed(s, to)
    ensures n in t && to.parent in t && t[to.parent].nlookup > 0 && NoneNamed(t, to) && Within(t, s)
  {
  }

  lemma SecondStep(s: Nodes, n: nat, t: Nodes, to: Link)
    requires n in s && to.parent in s && s[to.parent].nlookup > 0 && NoneNamed(s, to)
    requires n in t && if s[n].entry.Hashed? then Keeps(s, n, 0, t) else t == s
    ensures to.parent in t && NoneNamed(t, to) && t[n].entry.Unhashed? && Within(t, s)
  {
  }

  lemma BothSteps(s: Nodes, n: nat, from: Link, target: Found, lost: nat, s1: Nodes, t: Nodes)
    requires Named(s, from, n) && (target.Found? ==> target.n in s)
    requires n in s1 && n in t && if target.Found? then Keeps(s, target.n, lost, s1) else s1 == s
    requires if s1[n].entry.Hashed? then Keeps(s1, n, 0, t) else t == s1
    requires target.Found? && lost > 0 ==> s[target.n].nlookup > lost
    ensures Renamed(s, n, target, lost, t, Unhashed)
  {
    forall m {:trigger m in t} | m in s && s[m].nlookup > 0
      ensures m in t
    {
      assert m in s1;
    }
  }

  lemma StillNotUnder(s: Nodes, s1: Nodes, t: Nodes, rank: map<nat, nat>, target: Found, n: nat, q: nat)
    requires Ranked(s, rank) && Within(s1, s) && Within(t, s1) && Ranked(t, rank) && !Under(s, rank, q, n)
    ensures !Under(t, rank, q, n)
  {
    assert Within(t, s);
    if Under(t, rank, q, n) {
      UnderWithin(s, t, rank, q, n);
    }
  }

  lemma LinkStep(s: Nodes, n: nat, target: Found, lost: nat, t: Nodes, to: Link)
    requires Renamed(s, n, target, lost, t, Unhashed) && n in t && to.parent in t
    ensures Renamed(s, n, target, lost, Linked(t, n, to), Hashed(to)) && Linked(t, n, to).Keys == t.Keys
  {
  }

  /** A rename takes a lookup only from a node with several, so none that waits to be cleaned loses its one. */
  lemma RenamedOnes(s: Nodes, n: nat, target: Found, lost: nat, t: Nodes, entry: Entry, lru: set<nat>)
    requires Renamed(s, n, target, lost, t, entry) && Ones(s, lru) && (target.Found? && lost > 0 ==> target.n in s && s[target.n].nlookup > 1)
    ensures Ones(t, lru * t.Keys)
  {
  }

  /** The nodes after n has lost its name, and with `remember` one lookup. */
  function Unlinked(s: Nodes, n: nat, remember: bool): Nodes
    requires n in s && (remember ==> s[n].nlookup > 1) && ParentsIn(s)
  {
    if remember then DecKeepsParents(s, n); Unlink(s[n := s[n].(nlookup := s[n].nlookup - 1)], n)
    else Unlink(s, n)
  }

  lemma DecKeepsParents(s: Nodes, n: nat)
    requires n in s && s[n].nlookup > 0 && ParentsIn(s)
    ensures ParentsIn(s[n := s[n].(nlookup := s[n].nlookup - 1)])
  {
  }

  /** One lookup less, of several. */
  lemma RememberGood(s: Nodes, pins: multiset<nat>, n: nat)
    requires Good(s, pins) && n in s && n != ROOT
    ensures ParentsIn(s)
    ensures s[n].nlookup > 1 ==> Good(s[n := s[n].(nlookup := s[n].nlookup - 1)], pins)
  {
    if s[n].nlookup > 1 {
      ForgottenGood(s, pins, n, 1);
    }
  }

  lemma PinGood(s: Nodes, pins: multiset<nat>, n: nat)
    requires Good(s, pins) && n in s
    ensures Good(s[n := More(s[n])], pins + multiset{n})
  {
    PinCounted(s, pins, n);
  }

  lemma UnpinGood(s: Nodes, pins: multiset<nat>, n: nat)
    requires Good(s, pins + multiset{n})
    ensures n in s && Good(Cascade(s, n), pins) && Within(Cascade(s, n), s)
  {
    assert (pins + multiset{n})[n] > 0;
    CleanedLast(s, pins, n);
  }

  lemma NamedNotRoot(s: Nodes, pins: multiset<nat>, link: Link, n: nat)
    requires Good(s, pins) && Named(s, link, n)
    ensures n != ROOT
  {
  }

  /** Removing a name frees it: nobody else has it. */
  lemma NameFreed(s: Nodes, pins: multiset<nat>, n: nat, remember: bool, rank: map<nat, nat>)
    requires Good(s, pins) && Ranked(s, rank) && n in s && n != ROOT && s[n].entry.Hashed? && (remember ==> s[n].nlookup > 1)
    ensures ParentsIn(s) && NoneNamed(Unlinked(s, n, remember), s[n].entry.link) && n in Unlinked(s, n, remember)
    ensures Keeps(s, n, LostWithName(remember), Unlinked(s, n, remember))
  {
    RememberGood(s, pins, n);
    var t := if remember then s[n := s[n].(nlookup := s[n].nlookup - 1)] else s;
    Unfold(s, pins);
    assert Good(t, pins);
    RankedWithin(s, t, rank);
    hide Good, Unlink, Cascade, Counted, Kids, Alive, ParentsIn, UniqueNames, Pinned, Rooted, Trimmed, Keeps, Ranked;
    Unfold(t, pins);
    UnlinkKeeps(t, pins, n, rank);
    assert t[n := Bare(t[n])] == s[n := Bare(s[n].(nlookup := s[n].nlookup - LostWithName(remember)))];
    TrimmedKeeps(s, n, LostWithName(remember), pins, Unlink(t, n));
    KeepsFree(s, n, LostWithName(remember), Unlink(t, n));
  }

  lemma TrimmedKeeps(s: Nodes, n: nat, lost: nat, pins: multiset<nat>, t: Nodes)
    requires n in s && n in t && lost <= s[n].nlookup && Trimmed(s[n := Bare(s[n].(nlookup := s[n].nlookup - lost))], pins, t)
    ensures Keeps(s, n, lost, t)
  {
  }

  lemma KeepsFree(s: Nodes, n: nat, lost: nat, t: Nodes)
    requires n in s && s[n].entry.Hashed? && UniqueNames(s) && Keeps(s, n, lost, t)
    ensures NoneNamed(t, s[n].entry.link)
  {
  }

  /** Every other node keeps its name and its lookups if it stays, and stays if it is looked up; n loses its name and some lookups. */
  predicate Keeps(s: Nodes, n: nat, lost: nat, t: Nodes) {
    && (forall m {:trigger t[m]} | m in t :: m in s && t[m].entry == if m == n then Unhashed else s[m].entry)
    && (forall m {:trigger m in t} | m in s && (m == n || s[m].nlookup > 0) :: m in t)
    && (forall m {:trigger t[m]} | m in t :: t[m].nlookup + (if m == n then lost else 0) == s[m].nlookup)
  }

  /** The lookups that removing a name takes from its node: the library's own, if it has one. */
  function LostWithName(remember: bool): nat {
    if remember then 1 else 0
  }

  lemma RootThere(s: Nodes, pins: multiset<nat>)
    requires Good(s, pins)
    ensures ROOT in s && s[ROOT].nlookup > 0
  {
  }

  lemma DecParents(s: Nodes, pins: multiset<nat>, n: nat, k: nat)
    requires Good(s, pins) && n in s && k <= s[n].nlookup
    ensures ParentsIn(s[n := s[n].(nlookup := s[n].nlookup - k)])
  {
  }
}
