/** How a tree of 512-way indirect blocks divides a file's byte offsets. */
module Geometry {
  /** An indirect block is one level above its entries. */
  const STEP: nat := 1

  /** Bytes addressed by a tree of height h. */
  function Cap(h: nat): (c: nat)
    ensures c >= 4096
  {
    if h == 0 then 4096 else 512 * Cap(h - 1)
  }

  /** Leaf blocks addressed by a tree of height h: 512 to the power h. */
  function MaxBlocks(h: nat): (n: nat)
    ensures n >= 1 && 4096 * n == Cap(h)
  {
    if h == 0 then 1 else 512 * MaxBlocks(h - 1)
  }

  /** s times c, by repeated addition. */
  function Times(s: nat, c: nat): nat {
    if s == 0 then 0 else Times(s - 1, c) + c
  }

  lemma {:induction false} TimesIsMul(s: nat, c: nat)
    ensures Times(s, c) == s * c
  {
    if s > 0 {
      TimesIsMul(s - 1, c);
      assert s * c == (s - 1) * c + c;
    }
  }

  lemma {:induction false} TimesStep(s: nat, s': nat, c: nat)
    requires s < s'
    ensures Times(s, c) + c <= Times(s', c)
    decreases s'
  {
    if s + 1 < s' {
      TimesStep(s, s' - 1, c);
    }
  }

  /** First offset below entry s of an indirect block of height h that starts at offset base. */
  function ChildBase(h: nat, base: nat, s: nat): (r: nat)
    requires h > 0
    ensures r >= base
  {
    base + Times(s, Cap(h - STEP))
  }

  lemma ChildBaseMul(h: nat, base: nat, s: nat)
    requires h > 0
    ensures ChildBase(h, base, s) == base + s * Cap(h - 1)
  {
    TimesIsMul(s, Cap(h - 1));
  }

  lemma ChildBaseStep(h: nat, base: nat, s: nat, s': nat)
    requires h > 0 && s < s'
    ensures ChildBase(h, base, s) + Cap(h - 1) <= ChildBase(h, base, s')
  {
    TimesStep(s, s', Cap(h - 1));
  }

  /** The entries of an indirect block cover disjoint, increasing ranges. */
  lemma ChildBaseOrder(h: nat, base: nat)
    requires h > 0
    ensures forall s: nat, s': nat {:trigger ChildBase(h, base, s), ChildBase(h, base, s')} | s < s' ::
      ChildBase(h, base, s) + Cap(h - 1) <= ChildBase(h, base, s')
    ensures forall s: nat {:trigger ChildBase(h, base, s)} | s < 512 ::
      ChildBase(h, base, s) + Cap(h - 1) <= base + Cap(h)
  {
    forall s: nat, s': nat | s < s'
      ensures ChildBase(h, base, s) + Cap(h - 1) <= ChildBase(h, base, s')
    {
      ChildBaseStep(h, base, s, s');
    }
    forall s: nat | s < 512
      ensures ChildBase(h, base, s) + Cap(h - 1) <= base + Cap(h)
    {
      ChildBaseStep(h, base, s, 512);
      ChildBaseMul(h, base, 512);
    }
  }

  /** The entry whose range holds offset x. */
  function Slot(h: nat, base: nat, x: nat): (s: nat)
    requires h > 0 && base <= x < base + Cap(h)
    ensures s < 512
    ensures ChildBase(h, base, s) <= x < ChildBase(h, base, s) + Cap(h - 1)
  {
    DivSlot(h, base, x);
    (x - base) / Cap(h - STEP)
  }

  lemma DivSlot(h: nat, base: nat, x: nat)
    requires h > 0 && base <= x < base + Cap(h)
    ensures 0 <= (x - base) / Cap(h - 1) < 512
    ensures ChildBase(h, base, (x - base) / Cap(h - 1)) <= x
    ensures x < ChildBase(h, base, (x - base) / Cap(h - 1)) + Cap(h - 1)
  {
    var c := Cap(h - 1);
    var s := (x - base) / c;
    DivBounds(x - base, c);
    if s >= 512 {
      MulMono(512, s, c);
    }
    ChildBaseMul(h, base, s);
  }

  lemma DivBounds(n: nat, c: nat)
    requires c > 0
    ensures 0 <= n / c && (n / c) * c <= n < (n / c) * c + c
  {
    assert n == c * (n / c) + n % c;
  }

  lemma MulMono(a: nat, b: nat, c: nat)
    requires a <= b
    ensures a * c <= b * c
  {
  }

  lemma DivAtLeast(n: nat, c: nat, k: nat)
    requires c > 0 && n >= k * c
    ensures n / c >= k
  {
    DivBounds(n, c);
    if n / c < k {
      MulMono(n / c + 1, k, c);
    }
  }

  lemma SlotUnique(h: nat, base: nat, x: nat, s: nat)
    requires h > 0 && base <= x < base + Cap(h) && s < 512
    requires ChildBase(h, base, s) <= x < ChildBase(h, base, s) + Cap(h - 1)
    ensures Slot(h, base, x) == s
  {
    var r := Slot(h, base, x);
    if r < s {
      ChildBaseStep(h, base, r, s);
    } else if s < r {
      ChildBaseStep(h, base, s, r);
    }
  }

  lemma CapAligned(h: nat)
    ensures Cap(h) % 4096 == 0
  {
    assert Cap(h) == 4096 * MaxBlocks(h);
  }

  lemma TimesAligned(h: nat, k: nat, base: nat)
    requires base % 4096 == 0
    ensures (base + k * Cap(h)) % 4096 == 0
  {
    var n := MaxBlocks(h);
    assert k * (4096 * n) == 4096 * (k * n);
  }

  lemma ChildAligned(h: nat, base: nat, k: nat)
    requires h > 0 && base % 4096 == 0
    ensures ChildBase(h, base, k) % 4096 == 0
  {
    ChildBaseMul(h, base, k);
    TimesAligned(h - 1, k, base);
  }
}

/** Persistent memory and the file trees stored in it. */
module Tree {
  import opened Words
  import opened Geometry

  type Mem = map<nat, Block>

  /** The position a block was allocated for: a tree, a level of it and a start offset. */
  datatype Label = Label(tree: nat, level: nat, start: nat)

  type Labels = map<nat, Label>

  function Get(m: Mem, b: nat): Block {
    if b in m then m[b] else ZeroBlock()
  }

  /** Byte at offset x of the tree of height h rooted at block a; block number 0 is a hole. */
  function Read(m: Mem, a: nat, h: nat, base: nat, x: nat): Byte
    requires base <= x < base + Cap(h)
    decreases h
  {
    if a == 0 then 0
    else if h == 0 then ByteAt(Get(m, a), x - base)
    else
      var s := Slot(h, base, x);
      Read(m, Addr(Get(m, a), s), h - 1, ChildBase(h, base, s), x)
  }

  lemma ReadSlot(m: Mem, a: nat, h: nat, base: nat, s: nat, x: nat)
    requires h > 0 && a != 0 && s < 512
    requires base <= x < base + Cap(h)
    requires ChildBase(h, base, s) <= x < ChildBase(h, base, s) + Cap(h - 1)
    ensures Read(m, a, h, base, x) == Read(m, Addr(Get(m, a), s), h - 1, ChildBase(h, base, s), x)
  {
    SlotUnique(h, base, x, s);
  }

  /** The leaf block that holds offset x; 0 when a block on the way is missing. */
  function LeafOf(m: Mem, a: nat, h: nat, base: nat, x: nat): nat
    requires base <= x < base + Cap(h)
    decreases h
  {
    if a == 0 || h == 0 then a
    else
      var s := Slot(h, base, x);
      LeafOf(m, Addr(Get(m, a), s), h - 1, ChildBase(h, base, s), x)
  }

  /** The position lies in the subtree of height h of tree t that starts at base. */
  predicate In(l: Label, t: nat, h: nat, base: nat) {
    l.tree == t && l.level <= h && base <= l.start < base + Cap(h)
  }

  /** Below offset end the tree is proper: every block is allocated, kept, and sits at its own position. */
  ghost predicate Proper(m: Mem, pos: Labels, freed: set<nat>, t: nat, a: nat, h: nat, base: nat, end: nat)
    decreases h
  {
    a == 0 ||
    (a in pos && pos[a] == Label(t, h, base) && a !in freed &&
     (h > 0 ==> ProperSlots(m, pos, freed, t, Get(m, a), h, base, end)))
  }

  ghost predicate ProperSlots(m: Mem, pos: Labels, freed: set<nat>, t: nat, tbl: Block, h: nat, base: nat, end: nat)
    requires h > 0
    decreases h, 0
  {
    forall s: nat {:trigger ChildBase(h, base, s)} | s < 512 && ChildBase(h, base, s) < end ::
      Proper(m, pos, freed, t, Addr(tbl, s), h - 1, ChildBase(h, base, s), end)
  }

  /** Below |f| the tree reads as f. */
  ghost predicate Shows(m: Mem, a: nat, h: nat, base: nat, f: seq<Byte>) {
    forall x: nat {:trigger Read(m, a, h, base, x)} | base <= x < base + Cap(h) && x < |f| ::
      Read(m, a, h, base, x) == f[x]
  }

  ghost predicate Extends(pos: Labels, pos': Labels) {
    forall b {:trigger b in pos} {:trigger b in pos'} | b in pos :: b in pos' && pos'[b] == pos[b]
  }

  /** No block of the subtree changes or is freed. */
  ghost predicate Kept(m: Mem, m': Mem, pos: Labels, freed: set<nat>, freed': set<nat>, t: nat, h: nat, base: nat) {
    forall b {:trigger Get(m', b)} {:trigger b in freed'} | b in pos && In(pos[b], t, h, base) ::
      Get(m', b) == Get(m, b) && (b in freed' ==> b in freed)
  }

  lemma KeptChild(m: Mem, m': Mem, pos: Labels, freed: set<nat>, freed': set<nat>, t: nat, h: nat, base: nat, s: nat)
    requires h > 0 && s < 512
    requires Kept(m, m', pos, freed, freed', t, h, base)
    ensures Kept(m, m', pos, freed, freed', t, h - 1, ChildBase(h, base, s))
  {
    ChildBaseOrder(h, base);
  }

  /** A tree none of whose blocks change stays proper and reads the same. */
  lemma {:induction false} ProperFrame(m: Mem, m': Mem, pos: Labels, pos': Labels, freed: set<nat>, freed': set<nat>,
                                       t: nat, a: nat, h: nat, base: nat, end: nat)
    requires Proper(m, pos, freed, t, a, h, base, end)
    requires Extends(pos, pos') && Kept(m, m', pos, freed, freed', t, h, base)
    ensures Proper(m', pos', freed', t, a, h, base, end)
    ensures forall x: nat {:trigger Read(m', a, h, base, x)} | base <= x < base + Cap(h) && x < end ::
      Read(m', a, h, base, x) == Read(m, a, h, base, x)
    decreases h
  {
    if a != 0 {
      assert In(pos[a], t, h, base);
      assert Get(m', a) == Get(m, a);
      if h > 0 {
        SlotsFrame(m, m', pos, pos', freed, freed', t, Get(m, a), h, base, end);
        forall x: nat | base <= x < base + Cap(h) && x < end
          ensures Read(m', a, h, base, x) == Read(m, a, h, base, x)
        {
          var s := Slot(h, base, x);
          ReadSlot(m, a, h, base, s, x);
          ReadSlot(m', a, h, base, s, x);
        }
      }
    }
  }

  lemma {:induction false} SlotsFrame(m: Mem, m': Mem, pos: Labels, pos': Labels, freed: set<nat>, freed': set<nat>,
                                      t: nat, tbl: Block, h: nat, base: nat, end: nat)
    requires h > 0
    requires ProperSlots(m, pos, freed, t, tbl, h, base, end)
    requires Extends(pos, pos') && Kept(m, m', pos, freed, freed', t, h, base)
    ensures ProperSlots(m', pos', freed', t, tbl, h, base, end)
    ensures forall s: nat, x: nat {:trigger Read(m', Addr(tbl, s), h - 1, ChildBase(h, base, s), x)} |
      s < 512 && ChildBase(h, base, s) <= x < ChildBase(h, base, s) + Cap(h - 1) && x < end ::
      Read(m', Addr(tbl, s), h - 1, ChildBase(h, base, s), x) == Read(m, Addr(tbl, s), h - 1, ChildBase(h, base, s), x)
    decreases h, 0
  {
    forall s: nat | s < 512 && ChildBase(h, base, s) < end
      ensures Proper(m', pos', freed', t, Addr(tbl, s), h - 1, ChildBase(h, base, s), end)
      ensures forall x: nat {:trigger Read(m', Addr(tbl, s), h - 1, ChildBase(h, base, s), x)} |
        ChildBase(h, base, s) <= x < ChildBase(h, base, s) + Cap(h - 1) && x < end ::
        Read(m', Addr(tbl, s), h - 1, ChildBase(h, base, s), x) == Read(m, Addr(tbl, s), h - 1, ChildBase(h, base, s), x)
    {
      KeptChild(m, m', pos, freed, freed', t, h, base, s);
      ProperFrame(m, m', pos, pos', freed, freed', t, Addr(tbl, s), h - 1, ChildBase(h, base, s), end);
    }
  }

  /** Properness below end gives properness below a smaller end, and below any end once the whole range is covered. */
  lemma {:induction false} ProperEnd(m: Mem, pos: Labels, freed: set<nat>, t: nat, a: nat, h: nat, base: nat, end: nat, end': nat)
    requires Proper(m, pos, freed, t, a, h, base, end)
    requires end' <= end || base + Cap(h) <= end
    ensures Proper(m, pos, freed, t, a, h, base, end')
    decreases h
  {
    if a != 0 && h > 0 {
      var tbl := Get(m, a);
      ChildBaseOrder(h, base);
      forall s: nat | s < 512 && ChildBase(h, base, s) < end'
        ensures Proper(m, pos, freed, t, Addr(tbl, s), h - 1, ChildBase(h, base, s), end')
      {
        ProperEnd(m, pos, freed, t, Addr(tbl, s), h - 1, ChildBase(h, base, s), end, end');
      }
    }
  }

  /** A reader of the first end bytes follows the same pointers in both memories. */
  ghost predicate SameShape(m: Mem, m': Mem, a: nat, h: nat, base: nat, end: nat)
    decreases h
  {
    a != 0 && h > 0 ==>
      forall s: nat {:trigger ChildBase(h, base, s)} | s < 512 && ChildBase(h, base, s) < end ::
        && Addr(Get(m', a), s) == Addr(Get(m, a), s)
        && SameShape(m, m', Addr(Get(m, a), s), h - 1, ChildBase(h, base, s), end)
  }

  lemma {:induction false} ShapeRefl(m: Mem, a: nat, h: nat, base: nat, end: nat)
    ensures SameShape(m, m, a, h, base, end)
    decreases h
  {
    if a != 0 && h > 0 {
      forall s: nat {:trigger ChildBase(h, base, s)} | s < 512 && ChildBase(h, base, s) < end
        ensures SameShape(m, m, Addr(Get(m, a), s), h - 1, ChildBase(h, base, s), end)
      {
        ShapeRefl(m, Addr(Get(m, a), s), h - 1, ChildBase(h, base, s), end);
      }
    }
  }

  lemma {:induction false} ShapeSym(m: Mem, m': Mem, a: nat, h: nat, base: nat, end: nat)
    requires SameShape(m, m', a, h, base, end)
    ensures SameShape(m', m, a, h, base, end)
    decreases h
  {
    if a != 0 && h > 0 {
      forall s: nat {:trigger ChildBase(h, base, s)} | s < 512 && ChildBase(h, base, s) < end
        ensures Addr(Get(m, a), s) == Addr(Get(m', a), s) && SameShape(m', m, Addr(Get(m', a), s), h - 1, ChildBase(h, base, s), end)
      {
        ShapeSym(m, m', Addr(Get(m, a), s), h - 1, ChildBase(h, base, s), end);
      }
    }
  }

  lemma {:induction false} ShapeTrans(m: Mem, m': Mem, m'': Mem, a: nat, h: nat, base: nat, end: nat)
    requires SameShape(m, m', a, h, base, end) && SameShape(m', m'', a, h, base, end)
    ensures SameShape(m, m'', a, h, base, end)
    decreases h
  {
    if a != 0 && h > 0 {
      forall s: nat {:trigger ChildBase(h, base, s)} | s < 512 && ChildBase(h, base, s) < end
        ensures Addr(Get(m'', a), s) == Addr(Get(m, a), s) && SameShape(m, m'', Addr(Get(m, a), s), h - 1, ChildBase(h, base, s), end)
      {
        ShapeTrans(m, m', m'', Addr(Get(m, a), s), h - 1, ChildBase(h, base, s), end);
      }
    }
  }

  /** Whatever the labels, a tree of the same shape is as proper. */
  lemma {:induction false} ShapeProper(m: Mem, m': Mem, pos: Labels, freed: set<nat>, t: nat, a: nat, h: nat, base: nat, end: nat)
    requires SameShape(m, m', a, h, base, end) && Proper(m, pos, freed, t, a, h, base, end)
    ensures Proper(m', pos, freed, t, a, h, base, end)
    decreases h
  {
    if a != 0 && h > 0 {
      assert ProperSlots(m, pos, freed, t, Get(m, a), h, base, end);
      forall s: nat {:trigger ChildBase(h, base, s)} | s < 512 && ChildBase(h, base, s) < end
        ensures Proper(m', pos, freed, t, Addr(Get(m', a), s), h - 1, ChildBase(h, base, s), end)
      {
        ShapeProper(m, m', pos, freed, t, Addr(Get(m, a), s), h - 1, ChildBase(h, base, s), end);
      }
    }
  }

  /** A tree none of whose indirect blocks change keeps its shape. */
  lemma {:induction false} ShapeFrame(m: Mem, m': Mem, pos: Labels, freed: set<nat>, t: nat, a: nat, h: nat, base: nat, end: nat)
    requires Proper(m, pos, freed, t, a, h, base, end)
    requires forall b {:trigger Get(m', b)} | b in pos && In(pos[b], t, h, base) && pos[b].level > 0 :: Get(m', b) == Get(m, b)
    ensures SameShape(m, m', a, h, base, end)
    decreases h
  {
    if a != 0 && h > 0 {
      assert Get(m', a) == Get(m, a);
      assert ProperSlots(m, pos, freed, t, Get(m, a), h, base, end);
      ChildBaseOrder(h, base);
      forall s: nat {:trigger ChildBase(h, base, s)} | s < 512 && ChildBase(h, base, s) < end
        ensures SameShape(m, m', Addr(Get(m, a), s), h - 1, ChildBase(h, base, s), end)
      {
        ShapeFrame(m, m', pos, freed, t, Addr(Get(m, a), s), h - 1, ChildBase(h, base, s), end);
      }
    }
  }

  lemma {:induction false} ShapeLeaf(m: Mem, m': Mem, a: nat, h: nat, base: nat, end: nat, x: nat)
    requires SameShape(m, m', a, h, base, end) && base <= x < base + Cap(h) && x < end
    ensures LeafOf(m', a, h, base, x) == LeafOf(m, a, h, base, x)
    decreases h
  {
    if a != 0 && h > 0 {
      var s := Slot(h, base, x);
      ShapeLeaf(m, m', Addr(Get(m, a), s), h - 1, ChildBase(h, base, s), end, x);
    }
  }
}
