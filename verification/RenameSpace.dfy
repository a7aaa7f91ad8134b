/** What it costs to change two bytes of a tree without holes in one commit. */
module RenameSpace {
  import opened Geometry
  import opened WriteSpec
  import opened SpaceSpec

  /** The level of the lowest block that both bytes lie below. */
  function Meet(h: nat, base: nat, x: nat, y: nat): (l: nat)
    requires base <= x < base + Cap(h) && base <= y < base + Cap(h)
    ensures l <= h
    decreases h
  {
    if h == 0 then 0
    else if Slot(h, base, x) != Slot(h, base, y) then h
    else Meet(h - 1, ChildBase(h, base, Slot(h, base, x)), x, y)
  }

  lemma {:induction false} MeetSame(h: nat, base: nat, x: nat)
    requires base <= x < base + Cap(h)
    ensures Meet(h, base, x, x) == 0
    decreases h
  {
    if h > 0 {
      MeetSame(h - 1, ChildBase(h, base, Slot(h, base, x)), x);
    }
  }

  lemma {:induction false} MeetSwap(h: nat, base: nat, x: nat, y: nat)
    requires base <= x < base + Cap(h) && base <= y < base + Cap(h)
    ensures Meet(h, base, x, y) == Meet(h, base, y, x)
    decreases h
  {
    if h > 0 && Slot(h, base, x) == Slot(h, base, y) {
      MeetSwap(h - 1, ChildBase(h, base, Slot(h, base, x)), x, y);
    }
  }

  /** Two bytes, what changing each alone costs below its leaf, and what changing both costs when they share a leaf: in the atomic
      mode, with whether the leaf moves, and in the copying mode. */
  datatype Ends = Ends(x: nat, y: nat, cx: nat, cy: nat, atomic: Bill, copied: nat)

  predicate At(x: nat, h: nat, base: nat) {
    base <= x < base + Cap(h)
  }

  /** What a subtree costs: one block for each level above a changed leaf, and in the atomic mode none above the block where the two
      ways meet. */
  function Price(e: Ends, h: nat, base: nat, commit: Commit): Bill {
    if !At(e.x, h, base) && !At(e.y, h, base) then Bill(0, false)
    else if !At(e.y, h, base) then Bill(e.cx + h, true)
    else if !At(e.x, h, base) then Bill(e.cy + h, true)
    else
      var l := Meet(h, base, e.x, e.y);
      if l == 0 then if commit == Atomic then Bill(e.atomic.cost, e.atomic.moved && h == 0) else Bill(e.copied + h, true)
      else Bill(e.cx + e.cy + 2 * l - 1 + if commit == Atomic then 0 else h - l, commit != Atomic || l == h)
  }

  /** The mode below a table: one that the range crosses is copied, so what lies below it is too. */
  function Below2(commit: Commit, single: bool): Commit {
    if commit == Atomic && !single then CopyOnly else commit
  }

  /** The entries of a table from first to no - 1, with the copy of the table if one of them moves. */
  function PriceTo(e: Ends, h: nat, base: nat, commit: Commit, first: nat, last: nat, no: nat): Bill
    requires h > 0
    decreases no
  {
    if no <= first then Bill(0, false)
    else
      Add(PriceTo(e, h, base, commit, first, last, no - 1),
          Price(e, h - 1, ChildBase(h, base, no - 1), Below2(commit, first == last)),
          !(commit == Atomic && first == last))
  }

  /** The entries from first to last are those of a range from x to y. */
  predicate Spans(e: Ends, h: nat, base: nat, commit: Commit, first: nat, last: nat)
    requires h > 0
  {
    && commit != Free && first <= last < 512
    && (At(e.x, h, base) ==> first <= Slot(h, base, e.x) <= last)
    && (At(e.y, h, base) ==> first <= Slot(h, base, e.y) <= last)
    && (commit == Atomic ==> At(e.x, h, base) && At(e.y, h, base) && Slot(h, base, e.x) == first && Slot(h, base, e.y) == last)
  }

  /** Which of the bytes lie below an entry. */
  lemma AtEntry(x: nat, h: nat, base: nat, k: nat)
    requires h > 0 && k < 512
    ensures At(x, h - 1, ChildBase(h, base, k)) <==> At(x, h, base) && Slot(h, base, x) == k
  {
    ChildBaseOrder(h, base);
    assert ChildBase(h, base, 0) == base;
    if At(x, h - 1, ChildBase(h, base, k)) {
      assert base <= ChildBase(h, base, k) && ChildBase(h, base, k) + Cap(h - 1) <= base + Cap(h);
      SlotUnique(h, base, x, k);
    }
  }

  /** What the entries before no come to. */
  function Part(e: Ends, h: nat, base: nat, commit: Commit, single: bool, no: nat): Bill
    requires h > 0
  {
    var hasX, hasY := At(e.x, h, base) && Slot(h, base, e.x) < no, At(e.y, h, base) && Slot(h, base, e.y) < no;
    if !hasX && !hasY then Bill(0, false)
    else if At(e.x, h, base) && At(e.y, h, base) && Slot(h, base, e.x) == Slot(h, base, e.y) then
      Add(Bill(0, false), Price(e, h - 1, ChildBase(h, base, Slot(h, base, e.x)), Below2(commit, single)), !(commit == Atomic && single))
    else Bill((if hasX then e.cx + h - 1 else 0) + (if hasY then e.cy + h - 1 else 0) + 1, true)
  }

  /** What one entry costs that does not hold both bytes. */
  lemma EntryPrice(e: Ends, h: nat, base: nat, k: nat, commit: Commit)
    requires h > 0 && k < 512
    ensures var hasX, hasY := At(e.x, h, base) && Slot(h, base, e.x) == k, At(e.y, h, base) && Slot(h, base, e.y) == k;
      var b := Price(e, h - 1, ChildBase(h, base, k), commit);
      if hasX && hasY then true else b == Bill((if hasX then e.cx + h - 1 else 0) + (if hasY then e.cy + h - 1 else 0), hasX || hasY)
  {
    AtEntry(e.x, h, base, k);
    AtEntry(e.y, h, base, k);
    hide Slot, ChildBase, Cap, Meet, At;
  }

  lemma PartStart(e: Ends, h: nat, base: nat, commit: Commit, first: nat, last: nat)
    requires h > 0 && Spans(e, h, base, commit, first, last)
    ensures Part(e, h, base, commit, first == last, first) == Bill(0, false)
  {
    hide Price, Slot, ChildBase, Cap, At, Below2, Add;
  }

  lemma PartStep(e: Ends, h: nat, base: nat, commit: Commit, first: nat, last: nat, no: nat)
    requires h > 0 && Spans(e, h, base, commit, first, last) && first <= no <= last
    ensures Add(Part(e, h, base, commit, first == last, no), Price(e, h - 1, ChildBase(h, base, no), Below2(commit, first == last)), !(commit == Atomic && first == last))
      == Part(e, h, base, commit, first == last, no + 1)
  {
    hide Price, Slot, ChildBase, Cap, At, Below2;
    EntryPrice(e, h, base, no, Below2(commit, first == last));
  }

  lemma {:induction false} PriceToIs(e: Ends, h: nat, base: nat, commit: Commit, first: nat, last: nat, no: nat)
    requires h > 0 && Spans(e, h, base, commit, first, last) && first <= no <= last + 1
    ensures PriceTo(e, h, base, commit, first, last, no) == Part(e, h, base, commit, first == last, no)
    decreases no
  {
    hide Price, Part, Spans, ChildBase, Below2, Add;
    if no > first {
      PriceToIs(e, h, base, commit, first, last, no - 1);
      assert no - 1 + 1 == no;
      PartStep(e, h, base, commit, first, last, no - 1);
    } else {
      PartStart(e, h, base, commit, first, last);
    }
  }

  /** Both bytes below one entry. */
  lemma SameEntry(e: Ends, h: nat, base: nat, commit: Commit)
    requires h > 0 && commit != Free && At(e.x, h, base) && At(e.y, h, base) && Slot(h, base, e.x) == Slot(h, base, e.y)
    ensures Add(Bill(0, false), Price(e, h - 1, ChildBase(h, base, Slot(h, base, e.x)), commit), commit != Atomic) == Price(e, h, base, commit)
  {
    var k := Slot(h, base, e.x);
    AtEntry(e.x, h, base, k);
    AtEntry(e.y, h, base, k);
    assert Meet(h, base, e.x, e.y) == Meet(h - 1, ChildBase(h, base, k), e.x, e.y);
    hide Slot, ChildBase, Cap, Meet, At;
  }

  /** The bytes below two entries, or only one of them in the subtree. */
  lemma OtherEntries(e: Ends, h: nat, base: nat, commit: Commit)
    requires h > 0 && (At(e.x, h, base) && At(e.y, h, base) ==> Slot(h, base, e.x) != Slot(h, base, e.y))
    ensures var hasX, hasY := At(e.x, h, base), At(e.y, h, base);
      Price(e, h, base, commit) == if !hasX && !hasY then Bill(0, false) else Bill((if hasX then e.cx + h - 1 else 0) + (if hasY then e.cy + h - 1 else 0) + 1, true)
  {
    assert At(e.x, h, base) && At(e.y, h, base) ==> Meet(h, base, e.x, e.y) == h;
    hide Slot, ChildBase, Cap, Meet, At;
  }

  /** All entries together are the subtree. */
  lemma PriceWhole(e: Ends, h: nat, base: nat, commit: Commit, first: nat, last: nat)
    requires h > 0 && Spans(e, h, base, commit, first, last)
    ensures PriceTo(e, h, base, commit, first, last, last + 1) == Price(e, h, base, commit)
  {
    hide Price, PriceTo, Slot, ChildBase, Cap;
    PriceToIs(e, h, base, commit, first, last, last + 1);
    if At(e.x, h, base) && At(e.y, h, base) && Slot(h, base, e.x) == Slot(h, base, e.y) {
      SameEntry(e, h, base, commit);
    } else {
      OtherEntries(e, h, base, commit);
    }
  }

  lemma {:induction false} PriceToMono(e: Ends, h: nat, base: nat, commit: Commit, first: nat, last: nat, no: nat, no': nat)
    requires h > 0 && no <= no'
    ensures PriceTo(e, h, base, commit, first, last, no).cost <= PriceTo(e, h, base, commit, first, last, no').cost
    decreases no'
  {
    if no < no' {
      PriceToMono(e, h, base, commit, first, last, no, no' - 1);
    }
  }

  /** A step that takes cost blocks, and fails exactly when there are fewer. */
  ghost predicate Spent(s0: Snap, s1: Snap, cost: nat, r: int) {
    if r == 0 then Room(s0) == Room(s1) + cost else cost > Room(s0)
  }
}
