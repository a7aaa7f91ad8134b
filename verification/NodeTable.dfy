/** Linear hashing: which bucket a hash belongs to while the table is partly split. */
module Slots {
  const NODE_TABLE_MIN_SIZE: nat := 8192

  /** Sizes reached from the smallest by doubling. */
  predicate TableSize(size: nat) {
    size == NODE_TABLE_MIN_SIZE || (size > NODE_TABLE_MIN_SIZE && size % 2 == 0 && TableSize(size / 2))
  }

  lemma SizeEven(size: nat)
    requires TableSize(size)
    ensures size % 2 == 0 && size >= NODE_TABLE_MIN_SIZE && TableSize(2 * size) && size / 2 >= 1
  {
    assert 2 * size / 2 == size;
  }

  lemma SizeHalf(size: nat)
    requires TableSize(size) && size / 2 >= NODE_TABLE_MIN_SIZE
    ensures TableSize(size / 2)
  {
  }

  lemma SizeLeast(size: nat)
    requires TableSize(size) && size / 2 < NODE_TABLE_MIN_SIZE
    ensures size == NODE_TABLE_MIN_SIZE
  {
    if size > NODE_TABLE_MIN_SIZE {
      SizeEven(size / 2);
    }
  }

  /** Buckets below split have been split in two; the others still hold both halves. */
  function Slot(h: nat, half: nat, split: nat): nat
    requires half > 0
  {
    var hash := h % (2 * half);
    var oldhash := hash % half;
    if oldhash >= split then oldhash else hash
  }

  lemma HalfOf(hash: nat, half: nat)
    requires 0 < half && hash < 2 * half
    ensures hash % half == if hash < half then hash else hash - half
  {
    if hash < half {
      Reduce(hash, half, 0);
    } else {
      Reduce(hash - half, half, 1);
    }
  }

  /** r + s * k leaves remainder r. */
  lemma {:induction false} Reduce(r: nat, s: nat, k: nat)
    requires r < s
    ensures (r + s * k) % s == r
  {
    if k > 0 {
      Reduce(r, s, k - 1);
      Shift(r + s * (k - 1), s);
      assert r + s * (k - 1) + s == r + s * k;
    }
  }

  lemma Shift(x: nat, s: nat)
    requires s > 0
    ensures (x + s) % s == x % s
  {
    var q, r := x / s, x % s;
    assert x == s * q + r;
    assert x + s == s * (q + 1) + r by {
      assert s * (q + 1) == s * q + s;
    }
    Unique(x + s, s, q + 1, r);
  }

  lemma Unique(x: nat, s: nat, q: nat, r: nat)
    requires s > 0 && r < s && x == s * q + r
    ensures x % s == r
  {
    var q', r' := x / s, x % s;
    assert x == s * q' + r';
    if q < q' {
      Gap(s, q, q');
    } else if q' < q {
      Gap(s, q', q);
    }
  }

  lemma {:induction false} Gap(s: nat, a: nat, b: nat)
    requires a < b
    ensures s * b >= s * a + s
  {
    assert s * b == s * (b - 1) + s;
    if a < b - 1 {
      Gap(s, a, b - 1);
    }
  }

  /** One more bucket split: only hashes of that bucket move, and only to its upper half. */
  lemma SlotSplit(h: nat, half: nat, split: nat)
    requires split < half
    ensures Slot(h, half, split) == if Slot(h, half, split + 1) == split + half then split else Slot(h, half, split + 1)
    ensures Slot(h, half, split) != split ==> Slot(h, half, split + 1) == Slot(h, half, split)
    ensures Slot(h, half, split) == split ==> Slot(h, half, split + 1) == split || Slot(h, half, split + 1) == split + half
  {
    HalfOf(h % (2 * half), half);
  }

  /** No hash belongs to a bucket whose lower half has not been split. */
  lemma SlotBound(h: nat, half: nat, split: nat)
    requires half > 0 && split <= half
    ensures Slot(h, half, split) < split + half
  {
    HalfOf(h % (2 * half), half);
  }

  lemma ModSplit(h: nat, s: nat, k: nat, r: nat)
    requires 0 < s && r < 2 * s && h == s * k + r
    ensures h % s == if r < s then r else r - s
  {
    if r < s {
      Unique(h, s, k, r);
    } else {
      assert s * (k + 1) == s * k + s;
      Unique(h, s, k + 1, r - s);
    }
  }

  lemma ModDouble(h: nat, s: nat)
    requires s > 0
    ensures h % (2 * s) % s == h % s
  {
    var k := Parts(h, s);
    HalfOf(h % (2 * s), s);
    ModSplit(h, s, k, h % (2 * s));
  }

  lemma Parts(h: nat, s: nat) returns (k: nat)
    requires s > 0
    ensures h == s * k + h % (2 * s)
  {
    k := 2 * (h / (2 * s));
  }

  /** A fully split table is an unsplit table of twice the size. */
  lemma SlotDouble(h: nat, half: nat)
    requires half > 0
    ensures Slot(h, half, half) == Slot(h, 2 * half, 0)
  {
    ModDouble(h, 2 * half);
    HalfOf(h % (2 * half), half);
  }
}

/** The tables of nodes by id and by (parent, name). */
module NodeTables {
  import opened Words
  import opened Slots
  import opened Layouts
  import opened Sequences

  /** The bucket of every hashed node. */
  ghost function Home<K>(raw: K -> nat, key: map<nat, K>, half: nat, split: nat): (m: map<nat, nat>)
    requires half > 0
    ensures m.Keys == key.Keys && forall n {:trigger m[n]} | n in m :: m[n] == Slot(raw(key[n]), half, split)
  {
    map n | n in key :: Slot(raw(key[n]), half, split)
  }

  lemma HomeAdd<K>(raw: K -> nat, key: map<nat, K>, half: nat, split: nat, n: nat, k: K)
    requires half > 0
    ensures Home(raw, key[n := k], half, split) == Home(raw, key, half, split)[n := Slot(raw(k), half, split)]
  {
    hide Slot;
  }

  lemma HomeRemove<K>(raw: K -> nat, key: map<nat, K>, half: nat, split: nat, n: nat)
    requires half > 0
    ensures Home(raw, key - {n}, half, split) == Home(raw, key, half, split) - {n}
  {
    hide Slot;
  }

  lemma HomeDouble<K>(raw: K -> nat, key: map<nat, K>, half: nat)
    requires half > 0
    ensures Home(raw, key, half, half) == Home(raw, key, 2 * half, 0)
  {
    var a, b := Home(raw, key, half, half), Home(raw, key, 2 * half, 0);
    forall n {:trigger b[n]} | n in key
      ensures a[n] == b[n]
    {
      SlotDouble(raw(key[n]), half);
    }
    hide Slot;
  }

  /** Undoing the split of one bucket. */
  lemma HomeMerge<K>(raw: K -> nat, key: map<nat, K>, half: nat, split: nat, at': map<nat, nat>)
    requires split < half
    requires var at := Home(raw, key, half, split + 1); at' == map n | n in at :: if at[n] == split + half then split else at[n]
    ensures Home(raw, key, half, split) == at'
  {
    forall n {:trigger at'[n]} | n in key
      ensures Home(raw, key, half, split)[n] == at'[n]
    {
      SlotSplit(raw(key[n]), half, split);
    }
    hide Slot;
  }

  lemma HomeBound<K>(raw: K -> nat, key: map<nat, K>, half: nat, split: nat)
    requires 0 < half && split <= half
    ensures var at := Home(raw, key, half, split); forall n {:trigger at[n]} | n in at :: at[n] < split + half
  {
    var at := Home(raw, key, half, split);
    forall n {:trigger at[n]} | n in at
      ensures at[n] < split + half
    {
      SlotBound(raw(key[n]), half, split);
    }
  }

  /** Part of the way through splitting bucket `from`: the nodes from position p on are still to be looked at. */
  ghost predicate Splitting<K>(raw: K -> nat, key: map<nat, K>, half: nat, from: nat, chains: seq<seq<nat>>, at: map<nat, nat>, p: nat)
    requires half > 0 && from < |chains|
  {
    && Layout(chains, at) && at.Keys == key.Keys && p <= |chains[from]|
    && forall n {:trigger at[n]} | n in at :: at[n] == Slot(raw(key[n]), half, from + 1) || n in chains[from][p..]
  }

  lemma SplitStart<K>(raw: K -> nat, key: map<nat, K>, half: nat, from: nat, chains: seq<seq<nat>>)
    requires from < half && |chains| == 2 * half && Layout(chains, Home(raw, key, half, from))
    ensures Splitting(raw, key, half, from, chains, Home(raw, key, half, from), 0)
  {
    var at := Home(raw, key, half, from);
    forall n {:trigger at[n]} | n in at
      ensures at[n] == Slot(raw(key[n]), half, from + 1) || n in chains[from]
    {
      SlotSplit(raw(key[n]), half, from);
    }
    assert chains[from][0..] == chains[from];
    hide Slot, Distinct;
  }

  /** A node that belongs to the bucket stays. */
  lemma SplitStay<K>(raw: K -> nat, key: map<nat, K>, half: nat, from: nat, chains: seq<seq<nat>>, at: map<nat, nat>, p: nat)
    requires from < half && |chains| == 2 * half && p < |chains[from]| && Splitting(raw, key, half, from, chains, at, p)
    requires chains[from][p] in key && Slot(raw(key[chains[from][p]]), half, from + 1) == from
    ensures Splitting(raw, key, half, from, chains, at, p + 1)
  {
    hide Slot, Distinct;
    assert chains[from][p..] == [chains[from][p]] + chains[from][p + 1..];
    assert chains[from][p] in chains[from];
  }

  lemma SplitSees<K>(raw: K -> nat, key: map<nat, K>, half: nat, from: nat, chains: seq<seq<nat>>, at: map<nat, nat>, p: nat)
    requires from < half && |chains| == 2 * half && p < |chains[from]| && Splitting(raw, key, half, from, chains, at, p)
    ensures chains[from][p] in key
  {
    hide Slot, Distinct;
    assert chains[from][p] in chains[from];
  }

  /** A node that belongs elsewhere goes to the front of its own bucket. */
  lemma SplitMove<K>(raw: K -> nat, key: map<nat, K>, half: nat, from: nat, chains: seq<seq<nat>>, at: map<nat, nat>, p: nat, to: nat)
    requires from < half && |chains| == 2 * half && p < |chains[from]| && Splitting(raw, key, half, from, chains, at, p)
    requires chains[from][p] in key && Slot(raw(key[chains[from][p]]), half, from + 1) == to && to != from && to < |chains|
    ensures Splitting(raw, key, half, from, Prepend(CutAt(chains, from, p), to, chains[from][p]), at[chains[from][p] := to], p)
  {
    hide Slot, Distinct;
    var n := chains[from][p];
    CutLayout(chains, at, from, p);
    PrependLayout(CutAt(chains, from, p), at - {n}, to, n);
    assert (at - {n})[n := to] == at[n := to];
    assert Cut(chains[from], p)[p..] == chains[from][p + 1..];
    assert chains[from][p..] == [n] + chains[from][p + 1..];
  }

  lemma SplitEnd<K>(raw: K -> nat, key: map<nat, K>, half: nat, from: nat, chains: seq<seq<nat>>, at: map<nat, nat>)
    requires from < half && |chains| == 2 * half && Splitting(raw, key, half, from, chains, at, |chains[from]|)
    ensures at == Home(raw, key, half, from + 1)
  {
    hide Slot, Layout;
  }

  class NodeTable<K(==)> {
    const raw: K -> nat
    var chains: seq<seq<nat>>
    var size: nat
    var split: nat
    var use: nat
    /** The key fields of the hashed nodes. */
    var key: map<nat, K>

    ghost predicate Valid()
      reads this
    {
      && TableSize(size) && size / 2 > 0 && |chains| == size == 2 * (size / 2) && split <= size / 2 && use == |key|
      && Layout(chains, Home(raw, key, size / 2, split))
    }

    /** The buckets in use: those below it may hold nodes, the others hold none. */
    function Live(): nat
      reads this
    {
      split + size / 2
    }

    constructor (raw: K -> nat)
      ensures Valid() && key == map[] && this.raw == raw
    {
      this.raw := raw;
      chains := [] + Empties(NODE_TABLE_MIN_SIZE);
      size, split, use := NODE_TABLE_MIN_SIZE, 0, 0;
      key := map[];
      new;
      GrowLayout<nat>([], map[], NODE_TABLE_MIN_SIZE);
      assert Home(raw, key, NODE_TABLE_MIN_SIZE / 2, 0) == map[];
    }

    /** The node found, if any, has the key; none is found only when there is none. */
    method Lookup(k: K) returns (found: bool, n: nat)
      requires Valid()
      ensures found ==> n in key && key[n] == k
      ensures !found ==> k !in key.Values
    {
      hide Slot, Distinct;
      var slot := Slot(raw(k), size / 2, split);
      InBucket(raw, key, size / 2, split, chains, k);
      n := 0;
      var i := 0;
      while i < |chains[slot]|
        invariant i <= |chains[slot]|
        invariant forall j {:trigger chains[slot][j]} | 0 <= j < i :: key[chains[slot][j]] != k
      {
        n := chains[slot][i];
        if key[n] == k {
          return true, n;
        }
        i := i + 1;
      }
      found := false;
    }

    method Hash(n: nat, k: K, memory: bool)
      requires Valid() && n !in key
      modifies this
      ensures Valid() && key == old(key)[n := k]
      ensures Live() == old(Live()) + if old(use) + 1 >= old(size) / 2 && old(split) != old(size) / 2 then 1 else 0
    {
      hide Slot, Distinct, Layout, Home, TableSize;
      var slot := Slot(raw(k), size / 2, split);
      SlotBound(raw(k), size / 2, split);
      PrependLayout(chains, Home(raw, key, size / 2, split), slot, n);
      HomeAdd(raw, key, size / 2, split, n, k);
      chains := Prepend(chains, slot, n);
      key := key[n := k];
      use := use + 1;
      if use >= size / 2 {
        Rehash(memory);
      }
    }

    /** Splits one bucket, unless the last doubling failed. */
    method Rehash(memory: bool)
      requires Valid()
      modifies this`chains, this`size, this`split
      ensures Valid() && Live() == if old(split) == old(size) / 2 then old(Live()) else old(Live()) + 1
      ensures memory ==> split < size / 2 || old(split) == old(size) / 2
    {
      hide Slot, Distinct, Layout, Home, TableSize, Splitting, Prepend, CutAt;
      if split == size / 2 {
        return;
      }
      ghost var at: map<nat, nat> := Home(raw, key, size / 2, split);
      var from := split;
      SplitStart(raw, key, size / 2, from, chains);
      split := split + 1;
      var p := 0;
      while p < |chains[from]|
        invariant size == old(size) && split == from + 1 && |chains| == size
        invariant p <= |chains[from]| && Splitting(raw, key, size / 2, from, chains, at, p)
        decreases |chains[from]| - p
      {
        var n := chains[from][p];
        SplitSees(raw, key, size / 2, from, chains, at, p);
        var to := Slot(raw(key[n]), size / 2, split);
        if to != from {
          SlotBound(raw(key[n]), size / 2, split);
          SplitMove(raw, key, size / 2, from, chains, at, p, to);
          MoveShape(chains, from, p, to);
          chains := Prepend(CutAt(chains, from, p), to, n);
          at := at[n := to];
        } else {
          SplitStay(raw, key, size / 2, from, chains, at, p);
          p := p + 1;
        }
      }
      SplitLayout(raw, key, size / 2, from, chains, at);
      if split == size / 2 {
        Resize(memory);
      }
    }

    /** A table whose buckets are all split doubles, unless there is no memory for it. */
    method Resize(memory: bool)
      requires Valid() && split == size / 2
      modifies this`chains, this`size, this`split
      ensures Valid()
      ensures if memory then size == 2 * old(size) && split == 0 else unchanged(this)
    {
      if !memory {
        return;
      }
      SizeEven(size);
      HomeDouble(raw, key, size / 2);
      GrowLayout(chains, Home(raw, key, size / 2, split), size);
      hide Slot, Layout, Home, TableSize;
      chains := chains + Empties(size);
      size := 2 * size;
      split := 0;
    }

    method Unhash(n: nat, k: K)
      requires Valid() && (n in key ==> key[n] == k)
      modifies this
      ensures Valid() && key == old(key) - {n}
      ensures n !in old(key) ==> unchanged(this)
      ensures n in old(key) && old(use) - 1 >= old(size) / 4 ==> Live() == old(Live())
      ensures n in old(key) && old(use) - 1 < old(size) / 4 ==> old(Live()) - 8 <= Live() < old(Live()) || Live() == NODE_TABLE_MIN_SIZE / 2
    {
      hide Slot, Distinct, Home, TableSize;
      var slot := Slot(raw(k), size / 2, split);
      InBucket(raw, key, size / 2, split, chains, k);
      hide Layout;
      var p := 0;
      while p < |chains[slot]| && chains[slot][p] != n
        invariant p <= |chains[slot]| && n !in chains[slot][..p]
      {
        p := p + 1;
      }
      if p < |chains[slot]| {
        Drop(slot, p);
        if use < size / 4 {
          Remerge();
        }
      } else {
        assert chains[slot][..p] == chains[slot];
        assert key - {n} == key;
      }
    }

    method Drop(slot: nat, p: nat)
      requires Valid() && slot < |chains| && p < |chains[slot]|
      modifies this`chains, this`key, this`use
      ensures Valid() && key == old(key) - {old(chains[slot][p])}
    {
      hide Slot, Distinct, Home, TableSize, Layout, CutAt;
      var n := chains[slot][p];
      CutLayout(chains, Home(raw, key, size / 2, split), slot, p);
      HomeRemove(raw, key, size / 2, split, n);
      RemoveSize(key, n);
      chains := CutAt(chains, slot, p);
      key := key - {n};
      use := use - 1;
    }

    /** Merges buckets back until one held something, at most eight and not below the least size. */
    method Remerge()
      requires Valid()
      modifies this`chains, this`size, this`split
      ensures Valid() && old(Live()) - 8 <= Live() <= old(Live())
      ensures Live() == old(Live()) ==> Live() == NODE_TABLE_MIN_SIZE / 2
    {
      hide Slot, Distinct, Layout, Home, TableSize, Merge;
      if split == 0 {
        if size / 2 < NODE_TABLE_MIN_SIZE {
          SizeLeast(size);
        }
        Reduce();
      }
      var iter := 8;
      while split > 0 && iter > 0
        invariant Valid() && 0 <= iter && Live() == old(Live()) - (8 - iter)
        invariant iter == 8 && split == 0 ==> Live() == NODE_TABLE_MIN_SIZE / 2
      {
        var moved := MergeLast();
        if moved {
          break;
        }
        iter := iter - 1;
      }
    }

    /** Undoes the last split; says whether the upper bucket held anything. */
    method MergeLast() returns (moved: bool)
      requires Valid() && split > 0
      modifies this`chains, this`split
      ensures Valid() && split == old(split) - 1
    {
      hide Slot, Distinct, Layout, Home, TableSize, Merge;
      split := split - 1;
      var upper := split + size / 2;
      moved := chains[upper] != [];
      if moved {
        MergeBack(raw, key, size / 2, split, chains);
        chains := Merge(chains, split, upper);
      } else {
        NothingToMerge(raw, key, size / 2, split, chains);
      }
    }

    /** A table none of whose buckets is split is halved, down to the least size. */
    method Reduce()
      requires Valid() && split == 0
      modifies this`chains, this`size, this`split
      ensures Valid()
      ensures if old(size) / 2 >= NODE_TABLE_MIN_SIZE then size == old(size) / 2 && split == size / 2 else unchanged(this)
    {
      var half := size / 2;
      if half < NODE_TABLE_MIN_SIZE {
        return;
      }
      SizeHalf(size);
      SizeEven(half);
      HomeDouble(raw, key, half / 2);
      HomeBound(raw, key, half, 0);
      ShrinkLayout(chains, Home(raw, key, half, 0), half);
      hide Slot, Layout, Home, TableSize;
      chains := chains[..half];
      size := half;
      split := half / 2;
    }
  }

  /** The nodes of a key's bucket. */
  lemma InBucket<K>(raw: K -> nat, key: map<nat, K>, half: nat, split: nat, chains: seq<seq<nat>>, k: K)
    requires 0 < half && split <= half && |chains| == 2 * half && Layout(chains, Home(raw, key, half, split))
    ensures Slot(raw(k), half, split) < |chains|
    ensures forall j {:trigger chains[Slot(raw(k), half, split)][j]} | 0 <= j < |chains[Slot(raw(k), half, split)]| :: chains[Slot(raw(k), half, split)][j] in key
    ensures forall n {:trigger key[n]} | n in key && key[n] == k :: n in chains[Slot(raw(k), half, split)]
  {
    SlotBound(raw(k), half, split);
    hide Slot, Distinct;
    var chain := chains[Slot(raw(k), half, split)];
    assert forall j {:trigger chain[j]} | 0 <= j < |chain| :: chain[j] in chain;
  }

  lemma MoveShape(chains: seq<seq<nat>>, from: nat, p: nat, to: nat)
    requires from < |chains| && p < |chains[from]| && to < |chains| && to != from
    ensures var r := Prepend(CutAt(chains, from, p), to, chains[from][p]); |r| == |chains| && |r[from]| == |chains[from]| - 1
  {
  }

  lemma SplitLayout<K>(raw: K -> nat, key: map<nat, K>, half: nat, from: nat, chains: seq<seq<nat>>, at: map<nat, nat>)
    requires from < half && |chains| == 2 * half && Splitting(raw, key, half, from, chains, at, |chains[from]|)
    ensures Layout(chains, Home(raw, key, half, from + 1))
  {
    SplitEnd(raw, key, half, from, chains, at);
    hide Slot, Home, Layout;
  }

  lemma RemoveSize<K>(key: map<nat, K>, n: nat)
    requires n in key
    ensures |key - {n}| == |key| - 1
  {
    assert (key - {n}).Keys == key.Keys - {n};
  }

  lemma MergeBack<K>(raw: K -> nat, key: map<nat, K>, half: nat, split: nat, chains: seq<seq<nat>>)
    requires split < half && |chains| == 2 * half && Layout(chains, Home(raw, key, half, split + 1))
    ensures Layout(Merge(chains, split, split + half), Home(raw, key, half, split))
  {
    hide Slot, Layout, Distinct, Merge;
    var at := Home(raw, key, half, split + 1);
    var at' := map n | n in at :: if at[n] == split + half then split else at[n];
    MergeLayout(chains, at, split, split + half, at');
    HomeMerge(raw, key, half, split, at');
  }

  lemma MergeNone(chains: seq<seq<nat>>, a: nat, b: nat)
    requires a < b < |chains| && chains[b] == []
    ensures Merge(chains, a, b) == chains
  {
    assert chains[a] + [] == chains[a];
  }

  lemma NothingToMerge<K>(raw: K -> nat, key: map<nat, K>, half: nat, split: nat, chains: seq<seq<nat>>)
    requires split < half && |chains| == 2 * half && Layout(chains, Home(raw, key, half, split + 1)) && chains[split + half] == []
    ensures Layout(chains, Home(raw, key, half, split))
  {
    hide Slot, Layout, Home, Merge;
    MergeBack(raw, key, half, split, chains);
    MergeNone(chains, split, split + half);
  }

  /** A bucket that no split has reached yet is empty, and a node is in one place only. */
  lemma EmptyAbove<K>(t: NodeTable<K>, i: nat, n: nat, p: nat)
    requires t.Valid() && i < t.size && p < |t.chains[i]| && t.chains[i][p] == n
    ensures i < t.Live() && n in t.key && i == Slot(t.raw(t.key[n]), t.size / 2, t.split)
    ensures forall j, r {:trigger t.chains[j][r]} | 0 <= j < t.size && 0 <= r < |t.chains[j]| && t.chains[j][r] == n :: j == i && r == p
  {
    HomeBound(t.raw, t.key, t.size / 2, t.split);
    hide Slot, TableSize;
    assert n in t.chains[i];
    forall j, r {:trigger t.chains[j][r]} | 0 <= j < t.size && 0 <= r < |t.chains[j]| && t.chains[j][r] == n
      ensures j == i && r == p
    {
      assert n in t.chains[j];
    }
  }

  datatype Op<K> = Insert(n: nat, k: K, memory: bool) | Remove(n: nat)

  /** The finite map the table stands for. A node is hashed only when it is not hashed already. */
  function ApplyOne<K>(key: map<nat, K>, op: Op<K>): map<nat, K> {
    match op
    case Insert(n, k, _) => if n in key then key else key[n := k]
    case Remove(n) => key - {n}
  }

  function Apply<K>(key: map<nat, K>, ops: seq<Op<K>>): map<nat, K> {
    if ops == [] then key else ApplyOne(Apply(key, ops[..|ops| - 1]), ops[|ops| - 1])
  }

  lemma ApplyNext<K>(key: map<nat, K>, ops: seq<Op<K>>, i: nat)
    requires i < |ops|
    ensures Apply(key, ops[..i + 1]) == ApplyOne(Apply(key, ops[..i]), ops[i])
  {
    assert ops[..i + 1][..i] == ops[..i];
  }

  method Step<K(==)>(t: NodeTable<K>, op: Op<K>)
    requires t.Valid()
    modifies t
    ensures t.Valid() && t.key == ApplyOne(old(t.key), op)
  {
    hide Layout, Home, TableSize, Slot;
    match op {
      case Insert(n, k, memory) =>
        if n !in t.key {
          t.Hash(n, k, memory);
        }
      case Remove(n) =>
        if n in t.key {
          t.Unhash(n, t.key[n]);
        } else {
          assert t.key - {n} == t.key;
        }
    }
  }

  /** Any run of insertions and removals, with any pattern of memory failures. */
  method Run<K(==)>(t: NodeTable<K>, ops: seq<Op<K>>)
    requires t.Valid()
    modifies t
    ensures t.Valid() && t.key == Apply(old(t.key), ops)
  {
    hide Layout, Home, TableSize, Slot, ApplyOne;
    assert ops[..0] == [];
    for i := 0 to |ops|
      invariant t.Valid() && t.key == Apply(old(t.key), ops[..i])
    {
      ApplyNext(old(t.key), ops, i);
      Step(t, ops[i]);
    }
    assert ops[..|ops|] == ops;
  }

  /** The unreduced hash of a node id: a 32-bit product. */
  function IdRaw(ino: nat): nat {
    ino % 0x1_0000_0000 * 2654435761 % 0x1_0000_0000
  }

  /** The unreduced hash of a name below a parent, before any wrap-around. */
  function NameSum(parent: nat, name: seq<nat>): nat {
    if name == [] then parent else NameSum(parent, name[..|name| - 1]) * 31 + name[|name| - 1]
  }

  function NameRaw(key: (nat, seq<nat>)): nat {
    NameSum(key.0, key.1) % TWO64
  }

  lemma WrapStep(x: nat, c: nat)
    ensures (x % TWO64 * 31 + c) % TWO64 == (x * 31 + c) % TWO64
  {
    var q := x / TWO64;
    assert x == TWO64 * q + x % TWO64;
    assert x * 31 + c == (x % TWO64 * 31 + c) + TWO64 * (31 * q);
    Periodic(x % TWO64 * 31 + c, 31 * q);
  }

  lemma {:induction false} Periodic(x: nat, k: nat)
    ensures (x + TWO64 * k) % TWO64 == x % TWO64
  {
    if k > 0 {
      Periodic(x, k - 1);
      Shift(x + TWO64 * (k - 1), TWO64);
    }
  }

  /** The loop that hashes a name wraps at every character. */
  method NameHash(parent: nat, name: seq<nat>) returns (hash: nat)
    requires parent < TWO64
    ensures hash == NameRaw((parent, name))
  {
    hash := parent;
    for i := 0 to |name|
      invariant hash == NameSum(parent, name[..i]) % TWO64
    {
      assert name[..i + 1][..i] == name[..i];
      WrapStep(NameSum(parent, name[..i]), name[i]);
      hash := (hash * 31 + name[i]) % TWO64;
    }
    assert name[..|name|] == name;
  }

  /** The two tables of a mount, both empty. */
  method NewTables() returns (ids: NodeTable<nat>, names: NodeTable<(nat, seq<nat>)>)
    ensures ids.Valid() && ids.key == map[] && ids.raw == IdRaw
    ensures names.Valid() && names.key == map[] && names.raw == NameRaw
  {
    ids := new NodeTable(IdRaw);
    names := new NodeTable(NameRaw);
  }
}
