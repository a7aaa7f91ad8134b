/** Chains of key-value elements, and the map they stand for. */
module HashMapSpec {
  import opened Layouts
  import opened Sequences

  datatype Elt<K, V> = Elt(key: K, val: V)

  /** The bucket of every element of a map, in a table of n buckets. */
  ghost function Home<K(!new), V(!new)>(raw: K -> nat, m: map<K, V>, n: nat): (at: map<Elt<K, V>, nat>)
    requires n > 0
    ensures forall e {:trigger e in at} :: e in at <==> e.key in m && m[e.key] == e.val
    ensures forall e {:trigger at[e]} | e in at :: at[e] == raw(e.key) % n
  {
    var elts := set k | k in m :: Elt(k, m[k]);
    map e | e in elts :: raw(e.key) % n
  }

  lemma HomeAdd<K(!new), V(!new)>(raw: K -> nat, m: map<K, V>, n: nat, k: K, v: V)
    requires n > 0 && k !in m
    ensures Home(raw, m[k := v], n) == Home(raw, m, n)[Elt(k, v) := raw(k) % n] && Elt(k, v) !in Home(raw, m, n)
  {
    var a, b := Home(raw, m[k := v], n), Home(raw, m, n)[Elt(k, v) := raw(k) % n];
    assert forall e: Elt<K, V> {:trigger e in a} :: e in a <==> e in b;
    assert forall e: Elt<K, V> {:trigger a[e]} | e in a :: a[e] == b[e];
  }

  lemma HomeRemove<K(!new), V(!new)>(raw: K -> nat, m: map<K, V>, n: nat, k: K)
    requires n > 0 && k in m
    ensures Home(raw, m - {k}, n) == Home(raw, m, n) - {Elt(k, m[k])}
  {
    var a, b := Home(raw, m - {k}, n), Home(raw, m, n) - {Elt(k, m[k])};
    assert forall e: Elt<K, V> {:trigger e in a} :: e in a <==> e in b;
    assert forall e: Elt<K, V> {:trigger a[e]} | e in a :: a[e] == b[e];
  }

  /** A table that stands for m. */
  ghost predicate Stands<K(!new), V(!new)>(raw: K -> nat, tbl: seq<seq<Elt<K, V>>>, m: map<K, V>) {
    |tbl| > 0 && Layout(tbl, Home(raw, m, |tbl|))
  }

  /** Where a key is, if anywhere. */
  lemma Whereabouts<K(!new), V(!new)>(raw: K -> nat, tbl: seq<seq<Elt<K, V>>>, m: map<K, V>, k: K)
    requires Stands(raw, tbl, m)
    ensures forall p {:trigger tbl[raw(k) % |tbl|][p]} | 0 <= p < |tbl[raw(k) % |tbl|]| :: tbl[raw(k) % |tbl|][p].key in m && m[tbl[raw(k) % |tbl|][p].key] == tbl[raw(k) % |tbl|][p].val
    ensures k in m ==> Elt(k, m[k]) in tbl[raw(k) % |tbl|]
  {
    var at := Home(raw, m, |tbl|);
    var chain := tbl[raw(k) % |tbl|];
    assert forall p {:trigger chain[p]} | 0 <= p < |chain| :: chain[p] in chain && chain[p] in at;
    if k in m {
      assert Elt(k, m[k]) in at;
    }
  }

  lemma AddStands<K(!new), V(!new)>(raw: K -> nat, tbl: seq<seq<Elt<K, V>>>, m: map<K, V>, k: K, v: V)
    requires Stands(raw, tbl, m) && k !in m
    ensures Stands(raw, Prepend(tbl, raw(k) % |tbl|, Elt(k, v)), m[k := v])
  {
    HomeAdd(raw, m, |tbl|, k, v);
    PrependLayout(tbl, Home(raw, m, |tbl|), raw(k) % |tbl|, Elt(k, v));
    hide Layout, Home;
  }

  lemma CutStands<K(!new), V(!new)>(raw: K -> nat, tbl: seq<seq<Elt<K, V>>>, m: map<K, V>, i: nat, p: nat)
    requires Stands(raw, tbl, m) && i < |tbl| && p < |tbl[i]|
    ensures tbl[i][p].key in m && m[tbl[i][p].key] == tbl[i][p].val && raw(tbl[i][p].key) % |tbl| == i
    ensures Stands(raw, CutAt(tbl, i, p), m - {tbl[i][p].key})
  {
    var e := tbl[i][p];
    assert e in tbl[i];
    assert e in Home(raw, m, |tbl|);
    assert e == Elt(e.key, m[e.key]);
    HomeRemove(raw, m, |tbl|, e.key);
    CutLayout(tbl, Home(raw, m, |tbl|), i, p);
    hide Layout, Home;
  }

  lemma SetStands<K(!new), V(!new)>(raw: K -> nat, tbl: seq<seq<Elt<K, V>>>, m: map<K, V>, i: nat, p: nat, v: V)
    requires Stands(raw, tbl, m) && i < |tbl| && p < |tbl[i]|
    ensures Stands(raw, Replace(tbl, i, p, Elt(tbl[i][p].key, v)), m[tbl[i][p].key := v])
  {
    var e := tbl[i][p];
    CutStands(raw, tbl, m, i, p);
    var at := Home(raw, m, |tbl|);
    HomeRemove(raw, m, |tbl|, e.key);
    HomeAdd(raw, m - {e.key}, |tbl|, e.key, v);
    assert m[e.key := v] == (m - {e.key})[e.key := v];
    assert e == Elt(e.key, m[e.key]);
    ReplaceLayout(tbl, at, i, p, Elt(e.key, v));
    hide Layout, Home;
  }

  lemma EmptyStands<K(!new), V(!new)>(raw: K -> nat, n: nat)
    requires n > 0
    ensures Stands<K, V>(raw, Empties(n), map[])
  {
    var at: map<Elt<K, V>, nat> := map[];
    GrowLayout([], at, n);
    assert [] + Empties<Elt<K, V>>(n) == Empties(n);
    assert forall e {:trigger e in Home<K, V>(raw, map[], n)} :: e !in Home<K, V>(raw, map[], n);
    assert Home<K, V>(raw, map[], n) == at;
  }

  /** Elements of different buckets have different keys, and so do elements of one bucket. */
  lemma DifferentKeys<K(!new), V(!new)>(raw: K -> nat, tbl: seq<seq<Elt<K, V>>>, m: map<K, V>, i: nat, p: nat, j: nat, q: nat)
    requires Stands(raw, tbl, m) && i < |tbl| && p < |tbl[i]| && j < |tbl| && q < |tbl[j]| && (i != j || p != q)
    ensures tbl[i][p].key != tbl[j][q].key
  {
    CutStands(raw, tbl, m, i, p);
    CutStands(raw, tbl, m, j, q);
    assert Distinct(tbl[i]);
  }
}

/** The sizes a table may have. */
module Primes {
  const PRIMES: seq<nat> := [
    53, 97, 193, 389, 769,
    1543, 3079, 6151, 12289, 24593,
    49157, 98317, 196613, 393241, 786433,
    1572869, 3145739, 6291469, 12582917, 25165843,
    50331653, 100663319, 201326611, 402653189, 805306457,
    1610612741, 3221225473, 4294967291
  ]

  const LARGEST: nat := 4294967291

  /** The first listed size that is large enough. */
  function FirstFrom(n: nat, pos: nat): (r: nat)
    requires n <= LARGEST && pos < |PRIMES|
    ensures r >= n && r > 0
    decreases |PRIMES| - pos
  {
    if PRIMES[pos] >= n then PRIMES[pos] else FirstFrom(n, pos + 1)
  }

  lemma {:induction false} Ascending(i: nat, j: nat)
    requires i <= j < |PRIMES|
    ensures PRIMES[i] <= PRIMES[j]
    decreases j - i
  {
    if i < j {
      Ascending(i, j - 1);
      assert PRIMES[j - 1] < PRIMES[j];
    }
  }

  /** The least listed size that is large enough. */
  method NextSize(n: nat) returns (r: nat)
    requires n <= LARGEST
    ensures r == FirstFrom(n, 0)
    ensures r in PRIMES && n <= r && forall p {:trigger p in PRIMES} | p in PRIMES && n <= p :: r <= p
  {
    var pos := 0;
    while PRIMES[pos] < n
      invariant pos < |PRIMES| && FirstFrom(n, pos) == FirstFrom(n, 0)
      invariant forall i {:trigger PRIMES[i]} | 0 <= i < pos :: PRIMES[i] < n
      decreases |PRIMES| - pos
    {
      pos := pos + 1;
    }
    r := PRIMES[pos];
    forall p {:trigger p in PRIMES} | p in PRIMES && n <= p
      ensures r <= p
    {
      var i :| 0 <= i < |PRIMES| && PRIMES[i] == p;
      Ascending(pos, i);
    }
  }
}

/** The resizable chained map. */
module HashMap {
  import opened Layouts
  import opened Sequences
  import opened HashMapSpec
  import opened Primes

  datatype Status = New | Existed | NoMemory | Exists | NoEntry

  class HashMap<K(==,!new), V(==,!new)> {
    const raw: K -> nat
    const autoResize: bool
    var tbl: seq<seq<Elt<K, V>>>
    var size: nat
    /** The map the table stands for. */
    ghost var m: map<K, V>

    ghost predicate Valid()
      reads this
    {
      Stands(raw, tbl, m) && size == |m|
    }

    constructor (raw: K -> nat, n: nat, autoResize: bool)
      requires n <= LARGEST
      ensures Valid() && m == map[] && |tbl| == FirstFrom(n, 0) && this.raw == raw && this.autoResize == autoResize
    {
      var buckets := NextSize(n);
      this.raw := raw;
      this.autoResize := autoResize;
      tbl := Empties(buckets);
      size := 0;
      m := map[];
      new;
      EmptyStands<K, V>(raw, buckets);
    }

    /** The place of a key. */
    method Search(k: K) returns (found: bool, i: nat, p: nat)
      requires Valid()
      ensures found == (k in m) && i < |tbl| && i == raw(k) % |tbl|
      ensures found ==> p < |tbl[i]| && tbl[i][p] == Elt(k, m[k])
    {
      Whereabouts(raw, tbl, m, k);
      i := raw(k) % |tbl|;
      hide Stands;
      p := 0;
      while p < |tbl[i]|
        invariant p <= |tbl[i]| && forall q {:trigger tbl[i][q]} | 0 <= q < p :: tbl[i][q].key != k
      {
        if tbl[i][p].key == k {
          return true, i, p;
        }
        p := p + 1;
      }
      found := false;
    }

    method Insert(k: K, v: V, memory: bool, room: bool) returns (status: Status)
      requires Valid() && |m| < LARGEST
      modifies this
      ensures Valid()
      ensures status == (if k in old(m) then Existed else if memory then New else NoMemory)
      ensures m == if status == NoMemory then old(m) else old(m)[k := v]
      ensures status == New && autoResize && room ==> |tbl| >= FirstFrom(|m|, 0)
      ensures status != New || !autoResize ==> |tbl| == old(|tbl|)
    {
      hide Stands, FirstFrom;
      var found, i, p := Search(k);
      if found {
        SetStands(raw, tbl, m, i, p, v);
        SetSize(m, k, v);
        tbl := Replace(tbl, i, p, Elt(k, v));
        m := m[k := v];
        return Existed;
      }
      if !memory {
        return NoMemory;
      }
      AddStands(raw, tbl, m, k, v);
      tbl := Prepend(tbl, i, Elt(k, v));
      m := m[k := v];
      size := size + 1;
      var next := NextSize(size);
      if autoResize && next > |tbl| {
        var resized := Resize(size, room);
      }
      status := New;
    }

    method Erase(k: K) returns (found: bool, v: seq<V>)
      requires Valid()
      modifies this`tbl, this`size, this`m
      ensures Valid() && m == old(m) - {k} && found == (k in old(m)) && |tbl| == old(|tbl|)
      ensures v == if found then [old(m)[k]] else []
      ensures Uncut(old(tbl), tbl, k)
    {
      hide Stands;
      var i, p;
      found, i, p := Search(k);
      v := [];
      if found {
        CutStands(raw, tbl, m, i, p);
        RemoveSize(m, k);
        v := [tbl[i][p].val];
        tbl := CutAt(tbl, i, p);
        m := m - {k};
        size := size - 1;
        assert Uncut(old(tbl), tbl, k);
      } else {
        assert m - {k} == m;
      }
    }

    method ChangeKey(oldk: K, newk: K) returns (status: Status)
      requires Valid()
      modifies this`tbl, this`m
      ensures Valid() && |tbl| == old(|tbl|)
      ensures status == (if newk in old(m) then Exists else if oldk in old(m) then New else NoEntry)
      ensures m == if status == New then (old(m) - {oldk})[newk := old(m)[oldk]] else old(m)
    {
      hide Stands;
      var used, i, q := Search(newk);
      if used {
        return Exists;
      }
      var found, j, p := Search(oldk);
      if !found {
        return NoEntry;
      }
      var v := tbl[j][p].val;
      CutStands(raw, tbl, m, j, p);
      AddStands(raw, CutAt(tbl, j, p), m - {oldk}, newk, v);
      RemoveSize(m, oldk);
      tbl := Prepend(CutAt(tbl, j, p), i, Elt(newk, v));
      m := (m - {oldk})[newk := v];
      status := New;
    }

    method Resize(n: nat, room: bool) returns (status: Status)
      requires Valid() && n <= LARGEST
      modifies this`tbl, this`size, this`m
      ensures Valid() && m == old(m)
      ensures status == (if FirstFrom(n, 0) == old(|tbl|) then Existed else if room then New else NoMemory)
      ensures |tbl| == if status == New then FirstFrom(n, 0) else old(|tbl|)
    {
      hide Stands, FirstFrom;
      var buckets := NextSize(n);
      if buckets == |tbl| {
        return Existed;
      }
      if !room {
        return NoMemory;
      }
      var moved, count := Rehash(buckets);
      tbl := moved;
      size := count;
      m := old(m);
      status := New;
    }

    /** Moves every element to a new table, bucket by bucket from the head. */
    method Rehash(buckets: nat) returns (moved: seq<seq<Elt<K, V>>>, count: nat)
      requires Valid() && buckets > 0
      modifies this`tbl, this`size, this`m
      ensures |moved| == buckets && Stands(raw, moved, old(m)) && count == |old(m)|
    {
      hide Stands, Empties, Halves, Cleared, Uncut, Prepend;
      HalvesStart(m);
      ClearedStart(tbl);
      moved := Empties(buckets);
      EmptiesSize<Elt<K, V>>(buckets);
      EmptyStands<K, V>(raw, buckets);
      ghost var done: map<K, V> := map[];
      count := 0;
      var i := 0;
      while i < |tbl|
        invariant i <= |tbl| == old(|tbl|) && |moved| == buckets && Valid() && Stands(raw, moved, done) && count == |done|
        invariant Halves(done, m, old(m)) && Cleared(tbl, i)
        decreases size, |tbl| - i
      {
        if tbl[i] != [] {
          var e := tbl[i][0];
          CutStands(raw, tbl, m, i, 0);
          MoveOne(done, m, old(m), e.key);
          AddStands(raw, moved, done, e.key, e.val);
          ghost var was := tbl;
          var found, v := Erase(e.key);
          StillEmpty(was, tbl, e.key, i);
          moved := Prepend(moved, raw(e.key) % |moved|, e);
          done := done[e.key := e.val];
          count := count + 1;
        } else {
          ClearedNext(tbl, i);
          i := i + 1;
        }
      }
      NothingLeft(raw, tbl, m);
      HalvesEnd(done, old(m));
    }
  }

  /** The elements moved and those still to move. */
  predicate Halves<K(==), V(==)>(done: map<K, V>, m: map<K, V>, whole: map<K, V>) {
    done.Keys !! m.Keys && done + m == whole
  }

  lemma HalvesStart<K, V>(m: map<K, V>)
    ensures Halves(map[], m, m)
  {
    assert map[] + m == m;
  }

  lemma HalvesEnd<K, V>(done: map<K, V>, whole: map<K, V>)
    requires Halves(done, map[], whole)
    ensures done == whole
  {
    assert done + map[] == done;
  }

  lemma MoveOne<K, V>(done: map<K, V>, m: map<K, V>, whole: map<K, V>, k: K)
    requires Halves(done, m, whole) && k in m
    ensures k !in done && Halves(done[k := m[k]], m - {k}, whole)
  {
    assert done[k := m[k]] + (m - {k}) == done + m;
  }

  predicate Cleared<T(==)>(tbl: seq<seq<T>>, i: nat) {
    i <= |tbl| && forall j {:trigger tbl[j]} | 0 <= j < i :: tbl[j] == []
  }

  lemma ClearedStart<T>(tbl: seq<seq<T>>)
    ensures Cleared(tbl, 0)
  {
  }

  lemma ClearedNext<T>(tbl: seq<seq<T>>, i: nat)
    requires Cleared(tbl, i) && i < |tbl| && tbl[i] == []
    ensures Cleared(tbl, i + 1)
  {
  }

  lemma StillEmpty<K, V>(tbl: seq<seq<Elt<K, V>>>, tbl': seq<seq<Elt<K, V>>>, k: K, i: nat)
    requires Uncut(tbl, tbl', k) && |tbl'| == |tbl| && Cleared(tbl, i)
    ensures Cleared(tbl', i)
  {
  }

  lemma NothingLeft<K(!new), V(!new)>(raw: K -> nat, tbl: seq<seq<Elt<K, V>>>, m: map<K, V>)
    requires Stands(raw, tbl, m) && Cleared(tbl, |tbl|)
    ensures m == map[]
  {
    forall k
      ensures k !in m
    {
      Whereabouts(raw, tbl, m, k);
    }
  }

  lemma EmptiesSize<T>(n: nat)
    ensures |Empties<T>(n)| == n
  {
  }

  /** Only the chain of a key loses an element, and that is the key's. */
  ghost predicate Uncut<K, V>(tbl: seq<seq<Elt<K, V>>>, tbl': seq<seq<Elt<K, V>>>, k: K) {
    tbl' == tbl || exists i, p :: 0 <= i < |tbl| && 0 <= p < |tbl[i]| && tbl[i][p].key == k && tbl' == CutAt(tbl, i, p)
  }

  lemma SetSize<K, V>(m: map<K, V>, k: K, v: V)
    requires k in m
    ensures |m[k := v]| == |m|
  {
    assert m[k := v].Keys == m.Keys;
  }

  lemma RemoveSize<K, V>(m: map<K, V>, k: K)
    requires k in m
    ensures |m - {k}| == |m| - 1
  {
    assert (m - {k}).Keys == m.Keys - {k};
  }
}

/** Iteration in bucket order, with a pointer to the next element. */
module HashMapIteration {
  import opened Layouts
  import opened Sequences
  import opened HashMapSpec
  import opened HashMap

  /** The elements of the buckets from one on. */
  function Flat<T>(tbl: seq<seq<T>>, from: nat): seq<T>
    decreases |tbl| - from
  {
    if from >= |tbl| then [] else tbl[from] + Flat(tbl, from + 1)
  }

  function Rest<T>(tbl: seq<seq<T>>, b: nat, p: nat): seq<T>
    requires b < |tbl| && p <= |tbl[b]|
  {
    tbl[b][p..] + Flat(tbl, b + 1)
  }

  lemma {:induction false} FlatSame<T>(tbl: seq<seq<T>>, tbl': seq<seq<T>>, from: nat)
    requires |tbl| == |tbl'| && forall j {:trigger tbl'[j]} | from <= j < |tbl| :: tbl'[j] == tbl[j]
    ensures Flat(tbl', from) == Flat(tbl, from)
    decreases |tbl| - from
  {
    if from < |tbl| {
      FlatSame(tbl, tbl', from + 1);
    }
  }

  lemma {:induction false} FlatHas<T>(tbl: seq<seq<T>>, from: nat, i: nat, q: nat)
    requires from <= i < |tbl| && q < |tbl[i]|
    ensures tbl[i][q] in Flat(tbl, from)
    decreases |tbl| - from
  {
    if from < i {
      FlatHas(tbl, from + 1, i, q);
    }
  }

  lemma {:induction false} FlatPlace<T>(tbl: seq<seq<T>>, from: nat, e: T) returns (i: nat, q: nat)
    requires e in Flat(tbl, from)
    ensures from <= i < |tbl| && q < |tbl[i]| && tbl[i][q] == e
    decreases |tbl| - from
  {
    if e in tbl[from] {
      q :| 0 <= q < |tbl[from]| && tbl[from][q] == e;
      i := from;
    } else {
      i, q := FlatPlace(tbl, from + 1, e);
    }
  }

  lemma {:induction false} FlatSkip<T>(tbl: seq<seq<T>>, from: nat, to: nat)
    requires from <= to <= |tbl| && forall j {:trigger tbl[j]} | from <= j < to :: tbl[j] == []
    ensures Flat(tbl, from) == Flat(tbl, to)
    decreases |tbl| - from
  {
    if from < to {
      FlatSkip(tbl, from + 1, to);
    }
  }

  predicate DistinctKeys<K(==), V>(s: seq<Elt<K, V>>) {
    forall i, j {:trigger s[i], s[j]} | 0 <= i < j < |s| :: s[i].key != s[j].key
  }

  lemma JoinKeys<K, V>(s: seq<Elt<K, V>>, t: seq<Elt<K, V>>)
    requires DistinctKeys(s) && DistinctKeys(t) && forall i, j {:trigger s[i], t[j]} | 0 <= i < |s| && 0 <= j < |t| :: s[i].key != t[j].key
    ensures DistinctKeys(s + t)
  {
    var r := s + t;
    forall i, j {:trigger r[i], r[j]} | 0 <= i < j < |r|
      ensures r[i].key != r[j].key
    {
      if i < |s| <= j {
        assert s[i].key != t[j - |s|].key;
      }
    }
  }

  lemma {:induction false} FlatKeys<K(!new), V(!new)>(raw: K -> nat, tbl: seq<seq<Elt<K, V>>>, m: map<K, V>, from: nat)
    requires Stands(raw, tbl, m)
    ensures DistinctKeys(Flat(tbl, from))
    decreases |tbl| - from
  {
    if from < |tbl| {
      FlatKeys(raw, tbl, m, from + 1);
      var s, t := tbl[from], Flat(tbl, from + 1);
      forall i, j {:trigger s[i], s[j]} | 0 <= i < j < |s|
        ensures s[i].key != s[j].key
      {
        DifferentKeys(raw, tbl, m, from, i, from, j);
      }
      forall i, j {:trigger s[i], t[j]} | 0 <= i < |s| && 0 <= j < |t|
        ensures s[i].key != t[j].key
      {
        var b, q := FlatPlace(tbl, from + 1, t[j]);
        DifferentKeys(raw, tbl, m, from, i, b, q);
      }
      JoinKeys(s, t);
    }
  }

  /** The elements listed bucket by bucket are those of the map, each once. */
  lemma FlatExact<K(!new), V(!new)>(raw: K -> nat, tbl: seq<seq<Elt<K, V>>>, m: map<K, V>)
    requires Stands(raw, tbl, m)
    ensures DistinctKeys(Flat(tbl, 0))
    ensures forall e {:trigger e in Flat(tbl, 0)} :: e in Flat(tbl, 0) <==> e.key in m && m[e.key] == e.val
  {
    FlatKeys(raw, tbl, m, 0);
    forall e {:trigger e in Flat(tbl, 0)}
      ensures e in Flat(tbl, 0) <==> e.key in m && m[e.key] == e.val
    {
      if e in Flat(tbl, 0) {
        var i, q := FlatPlace(tbl, 0, e);
        CutStands(raw, tbl, m, i, q);
      }
      if e.key in m && m[e.key] == e.val {
        Whereabouts(raw, tbl, m, e.key);
        var i := raw(e.key) % |tbl|;
        var q :| 0 <= q < |tbl[i]| && tbl[i][q] == e;
        FlatHas(tbl, 0, i, q);
      }
    }
  }

  /** The next element, by its bucket and its key; End when there is none. */
  datatype Cursor<K> = At(bucket: nat, key: K) | End

  predicate Sits<K(==), V>(tbl: seq<seq<Elt<K, V>>>, c: Cursor<K>, p: nat) {
    c.At? && c.bucket < |tbl| && p < |tbl[c.bucket]| && tbl[c.bucket][p].key == c.key
  }

  /** What a cursor has still to return. */
  ghost predicate Points<K, V>(tbl: seq<seq<Elt<K, V>>>, c: Cursor<K>, rest: seq<Elt<K, V>>) {
    if c.End? then rest == [] else exists p: nat :: Sits(tbl, c, p) && rest == Rest(tbl, c.bucket, p)
  }

  /** Erasing an element already returned leaves the cursor where it was. */
  lemma ErasedRest<K, V>(tbl: seq<seq<Elt<K, V>>>, tbl': seq<seq<Elt<K, V>>>, k: K, c: Cursor<K>, rest: seq<Elt<K, V>>)
    requires Uncut(tbl, tbl', k) && |tbl'| == |tbl| && Points(tbl, c, rest) && forall e {:trigger e in rest} | e in rest :: e.key != k
    ensures Points(tbl', c, rest)
  {
    if c.At? && tbl' != tbl {
      var p: nat :| Sits(tbl, c, p) && rest == Rest(tbl, c.bucket, p);
      var i: nat, q: nat :| 0 <= i < |tbl| && 0 <= q < |tbl[i]| && tbl[i][q].key == k && tbl' == CutAt(tbl, i, q);
      if i > c.bucket || (i == c.bucket && q >= p) {
        Ahead(tbl, c.bucket, p, i, q);
        assert false;
      }
      hide Points;
      CutBehind(tbl, tbl', c, p, i, q);
      Resting(tbl', c, if i == c.bucket then p - 1 else p);
    }
  }

  lemma Resting<K, V>(tbl: seq<seq<Elt<K, V>>>, c: Cursor<K>, p: nat)
    requires Sits(tbl, c, p)
    ensures Points(tbl, c, Rest(tbl, c.bucket, p))
  {
  }

  lemma CutBehind<K, V>(tbl: seq<seq<Elt<K, V>>>, tbl': seq<seq<Elt<K, V>>>, c: Cursor<K>, p: nat, i: nat, q: nat)
    requires Sits(tbl, c, p) && i < |tbl| && q < |tbl[i]| && tbl' == CutAt(tbl, i, q) && (i < c.bucket || (i == c.bucket && q < p))
    ensures var p' := if i == c.bucket then p - 1 else p; Sits(tbl', c, p') && Rest(tbl', c.bucket, p') == Rest(tbl, c.bucket, p)
  {
    FlatSame(tbl, tbl', c.bucket + 1);
    var p' := if i == c.bucket then p - 1 else p;
    assert tbl'[c.bucket][p'..] == tbl[c.bucket][p..];
  }

  lemma Ahead<K, V>(tbl: seq<seq<Elt<K, V>>>, b: nat, p: nat, i: nat, q: nat)
    requires b < |tbl| && p < |tbl[b]| && i < |tbl| && q < |tbl[i]| && (i > b || (i == b && q >= p))
    ensures tbl[i][q] in Rest(tbl, b, p)
  {
    if i > b {
      FlatHas(tbl, b + 1, i, q);
    } else {
      assert tbl[b][p..][q - p] == tbl[i][q];
    }
  }

  /** The first bucket at or after one that holds something. */
  method FirstFull<K(==), V>(tbl: seq<seq<Elt<K, V>>>, from: nat) returns (c: Cursor<K>)
    requires from <= |tbl|
    ensures Points(tbl, c, Flat(tbl, from))
  {
    var i := from;
    while i < |tbl| && tbl[i] == []
      invariant from <= i <= |tbl| && forall j {:trigger tbl[j]} | from <= j < i :: tbl[j] == []
    {
      i := i + 1;
    }
    FlatSkip(tbl, from, i);
    if i == |tbl| {
      c := End;
    } else {
      c := At(i, tbl[i][0].key);
      assert tbl[i][0..] == tbl[i];
      assert Sits(tbl, c, 0) && Flat(tbl, i) == Rest(tbl, i, 0);
    }
  }

  /** Returns the element at the cursor and moves on. */
  method Next<K(==), V>(tbl: seq<seq<Elt<K, V>>>, c: Cursor<K>, ghost rest: seq<Elt<K, V>>) returns (e: Elt<K, V>, c': Cursor<K>)
    requires c.At? && Points(tbl, c, rest)
    requires DistinctKeys(tbl[c.bucket])
    ensures rest != [] && e == rest[0] && Points(tbl, c', rest[1..])
  {
    ghost var at: nat :| Sits(tbl, c, at) && rest == Rest(tbl, c.bucket, at);
    var chain := tbl[c.bucket];
    var p := 0;
    while chain[p].key != c.key
      invariant p <= at
      decreases at - p
    {
      p := p + 1;
    }
    assert p == at;
    e := chain[p];
    if p + 1 < |chain| {
      c' := At(c.bucket, chain[p + 1].key);
      assert Sits(tbl, c', p + 1) && rest[1..] == Rest(tbl, c.bucket, p + 1);
    } else {
      c' := FirstFull(tbl, c.bucket + 1);
      assert rest[1..] == Flat(tbl, c.bucket + 1);
    }
  }

  /** A whole iteration; the caller may erase any element just after it is returned. */
  method Iterate<K(==,!new), V(==,!new)>(hm: HashMap<K, V>, drop: Elt<K, V> -> bool) returns (seen: seq<Elt<K, V>>)
    requires hm.Valid()
    modifies hm
    ensures hm.Valid() && DistinctKeys(seen)
    ensures forall e {:trigger e in seen} :: e in seen <==> e.key in old(hm.m) && old(hm.m)[e.key] == e.val
    ensures hm.m == map k | k in old(hm.m) && !drop(Elt(k, old(hm.m)[k])) :: old(hm.m)[k]
  {
    hide Stands, Flat, Points, Uncut;
    FlatExact(hm.raw, hm.tbl, hm.m);
    ghost var all := Flat(hm.tbl, 0);
    var c := FirstFull(hm.tbl, 0);
    ghost var rest := all;
    seen := [];
    while c.At?
      invariant hm.Valid() && Points(hm.tbl, c, rest) && all == seen + rest
      invariant Dropped(old(hm.m), hm.m, drop, seen)
      decreases |rest|
    {
      ChainKeys(hm.raw, hm.tbl, hm.m, c, rest);
      var e, c' := Next(hm.tbl, c, rest);
      NewlySeen(all, seen, rest, e);
      DropOne(old(hm.m), hm.m, drop, seen, e);
      if drop(e) {
        ghost var was := hm.tbl;
        var found, v := hm.Erase(e.key);
        ErasedRest(was, hm.tbl, e.key, c', rest[1..]);
      }
      c := c';
      seen := seen + [e];
      rest := rest[1..];
    }
    AtEnd(hm.tbl, c, rest);
    assert seen == all;
    AllDropped(old(hm.m), hm.m, drop, seen);
  }

  lemma AtEnd<K, V>(tbl: seq<seq<Elt<K, V>>>, c: Cursor<K>, rest: seq<Elt<K, V>>)
    requires c.End? && Points(tbl, c, rest)
    ensures rest == []
  {
  }

  /** What has been erased so far: of the elements seen, those to be dropped. */
  ghost predicate Dropped<K(!new), V(!new)>(m0: map<K, V>, m: map<K, V>, drop: Elt<K, V> -> bool, seen: seq<Elt<K, V>>) {
    && m.Keys <= m0.Keys && (forall k {:trigger m[k]} | k in m :: m[k] == m0[k])
    && (forall k {:trigger k in m} | k in m0 :: k !in m <==> Elt(k, m0[k]) in seen && drop(Elt(k, m0[k])))
  }

  lemma ChainKeys<K(!new), V(!new)>(raw: K -> nat, tbl: seq<seq<Elt<K, V>>>, m: map<K, V>, c: Cursor<K>, rest: seq<Elt<K, V>>)
    requires Stands(raw, tbl, m) && c.At? && Points(tbl, c, rest)
    ensures c.bucket < |tbl| && DistinctKeys(tbl[c.bucket])
  {
    var p: nat :| Sits(tbl, c, p) && rest == Rest(tbl, c.bucket, p);
    var s := tbl[c.bucket];
    forall i, j {:trigger s[i], s[j]} | 0 <= i < j < |s|
      ensures s[i].key != s[j].key
    {
      DifferentKeys(raw, tbl, m, c.bucket, i, c.bucket, j);
    }
  }

  lemma NewlySeen<K(!new), V(!new)>(all: seq<Elt<K, V>>, seen: seq<Elt<K, V>>, rest: seq<Elt<K, V>>, e: Elt<K, V>)
    requires DistinctKeys(all) && all == seen + rest && rest != [] && e == rest[0]
    ensures all == (seen + [e]) + rest[1..] && e in all
    ensures forall x {:trigger x in rest[1..]} | x in rest[1..] :: x.key != e.key
    ensures forall x {:trigger x in seen} | x in seen :: x.key != e.key
  {
    assert all[|seen|] == e;
    forall x {:trigger x in rest[1..]} | x in rest[1..]
      ensures x.key != e.key
    {
      var j :| 0 <= j < |rest[1..]| && rest[1..][j] == x;
      assert all[|seen| + 1 + j] == x;
    }
    forall x {:trigger x in seen} | x in seen
      ensures x.key != e.key
    {
      var j :| 0 <= j < |seen| && seen[j] == x;
      assert all[j] == x;
    }
  }

  lemma DropOne<K(!new), V(!new)>(m0: map<K, V>, m: map<K, V>, drop: Elt<K, V> -> bool, seen: seq<Elt<K, V>>, e: Elt<K, V>)
    requires Dropped(m0, m, drop, seen) && e.key in m0 && m0[e.key] == e.val
    requires forall x {:trigger x in seen} | x in seen :: x.key != e.key
    ensures Dropped(m0, if drop(e) then m - {e.key} else m, drop, seen + [e])
  {
    assert e == Elt(e.key, m0[e.key]);
  }

  lemma AllDropped<K(!new), V(!new)>(m0: map<K, V>, m: map<K, V>, drop: Elt<K, V> -> bool, seen: seq<Elt<K, V>>)
    requires Dropped(m0, m, drop, seen)
    requires forall e {:trigger e in seen} :: e in seen <==> e.key in m0 && m0[e.key] == e.val
    ensures m == map k | k in m0 && !drop(Elt(k, m0[k])) :: m0[k]
  {
    forall k | k in m0
      ensures k in m <==> !drop(Elt(k, m0[k]))
    {
      assert Elt(k, m0[k]) in seen;
    }
  }
}
