/** Chains, and the bucket each element sits in. */
module Layouts {
  import opened Sequences

  /** Every element sits exactly once, in the bucket given for it. */
  ghost predicate Layout<T(!new)>(chains: seq<seq<T>>, at: map<T, nat>) {
    && (forall n {:trigger at[n]} | n in at :: at[n] < |chains|)
    && (forall i, n {:trigger n in chains[i]} | 0 <= i < |chains| :: n in chains[i] <==> n in at && at[n] == i)
    && (forall i {:trigger chains[i]} | 0 <= i < |chains| :: Distinct(chains[i]))
  }

  function Prepend<T>(chains: seq<seq<T>>, i: nat, n: T): (r: seq<seq<T>>)
    requires i < |chains|
    ensures |r| == |chains|
  {
    chains[i := [n] + chains[i]]
  }

  function Cut<T>(s: seq<T>, p: nat): seq<T>
    requires p < |s|
  {
    s[..p] + s[p + 1..]
  }

  function CutAt<T>(chains: seq<seq<T>>, i: nat, p: nat): (r: seq<seq<T>>)
    requires i < |chains| && p < |chains[i]|
    ensures |r| == |chains|
  {
    chains[i := Cut(chains[i], p)]
  }

  lemma CutDistinct<T(!new)>(s: seq<T>, p: nat)
    requires p < |s| && Distinct(s)
    ensures Distinct(Cut(s, p)) && forall n {:trigger n in Cut(s, p)} :: n in Cut(s, p) <==> n in s && n != s[p]
  {
    var t := Cut(s, p);
    assert forall k {:trigger t[k]} | 0 <= k < |t| :: t[k] == s[if k < p then k else k + 1];
    forall n {:trigger n in t}
      ensures n in t <==> n in s && n != s[p]
    {
      if n in s && n != s[p] {
        var k :| 0 <= k < |s| && s[k] == n;
        assert t[if k < p then k else k - 1] == n;
      }
    }
  }

  lemma JoinDistinct<T(!new)>(s: seq<T>, t: seq<T>)
    requires Distinct(s) && Distinct(t) && forall n {:trigger n in s} | n in s :: n !in t
    ensures Distinct(s + t)
  {
    var r := s + t;
    forall i, j {:trigger r[i], r[j]} | 0 <= i < j < |r|
      ensures r[i] != r[j]
    {
      if i < |s| <= j {
        assert s[i] in s && t[j - |s|] in t;
      }
    }
  }

  lemma PrependLayout<T(!new)>(chains: seq<seq<T>>, at: map<T, nat>, i: nat, n: T)
    requires Layout(chains, at) && i < |chains| && n !in at
    ensures Layout(Prepend(chains, i, n), at[n := i])
  {
    ConsDistinct(n, chains[i]);
    hide Distinct;
    var r := Prepend(chains, i, n);
    assert forall x {:trigger x in r[i]} :: x in r[i] <==> x == n || x in chains[i];
  }

  lemma CutLayout<T(!new)>(chains: seq<seq<T>>, at: map<T, nat>, i: nat, p: nat)
    requires Layout(chains, at) && i < |chains| && p < |chains[i]|
    ensures chains[i][p] in at && at[chains[i][p]] == i
    ensures Layout(CutAt(chains, i, p), at - {chains[i][p]})
  {
    CutDistinct(chains[i], p);
    hide Distinct, Cut;
    assert chains[i][p] in chains[i];
  }

  function Replace<T>(chains: seq<seq<T>>, i: nat, p: nat, n: T): (r: seq<seq<T>>)
    requires i < |chains| && p < |chains[i]|
    ensures |r| == |chains|
  {
    chains[i := chains[i][p := n]]
  }

  lemma ReplaceDistinct<T(!new)>(s: seq<T>, p: nat, n: T)
    requires p < |s| && Distinct(s) && (n !in s || n == s[p])
    ensures Distinct(s[p := n]) && forall x {:trigger x in s[p := n]} :: x in s[p := n] <==> x == n || (x in s && x != s[p])
  {
    var t := s[p := n];
    forall x {:trigger x in t}
      ensures x in t <==> x == n || (x in s && x != s[p])
    {
      if x == n {
        assert t[p] == x;
      } else if x in s && x != s[p] {
        var k :| 0 <= k < |s| && s[k] == x;
        assert t[k] == x;
      }
    }
  }

  lemma ReplaceLayout<T(!new)>(chains: seq<seq<T>>, at: map<T, nat>, i: nat, p: nat, n: T)
    requires Layout(chains, at) && i < |chains| && p < |chains[i]| && (n !in at || n == chains[i][p])
    ensures Layout(Replace(chains, i, p, n), (at - {chains[i][p]})[n := i])
  {
    assert chains[i][p] in chains[i];
    ReplaceDistinct(chains[i], p, n);
    hide Distinct;
  }

  /** Bucket b hung after bucket a. */
  function Merge<T>(chains: seq<seq<T>>, a: nat, b: nat): (r: seq<seq<T>>)
    requires a < |chains| && b < |chains|
    ensures |r| == |chains|
  {
    chains[a := chains[a] + chains[b]][b := []]
  }

  lemma MergeLayout<T(!new)>(chains: seq<seq<T>>, at: map<T, nat>, a: nat, b: nat, at': map<T, nat>)
    requires Layout(chains, at) && a < b < |chains|
    requires at' == map n | n in at :: if at[n] == b then a else at[n]
    ensures Layout(Merge(chains, a, b), at')
  {
    assert forall n {:trigger n in chains[a]} | n in chains[a] :: n !in chains[b];
    JoinDistinct(chains[a], chains[b]);
    assert Distinct<T>([]);
    hide Distinct;
    var r := Merge(chains, a, b);
    assert forall x {:trigger x in r[a]} :: x in r[a] <==> x in chains[a] || x in chains[b];
  }

  function Empties<T>(k: nat): seq<seq<T>> {
    seq(k, _ => [])
  }

  lemma GrowLayout<T(!new)>(chains: seq<seq<T>>, at: map<T, nat>, k: nat)
    requires Layout(chains, at)
    ensures Layout(chains + Empties(k), at)
  {
    assert Distinct<T>([]);
    hide Distinct;
  }

  lemma ShrinkLayout<T(!new)>(chains: seq<seq<T>>, at: map<T, nat>, k: nat)
    requires Layout(chains, at) && k <= |chains| && forall n {:trigger at[n]} | n in at :: at[n] < k
    ensures Layout(chains[..k], at)
  {
    hide Distinct;
  }
}
