/** Sequences without repetition. */
module Sequences {
  predicate Distinct<T(==)>(s: seq<T>) {
    forall i, j {:trigger s[i], s[j]} | 0 <= i < j < |s| :: s[i] != s[j]
  }

  lemma ConsDistinct<T>(n: T, s: seq<T>)
    requires Distinct(s) && n !in s
    ensures Distinct([n] + s)
  {
  }
}
