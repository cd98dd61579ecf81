/** `Array.prototype.filter` and the order-preserving subsequence relation it establishes. */
module Sequences {

  /** `r` can be obtained from `s` by deleting elements (relative order kept). */
  predicate IsSubsequence<T(==)>(r: seq<T>, s: seq<T>)
    decreases |s|
  {
    if r == [] then true
    else if s == [] then false
    else (r[0] == s[0] && IsSubsequence(r[1..], s[1..])) || IsSubsequence(r, s[1..])
  }

  /** `s.filter(p)`. */
  function Filter<T(==,!new)>(s: seq<T>, p: T -> bool): (r: seq<T>)
    ensures IsSubsequence(r, s)
    ensures forall x :: multiset(r)[x] == if p(x) then multiset(s)[x] else 0
    ensures forall x :: x in r <==> x in s && p(x)
    ensures |r| <= |s|
  {
    if s == [] then []
    else
      var rest := Filter(s[1..], p);
      assert s == [s[0]] + s[1..];
      if p(s[0]) then [s[0]] + rest else rest
  }

  /** No two positions of `s` share a value of `f`. */
  predicate DistinctBy<T, U(==)>(s: seq<T>, f: T -> U)
  {
    forall i, j | 0 <= i < j < |s| :: f(s[i]) != f(s[j])
  }

  /** Filtering keeps values of `f` apart. */
  lemma {:induction false} FilterKeepsDistinct<T(!new), U>(s: seq<T>, p: T -> bool, f: T -> U)
    requires DistinctBy(s, f)
    ensures DistinctBy(Filter(s, p), f)
    decreases |s|
  {
    if s != [] {
      assert DistinctBy(s[1..], f);
      FilterKeepsDistinct(s[1..], p, f);
      var rest := Filter(s[1..], p);
      forall y | y in rest ensures f(y) != f(s[0]) {
        var k :| 0 <= k < |s[1..]| && s[1..][k] == y;
        assert s[k + 1] == y;
      }
    }
  }

}
