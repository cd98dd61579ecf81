/**
 * The one sort of the post listing: `sort((a, b) => b.date.localeCompare(a.date))`,
 * a stable sort, newest date first. Dates are compared as strings, code point by code point.
 */
module Sorting {

  import opened Sequences

  /** Strict lexicographic order on strings, character by character. */
  predicate StrLess(a: string, b: string)
    decreases |a|
  {
    if a == [] then b != []
    else if b == [] then false
    else if a[0] != b[0] then a[0] < b[0]
    else StrLess(a[1..], b[1..])
  }

  lemma {:induction false} StrLessIrreflexive(a: string)
    ensures !StrLess(a, a)
    decreases |a|
  {
    if a != [] {
      StrLessIrreflexive(a[1..]);
    }
  }

  lemma {:induction false} StrLessTransitive(a: string, b: string, c: string)
    requires StrLess(a, b) && StrLess(b, c)
    ensures StrLess(a, c)
    decreases |a|
  {
    if a != [] && b != [] && c != [] && a[0] == b[0] && b[0] == c[0] {
      StrLessTransitive(a[1..], b[1..], c[1..]);
    }
  }

  lemma {:induction false} StrLessTotal(a: string, b: string)
    ensures a == b || StrLess(a, b) || StrLess(b, a)
    decreases |a|
  {
    if a != [] && b != [] && a[0] == b[0] {
      StrLessTotal(a[1..], b[1..]);
      if a[1..] == b[1..] {
        assert a == [a[0]] + a[1..] && b == [b[0]] + b[1..];
      }
    }
  }

  /** No element of `s` is strictly newer than one placed before it. */
  predicate SortedDesc<T>(s: seq<T>, key: T -> string)
  {
    forall i, j | 0 <= i < j < |s| :: !StrLess(key(s[i]), key(s[j]))
  }

  /** The elements of `s` whose key is `k`, in their order in `s`. */
  function WithKey<T>(s: seq<T>, key: T -> string, k: string): seq<T>
  {
    if s == [] then []
    else if key(s[0]) == k then [s[0]] + WithKey(s[1..], key, k)
    else WithKey(s[1..], key, k)
  }

  /** Insert `x` before the first element that is not strictly newer than it. */
  function Insert<T(==)>(x: T, t: seq<T>, key: T -> string): (r: seq<T>)
    ensures multiset(r) == multiset(t) + multiset{x}
    ensures |r| == |t| + 1
  {
    if t == [] || !StrLess(key(x), key(t[0])) then [x] + t
    else
      assert t == [t[0]] + t[1..];
      [t[0]] + Insert(x, t[1..], key)
  }

  /** Insertion sort, newest first; the earlier of two equal keys stays first. */
  function SortByKeyDesc<T(==)>(s: seq<T>, key: T -> string): (r: seq<T>)
    ensures multiset(r) == multiset(s)
    ensures |r| == |s|
  {
    if s == [] then []
    else
      assert s == [s[0]] + s[1..];
      Insert(s[0], SortByKeyDesc(s[1..], key), key)
  }

  lemma {:induction false} InsertSorted<T>(x: T, t: seq<T>, key: T -> string)
    requires SortedDesc(t, key)
    ensures SortedDesc(Insert(x, t, key), key)
    decreases |t|
  {
    var r := Insert(x, t, key);
    if t == [] {
    } else if !StrLess(key(x), key(t[0])) {
      forall i, j | 0 <= i < j < |r| ensures !StrLess(key(r[i]), key(r[j])) {
        if i == 0 {
          // r[j] == t[j - 1], and t[0] is at least as new as t[j - 1]
          if StrLess(key(x), key(t[j - 1])) {
            if j - 1 > 0 {
              StrLessTotal(key(t[0]), key(t[j - 1]));
              if key(t[0]) != key(t[j - 1]) {
                StrLessTransitive(key(x), key(t[j - 1]), key(t[0]));
              }
            }
          }
        }
      }
    } else {
      var rest := Insert(x, t[1..], key);
      InsertSorted(x, t[1..], key);
      forall i, j | 0 <= i < j < |r| ensures !StrLess(key(r[i]), key(r[j])) {
        if i == 0 {
          var y := r[j];
          assert y in multiset(rest);
          assert y == x || y in t[1..];
          if y == x {
            StrLessTotal(key(x), key(t[0]));
            if StrLess(key(t[0]), key(x)) {
              StrLessTransitive(key(t[0]), key(x), key(t[0]));
              StrLessIrreflexive(key(t[0]));
            }
          } else {
            var m :| 0 <= m < |t[1..]| && t[1..][m] == y;
            assert t[m + 1] == y;
          }
        } else {
          assert r[i] == rest[i - 1] && r[j] == rest[j - 1];
        }
      }
    }
  }

  lemma {:induction false} InsertWithKey<T>(x: T, t: seq<T>, key: T -> string, k: string)
    ensures WithKey(Insert(x, t, key), key, k) == WithKey([x] + t, key, k)
    decreases |t|
  {
    if t == [] || !StrLess(key(x), key(t[0])) {
    } else {
      InsertWithKey(x, t[1..], key, k);
      assert ([x] + t)[1..] == t;
      assert ([x] + t[1..])[1..] == t[1..];
      if key(x) == k {
        // t[0] is strictly newer than x, so its key is not k
        StrLessIrreflexive(k);
      }
      assert t == [t[0]] + t[1..];
    }
  }

  /** The listing sort: newest first, and a permutation of its input. */
  lemma {:induction false} SortIsSortedPermutation<T>(s: seq<T>, key: T -> string)
    ensures SortedDesc(SortByKeyDesc(s, key), key)
    ensures multiset(SortByKeyDesc(s, key)) == multiset(s)
    decreases |s|
  {
    if s != [] {
      SortIsSortedPermutation(s[1..], key);
      InsertSorted(s[0], SortByKeyDesc(s[1..], key), key);
    }
  }

  /** Stability: elements with equal keys keep their relative input order. */
  lemma {:induction false} SortIsStable<T>(s: seq<T>, key: T -> string, k: string)
    ensures WithKey(SortByKeyDesc(s, key), key, k) == WithKey(s, key, k)
    decreases |s|
  {
    if s != [] {
      SortIsStable(s[1..], key, k);
      InsertWithKey(s[0], SortByKeyDesc(s[1..], key), key, k);
      assert s == [s[0]] + s[1..];
    }
  }

  lemma {:induction false} InsertKeepsDistinct<T, U>(x: T, t: seq<T>, key: T -> string, f: T -> U)
    requires DistinctBy(t, f)
    requires forall y | y in t :: f(y) != f(x)
    ensures DistinctBy(Insert(x, t, key), f)
    decreases |t|
  {
    if t != [] && StrLess(key(x), key(t[0])) {
      assert DistinctBy(t[1..], f);
      InsertKeepsDistinct(x, t[1..], key, f);
      var rest := Insert(x, t[1..], key);
      forall z | z in rest ensures f(z) != f(t[0]) {
        assert z in multiset(rest);
        if z != x {
          var k :| 0 <= k < |t[1..]| && t[1..][k] == z;
          assert t[k + 1] == z;
        }
      }
    }
  }

  /** Sorting moves elements but never brings two equal values of `f` together. */
  lemma {:induction false} SortKeepsDistinct<T, U>(s: seq<T>, key: T -> string, f: T -> U)
    requires DistinctBy(s, f)
    ensures DistinctBy(SortByKeyDesc(s, key), f)
    decreases |s|
  {
    if s != [] {
      assert DistinctBy(s[1..], f);
      SortKeepsDistinct(s[1..], key, f);
      var t := SortByKeyDesc(s[1..], key);
      forall y | y in t ensures f(y) != f(s[0]) {
        assert y in multiset(t);
        var k :| 0 <= k < |s[1..]| && s[1..][k] == y;
        assert s[k + 1] == y;
      }
      InsertKeepsDistinct(s[0], t, key, f);
    }
  }

}
