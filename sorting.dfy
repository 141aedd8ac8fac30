/** An insertion sort over a caller-supplied order, standing for Python's
    `sorted` and pandas' `sort_values`: the result is ordered, is a permutation
    of the input, and is the only ordered permutation when no two entries tie. */
module Sorting {

  /** `leq` is total and transitive: ties are allowed, gaps are not. */
  ghost predicate TotalPreorder<T(!new)>(leq: (T, T) -> bool) {
    && (forall a, b :: leq(a, b) || leq(b, a))
    && (forall a, b, c :: leq(a, b) && leq(b, c) ==> leq(a, c))
  }

  predicate SortedBy<T>(s: seq<T>, leq: (T, T) -> bool) {
    forall i, j :: 0 <= i < j < |s| ==> leq(s[i], s[j])
  }

  /** No two distinct entries of `s` tie under `leq`. */
  ghost predicate TieFree<T>(s: seq<T>, leq: (T, T) -> bool) {
    forall x, y :: x in s && y in s && leq(x, y) && leq(y, x) ==> x == y
  }

  /** Puts `x` before the first entry it does not follow. */
  function Insert<T>(x: T, s: seq<T>, leq: (T, T) -> bool): (r: seq<T>)
    ensures multiset(r) == multiset(s) + multiset{x}
    ensures |r| == |s| + 1
  {
    if s == [] || leq(x, s[0]) then [x] + s
    else
      assert s == [s[0]] + s[1..];
      [s[0]] + Insert(x, s[1..], leq)
  }

  function SortBy<T>(s: seq<T>, leq: (T, T) -> bool): (r: seq<T>)
    ensures multiset(r) == multiset(s)
    ensures |r| == |s|
  {
    if s == [] then []
    else
      assert s == [s[0]] + s[1..];
      Insert(s[0], SortBy(s[1..], leq), leq)
  }

  lemma {:induction false} InsertSorted<T(!new)>(x: T, s: seq<T>, leq: (T, T) -> bool)
    requires TotalPreorder(leq) && SortedBy(s, leq)
    ensures SortedBy(Insert(x, s, leq), leq)
  {
    if s != [] && !leq(x, s[0]) {
      var rest := Insert(x, s[1..], leq);
      InsertSorted(x, s[1..], leq);
      forall k | 0 <= k < |rest| ensures leq(s[0], rest[k]) {
        assert rest[k] in multiset(rest);
        if rest[k] != x {
          assert rest[k] in s[1..];
        }
      }
    }
  }

  /** `SortBy` returns an ordered permutation of its input. */
  lemma {:induction false} SortBySorted<T(!new)>(s: seq<T>, leq: (T, T) -> bool)
    requires TotalPreorder(leq)
    ensures SortedBy(SortBy(s, leq), leq)
    ensures multiset(SortBy(s, leq)) == multiset(s)
  {
    if s != [] {
      SortBySorted(s[1..], leq);
      InsertSorted(s[0], SortBy(s[1..], leq), leq);
    }
  }

  /** Two ordered permutations of the same entries are equal when no two
      entries tie: the result does not depend on the input order. */
  lemma {:induction false} SortedPermutationsEqual<T(!new)>(a: seq<T>, b: seq<T>, leq: (T, T) -> bool)
    requires SortedBy(a, leq) && SortedBy(b, leq)
    requires multiset(a) == multiset(b)
    requires TieFree(a, leq)
    ensures a == b
  {
    if a == [] {
      assert |b| == |multiset(b)| == 0;
    } else {
      assert |b| == |multiset(b)| == |a| > 0;
      SortedHeadsEqual(a, b, leq);
      TailMultiset(a, b);
      assert TieFree(a[1..], leq) by {
        forall x, y | x in a[1..] && y in a[1..] && leq(x, y) && leq(y, x) ensures x == y {
          assert x in a && y in a;
        }
      }
      SortedPermutationsEqual(a[1..], b[1..], leq);
      assert a == [a[0]] + a[1..] && b == [b[0]] + b[1..];
    }
  }

  lemma SortedHeadsEqual<T>(a: seq<T>, b: seq<T>, leq: (T, T) -> bool)
    requires a != [] && b != []
    requires SortedBy(a, leq) && SortedBy(b, leq)
    requires multiset(a) == multiset(b)
    requires TieFree(a, leq)
    ensures a[0] == b[0]
  {
    assert a[0] in multiset(b) && b[0] in multiset(a);
    var i :| 0 <= i < |b| && b[i] == a[0];
    var j :| 0 <= j < |a| && a[j] == b[0];
  }

  lemma TailMultiset<T>(a: seq<T>, b: seq<T>)
    requires a != [] && b != [] && a[0] == b[0]
    requires multiset(a) == multiset(b)
    ensures multiset(a[1..]) == multiset(b[1..])
  {
    assert a == [a[0]] + a[1..] && b == [b[0]] + b[1..];
    assert multiset(a[1..]) == multiset(a) - multiset{a[0]};
    assert multiset(b[1..]) == multiset(b) - multiset{b[0]};
  }

  /** An entry that strictly precedes every other one comes first. */
  lemma {:induction false} SortByHeadIsMinimum<T(!new)>(s: seq<T>, leq: (T, T) -> bool, k: nat)
    requires TotalPreorder(leq)
    requires k < |s|
    requires forall i :: 0 <= i < |s| && i != k ==> leq(s[k], s[i]) && !leq(s[i], s[k])
    ensures SortBy(s, leq)[0] == s[k]
  {
    SortBySorted(s, leq);
    var r := SortBy(s, leq);
    assert s[k] in multiset(r);
    assert r[0] in multiset(s);
  }
}
