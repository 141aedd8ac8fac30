/** Sequence helpers shared by the profiler: pandas' `unique()` (first
    occurrences in order of appearance), per-value counts and sums. */
module Collections {

  /** No element appears twice. */
  predicate NoDuplicates<T(==)>(s: seq<T>) {
    forall i, j :: 0 <= i < j < |s| ==> s[i] != s[j]
  }

  /** The distinct elements of `s`, each at the position of its first
      occurrence, as pandas' `Series.unique()` returns them. */
  function Distinct<T(==)>(s: seq<T>): (r: seq<T>)
    ensures NoDuplicates(r)
    ensures forall i :: 0 <= i < |r| ==> r[i] in s
    ensures forall i :: 0 <= i < |s| ==> s[i] in r
    ensures |r| <= |s|
  {
    if s == [] then []
    else
      var front := s[..|s| - 1];
      assert s == front + [s[|s| - 1]];
      var d := Distinct(front);
      assert forall i :: 0 <= i < |front| ==> front[i] in d;
      if s[|s| - 1] in d then d else d + [s[|s| - 1]]
  }

  /** The elements of `s` as a set. */
  function Elements<T(==)>(s: seq<T>): set<T> {
    set x | x in s
  }

  lemma {:induction false} NoDuplicatesCardinality<T>(s: seq<T>)
    requires NoDuplicates(s)
    ensures |Elements(s)| == |s|
  {
    if s != [] {
      NoDuplicatesCardinality(s[1..]);
      assert Elements(s) == {s[0]} + Elements(s[1..]);
      assert s[0] !in Elements(s[1..]);
    }
  }

  /** Dropping repeats keeps every entry's value. */
  lemma DistinctSameMembers<T>(s: seq<T>)
    ensures forall x :: x in Distinct(s) <==> x in s
  {
    forall x | x in s ensures x in Distinct(s) {
      var i :| 0 <= i < |s| && s[i] == x;
    }
  }

  /** `Distinct(s)` has one entry per element of the set of `s`'s values. */
  lemma DistinctCardinality<T>(s: seq<T>)
    ensures |Distinct(s)| == |Elements(s)|
  {
    NoDuplicatesCardinality(Distinct(s));
    assert Elements(Distinct(s)) == Elements(s);
  }

  lemma {:induction false} NoDuplicatesMultiplicity<T>(s: seq<T>, x: T)
    requires NoDuplicates(s)
    ensures multiset(s)[x] == if x in s then 1 else 0
  {
    if s != [] {
      assert s == [s[0]] + s[1..];
      NoDuplicatesMultiplicity(s[1..], x);
      assert s[0] !in s[1..];
    }
  }

  /** A value that occurs at most once sits at one position only. */
  lemma AtMostOnce<T>(s: seq<T>, i: nat, j: nat)
    requires i < j < |s| && multiset(s)[s[i]] <= 1
    ensures s[i] != s[j]
  {
    assert s == s[..j] + s[j..];
    assert s[i] in s[..j] && s[j] in s[j..];
    assert multiset(s)[s[j]] == multiset(s[..j])[s[j]] + multiset(s[j..])[s[j]];
  }

  /** Reordering a sequence without duplicates leaves it without duplicates. */
  lemma PermutationKeepsNoDuplicates<T>(a: seq<T>, b: seq<T>)
    requires NoDuplicates(a) && multiset(a) == multiset(b)
    ensures NoDuplicates(b)
  {
    forall i, j | 0 <= i < j < |b| ensures b[i] != b[j] {
      if b[i] == b[j] {
        assert b == b[..j] + b[j..];
        assert b[i] in b[..j] && b[j] in b[j..];
        assert multiset(b)[b[i]] == multiset(b[..j])[b[i]] + multiset(b[j..])[b[i]];
        NoDuplicatesMultiplicity(a, b[i]);
        assert false;
      }
    }
  }

  function Sum(s: seq<nat>): nat {
    if s == [] then 0 else s[0] + Sum(s[1..])
  }

  /** How many times each entry of `keys` occurs in `s`, in the order of `keys`. */
  function CountsOf<T(==)>(keys: seq<T>, s: seq<T>): (r: seq<nat>)
    ensures |r| == |keys|
    ensures forall i :: 0 <= i < |keys| ==> r[i] == multiset(s)[keys[i]]
  {
    if keys == [] then [] else [multiset(s)[keys[0]]] + CountsOf(keys[1..], s)
  }

  lemma {:induction false} CountsOfSnoc<T>(keys: seq<T>, s: seq<T>, x: T)
    ensures Sum(CountsOf(keys, s + [x])) == Sum(CountsOf(keys, s)) + multiset(keys)[x]
  {
    if keys != [] {
      assert keys == [keys[0]] + keys[1..];
      CountsOfSnoc(keys[1..], s, x);
    }
  }

  /** When `keys` lists every value of `s` once, the counts add up to `|s|`. */
  lemma {:induction false} CountsOfCover<T>(keys: seq<T>, s: seq<T>)
    requires NoDuplicates(keys)
    requires forall x :: x in s ==> x in keys
    ensures Sum(CountsOf(keys, s)) == |s|
  {
    if s == [] {
      CountsOfEmpty(keys);
    } else {
      var front, last := s[..|s| - 1], s[|s| - 1];
      assert s == front + [last];
      CountsOfCover(keys, front);
      CountsOfSnoc(keys, front, last);
      NoDuplicatesMultiplicity(keys, last);
    }
  }

  /** Every value listed from `s` itself occurs in it at least once. */
  lemma CountsOfPresentKeys<T>(keys: seq<T>, s: seq<T>)
    requires forall i :: 0 <= i < |keys| ==> keys[i] in s
    ensures forall i :: 0 <= i < |keys| ==> CountsOf(keys, s)[i] >= 1
  {
  }

  /** A lower bound on every entry survives reordering. */
  lemma PermutationKeepsBound(a: seq<nat>, b: seq<nat>, m: nat)
    requires multiset(a) == multiset(b)
    requires forall i :: 0 <= i < |a| ==> a[i] >= m
    ensures forall i :: 0 <= i < |b| ==> b[i] >= m
  {
    forall i | 0 <= i < |b| ensures b[i] >= m {
      assert b[i] in multiset(a);
    }
  }

  lemma {:induction false} CountsOfEmpty<T>(keys: seq<T>)
    ensures Sum(CountsOf(keys, [])) == 0
  {
    if keys != [] {
      CountsOfEmpty(keys[1..]);
    }
  }

  lemma {:induction false} SumConcat(a: seq<nat>, b: seq<nat>)
    ensures Sum(a + b) == Sum(a) + Sum(b)
  {
    if a == [] {
      assert a + b == b;
    } else {
      assert (a + b)[1..] == a[1..] + b;
      SumConcat(a[1..], b);
    }
  }

  /** Taking one entry out of a sequence takes it out of the sum. */
  lemma SumRemove(b: seq<nat>, i: nat)
    requires i < |b|
    ensures Sum(b) == b[i] + Sum(b[..i] + b[i + 1..])
  {
    assert b == b[..i] + ([b[i]] + b[i + 1..]);
    SumConcat(b[..i], [b[i]] + b[i + 1..]);
    SumConcat([b[i]], b[i + 1..]);
    SumConcat(b[..i], b[i + 1..]);
  }

  lemma RemoveMultiset<T>(b: seq<T>, i: nat)
    requires i < |b|
    ensures multiset(b[..i] + b[i + 1..]) == multiset(b) - multiset{b[i]}
  {
    assert b == b[..i] + [b[i]] + b[i + 1..];
  }

  /** Reordering does not change a sum. */
  lemma {:induction false} SumPermutation(a: seq<nat>, b: seq<nat>)
    requires multiset(a) == multiset(b)
    ensures Sum(a) == Sum(b)
    decreases |a|
  {
    if a == [] {
      assert |b| == |multiset(b)| == 0;
    } else {
      var i := MatchHead(a, b);
      SumPermutation(a[1..], b[..i] + b[i + 1..]);
      SumRemove(b, i);
    }
  }

  /** Where the head of `a` sits in a permutation `b` of it, and what is
      left of both once it is taken out. */
  lemma MatchHead<T>(a: seq<T>, b: seq<T>) returns (i: nat)
    requires a != [] && multiset(a) == multiset(b)
    ensures i < |b| && b[i] == a[0]
    ensures multiset(a[1..]) == multiset(b[..i] + b[i + 1..])
  {
    assert a[0] in multiset(b);
    i :| 0 <= i < |b| && b[i] == a[0];
    RemoveMultiset(b, i);
    assert a == [a[0]] + a[1..];
  }

  /** `r` is `s` with some entries left out: its entries appear in `s` in
      the same order. */
  predicate Subsequence<T(==)>(r: seq<T>, s: seq<T>)
    decreases |s|
  {
    r == [] || (s != [] && ((r[0] == s[0] && Subsequence(r[1..], s[1..])) || Subsequence(r, s[1..])))
  }

  /** Every entry of a subsequence is an entry of the whole. */
  lemma {:induction false} SubsequenceMember<T>(r: seq<T>, s: seq<T>, k: nat)
    requires Subsequence(r, s) && k < |r|
    ensures r[k] in s
    decreases |s|
  {
    if r[0] == s[0] && Subsequence(r[1..], s[1..]) {
      if k > 0 {
        SubsequenceMember(r[1..], s[1..], k - 1);
        assert r[k] == r[1..][k - 1];
      }
    } else {
      SubsequenceMember(r, s[1..], k);
    }
  }

  /** Of two entries of a subsequence, the earlier one comes first in the
      whole as well. */
  lemma {:induction false} SubsequenceOrder<T>(r: seq<T>, s: seq<T>, i: nat, j: nat) returns (a: nat, b: nat)
    requires Subsequence(r, s) && i < j < |r|
    ensures a < b < |s| && s[a] == r[i] && s[b] == r[j]
    decreases |s|
  {
    if r[0] == s[0] && Subsequence(r[1..], s[1..]) {
      assert r[j] == r[1..][j - 1];
      if i == 0 {
        SubsequenceMember(r[1..], s[1..], j - 1);
        var k :| 0 <= k < |s| - 1 && s[1..][k] == r[j];
        a, b := 0, k + 1;
      } else {
        assert r[i] == r[1..][i - 1];
        var a', b' := SubsequenceOrder(r[1..], s[1..], i - 1, j - 1);
        a, b := a' + 1, b' + 1;
      }
    } else {
      var a', b' := SubsequenceOrder(r, s[1..], i, j);
      a, b := a' + 1, b' + 1;
    }
  }

  /** The entries of `s` that satisfy `p`, in their order. */
  function Filter<T(==)>(s: seq<T>, p: T -> bool): (r: seq<T>)
    ensures |r| <= |s|
    ensures Subsequence(r, s)
    ensures forall i :: 0 <= i < |r| ==> r[i] in s && p(r[i])
    ensures forall i :: 0 <= i < |s| && p(s[i]) ==> s[i] in r
  {
    if s == [] then []
    else
      var rest := Filter(s[1..], p);
      assert forall i :: 1 <= i < |s| ==> s[i] == s[1..][i - 1];
      if p(s[0]) then
        assert ([s[0]] + rest)[1..] == rest;
        [s[0]] + rest
      else rest
  }

  /** Filtering by `p` and then by `q` is filtering by both at once. */
  lemma {:induction false} FilterFilter<T>(s: seq<T>, p: T -> bool, q: T -> bool, both: T -> bool)
    requires forall x :: both(x) == (p(x) && q(x))
    ensures Filter(Filter(s, p), q) == Filter(s, both)
  {
    if s != [] {
      FilterFilter(s[1..], p, q, both);
      if p(s[0]) {
        assert ([s[0]] + Filter(s[1..], p))[1..] == Filter(s[1..], p);
      }
    }
  }

  /** Filters that agree on every entry keep the same entries. */
  lemma {:induction false} FilterSame<T>(s: seq<T>, p: T -> bool, q: T -> bool)
    requires forall x :: p(x) == q(x)
    ensures Filter(s, p) == Filter(s, q)
  {
    if s != [] {
      FilterSame(s[1..], p, q);
    }
  }

  /** Filtering keeps a sequence whose every entry passes. */
  lemma {:induction false} FilterKeepsAll<T>(s: seq<T>, p: T -> bool)
    requires forall i :: 0 <= i < |s| ==> p(s[i])
    ensures Filter(s, p) == s
  {
    if s != [] {
      FilterKeepsAll(s[1..], p);
    }
  }

  /** Filtering a sequence without duplicates leaves one without duplicates. */
  lemma {:induction false} FilterNoDuplicates<T>(s: seq<T>, p: T -> bool)
    requires NoDuplicates(s)
    ensures NoDuplicates(Filter(s, p))
  {
    if s != [] {
      FilterNoDuplicates(s[1..], p);
      assert s[0] !in s[1..];
    }
  }
}
