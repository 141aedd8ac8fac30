/** Text predicates the profiler relies on: prefix and substring tests on dtype
    strings, and Python's ordering of `str` values (code point by code point). */
module Strings {

  predicate StartsWith(s: string, prefix: string) {
    |prefix| <= |s| && s[..|prefix|] == prefix
  }

  /** Python's `sub in s` for strings. */
  predicate Contains(s: string, sub: string)
    decreases |s|
  {
    StartsWith(s, sub) || (s != [] && Contains(s[1..], sub))
  }

  /** `sub` occurs in `s` starting at position `i`. */
  predicate OccursAt(s: string, sub: string, i: int) {
    0 <= i <= |s| - |sub| && s[i..i + |sub|] == sub
  }

  /** `Contains` finds exactly the positions where `sub` occurs. */
  lemma {:induction false} ContainsAt(s: string, sub: string)
    ensures Contains(s, sub) <==> exists i :: OccursAt(s, sub, i)
    decreases |s|
  {
    if StartsWith(s, sub) {
      assert OccursAt(s, sub, 0);
    }
    if s != [] {
      ContainsAt(s[1..], sub);
      if Contains(s[1..], sub) {
        var i :| OccursAt(s[1..], sub, i);
        assert s[i + 1..i + 1 + |sub|] == s[1..][i..i + |sub|];
        assert OccursAt(s, sub, i + 1);
      }
      if i :| OccursAt(s, sub, i) {
        if i > 0 {
          assert s[1..][i - 1..i - 1 + |sub|] == s[i..i + |sub|];
          assert OccursAt(s[1..], sub, i - 1);
        }
      }
    } else {
      if i :| OccursAt(s, sub, i) {
        assert i == 0 && sub == [];
      }
    }
  }

  /** Python's `a < b` on strings: the first differing character decides, and a
      proper prefix comes first. */
  predicate Less(a: string, b: string) {
    if a == [] then b != []
    else b != [] && (a[0] < b[0] || (a[0] == b[0] && Less(a[1..], b[1..])))
  }

  /** The same order stated without recursion: `a` is a proper prefix of `b`, or
      the two agree up to a position where `a` has the smaller character. */
  lemma {:induction false} LessIsLexicographic(a: string, b: string)
    ensures Less(a, b) <==>
      (StartsWith(b, a) && a != b) ||
      (exists k :: 0 <= k < |a| && k < |b| && a[..k] == b[..k] && a[k] < b[k])
  {
    if a != [] && b != [] {
      LessIsLexicographic(a[1..], b[1..]);
      if a[0] == b[0] {
        if k :| 0 <= k < |a[1..]| && k < |b[1..]| && a[1..][..k] == b[1..][..k] && a[1..][k] < b[1..][k] {
          assert a[..k + 1] == [a[0]] + a[1..][..k];
          assert b[..k + 1] == [b[0]] + b[1..][..k];
        }
        if k :| 0 <= k < |a| && k < |b| && a[..k] == b[..k] && a[k] < b[k] {
          assert k > 0 && a[1..][..k - 1] == b[1..][..k - 1];
        }
        if StartsWith(b, a) {
          assert b[1..][..|a[1..]|] == a[1..];
        }
        if StartsWith(b[1..], a[1..]) {
          assert b[..|a|] == [b[0]] + b[1..][..|a[1..]|];
        }
      } else {
        assert !StartsWith(b, a) by { if |a| <= |b| { assert b[..|a|][0] == b[0]; } }
        if a[0] < b[0] {
          assert a[..0] == b[..0];
        }
        if k :| 0 <= k < |a| && k < |b| && a[..k] == b[..k] && a[k] < b[k] {
          assert k == 0;
        }
      }
    } else if a == [] {
      assert b != [] ==> StartsWith(b, a);
    }
  }

  lemma {:induction false} LessIrreflexive(a: string)
    ensures !Less(a, a)
  {
    if a != [] {
      LessIrreflexive(a[1..]);
    }
  }

  lemma {:induction false} LessTransitive(a: string, b: string, c: string)
    requires Less(a, b) && Less(b, c)
    ensures Less(a, c)
  {
    if a != [] && a[0] == b[0] && b[0] == c[0] {
      LessTransitive(a[1..], b[1..], c[1..]);
    }
  }

  lemma {:induction false} LessTrichotomy(a: string, b: string)
    ensures a == b || Less(a, b) || Less(b, a)
  {
    if a != [] && b != [] && a[0] == b[0] {
      LessTrichotomy(a[1..], b[1..]);
      if a[1..] == b[1..] {
        assert a == [a[0]] + a[1..] && b == [b[0]] + b[1..];
      }
    }
  }

  /** A string no longer than `sub`, and different from it, does not contain it. */
  lemma {:induction false} ShortNeverContains(s: string, sub: string)
    requires |s| < |sub| || (|s| == |sub| && s != sub)
    ensures !Contains(s, sub)
    decreases |s|
  {
    if s != [] {
      ShortNeverContains(s[1..], sub);
    }
  }
}
