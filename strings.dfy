/** Java string operations the catalog and the search use: `compareTo`, `startsWith`, `endsWith`. */
module Strings {

  /** `a` is a proper prefix of `b`. */
  predicate ProperPrefix(a: string, b: string)
  {
    |a| < |b| && b[..|a|] == a
  }

  /** At the first position where `a` and `b` differ, `a` holds the smaller character. */
  predicate SmallerAtFirstDifference(a: string, b: string)
  {
    exists k :: 0 <= k < |a| && k < |b| && a[..k] == b[..k] && a[k] < b[k]
  }

  lemma HeadsDiffer(a: string, b: string)
    requires a != [] && b != [] && a[0] != b[0]
    ensures SmallerAtFirstDifference(a, b) <==> a[0] < b[0]
    ensures !ProperPrefix(a, b)
  {
    if a[0] < b[0] {
      assert a[..0] == b[..0];
    }
  }

  lemma DifferenceShifts(a: string, b: string)
    requires a != [] && b != [] && a[0] == b[0]
    ensures SmallerAtFirstDifference(a, b) ==> SmallerAtFirstDifference(a[1..], b[1..])
  {
    if SmallerAtFirstDifference(a, b) {
      var k :| 0 <= k < |a| && k < |b| && a[..k] == b[..k] && a[k] < b[k];
      assert k != 0;
      assert a[1..][..k - 1] == a[..k][1..] && b[1..][..k - 1] == b[..k][1..];
      assert a[1..][k - 1] == a[k] && b[1..][k - 1] == b[k];
    }
  }

  lemma DifferenceUnshifts(a: string, b: string)
    requires a != [] && b != [] && a[0] == b[0]
    ensures SmallerAtFirstDifference(a[1..], b[1..]) ==> SmallerAtFirstDifference(a, b)
  {
    if SmallerAtFirstDifference(a[1..], b[1..]) {
      var k :| 0 <= k < |a[1..]| && k < |b[1..]| && a[1..][..k] == b[1..][..k] && a[1..][k] < b[1..][k];
      assert a[..k + 1] == [a[0]] + a[1..][..k] && b[..k + 1] == [b[0]] + b[1..][..k];
      assert a[k + 1] < b[k + 1];
    }
  }

  lemma PrefixShifts(a: string, b: string)
    requires a != [] && b != [] && a[0] == b[0]
    ensures ProperPrefix(a, b) <==> ProperPrefix(a[1..], b[1..])
  {
    assert a == [a[0]] + a[1..];
    if |a| <= |b| {
      assert b[..|a|] == [b[0]] + b[1..][..|a| - 1];
    }
  }

  /** `a.compareTo(b) < 0`, compared character by character from the front. */
  function Less(a: string, b: string): (r: bool)
  {
    if b == [] then false
    else if a == [] then true
    else if a[0] != b[0] then a[0] < b[0]
    else Less(a[1..], b[1..])
  }

  /**
   * `a.compareTo(b) < 0` exactly when, at the first position where the strings differ, `a` holds
   * the smaller character, or `a` is a proper prefix of `b`.
   */
  lemma {:induction false} LessMeaning(a: string, b: string)
    ensures Less(a, b) <==> SmallerAtFirstDifference(a, b) || ProperPrefix(a, b)
  {
    if b == [] {
    } else if a == [] {
      assert b[..0] == a;
    } else if a[0] != b[0] {
      HeadsDiffer(a, b);
    } else {
      DifferenceShifts(a, b);
      DifferenceUnshifts(a, b);
      PrefixShifts(a, b);
      LessMeaning(a[1..], b[1..]);
    }
  }

  lemma {:induction false} LessIrreflexive(a: string)
    ensures !Less(a, a)
  {
    if a != [] {
      LessIrreflexive(a[1..]);
    }
  }

  lemma {:induction false} LessTransitive(a: string, b: string, c: string)
    requires Less(a, b) && Less(b, c)
    ensures Less(a, c)
  {
    if a != [] && a[0] == b[0] && b[0] == c[0] {
      LessTransitive(a[1..], b[1..], c[1..]);
    }
  }

  lemma LessAsymmetric(a: string, b: string)
    requires Less(a, b)
    ensures !Less(b, a)
  {
    if Less(b, a) {
      LessTransitive(a, b, a);
      LessIrreflexive(a);
    }
  }

  /** Any two distinct strings are ordered one way or the other. */
  lemma {:induction false} LessTotal(a: string, b: string)
    requires a != b
    ensures Less(a, b) || Less(b, a)
  {
    if a != [] && b != [] && a[0] == b[0] {
      assert a == [a[0]] + a[1..] && b == [b[0]] + b[1..];
      LessTotal(a[1..], b[1..]);
    }
  }

  /** `s.startsWith(prefix)`. */
  predicate StartsWith(s: string, prefix: string)
  {
    |prefix| <= |s| && s[..|prefix|] == prefix
  }

  /** `s.startsWith(prefix)` holds exactly when `s` is `prefix` followed by something. */
  lemma StartsWithMeaning(s: string, prefix: string)
    ensures StartsWith(s, prefix) <==> exists rest :: s == prefix + rest
  {
    forall rest | s == prefix + rest
      ensures StartsWith(s, prefix)
    {
    }
    if StartsWith(s, prefix) {
      assert s == prefix + s[|prefix|..];
    }
  }

  /** `s.endsWith(suffix)`. */
  predicate EndsWith(s: string, suffix: string)
  {
    |suffix| <= |s| && s[|s| - |suffix|..] == suffix
  }

  /** `s.endsWith(suffix)` holds exactly when `s` is something followed by `suffix`. */
  lemma EndsWithMeaning(s: string, suffix: string)
    ensures EndsWith(s, suffix) <==> exists stem :: s == stem + suffix
  {
    forall stem | s == stem + suffix
      ensures EndsWith(s, suffix)
    {
    }
    if EndsWith(s, suffix) {
      assert s == s[..|s| - |suffix|] + suffix;
    }
  }
}
