/**
 * The key catalog: the `NavigableSet<String> keys` field of Markup, a TreeSet of every document key,
 * and the window `list(prefix, key, n)` that listing-mode search pages through.
 */
module KeyCatalog {
  import opened Wrappers
  import opened Strings

  /** A TreeSet's iteration order: strictly increasing under `compareTo`, hence duplicate-free. */
  predicate StrictlySorted(s: seq<string>)
  {
    forall i, j :: 0 <= i < j < |s| ==> Less(s[i], s[j])
  }

  /** A catalog as the repository walk builds it: sorted, and every key a non-empty relative path. */
  predicate ValidCatalog(s: seq<string>)
  {
    StrictlySorted(s) && forall i :: 0 <= i < |s| ==> s[i] != ""
  }

  /** The two element tests of the window: `tailSet(key, false)` and the prefix filter. */
  datatype Criterion = Above(bound: string) | HasPrefix(prefix: string)

  predicate Holds(c: Criterion, x: string)
  {
    match c
    case Above(k) => Less(k, x)
    case HasPrefix(p) => StartsWith(x, p)
  }

  /** The elements of `s` passing `c`, in their order in `s`. */
  function Filter(s: seq<string>, c: Criterion): (r: seq<string>)
    ensures |r| <= |s|
  {
    if s == [] then [] else (if Holds(c, s[0]) then [s[0]] else []) + Filter(s[1..], c)
  }

  lemma {:induction false} FilterMembers(s: seq<string>, c: Criterion)
    ensures forall x :: x in Filter(s, c) <==> x in s && Holds(c, x)
  {
    if s != [] {
      FilterMembers(s[1..], c);
      assert s == [s[0]] + s[1..];
    }
  }

  lemma {:induction false} FilterSorted(s: seq<string>, c: Criterion)
    requires StrictlySorted(s)
    ensures StrictlySorted(Filter(s, c))
  {
    if s != [] {
      var t := Filter(s[1..], c);
      FilterSorted(s[1..], c);
      FilterMembers(s[1..], c);
      forall i | 0 <= i < |t|
        ensures Less(s[0], t[i])
      {
        assert t[i] in s[1..];
        var j :| 0 <= j < |s[1..]| && s[1..][j] == t[i];
        assert s[j + 1] == t[i];
      }
    }
  }

  lemma {:induction false} FilterAppend(a: seq<string>, b: seq<string>, c: Criterion)
    ensures Filter(a + b, c) == Filter(a, c) + Filter(b, c)
  {
    if a != [] {
      assert (a + b)[1..] == a[1..] + b;
      FilterAppend(a[1..], b, c);
    } else {
      assert a + b == b;
    }
  }

  lemma {:induction false} FilterCommute(s: seq<string>, c: Criterion, d: Criterion)
    ensures Filter(Filter(s, c), d) == Filter(Filter(s, d), c)
  {
    if s != [] {
      FilterCommute(s[1..], c, d);
      var hc := if Holds(c, s[0]) then [s[0]] else [];
      var hd := if Holds(d, s[0]) then [s[0]] else [];
      FilterAppend(hc, Filter(s[1..], c), d);
      FilterAppend(hd, Filter(s[1..], d), c);
    }
  }

  /** Keeping what lies above `k` and then what lies above `l > k` keeps what lies above `l`. */
  lemma {:induction false} AboveAbsorb(s: seq<string>, k: string, l: string)
    requires Less(k, l)
    ensures Filter(Filter(s, Above(k)), Above(l)) == Filter(s, Above(l))
  {
    if s != [] {
      AboveAbsorb(s[1..], k, l);
      FilterAppend(if Less(k, s[0]) then [s[0]] else [], Filter(s[1..], Above(k)), Above(l));
      if Less(l, s[0]) {
        LessTransitive(k, l, s[0]);
      }
    }
  }

  lemma {:induction false} AboveAll(t: seq<string>, k: string)
    requires forall i :: 0 <= i < |t| ==> Less(k, t[i])
    ensures Filter(t, Above(k)) == t
  {
    if t != [] {
      AboveAll(t[1..], k);
    }
  }

  /** In a sorted sequence, the elements above its j-th element are exactly those after position j. */
  lemma {:induction false} AboveAt(t: seq<string>, j: nat)
    requires StrictlySorted(t) && j < |t|
    ensures Filter(t, Above(t[j])) == t[j + 1..]
  {
    if j == 0 {
      LessIrreflexive(t[0]);
      AboveAll(t[1..], t[0]);
    } else {
      LessAsymmetric(t[0], t[j]);
      AboveAt(t[1..], j - 1);
    }
  }

  /** Where the stream of `list` starts: all keys when `key` is null or empty, else `keys.tailSet(key, false)`. */
  function TailAfter(catalog: seq<string>, key: Option<string>): (r: seq<string>)
  {
    if key.None? || key.value == "" then catalog else Filter(catalog, Above(key.value))
  }

  /** The `PrefixFilter` step, applied only when the prefix is non-empty. */
  function PrefixFiltered(s: seq<string>, prefix: string): (r: seq<string>)
  {
    if prefix != "" then Filter(s, HasPrefix(prefix)) else s
  }

  /** `Stream.limit(n)` for a non-negative n. */
  function Limit(s: seq<string>, n: nat): (r: seq<string>)
    ensures |r| <= n && |r| <= |s|
    ensures n < |s| ==> r == s[..n]
    ensures |s| <= n ==> r == s
  {
    if n < |s| then s[..n] else s
  }

  /** The keys the window may return: those after `key` (unless it is null or empty) that carry `prefix`. */
  predicate Qualifies(x: string, prefix: string, key: Option<string>)
  {
    StartsWith(x, prefix) && (key.None? || key.value == "" || Less(key.value, x))
  }

  function Candidates(catalog: seq<string>, prefix: string, key: Option<string>): (r: seq<string>)
  {
    PrefixFiltered(TailAfter(catalog, key), prefix)
  }

  lemma CandidatesMembers(catalog: seq<string>, prefix: string, key: Option<string>)
    ensures forall x :: x in Candidates(catalog, prefix, key) <==> x in catalog && Qualifies(x, prefix, key)
  {
    var tail := TailAfter(catalog, key);
    if !(key.None? || key.value == "") {
      FilterMembers(catalog, Above(key.value));
    }
    if prefix != "" {
      FilterMembers(tail, HasPrefix(prefix));
    }
  }

  lemma CandidatesSorted(catalog: seq<string>, prefix: string, key: Option<string>)
    requires StrictlySorted(catalog)
    ensures StrictlySorted(Candidates(catalog, prefix, key))
  {
    var tail := TailAfter(catalog, key);
    if !(key.None? || key.value == "") {
      FilterSorted(catalog, Above(key.value));
    }
    if prefix != "" {
      FilterSorted(tail, HasPrefix(prefix));
    }
  }

  /** Whatever a limit leaves out of a sorted sequence lies above everything it keeps. */
  lemma LimitComplete(s: seq<string>, n: nat)
    requires StrictlySorted(s)
    ensures forall x :: x in s && x !in Limit(s, n) ==>
      |Limit(s, n)| == n && (n == 0 || Less(Limit(s, n)[n - 1], x))
  {
  }

  /** The window of a sorted catalog is sorted, and whatever it leaves out lies above its last key. */
  lemma WindowOrder(catalog: seq<string>, prefix: string, key: Option<string>, n: nat)
    ensures StrictlySorted(catalog) ==> StrictlySorted(Limit(Candidates(catalog, prefix, key), n))
    ensures var w := Limit(Candidates(catalog, prefix, key), n);
      StrictlySorted(catalog) ==> forall x :: x in Candidates(catalog, prefix, key) && x !in w ==> |w| == n && (n == 0 || Less(w[n - 1], x))
  {
    var candidates := Candidates(catalog, prefix, key);
    if StrictlySorted(catalog) {
      CandidatesSorted(catalog, prefix, key);
      LimitComplete(candidates, n);
    }
    if StrictlySorted(catalog) && n < |candidates| {
      forall i, j | 0 <= i < j < n ensures Less(candidates[..n][i], candidates[..n][j]) {
        assert candidates[..n][i] == candidates[i] && candidates[..n][j] == candidates[j];
      }
    }
  }

  /**
   * `list(prefix, key, n)`: at most n keys of the catalog, in catalog order, each after `key` (when it is
   * non-empty) and starting with `prefix`, and no qualifying key is skipped: every qualifying key left out
   * lies above the last one returned, which happens only when n keys were returned.
   */
  function List(catalog: seq<string>, prefix: string, key: Option<string>, n: int): (r: Result<seq<string>>)
    ensures r.Failure? <==> n < 0
    ensures r.Failure? ==> r.error == IllegalArgumentException
    ensures r.Success? ==> |r.value| <= n
    ensures r.Success? ==> forall x :: x in r.value ==> x in catalog && Qualifies(x, prefix, key)
    ensures r.Success? && StrictlySorted(catalog) ==> StrictlySorted(r.value)
    ensures r.Success? && StrictlySorted(catalog) ==>
      forall x :: x in catalog && Qualifies(x, prefix, key) && x !in r.value ==>
        |r.value| == n && (n == 0 || Less(r.value[n - 1], x))
  {
    if n < 0 then
      Failure(IllegalArgumentException)
    else
      var candidates := Candidates(catalog, prefix, key);
      CandidatesMembers(catalog, prefix, key);
      WindowOrder(catalog, prefix, key, n);
      assert forall x :: x in Limit(candidates, n) ==> x in candidates;
      Success(Limit(candidates, n))
  }

  lemma PrefixAbove(s: seq<string>, prefix: string, l: string)
    ensures PrefixFiltered(Filter(s, Above(l)), prefix) == Filter(PrefixFiltered(s, prefix), Above(l))
  {
    if prefix != "" {
      FilterCommute(s, Above(l), HasPrefix(prefix));
    }
  }

  /** The candidates after the j-th candidate are the candidates from position j + 1 on. */
  lemma CandidatesAfter(catalog: seq<string>, prefix: string, key: Option<string>, j: nat)
    requires ValidCatalog(catalog)
    requires j < |Candidates(catalog, prefix, key)|
    ensures var p := Candidates(catalog, prefix, key);
      p[j] != "" && Candidates(catalog, prefix, Some(p[j])) == p[j + 1..]
  {
    var p := Candidates(catalog, prefix, key);
    var l := p[j];
    CandidatesMembers(catalog, prefix, key);
    CandidatesSorted(catalog, prefix, key);
    assert l in catalog;
    if key.None? || key.value == "" {
      PrefixAbove(catalog, prefix, l);
    } else {
      AboveAbsorb(catalog, key.value, l);
      PrefixAbove(Filter(catalog, Above(key.value)), prefix, l);
    }
    AboveAt(p, j);
  }

  lemma LimitConcat(p: seq<string>, n: nat, m: nat)
    requires Limit(p, n) != []
    ensures Limit(p, n) + Limit(p[|Limit(p, n)|..], m) == Limit(p, n + m)
  {
  }

  /**
   * Resuming the window from its last key continues exactly where it stopped: the window of m keys after
   * the last key of an n-key window, appended to it, is the window of n + m keys. Walking the catalog
   * page by page therefore neither repeats nor skips a key.
   */
  lemma ListResume(catalog: seq<string>, prefix: string, key: Option<string>, n: nat, m: nat)
    requires ValidCatalog(catalog)
    requires List(catalog, prefix, key, n).value != []
    ensures var w := List(catalog, prefix, key, n).value;
      w + List(catalog, prefix, Some(w[|w| - 1]), m).value == List(catalog, prefix, key, n + m).value
  {
    var p := Candidates(catalog, prefix, key);
    var w := Limit(p, n);
    assert List(catalog, prefix, key, n) == Success(w);
    CandidatesAfter(catalog, prefix, key, |w| - 1);
    assert List(catalog, prefix, Some(w[|w| - 1]), m) == Success(Limit(p[|w|..], m));
    LimitConcat(p, n, m);
    assert List(catalog, prefix, key, n + m) == Success(Limit(p, n + m));
  }

  /** TreeSet.add: the sorted catalog with `x` inserted at its place, or unchanged when `x` is present. */
  function Insert(s: seq<string>, x: string): (r: seq<string>)
    requires StrictlySorted(s)
    ensures StrictlySorted(r)
    ensures forall y :: y in r <==> y in s || y == x
  {
    if s == [] then [x]
    else if x == s[0] then s
    else if Less(x, s[0]) then
      assert forall i :: 0 < i < |s| ==> Less(x, s[i]) by {
        forall i | 0 < i < |s| ensures Less(x, s[i]) {
          LessTransitive(x, s[0], s[i]);
        }
      }
      [x] + s
    else
      LessTotal(x, s[0]);
      var rest := Insert(s[1..], x);
      assert forall y :: y in s[1..] ==> Less(s[0], y);
      [s[0]] + rest
  }

  /** `collect(Collectors.toCollection(TreeSet::new))` over the keys of the repository walk. */
  function Build(keys: seq<string>): (r: seq<string>)
    ensures StrictlySorted(r)
    ensures forall y :: y in r <==> y in keys
  {
    if keys == [] then [] else Insert(Build(keys[..|keys| - 1]), keys[|keys| - 1])
  }
}
