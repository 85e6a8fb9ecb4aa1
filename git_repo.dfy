/** The path helpers of Markup: the local repository name of the Git URI, and the document filter. */
module GitRepo {
  import opened Wrappers
  import opened Strings

  /** Where the last `/`-free run of `s` begins: just after its last `/`, or 0 when it has none. */
  function SegmentStart(s: string): (i: nat)
    ensures i <= |s|
    ensures forall k :: i <= k < |s| ==> s[k] != '/'
    ensures i == 0 || s[i - 1] == '/'
  {
    if s == [] then 0
    else if s[|s| - 1] == '/' then |s|
    else SegmentStart(s[..|s| - 1])
  }

  /**
   * The pattern `(?<name>[^/]+)/?$` matches the path at position p with its group ending at e: a
   * non-empty run without `/`, then at most one `/`, then the end of the path.
   */
  predicate NameMatchAt(path: string, p: nat, e: nat)
  {
    && p < e <= |path|
    && (forall k :: p <= k < e ==> path[k] != '/')
    && (e == |path| || (e + 1 == |path| && path[e] == '/'))
  }

  /** One trailing `.git` removed. */
  function StripGit(name: string): (r: string)
    ensures EndsWith(name, ".git") ==> r + ".git" == name
    ensures !EndsWith(name, ".git") ==> r == name
  {
    if EndsWith(name, ".git") then
      assert name == name[..|name| - 4] + ".git";
      name[..|name| - 4]
    else
      name
  }

  /**
   * `getGitRepoName()` applied to the URI's path: the last segment, ignoring one trailing `/`, with a
   * trailing `.git` removed; an AssertionError when the path has no such segment.
   */
  function RepoName(path: string): (r: Result<string>)
    ensures r.Failure? ==> r.error == AssertionError
    ensures r.Success? ==> forall k :: 0 <= k < |r.value| ==> r.value[k] != '/'
  {
    var end := if path != [] && path[|path| - 1] == '/' then |path| - 1 else |path|;
    var start := SegmentStart(path[..end]);
    if start == end then
      Failure(AssertionError)
    else
      assert forall k :: start <= k < end ==> path[k] == path[..end][k];
      Success(StripGit(path[start..end]))
  }

  /** The matches of the pattern are exactly the positions of the last segment, with the group ending where it ends. */
  lemma Matches(path: string, q: nat, f: nat)
    ensures var end := if path != [] && path[|path| - 1] == '/' then |path| - 1 else |path|;
      NameMatchAt(path, q, f) <==> f == end && SegmentStart(path[..end]) <= q < end
  {
  }

  /**
   * `find()` succeeds exactly when the pattern matches somewhere, and the name is the group of the
   * leftmost match with `.git` stripped.
   */
  lemma RepoNameIsLeftmostMatch(path: string)
    ensures RepoName(path).Failure? <==> forall p: nat, e: nat :: !NameMatchAt(path, p, e)
    ensures RepoName(path).Success? ==>
      var end := if path != [] && path[|path| - 1] == '/' then |path| - 1 else |path|;
      var start := SegmentStart(path[..end]);
      && NameMatchAt(path, start, end)
      && (forall q: nat, f: nat :: NameMatchAt(path, q, f) ==> start <= q && f == end)
      && RepoName(path).value == StripGit(path[start..end])
  {
    var end := if path != [] && path[|path| - 1] == '/' then |path| - 1 else |path|;
    var start := SegmentStart(path[..end]);
    forall q: nat, f: nat ensures NameMatchAt(path, q, f) <==> f == end && start <= q < end {
      Matches(path, q, f);
    }
    if start < end {
      Matches(path, start, end);
    }
  }

  /** `accept(path)`: the path names a Markdown document, i.e. ends with `.md`. */
  function Accept(path: string): (r: bool)
    ensures r <==> exists stem :: path == stem + ".md"
  {
    EndsWithMeaning(path, ".md");
    EndsWith(path, ".md")
  }
}
