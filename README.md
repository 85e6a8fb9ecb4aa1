# Markup search: key-catalog windows, the cursor protocol and query selection

This project models the part of `cc.whohow.markup.Markup` that is its own logic rather than a call into
Lucene, JGit or commonmark. Markup keeps a Git repository of Markdown documents in a Lucene index and
serves paged searches over it. The model covers:

- the **key catalog**, the TreeSet of all document keys, and its window `list(prefix, key, n)`. The window
  starts strictly after `key`, keeps only keys that start with `prefix`, and stops after `n` keys;
- the **cursor protocol** of `search(SearchCursor)`:
  - *listing mode* (no keyword) pages through the catalog window;
  - *keyword mode* asks the engine for the `offset + count` best hits. It then walks back from the last
    hit over at most `count` of them, stops at the previous page's boundary key, and puts each kept hit
    in front of the page;
- **query selection** in `buildSearchQuery`: match-all, a prefix query, a term or fuzzy query, or the
  prefix as a filter beside the keyword query;
- the **helpers** `getGitRepoName` (the regex `(?<name>[^/]+)/?$`, then `.git` stripped), `accept`
  (a `.md` suffix test) and the empty-list branch of `getNextCursor`.

Modules: `Wrappers` (Option, Result, the Java exceptions that are behaviour), `JavaInt` (32-bit `int`
with wrap-around), `Strings` (`compareTo` order, `startsWith`, `endsWith`), `KeyCatalog`, `Search`,
`GitRepo`.

Modelling choices:

- Lucene's ranked search and `get(Iterable)` are function-typed parameters of `Search.Search`. The
  engine is taken to return at most the number of hits it is asked for, as Lucene's `search(query, n)`
  does.
- `get` of no keys is no documents, as `get(Iterable)` itself guarantees.
- The engine is assumed to reject a non-positive hit limit with IllegalArgumentException, as Lucene's
  top-hits collector does. This is modelled as a `Failure`.
- A null prefix or keyword is the empty string, because the code treats the two alike everywhere.
- The cursor's key is an `Option`, because keyword mode compares it with `equals`, where null and ""
  differ.
- `count` and `offset` are Java ints. `offset + count` and `scoreDocs.length - count` wrap explicitly.
- The prefix filter of `list` (the `PrefixFilter` class) is not part of this model. It is taken to be
  `startsWith`, the same test as the `PrefixQuery` of `buildSearchQuery`.

A short but non-empty listing page still carries a next cursor; only an empty page ends the walk
(`Markup.java:189-192`, `Search.Continues`).

## Model

| member | source | states |
|---|---|---|
| `KeyCatalog.List` | src/main/java/cc/whohow/markup/Markup.java:128-139 | Fails with IllegalArgumentException exactly when n < 0. Otherwise returns at most n catalog keys, each starting with the prefix and, when the key is non-empty, strictly after it. On a sorted catalog the result is sorted, and every qualifying key it leaves out lies above its last key, which happens only when it holds n keys. So it is exactly the first n qualifying keys from the smallest (null/empty key) or from just after `key` |
| `KeyCatalog.WindowOrder` | src/main/java/cc/whohow/markup/Markup.java:130-138 | The window of a sorted catalog is sorted, and every candidate it drops lies above its last key |
| `KeyCatalog.ListResume` | src/main/java/cc/whohow/markup/Markup.java:128-139 | On a valid catalog, the m-key window that starts after the last key of an n-key window, appended to that window, is the (n + m)-key window. Paging by last key neither repeats nor skips a key |
| `KeyCatalog.CandidatesAfter` | src/main/java/cc/whohow/markup/Markup.java:133-137 | The qualifying keys after the j-th candidate (`tailSet(k, false)` then the prefix filter) are exactly the candidates after position j |
| `KeyCatalog.Insert` | src/main/java/cc/whohow/markup/Markup.java:407-409 | TreeSet insertion keeps the catalog strictly sorted, and its members are the old ones plus the new key |
| `KeyCatalog.Build` | src/main/java/cc/whohow/markup/Markup.java:404-410 | Collecting the keys into a TreeSet yields a strictly sorted (duplicate-free) sequence holding exactly the collected keys |
| `Strings.LessTotal` | src/main/java/cc/whohow/markup/Markup.java:409 | `compareTo` orders any two distinct strings one way or the other, which the TreeSet relies on |
| `Strings.LessTransitive` | src/main/java/cc/whohow/markup/Markup.java:133 | `compareTo` order is transitive, which `tailSet` relies on |
| `Strings.LessMeaning` | src/main/java/cc/whohow/markup/Markup.java:133 | `a.compareTo(b) < 0`, the order `tailSet` uses, holds exactly when `a` has the smaller character at the first position where the two differ, or `a` is a proper prefix of `b` |
| `Strings.StartsWithMeaning` | src/main/java/cc/whohow/markup/Markup.java:135-136 | `s.startsWith(p)`, the prefix test of `list`'s filter and of the prefix query, holds exactly when s is p followed by something |
| `Strings.EndsWithMeaning` | src/main/java/cc/whohow/markup/Markup.java:347 | `s.endsWith(t)` holds exactly when s is some stem followed by t |
| `JavaInt.Add` | src/main/java/cc/whohow/markup/Markup.java:183 | Java int addition: the exact sum when it fits in 32 bits, otherwise the sum minus or plus 2^32 |
| `JavaInt.Sub` | src/main/java/cc/whohow/markup/Markup.java:201 | Java int subtraction: the exact difference when it fits in 32 bits, otherwise the difference minus or plus 2^32 |
| `Search.BuildSearchQuery` | src/main/java/cc/whohow/markup/Markup.java:218-244 | Neither prefix nor keyword gives match-all. Prefix only gives a prefix query on the key. Keyword only gives the keyword's content query. Both give the prefix as FILTER beside the keyword query as MUST. Each case holds in both directions |
| `Search.ValueQuery` | src/main/java/cc/whohow/markup/Markup.java:224-230 | The keyword query is on the content field with the keyword as text. It is an exact term query exactly when the keyword has at most 4 characters, and fuzzy otherwise |
| `Search.SearchQuerySelects` | src/main/java/cc/whohow/markup/Markup.java:218-244 | The built query selects a document exactly when its key starts with the prefix and, if there is a keyword, its content matches it: exactly for at most 4 characters, fuzzily beyond |
| `Search.Advance` | src/main/java/cc/whohow/markup/Markup.java:179-183 | The next cursor copies prefix, keyword and count, has no key yet, and its offset is offset + count as a Java int sum, wrapping on overflow |
| `Search.NextCursorKey` | src/main/java/cc/whohow/markup/Markup.java:246-250 | No cursor exactly for an empty list; otherwise the key of the list's last item |
| `Search.WalkBack` | src/main/java/cc/whohow/markup/Markup.java:200-208 | The page is a contiguous tail of the ranked hits, in ranked order, starting no earlier than the lower bound. It holds no hit with the boundary key, and it stops above the lower bound only at a hit carrying that key |
| `Search.WalkPageUnique` | src/main/java/cc/whohow/markup/Markup.java:200-208 | The walk's contract determines the page: two pages that both meet it are equal |
| `Search.WalkPageAfterBoundary` | src/main/java/cc/whohow/markup/Markup.java:201-207 | With distinct keys, and the boundary at position j: the page is the hits after j when j is in the walked range, else the whole walked range. Nothing ranked at or above the boundary reappears |
| `Search.PageLowerBound` | src/main/java/cc/whohow/markup/Markup.java:201 | The walk's lower bound is at least length - count, and it is either 0 or exactly length - count |
| `Search.PageLowerBoundAsWritten` | src/main/java/cc/whohow/markup/Markup.java:201 | The as-written bound, with wrapping subtraction, agrees with the exact bound whenever count is non-negative. For a non-negative length it is max(length - count, 0) while length - count fits in an int, and 0 when it overflows, which only a negative count can cause |
| `Search.KeywordPageSize` | src/main/java/cc/whohow/markup/Markup.java:199-208 | A keyword page has at most max(count, 0) items and, when non-empty, starts at or after position max(length - count, 0) |
| `Search.NegativeCountTakesEveryHit` | src/main/java/cc/whohow/markup/Markup.java:183-201 | As written, offset -1 and count Integer.MIN_VALUE ask for Integer.MAX_VALUE hits, and `PageLowerBoundAsWritten(1, Integer.MIN_VALUE)` is 0. Over a single hit, the walk's page down to that bound is that hit and not the empty page, although count is negative |
| `Search.ListingPageAsWritten` | src/main/java/cc/whohow/markup/Markup.java:186-193 | Fails with IllegalArgumentException exactly when count < 0. The page is `get` of the catalog window. A cursor is set exactly when the page is non-empty; it copies prefix, keyword and count, advances offset by count, and is keyed by the key of the page's last document |
| `Search.ListingAsWrittenRepeatsKeys` | src/main/java/cc/whohow/markup/Markup.java:187-191 | Over a.md, b.md, c.md with pages of 2, with documents returned as b.md, a.md: the cursor is keyed a.md, and the next window holds b.md again |
| `Search.ListingPage` | src/main/java/cc/whohow/markup/Markup.java:186-193 | Fails with IllegalArgumentException exactly when count < 0. The page is `get` of the catalog window. A cursor is set exactly when the page is non-empty; it copies prefix, keyword and count, advances offset by count, and is keyed by the last key of the catalog window, not of the fetched documents |
| `Search.ListingPagesAgree` | src/main/java/cc/whohow/markup/Markup.java:187-191 | The corrected and as-written listing pages are equal whenever the last document returned carries the window's last key |
| `Search.ListingWalkResumes` | src/main/java/cc/whohow/markup/Markup.java:187-192 | On a valid catalog, this page's window followed by the next cursor's window is the window of twice the count: the listing walk neither repeats nor skips a key |
| `Search.Search` | src/main/java/cc/whohow/markup/Markup.java:178-216 | `search(c)` as written, for an engine that returns at most the requested number of hits. Listing mode (empty keyword) is `ListingPageAsWritten`, whose cursor is keyed by the last document `get` returns. Keyword mode fails with IllegalArgumentException exactly when offset + count (Java int) is not positive. Otherwise it asks for offset + count hits, and its page is the backward walk over them down to the wrapped lower bound `PageLowerBoundAsWritten`. When count is non-negative the page holds at most count items. In both modes a cursor is set exactly when the page is non-empty; it copies prefix, keyword and count, advances offset by count, and is keyed by the page's last item |
| `Search.SearchIntended` | src/main/java/cc/whohow/markup/Markup.java:178-216 | `search(c)` with both corrections. Listing mode is `ListingPage`: on a valid catalog, this page's window followed by the next cursor's window is the window of twice the count. Keyword mode fails with IllegalArgumentException exactly as `Search` does; otherwise the page is the backward walk down to max(length - count, 0) and holds at most max(count, 0) items. The cursor is set exactly when the page is non-empty and, in keyword mode, is keyed by the page's last item |
| `GitRepo.SegmentStart` | src/main/java/cc/whohow/markup/Markup.java:392 | The start of the last `/`-free run: no `/` from there on, and a `/` (or the start of the string) just before it |
| `GitRepo.StripGit` | src/main/java/cc/whohow/markup/Markup.java:396-399 | A name ending in `.git` loses exactly that suffix; any other name is unchanged |
| `GitRepo.RepoName` | src/main/java/cc/whohow/markup/Markup.java:391-402 | Fails only with AssertionError. A name it returns contains no `/` |
| `GitRepo.Matches` | src/main/java/cc/whohow/markup/Markup.java:392-393 | The pattern `(?<name>[^/]+)/?$` matches at q with its group ending at f exactly when f is the end of the path (before one trailing `/`) and q lies in the last segment |
| `GitRepo.RepoNameIsLeftmostMatch` | src/main/java/cc/whohow/markup/Markup.java:391-402 | `getGitRepoName` fails exactly when the pattern matches nowhere. Otherwise its result is the group of the leftmost match with `.git` stripped |
| `GitRepo.Accept` | src/main/java/cc/whohow/markup/Markup.java:346-348 | `accept(path)` holds exactly when the path is some stem followed by `.md` |

## Left out

- The Lucene index lifecycle is not modelled: `index`, `commit` with its reader reopen, the
  `CloseRunnable` that closes the old reader a minute later, and `close`. These are concurrency and
  deferred resource release in a library.
- `get(key)` and `get(Iterable)` are not modelled. They are Lucene term and boolean queries. `get` is a
  parameter of the listing page, and the order of its results is arbitrary. The listing page is
  therefore not claimed to be sorted.
- The ranked search itself is not modelled: relevance scoring, the analyzer's term matching, fuzzy
  matching, and how a FILTER clause stays out of the score. The engine's hits are a parameter. The
  term and fuzzy matches are parameters of `Search.Selects`.
- `fromMarkdown`, `toMarkdown` and `DateTools` date encoding are not modelled; they are Lucene field
  mapping.
- The JGit operations are not modelled: `gitUpdate`, `gitClone`, `gitPull`, `gitResolveCommit`,
  `gitDiff` and `getCreated`. They are repository and network I/O through a library.
- File I/O and rendering are not modelled: `read`, `readUtf8`, `readMarkdown`, the repository walk of
  `listGitRepo` and `getKey`'s `Path.relativize`, and commonmark `render`. `KeyCatalog.Build` takes the
  walked keys as input.
- The Base64 encoding in `getNextCursor` and `SearchCursor.toString()` are not modelled. The
  `SearchCursor` class is not part of this model. Cursors are values, and no encoding round trip is
  claimed.
- `KeyCatalog.List`: a `keys` field that is still null before the first repository update (a
  NullPointerException) is not modelled.
- `GitRepo.RepoName` takes `uri.getPath()` as its input. A null path (an opaque URI) is not modelled.
- `GitRepo.RepoName`: Java's `$` also matches before a final line terminator. The model matches only at
  the end of the path. This differs only for a decoded path that ends in a line terminator.
- `Strings.Less` compares Dafny characters (Unicode scalar values). Java compares UTF-16 code units.
  The two orders agree on the Basic Multilingual Plane.
- `Search.ValueQuery`: `keyword.length()` counts UTF-16 code units, while the model counts characters.
  The two agree on the Basic Multilingual Plane.
- `KeyCatalog.ListResume` and `Search.ListingWalkResumes` assume every catalog key is non-empty. Keys are
  relative file paths. An empty key would be read as "start from the beginning".

## Findings

| source | as written | input that shows it | evidently intended | confidence | as-written member | corrected member |
|---|---|---|---|---|---|---|
| src/main/java/cc/whohow/markup/Markup.java:187-191 | Listing mode keys the next cursor by the last document `get(Iterable)` returns, which is in Lucene's score/document order, not catalog order | catalog a.md, b.md, c.md; count 2; documents returned as b.md, a.md. The cursor is keyed a.md, and the next page shows b.md again | key the cursor by the last key of the catalog window, so the next window starts right after this one | medium (depends on Lucene's result order); not executed | `Search.ListingPageAsWritten`, `Search.ListingAsWrittenRepeatsKeys`, `Search.Search` | `Search.ListingPage`, `Search.ListingWalkResumes`, `Search.SearchIntended` |
| src/main/java/cc/whohow/markup/Markup.java:183-201 | `offset + count` and `scoreDocs.length - count` wrap on Java ints, and a negative count is not rejected | offset -1, count Integer.MIN_VALUE, one hit. The limit wraps to Integer.MAX_VALUE, the lower bound wraps negative and becomes 0, and the page holds the hit | a page of at most max(count, 0) items; the lower bound computed without overflow | medium (assumes `SearchCursor.count` is an int); not executed | `Search.PageLowerBoundAsWritten`, `Search.NegativeCountTakesEveryHit`, `Search.Search` | `Search.PageLowerBound`, `Search.KeywordPageSize`, `Search.SearchIntended` |
