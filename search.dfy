/**
 * The search side of Markup: the query a keyword search runs, the cursor protocol of `search`,
 * and the backward walk that assembles a keyword-mode page.
 */
module Search {
  import opened Wrappers
  import opened Strings
  import opened JavaInt
  import KeyCatalog

  /** A document as the index returns it (`Markdown`): key, raw text, rendered HTML, creation time. */
  datatype Markdown = Markdown(key: string, content: string, html: string, created: int)

  /**
   * `SearchCursor`. A null prefix or keyword behaves exactly like an empty one everywhere in the code,
   * so both are strings here; the boundary key is optional because keyword mode compares it with `equals`.
   */
  datatype SearchCursor = SearchCursor(prefix: string, keyword: string, key: Option<string>, count: Int32, offset: Int32)

  /** `SearchResult<Markdown>`: the page and, when there is one, the cursor of the next page. */
  datatype SearchResult = SearchResult(list: seq<Markdown>, cursor: Option<SearchCursor>)

  const KeyField: string := "key"
  const ContentField: string := "content"

  /** The query shapes `buildSearchQuery` produces. */
  datatype Query =
    | MatchAllDocs
    | PrefixQuery(field: string, prefix: string)
    | TermQuery(field: string, text: string)
    | FuzzyQuery(field: string, text: string)
    | FilterMust(filter: Query, must: Query)  // BooleanQuery: FILTER clause plus MUST clause

  /**
   * `buildSearchQuery(prefix, keyword)`: a prefix query on the key when the prefix is non-empty, an exact
   * term (keyword of at most 4 characters) or a fuzzy query on the content when the keyword is non-empty,
   * the prefix as a filter beside the keyword when both are, and match-all when neither is.
   */
  function BuildSearchQuery(prefix: string, keyword: string): (q: Query)
    ensures prefix == "" && keyword == "" <==> q == MatchAllDocs
    ensures prefix != "" && keyword == "" <==> q == PrefixQuery(KeyField, prefix)
    ensures prefix == "" && keyword != "" <==> q.TermQuery? || q.FuzzyQuery?
    ensures prefix != "" && keyword != "" <==> q.FilterMust?
    ensures q.FilterMust? ==> q.filter == PrefixQuery(KeyField, prefix)
    ensures q.TermQuery? || q.FuzzyQuery? ==> q == ValueQuery(keyword)
    ensures q.FilterMust? ==> q.must == ValueQuery(keyword)
  {
    var keyQuery := if prefix != "" then Some(PrefixQuery(KeyField, prefix)) else None;
    var valueQuery := if keyword != "" then Some(ValueQuery(keyword)) else None;
    if keyQuery.Some? && valueQuery.Some? then FilterMust(keyQuery.value, valueQuery.value)
    else if keyQuery.Some? then keyQuery.value
    else if valueQuery.Some? then valueQuery.value
    else MatchAllDocs
  }

  /** The content query for a non-empty keyword: exact for short keywords, edit-distance tolerant otherwise. */
  function ValueQuery(keyword: string): (q: Query)
    ensures (q.TermQuery? || q.FuzzyQuery?) && q.field == ContentField && q.text == keyword
    ensures q.TermQuery? <==> |keyword| <= 4
    ensures q.FuzzyQuery? <==> |keyword| > 4
  {
    if |keyword| <= 4 then TermQuery(ContentField, keyword) else FuzzyQuery(ContentField, keyword)
  }

  function FieldValue(d: Markdown, field: string): (v: string)
  {
    if field == KeyField then d.key else if field == ContentField then d.content else ""
  }

  /**
   * Which documents a query selects. The analyzer's term match and the engine's fuzzy match are
   * parameters: the model does not reimplement them.
   */
  predicate Selects(q: Query, d: Markdown, termMatch: (string, string) -> bool, fuzzyMatch: (string, string) -> bool)
  {
    match q
    case MatchAllDocs => true
    case PrefixQuery(f, p) => StartsWith(FieldValue(d, f), p)
    case TermQuery(f, t) => termMatch(t, FieldValue(d, f))
    case FuzzyQuery(f, t) => fuzzyMatch(t, FieldValue(d, f))
    case FilterMust(a, b) => Selects(a, d, termMatch, fuzzyMatch) && Selects(b, d, termMatch, fuzzyMatch)
  }

  /**
   * The search query selects exactly the documents whose key carries the prefix and, when there is a
   * keyword, whose content matches it (exactly for at most 4 characters, fuzzily beyond).
   */
  lemma SearchQuerySelects(prefix: string, keyword: string, d: Markdown,
                           termMatch: (string, string) -> bool, fuzzyMatch: (string, string) -> bool)
    ensures Selects(BuildSearchQuery(prefix, keyword), d, termMatch, fuzzyMatch) <==>
      StartsWith(d.key, prefix) &&
      (keyword == "" || (if |keyword| <= 4 then termMatch(keyword, d.content) else fuzzyMatch(keyword, d.content)))
  {
  }

  /** The fields of the next cursor that do not depend on the page: `nc` before its key is set. */
  function Advance(c: SearchCursor): (nc: SearchCursor)
    ensures nc.prefix == c.prefix && nc.keyword == c.keyword && nc.count == c.count && nc.key.None?
    ensures nc.offset == Add(c.offset, c.count)
  {
    SearchCursor(c.prefix, c.keyword, None, c.count, Add(c.offset, c.count))
  }

  /**
   * The cursor facts both modes promise: a next cursor exactly when the page is non-empty, carrying the
   * prefix, keyword and count of `c`, the offset advanced by count (Java int addition) and a boundary key.
   */
  predicate Continues(c: SearchCursor, r: SearchResult)
  {
    && (r.cursor.Some? <==> r.list != [])
    && (r.cursor.Some? ==>
          && r.cursor.value.prefix == c.prefix
          && r.cursor.value.keyword == c.keyword
          && r.cursor.value.count == c.count
          && r.cursor.value.offset == Add(c.offset, c.count)
          && r.cursor.value.key.Some?)
  }

  /**
   * The key getNextCursor encodes: none for an empty page, otherwise the key of the page's last item.
   * The Base64 encoding of that key is not part of this model.
   */
  function NextCursorKey(list: seq<Markdown>): (r: Option<string>)
    ensures r.None? <==> list == []
    ensures r.Some? ==> r.value == list[|list| - 1].key
  {
    if list == [] then None else Some(list[|list| - 1].key)
  }

  // ---------------------------------------------------------------------------------------------
  // Keyword mode: the backward walk over the ranked hits

  /**
   * What the backward walk yields from the ranked hits: a contiguous tail of the hits in their ranked
   * order, starting at position `lo` or later, holding no document whose key equals the boundary, and
   * stopping above `lo` only at a document that carries the boundary key.
   */
  predicate IsWalkPage(hits: seq<Markdown>, lo: nat, boundary: Option<string>, page: seq<Markdown>)
  {
    && |page| <= |hits|
    && page == hits[|hits| - |page|..]
    && (page != [] ==> |hits| - |page| >= lo)
    && (forall i :: 0 <= i < |page| ==> boundary != Some(page[i].key))
    && (|hits| - |page| > lo ==> boundary == Some(hits[|hits| - |page| - 1].key))
  }

  /**
   * The loop of keyword mode: from the last hit down to position `lo`, stop at the boundary key,
   * otherwise put the hit in front of the page (`addFirst`).
   */
  method WalkBack(hits: seq<Markdown>, lo: nat, boundary: Option<string>) returns (page: seq<Markdown>)
    ensures IsWalkPage(hits, lo, boundary, page)
  {
    page := [];
    var i := |hits| - 1;
    while i >= lo
      invariant -1 <= i < |hits|
      invariant i >= lo - 1 || i == |hits| - 1
      invariant page == hits[i + 1..]
      invariant forall j :: 0 <= j < |page| ==> boundary != Some(page[j].key)
    {
      if boundary == Some(hits[i].key) {
        break;
      }
      page := [hits[i]] + page;
      i := i - 1;
    }
  }

  /** The walk's contract leaves no choice: two pages that meet it are equal. */
  lemma WalkPageUnique(hits: seq<Markdown>, lo: nat, boundary: Option<string>, p: seq<Markdown>, q: seq<Markdown>)
    requires IsWalkPage(hits, lo, boundary, p) && IsWalkPage(hits, lo, boundary, q)
    ensures p == q
  {
  }

  /**
   * With distinct keys among the hits and the boundary at position j, the page is everything ranked
   * after the boundary when the boundary lies in the walked range, and the whole walked range otherwise:
   * nothing ranked at or above the boundary reappears.
   */
  lemma WalkPageAfterBoundary(hits: seq<Markdown>, lo: nat, j: nat, page: seq<Markdown>)
    requires j < |hits|
    requires forall a, b :: 0 <= a < b < |hits| ==> hits[a].key != hits[b].key
    requires IsWalkPage(hits, lo, Some(hits[j].key), page)
    ensures lo <= j ==> page == hits[j + 1..]
    ensures j < lo <= |hits| ==> page == hits[lo..]
  {
  }

  /** `Integer.max(scoreDocs.length - c.getCount(), 0)` as written, with Java's wrapping subtraction. */
  function PageLowerBoundAsWritten(length: Int32, count: Int32): (lo: nat)
    ensures 0 <= length && 0 <= count ==> lo == PageLowerBound(length, count)
    ensures 0 <= length ==> lo == (if length - count <= IntMax then Max(length - count, 0) else 0)
  {
    Max(Sub(length, count), 0)
  }

  /** The first position the page may start at, `max(length - count, 0)` in exact arithmetic. */
  function PageLowerBound(length: nat, count: int): (lo: nat)
    ensures lo >= length - count
    ensures lo == 0 || lo == length - count
  {
    Max(length - count, 0)
  }

  /** A keyword page holds at most `count` items, and none when `count` is not positive. */
  lemma KeywordPageSize(hits: seq<Markdown>, count: int, boundary: Option<string>, page: seq<Markdown>)
    requires IsWalkPage(hits, PageLowerBound(|hits|, count), boundary, page)
    ensures |page| <= Max(count, 0)
    ensures page != [] ==> |hits| - |page| >= Max(|hits| - count, 0)
  {
  }

  /**
   * As written, a cursor with offset -1 and count Integer.MIN_VALUE asks the engine for
   * Integer.MAX_VALUE hits (the sum wraps), and `length - count` wraps to a negative number, so the walk
   * starts at position 0: over a single hit the page is that hit, not the empty page, though the count is negative.
   */
  lemma NegativeCountTakesEveryHit()
    ensures Add(-1, IntMin) == IntMax
    ensures PageLowerBoundAsWritten(1, IntMin) == 0
    ensures var hit := Markdown("a.md", "", "", 0);
      && IsWalkPage([hit], PageLowerBoundAsWritten(1, IntMin), None, [hit])
      && !IsWalkPage([hit], PageLowerBoundAsWritten(1, IntMin), None, [])
  {
  }

  // ---------------------------------------------------------------------------------------------
  // Listing mode

  /**
   * Listing mode as written: the window of the catalog, the documents `get` returns for it, and the
   * next cursor keyed by the last document of that list, in the engine's order.
   */
  function ListingPageAsWritten(c: SearchCursor, catalog: seq<string>, get: seq<string> -> seq<Markdown>)
    : (r: Result<SearchResult>)
    ensures r.Failure? <==> c.count < 0
    ensures r.Failure? ==> r.error == IllegalArgumentException
    ensures r.Success? ==> r.value.list == get(KeyCatalog.List(catalog, c.prefix, c.key, c.count).value)
    ensures r.Success? ==> Continues(c, r.value)
    ensures r.Success? && r.value.cursor.Some? ==> r.value.cursor.value.key == NextCursorKey(r.value.list)
  {
    match KeyCatalog.List(catalog, c.prefix, c.key, c.count)
    case Failure(e) => Failure(e)
    case Success(window) =>
      var list := get(window);
      if list == [] then Success(SearchResult(list, None))
      else Success(SearchResult(list, Some(Advance(c).(key := Some(list[|list| - 1].key)))))
  }

  /**
   * Listing mode: the same page, with the next cursor keyed by the last key of the catalog window, so
   * that the next window starts right after this one whatever order `get` returns the documents in.
   * `get` of no keys is no documents (`get(Iterable)` returns the empty list when there are no keys).
   */
  function ListingPage(c: SearchCursor, catalog: seq<string>, get: seq<string> -> seq<Markdown>)
    : (r: Result<SearchResult>)
    requires get([]) == []
    ensures r.Failure? <==> c.count < 0
    ensures r.Failure? ==> r.error == IllegalArgumentException
    ensures r.Success? ==> r.value.list == get(KeyCatalog.List(catalog, c.prefix, c.key, c.count).value)
    ensures r.Success? ==> Continues(c, r.value)
    ensures r.Success? && r.value.cursor.Some? ==>
      var w := KeyCatalog.List(catalog, c.prefix, c.key, c.count).value;
      w != [] && r.value.cursor.value.key == Some(w[|w| - 1])
  {
    match KeyCatalog.List(catalog, c.prefix, c.key, c.count)
    case Failure(e) => Failure(e)
    case Success(window) =>
      var list := get(window);
      if list == [] then Success(SearchResult(list, None))
      else Success(SearchResult(list, Some(Advance(c).(key := Some(window[|window| - 1])))))
  }

  /** The two listing pages agree whenever the last document `get` returns is the last key of the window. */
  lemma ListingPagesAgree(c: SearchCursor, catalog: seq<string>, get: seq<string> -> seq<Markdown>)
    requires get([]) == []
    requires c.count >= 0
    requires var list := get(KeyCatalog.List(catalog, c.prefix, c.key, c.count).value);
      var w := KeyCatalog.List(catalog, c.prefix, c.key, c.count).value;
      list != [] ==> w != [] && list[|list| - 1].key == w[|w| - 1]
    ensures ListingPage(c, catalog, get) == ListingPageAsWritten(c, catalog, get)
  {
  }

  /**
   * Listing mode walks the catalog without repeating or skipping a key: the window of the next cursor,
   * appended to this page's window, is the window of twice the count.
   */
  lemma ListingWalkResumes(c: SearchCursor, catalog: seq<string>, get: seq<string> -> seq<Markdown>)
    requires get([]) == []
    requires KeyCatalog.ValidCatalog(catalog)
    requires ListingPage(c, catalog, get).Success? && ListingPage(c, catalog, get).value.cursor.Some?
    ensures var nc := ListingPage(c, catalog, get).value.cursor.value;
      KeyCatalog.List(catalog, c.prefix, c.key, c.count).value + KeyCatalog.List(catalog, nc.prefix, nc.key, nc.count).value
        == KeyCatalog.List(catalog, c.prefix, c.key, c.count + c.count).value
  {
    KeyCatalog.ListResume(catalog, c.prefix, c.key, c.count, c.count);
  }

  /** `get` returning the documents of a window in reverse key order, as a score or index order may. */
  function DocsInReverse(keys: seq<string>): (docs: seq<Markdown>)
    ensures |docs| == |keys|
    ensures forall i :: 0 <= i < |keys| ==> docs[i].key == keys[|keys| - 1 - i]
  {
    seq(|keys|, i requires 0 <= i < |keys| => Markdown(keys[|keys| - 1 - i], "", "", 0))
  }

  /**
   * As written, listing mode resumes from the last document in the engine's order: over the catalog
   * a.md, b.md, c.md with pages of 2, documents returned as b.md, a.md give a cursor on a.md, and the
   * next window holds b.md again.
   */
  lemma ListingAsWrittenRepeatsKeys()
    ensures var catalog := ["a.md", "b.md", "c.md"];
      var c := SearchCursor("", "", None, 2, 0);
      var r := ListingPageAsWritten(c, catalog, DocsInReverse);
      && r.Success?
      && r.value.cursor == Some(SearchCursor("", "", Some("a.md"), 2, 2))
      && "b.md" in KeyCatalog.List(catalog, "", None, 2).value
      && "b.md" in KeyCatalog.List(catalog, "", Some("a.md"), 2).value
  {
  }

  // ---------------------------------------------------------------------------------------------
  // The cursor protocol

  /**
   * `search(c)` as written. Listing mode (empty keyword) pages through the catalog window and keys the
   * next cursor by the last document `get` returns. Keyword mode asks the engine for the `offset + count`
   * best hits of the search query and walks back from the last one down to
   * `Integer.max(scoreDocs.length - count, 0)`, stopping at the boundary key. `get` and `engine` stand for
   * the index queries; the engine returns at most as many hits as it is asked for.
   */
  method Search(c: SearchCursor, catalog: seq<string>, get: seq<string> -> seq<Markdown>,
                engine: (Query, Int32) -> seq<Markdown>) returns (r: Result<SearchResult>)
    requires forall q, n: Int32 :: |engine(q, n)| <= Max(n, 0)
    ensures c.keyword == "" ==> r == ListingPageAsWritten(c, catalog, get)
    ensures c.keyword != "" ==> (r.Failure? <==> Add(c.offset, c.count) <= 0)
    ensures r.Failure? ==> r.error == IllegalArgumentException
    ensures c.keyword != "" && r.Success? ==>
      var hits := engine(BuildSearchQuery(c.prefix, c.keyword), Add(c.offset, c.count));
      && |hits| <= Add(c.offset, c.count)
      && IsWalkPage(hits, PageLowerBoundAsWritten(|hits|, c.count), c.key, r.value.list)
      && (c.count >= 0 ==> |r.value.list| <= c.count)
    ensures r.Success? ==> Continues(c, r.value)
    ensures r.Success? && r.value.cursor.Some? ==> r.value.cursor.value.key == NextCursorKey(r.value.list)
  {
    var nc := Advance(c);
    if c.keyword == "" {
      return ListingPageAsWritten(c, catalog, get);
    }
    if nc.offset <= 0 {
      return Failure(IllegalArgumentException);
    }
    var hits := engine(BuildSearchQuery(c.prefix, c.keyword), nc.offset);
    var list := WalkBack(hits, PageLowerBoundAsWritten(|hits|, c.count), c.key);
    if c.count >= 0 {
      KeywordPageSize(hits, c.count, c.key, list);
    }
    if list == [] {
      return Success(SearchResult(list, None));
    }
    nc := nc.(key := Some(list[|list| - 1].key));
    return Success(SearchResult(list, Some(nc)));
  }

  /**
   * `search(c)` with both corrections: the listing cursor is keyed by the last key of the catalog window,
   * and the keyword walk's lower bound is computed without overflow. A listing walk over a valid catalog
   * then neither repeats nor skips a key, and a keyword page never exceeds max(count, 0) items.
   */
  method SearchIntended(c: SearchCursor, catalog: seq<string>, get: seq<string> -> seq<Markdown>,
                        engine: (Query, Int32) -> seq<Markdown>) returns (r: Result<SearchResult>)
    requires get([]) == []
    ensures c.keyword == "" ==> r == ListingPage(c, catalog, get)
    ensures c.keyword == "" && r.Success? && r.value.cursor.Some? && KeyCatalog.ValidCatalog(catalog) ==>
      var nc := r.value.cursor.value;
      KeyCatalog.List(catalog, c.prefix, c.key, c.count).value + KeyCatalog.List(catalog, nc.prefix, nc.key, nc.count).value
        == KeyCatalog.List(catalog, c.prefix, c.key, c.count + c.count).value
    ensures c.keyword != "" ==> (r.Failure? <==> Add(c.offset, c.count) <= 0)
    ensures r.Failure? ==> r.error == IllegalArgumentException
    ensures c.keyword != "" && r.Success? ==>
      var hits := engine(BuildSearchQuery(c.prefix, c.keyword), Add(c.offset, c.count));
      && IsWalkPage(hits, PageLowerBound(|hits|, c.count), c.key, r.value.list)
      && |r.value.list| <= Max(c.count, 0)
    ensures r.Success? ==> Continues(c, r.value)
    ensures c.keyword != "" && r.Success? && r.value.cursor.Some? ==>
      r.value.cursor.value.key == NextCursorKey(r.value.list)
  {
    var nc := Advance(c);
    if c.keyword == "" {
      r := ListingPage(c, catalog, get);
      if r.Success? && r.value.cursor.Some? && KeyCatalog.ValidCatalog(catalog) {
        ListingWalkResumes(c, catalog, get);
      }
      return;
    }
    if nc.offset <= 0 {
      return Failure(IllegalArgumentException);
    }
    var hits := engine(BuildSearchQuery(c.prefix, c.keyword), nc.offset);
    var list := WalkBack(hits, PageLowerBound(|hits|, c.count), c.key);
    KeywordPageSize(hits, c.count, c.key, list);
    if list == [] {
      return Success(SearchResult(list, None));
    }
    nc := nc.(key := Some(list[|list| - 1].key));
    return Success(SearchResult(list, Some(nc)));
  }
}
