/** `searchBooks`: split the query into keywords, scan every indexed page
    for pages whose folded text contains a folded keyword, build each
    match's snippet and highlighted snippet, sort by how many keywords the
    snippet contains, and cut out the requested window. The two database
    reads are inputs: the indexed pages (`db.bookContent.toArray()`) and
    the book titles by book id (`db.books.get`). */
module Search {
  import opened Strings
  import opened Normalize
  import opened Keywords
  import opened Highlight
  import opened Snippet
  import opened Ranking

  /** One indexed page of one book. */
  datatype BookContent = BookContent(id: int, bookId: int, pageNumber: int, contentText: string)

  /** One search hit. */
  datatype SearchResult = SearchResult(
    id: int, bookId: int, bookTitle: string, pageNumber: int,
    snippet: string, highlightedSnippet: string)

  /** `a` is `b` with some elements left out, order kept. */
  predicate IsSubsequence<T(==)>(a: seq<T>, b: seq<T>)
    decreases |b|
  {
    a == [] || (b != [] && ((a[0] == b[0] && IsSubsequence(a[1..], b[1..])) || IsSubsequence(a, b[1..])))
  }

  /** `keywords.filter(k => normalizeTurkish(text).includes(normalizeTurkish(k)))`:
      the keywords whose folded form occurs in the folded text. */
  function MatchedKeywords(lower: char -> char, text: string, keywords: seq<string>): (r: seq<string>)
    ensures |r| <= |keywords|
  {
    if keywords == [] then []
    else
      (if Contains(NormalizeTurkish(lower, text), NormalizeTurkish(lower, keywords[0])) then [keywords[0]] else [])
      + MatchedKeywords(lower, text, keywords[1..])
  }

  /** The matched keywords are exactly the keywords that occur. */
  lemma {:induction false} MatchedKeywordsMember(lower: char -> char, text: string, keywords: seq<string>, k: string)
    ensures k in MatchedKeywords(lower, text, keywords) <==>
            k in keywords && Contains(NormalizeTurkish(lower, text), NormalizeTurkish(lower, k))
  {
    if keywords != [] {
      MatchedKeywordsMember(lower, text, keywords[1..], k);
      assert keywords == [keywords[0]] + keywords[1..];
    }
  }

  /** Each keyword is kept as many times as the query lists it when its
      folded form occurs, and not at all otherwise: `filter` drops no
      duplicates. */
  lemma {:induction false} MatchedKeywordsCount(lower: char -> char, text: string, keywords: seq<string>, k: string)
    ensures multiset(MatchedKeywords(lower, text, keywords))[k]
         == if Contains(NormalizeTurkish(lower, text), NormalizeTurkish(lower, k)) then multiset(keywords)[k] else 0
  {
    if keywords != [] {
      MatchedKeywordsCount(lower, text, keywords[1..], k);
      assert keywords == [keywords[0]] + keywords[1..];
    }
  }

  /** Adding a keyword at the end of the query adds it at the end of the
      matched keywords exactly when it occurs. */
  lemma {:induction false} MatchedKeywordsSnoc(lower: char -> char, text: string, keywords: seq<string>, k: string)
    ensures MatchedKeywords(lower, text, keywords + [k])
         == MatchedKeywords(lower, text, keywords)
            + (if Contains(NormalizeTurkish(lower, text), NormalizeTurkish(lower, k)) then [k] else [])
  {
    if keywords == [] {
      assert [] + [k] == [k];
    } else {
      assert (keywords + [k])[0] == keywords[0] && (keywords + [k])[1..] == keywords[1..] + [k];
      MatchedKeywordsSnoc(lower, text, keywords[1..], k);
    }
  }

  /** The matched keywords keep the query's order. */
  lemma {:induction false} MatchedKeywordsSubsequence(lower: char -> char, text: string, keywords: seq<string>)
    ensures IsSubsequence(MatchedKeywords(lower, text, keywords), keywords)
  {
    if keywords != [] {
      MatchedKeywordsSubsequence(lower, text, keywords[1..]);
      var rest := MatchedKeywords(lower, text, keywords[1..]);
      if Contains(NormalizeTurkish(lower, text), NormalizeTurkish(lower, keywords[0])) {
        var r := [keywords[0]] + rest;
        assert r[0] == keywords[0] && r[1..] == rest;
      } else {
        assert MatchedKeywords(lower, text, keywords) == rest;
      }
    }
  }

  /** No keyword matches exactly when none occurs. */
  lemma MatchedKeywordsEmpty(lower: char -> char, text: string, keywords: seq<string>)
    ensures MatchedKeywords(lower, text, keywords) == [] <==>
            forall k :: k in keywords ==> !Contains(NormalizeTurkish(lower, text), NormalizeTurkish(lower, k))
  {
    var m := MatchedKeywords(lower, text, keywords);
    forall k | k in keywords ensures k in m <==> Contains(NormalizeTurkish(lower, text), NormalizeTurkish(lower, k)) {
      MatchedKeywordsMember(lower, text, keywords, k);
    }
    if m != [] {
      MatchedKeywordsMember(lower, text, keywords, m[0]);
    }
  }

  /** The body of the scan loop for one page: `None` when no keyword
      occurs or the page's book is missing (the `continue`). The snippet is
      taken around the first matched keyword and highlighted with all of
      them. */
  function PageResult(c: Casing, keywords: seq<string>, books: map<int, string>, content: BookContent): Option<SearchResult>
  {
    var matched := MatchedKeywords(c.lower, content.contentText, keywords);
    if |matched| == 0 || content.bookId !in books then None
    else
      var snippet := SnippetOf(c.lower, content.contentText, matched[0], DefaultContextLength);
      Some(SearchResult(content.id, content.bookId, books[content.bookId], content.pageNumber,
                        snippet, Highlighted(c, snippet, matched)))
  }

  /** The `Some` values of `f` over `s`, in order, built from the end as
      a loop appending to an array does. */
  function Collect<A, B>(f: A -> Option<B>, s: seq<A>): seq<B>
    decreases |s|
  {
    if s == [] then []
    else Collect(f, s[..|s| - 1]) + (match f(s[|s| - 1]) case Some(b) => [b] case None => [])
  }

  lemma CollectStep<A, B>(f: A -> Option<B>, s: seq<A>, i: nat)
    requires i < |s|
    ensures Collect(f, s[..i + 1]) == Collect(f, s[..i]) + (match f(s[i]) case Some(b) => [b] case None => [])
  {
    assert s[..i + 1][..i] == s[..i];
  }

  lemma {:induction false} CollectSound<A, B>(f: A -> Option<B>, s: seq<A>, b: B)
    requires b in Collect(f, s)
    ensures exists j :: 0 <= j < |s| && f(s[j]) == Some(b)
    decreases |s|
  {
    var n := |s| - 1;
    var front := s[..n];
    if b in Collect(f, front) {
      CollectSound(f, front, b);
      var j :| 0 <= j < |front| && f(front[j]) == Some(b);
      assert front[j] == s[j];
    } else {
      assert f(s[n]) == Some(b);
    }
  }

  lemma {:induction false} CollectComplete<A, B>(f: A -> Option<B>, s: seq<A>, j: nat)
    requires j < |s| && f(s[j]).Some?
    ensures f(s[j]).value in Collect(f, s)
    decreases |s|
  {
    var n := |s| - 1;
    if j < n {
      var front := s[..n];
      assert front[j] == s[j];
      CollectComplete(f, front, j);
    }
  }

  lemma CollectMember<A, B>(f: A -> Option<B>, s: seq<A>, b: B)
    ensures b in Collect(f, s) <==> exists j :: 0 <= j < |s| && f(s[j]) == Some(b)
  {
    if b in Collect(f, s) {
      CollectSound(f, s, b);
    }
    if exists j :: 0 <= j < |s| && f(s[j]) == Some(b) {
      var j :| 0 <= j < |s| && f(s[j]) == Some(b);
      CollectComplete(f, s, j);
    }
  }

  /** The results array after the scan loop has visited `pages`. */
  function Scan(c: Casing, keywords: seq<string>, books: map<int, string>, pages: seq<BookContent>): seq<SearchResult>
  {
    Collect((p: BookContent) => PageResult(c, keywords, books, p), pages)
  }

  /** The sort key: how many query keywords the folded snippet contains. */
  function Relevance(lower: char -> char, keywords: seq<string>): SearchResult -> nat
  {
    (r: SearchResult) => |MatchedKeywords(lower, r.snippet, keywords)|
  }

  /** `results.slice(offset, offset + limit)` when `limit` is truthy, else
      `results.slice(offset)`; a limit of 0 counts as absent. */
  function ApplyLimit<T>(results: seq<T>, limit: Option<int>, offset: int): seq<T>
  {
    if limit.Some? && limit.value != 0 then JsSlice(results, offset, offset + limit.value)
    else JsSlice(results, offset, |results|)
  }

  /** The scanned results sorted by relevance, largest first. */
  function Ranked(c: Casing, keywords: seq<string>, books: map<int, string>, allContent: seq<BookContent>): seq<SearchResult>
  {
    SortByKeyDesc(Scan(c, keywords, books, allContent), Relevance(c.lower, keywords))
  }

  /** What `searchBooks(searchQuery, limit, offset)` resolves to. */
  function SearchBooksResult(c: Casing, searchQuery: string, allContent: seq<BookContent>,
                             books: map<int, string>, limit: Option<int>, offset: int): seq<SearchResult>
  {
    var keywords := ParseKeywords(searchQuery);
    if Trim(searchQuery) == [] || keywords == [] then []
    else ApplyLimit(Ranked(c, keywords, books, allContent), limit, offset)
  }

  /** `searchBooks`: the scan loop pushes one result per matching page
      whose book exists, then the results are sorted and sliced. */
  method SearchBooks(c: Casing, searchQuery: string, allContent: seq<BookContent>,
                     books: map<int, string>, limit: Option<int>, offset: int)
    returns (paginated: seq<SearchResult>)
    ensures paginated == SearchBooksResult(c, searchQuery, allContent, books, limit, offset)
  {
    if Trim(searchQuery) == [] {
      return [];
    }
    var keywords := ParseKeywords(searchQuery);
    if |keywords| == 0 {
      return [];
    }
    var results: seq<SearchResult> := [];
    var i := 0;
    while i < |allContent|
      invariant 0 <= i <= |allContent|
      invariant results == Scan(c, keywords, books, allContent[..i])
    {
      var content := allContent[i];
      CollectStep((p: BookContent) => PageResult(c, keywords, books, p), allContent, i);
      var matchedKeywords := MatchedKeywords(c.lower, content.contentText, keywords);
      if |matchedKeywords| > 0 && content.bookId in books {
        var snippet := ExtractSnippet(c.lower, content.contentText, matchedKeywords[0], DefaultContextLength);
        var highlightedSnippet := HighlightText(c, snippet, matchedKeywords);
        results := results + [SearchResult(content.id, content.bookId, books[content.bookId],
                                           content.pageNumber, snippet, highlightedSnippet)];
      }
      i := i + 1;
    }
    assert allContent[..i] == allContent;
    results := SortByKeyDesc(results, Relevance(c.lower, keywords));
    assert results == Ranked(c, keywords, books, allContent);
    paginated := ApplyLimit(results, limit, offset);
  }

  // ---------------------------------------------------------------------
  // Properties

  /** A query that is empty or made only of commas and white space finds
      nothing. */
  lemma BlankQueryFindsNothing(c: Casing, searchQuery: string, allContent: seq<BookContent>,
                               books: map<int, string>, limit: Option<int>, offset: int)
    requires IsBlankQuery(searchQuery)
    ensures SearchBooksResult(c, searchQuery, allContent, books, limit, offset) == []
  {
    KeywordsEmptyIff(searchQuery);
  }

  /** A page gives a result exactly when its book exists and its folded text
      contains some folded keyword. */
  lemma PageResultIff(c: Casing, keywords: seq<string>, books: map<int, string>, content: BookContent)
    ensures PageResult(c, keywords, books, content).Some? <==>
            content.bookId in books &&
            exists k :: k in keywords && Contains(NormalizeTurkish(c.lower, content.contentText), NormalizeTurkish(c.lower, k))
  {
    MatchedKeywordsEmpty(c.lower, content.contentText, keywords);
  }

  /** What a result says about its page: the page's ids, number and book
      title; matched keywords that are a non-empty, order-preserving
      subsequence of the query's keywords, each occurring in the page; a
      snippet around the first of them that contains it; and that snippet
      highlighted with all of them. */
  lemma PageResultFacts(c: Casing, keywords: seq<string>, books: map<int, string>, content: BookContent)
    requires PageResult(c, keywords, books, content).Some?
    ensures var r := PageResult(c, keywords, books, content).value;
      var matched := MatchedKeywords(c.lower, content.contentText, keywords);
      r.id == content.id && r.bookId == content.bookId && r.pageNumber == content.pageNumber
      && content.bookId in books && r.bookTitle == books[content.bookId]
      && matched != [] && IsSubsequence(matched, keywords)
      && (forall k :: k in matched ==> Contains(NormalizeTurkish(c.lower, content.contentText), NormalizeTurkish(c.lower, k)))
      && r.snippet == SnippetOf(c.lower, content.contentText, matched[0], DefaultContextLength)
      && Contains(NormalizeTurkish(c.lower, r.snippet), NormalizeTurkish(c.lower, matched[0]))
      && r.highlightedSnippet == Highlighted(c, r.snippet, matched)
  {
    var matched := MatchedKeywords(c.lower, content.contentText, keywords);
    MatchedKeywordsSubsequence(c.lower, content.contentText, keywords);
    forall k | k in matched ensures Contains(NormalizeTurkish(c.lower, content.contentText), NormalizeTurkish(c.lower, k)) {
      MatchedKeywordsMember(c.lower, content.contentText, keywords, k);
    }
    SnippetContainsKeyword(c.lower, content.contentText, matched[0], DefaultContextLength);
  }

  /** The scan's results are exactly the results of its pages. */
  lemma ScanMember(c: Casing, keywords: seq<string>, books: map<int, string>,
                   pages: seq<BookContent>, r: SearchResult)
    ensures r in Scan(c, keywords, books, pages) <==>
            exists j :: 0 <= j < |pages| && PageResult(c, keywords, books, pages[j]) == Some(r)
  {
    CollectMember((p: BookContent) => PageResult(c, keywords, books, p), pages, r);
  }

  /** Every scanned result matched a keyword, so its sort key is at least
      one. */
  lemma RelevanceAtLeastOne(c: Casing, keywords: seq<string>, books: map<int, string>, content: BookContent)
    requires PageResult(c, keywords, books, content).Some?
    ensures Relevance(c.lower, keywords)(PageResult(c, keywords, books, content).value) >= 1
  {
    var r := PageResult(c, keywords, books, content).value;
    PageResultFacts(c, keywords, books, content);
    var matched := MatchedKeywords(c.lower, content.contentText, keywords);
    assert matched[0] in keywords by { MatchedKeywordsMember(c.lower, content.contentText, keywords, matched[0]); }
    MatchedKeywordsMember(c.lower, r.snippet, keywords, matched[0]);
  }

  lemma SliceSorted<T>(s: seq<T>, key: T -> nat, i: int, j: int)
    requires SortedDesc(s, key)
    ensures SortedDesc(JsSlice(s, i, j), key)
  {
    var from, to := SliceIndex(|s|, i), SliceIndex(|s|, j);
    if from < to {
      forall x, y | 0 <= x < y < to - from ensures key(s[from..to][x]) >= key(s[from..to][y]) {
        assert s[from..to][x] == s[from + x] && s[from..to][y] == s[from + y];
      }
    }
  }

  lemma ApplyLimitSorted<T>(s: seq<T>, key: T -> nat, limit: Option<int>, offset: int)
    requires SortedDesc(s, key)
    ensures SortedDesc(ApplyLimit(s, limit, offset), key)
  {
    if limit.Some? && limit.value != 0 {
      SliceSorted(s, key, offset, offset + limit.value);
    } else {
      SliceSorted(s, key, offset, |s|);
    }
  }

  /** Whatever the limit and offset, the results are ordered by relevance,
      largest first. */
  lemma ResultsOrderedByRelevance(c: Casing, searchQuery: string, allContent: seq<BookContent>,
                                  books: map<int, string>, limit: Option<int>, offset: int)
    ensures SortedDesc(SearchBooksResult(c, searchQuery, allContent, books, limit, offset),
                       Relevance(c.lower, ParseKeywords(searchQuery)))
  {
    var keywords := ParseKeywords(searchQuery);
    if Trim(searchQuery) != [] && keywords != [] {
      var key := Relevance(c.lower, keywords);
      var scanned := Scan(c, keywords, books, allContent);
      SortSorted(scanned, key);
      ApplyLimitSorted(Ranked(c, keywords, books, allContent), key, limit, offset);
    }
  }

  /** Without limit or offset, the results are the scanned results
      rearranged, and results of equal relevance stay in scan order. */
  lemma UnlimitedResultsAreStableRanking(c: Casing, searchQuery: string, allContent: seq<BookContent>,
                                         books: map<int, string>, n: nat)
    requires !IsBlankQuery(searchQuery)
    ensures var keywords := ParseKeywords(searchQuery);
      var all := SearchBooksResult(c, searchQuery, allContent, books, None, 0);
      var scanned := Scan(c, keywords, books, allContent);
      multiset(all) == multiset(scanned)
      && WithKey(all, Relevance(c.lower, keywords), n) == WithKey(scanned, Relevance(c.lower, keywords), n)
  {
    var keywords := ParseKeywords(searchQuery);
    NotBlankQuery(searchQuery);
    var scanned := Scan(c, keywords, books, allContent);
    ApplyNoLimit(Ranked(c, keywords, books, allContent), None, 0);
    SortPermutes(scanned, Relevance(c.lower, keywords));
    SortStable(scanned, Relevance(c.lower, keywords), n);
  }

  /** An absent or zero limit keeps everything from the offset on, and with
      offset 0 everything. */
  lemma ApplyNoLimit<T>(s: seq<T>, limit: Option<int>, offset: nat)
    requires limit == None || limit == Some(0)
    ensures ApplyLimit(s, limit, offset) == s[Min(offset, |s|)..]
    ensures ApplyLimit(s, None, 0) == s
  {
  }

  /** A positive limit keeps the window of at most `limit` results from the
      offset on. */
  lemma ApplyPositiveLimit<T>(s: seq<T>, limit: nat, offset: nat)
    requires limit > 0
    ensures ApplyLimit(s, Some(limit), offset) == (if offset >= |s| then [] else s[offset..Min(offset + limit, |s|)])
    ensures |ApplyLimit(s, Some(limit), offset)| <= limit
  {
    JsSliceLength(s, offset, limit);
  }

  lemma JsSliceMember<T>(s: seq<T>, i: int, j: int, x: T)
    requires x in JsSlice(s, i, j)
    ensures x in s
  {
    var from, to := SliceIndex(|s|, i), SliceIndex(|s|, j);
    var k :| 0 <= k < |s[from..to]| && s[from..to][k] == x;
    assert s[from + k] == x;
  }

  /** A query that is not blank goes past both early returns. */
  lemma NotBlankQuery(searchQuery: string)
    requires !IsBlankQuery(searchQuery)
    ensures Trim(searchQuery) != [] && ParseKeywords(searchQuery) != []
  {
    KeywordsEmptyIff(searchQuery);
    TrimEmptyIff(searchQuery);
    var i :| 0 <= i < |searchQuery| && searchQuery[i] != ',' && !IsWhiteSpace(searchQuery[i]);
    assert !AllWhiteSpace(searchQuery);
  }

  lemma ApplyLimitMember<T>(s: seq<T>, limit: Option<int>, offset: int, x: T)
    requires x in ApplyLimit(s, limit, offset)
    ensures x in s
  {
    if limit.Some? && limit.value != 0 {
      JsSliceMember(s, offset, offset + limit.value, x);
    } else {
      JsSliceMember(s, offset, |s|, x);
    }
  }

  /** Sorting keeps exactly the scanned results. */
  lemma RankedMember(c: Casing, keywords: seq<string>, books: map<int, string>,
                     allContent: seq<BookContent>, r: SearchResult)
    ensures r in Ranked(c, keywords, books, allContent) <==>
            exists j :: 0 <= j < |allContent| && PageResult(c, keywords, books, allContent[j]) == Some(r)
  {
    var scanned := Scan(c, keywords, books, allContent);
    var ranked := Ranked(c, keywords, books, allContent);
    SortPermutes(scanned, Relevance(c.lower, keywords));
    assert r in ranked <==> r in multiset(ranked);
    ScanMember(c, keywords, books, allContent, r);
  }

  /** Every result, whatever the limit and offset, is the result of one of
      the pages, so that page's folded text contains a folded keyword, its
      book exists (`PageResultIff`), and the result's relevance is at least
      one. */
  lemma ResultsComeFromPages(c: Casing, searchQuery: string, allContent: seq<BookContent>,
                             books: map<int, string>, limit: Option<int>, offset: int, r: SearchResult)
    requires r in SearchBooksResult(c, searchQuery, allContent, books, limit, offset)
    ensures exists j :: 0 <= j < |allContent| && PageResult(c, ParseKeywords(searchQuery), books, allContent[j]) == Some(r)
    ensures Relevance(c.lower, ParseKeywords(searchQuery))(r) >= 1
  {
    var keywords := ParseKeywords(searchQuery);
    var ranked := Ranked(c, keywords, books, allContent);
    ApplyLimitMember(ranked, limit, offset, r);
    RankedMember(c, keywords, books, allContent, r);
    var j :| 0 <= j < |allContent| && PageResult(c, keywords, books, allContent[j]) == Some(r);
    RelevanceAtLeastOne(c, keywords, books, allContent[j]);
  }

  /** Without limit or offset, a non-blank query returns exactly the results
      of the pages that have one. */
  lemma UnlimitedResultsIff(c: Casing, searchQuery: string, allContent: seq<BookContent>,
                            books: map<int, string>, r: SearchResult)
    requires !IsBlankQuery(searchQuery)
    ensures r in SearchBooksResult(c, searchQuery, allContent, books, None, 0) <==>
            exists j :: 0 <= j < |allContent| && PageResult(c, ParseKeywords(searchQuery), books, allContent[j]) == Some(r)
  {
    var keywords := ParseKeywords(searchQuery);
    NotBlankQuery(searchQuery);
    ApplyNoLimit(Ranked(c, keywords, books, allContent), None, 0);
    RankedMember(c, keywords, books, allContent, r);
  }

  /** A falsy limit (absent or 0) returns everything from the offset on. */
  lemma FalsyLimitReturnsRest(c: Casing, searchQuery: string, allContent: seq<BookContent>,
                              books: map<int, string>, limit: Option<int>, offset: nat)
    requires limit == None || limit == Some(0)
    ensures var all := SearchBooksResult(c, searchQuery, allContent, books, None, 0);
      SearchBooksResult(c, searchQuery, allContent, books, limit, offset) == all[Min(offset, |all|)..]
  {
    var keywords := ParseKeywords(searchQuery);
    if Trim(searchQuery) != [] && keywords != [] {
      ApplyNoLimit(Ranked(c, keywords, books, allContent), limit, offset);
    }
  }

  /** A positive limit returns at most `limit` results, starting at the
      offset. */
  lemma PositiveLimitReturnsWindow(c: Casing, searchQuery: string, allContent: seq<BookContent>,
                                   books: map<int, string>, limit: nat, offset: nat)
    requires limit > 0
    ensures var all := SearchBooksResult(c, searchQuery, allContent, books, None, 0);
      var window := SearchBooksResult(c, searchQuery, allContent, books, Some(limit), offset);
      window == (if offset >= |all| then [] else all[offset..Min(offset + limit, |all|)])
      && |window| <= limit
  {
    var keywords := ParseKeywords(searchQuery);
    if Trim(searchQuery) != [] && keywords != [] {
      ApplyNoLimit(Ranked(c, keywords, books, allContent), None, 0);
      ApplyPositiveLimit(Ranked(c, keywords, books, allContent), limit, offset);
    }
  }
}
