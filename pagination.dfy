/** `searchWithPagination`: the whole result list of `searchBooks` with no
    limit, cut into pages of `pageSize`, with the total and whether another
    page follows. */
module Pagination {
  import opened Strings
  import opened Normalize
  import opened Search

  /** The object `searchWithPagination` resolves to. */
  datatype Paged<T> = Paged(results: seq<T>, hasMore: bool, total: nat)

  /** The offset of page `page` (pages count from 1). */
  function PageOffset(page: int, pageSize: int): int
  {
    (page - 1) * pageSize
  }

  /** Page `page` of `all`: `all.slice(offset, offset + pageSize)`, with
      `hasMore` when the page ends before the list does. */
  function Paginate<T>(all: seq<T>, page: int, pageSize: int): Paged<T>
  {
    var offset := PageOffset(page, pageSize);
    Paged(JsSlice(all, offset, offset + pageSize), offset + pageSize < |all|, |all|)
  }

  /** `searchWithPagination(searchQuery, page, pageSize)`: all results are
      fetched, then one page is cut out. */
  method SearchWithPagination(c: Casing, searchQuery: string, allContent: seq<BookContent>,
                              books: map<int, string>, page: int, pageSize: int)
    returns (r: Paged<SearchResult>)
    ensures r == Paginate(SearchBooksResult(c, searchQuery, allContent, books, None, 0), page, pageSize)
  {
    var offset := (page - 1) * pageSize;
    var allResults := SearchBooks(c, searchQuery, allContent, books, None, 0);
    var total := |allResults|;
    var results := JsSlice(allResults, offset, offset + pageSize);
    var hasMore := offset + pageSize < total;
    r := Paged(results, hasMore, total);
    PaginateAt(allResults, page, pageSize, offset);
  }

  lemma PaginateAt<T>(all: seq<T>, page: int, pageSize: int, offset: int)
    requires offset == (page - 1) * pageSize
    ensures Paginate(all, page, pageSize) == Paged(JsSlice(all, offset, offset + pageSize), offset + pageSize < |all|, |all|)
  {
  }

  // ---------------------------------------------------------------------
  // Properties

  lemma OffsetFacts(page: int, pageSize: int)
    requires page >= 1 && pageSize >= 0
    ensures PageOffset(page, pageSize) >= 0
    ensures PageOffset(page + 1, pageSize) == PageOffset(page, pageSize) + pageSize
  {
    assert (page - 1) * pageSize >= 0 by {
      var k: nat := page - 1;
      MulNonNegative(k, pageSize);
    }
    assert page * pageSize == (page - 1) * pageSize + pageSize;
  }

  lemma MulNonNegative(a: nat, b: nat)
    ensures a * b >= 0
  {
  }

  /** For real page numbers, a page is the stretch of the list from its
      offset, at most `pageSize` long, and `total` is the list's length. */
  lemma {:induction false} PageContents<T>(all: seq<T>, page: int, pageSize: int)
    requires page >= 1 && pageSize >= 0
    ensures PageOffset(page, pageSize) >= 0
    ensures var offset := PageOffset(page, pageSize);
      var p := Paginate(all, page, pageSize);
      p.total == |all| && (p.hasMore <==> offset + pageSize < |all|)
      && p.results == (if offset >= |all| then [] else all[offset..Min(offset + pageSize, |all|)])
      && |p.results| <= pageSize
  {
    OffsetFacts(page, pageSize);
    JsSliceLength(all, PageOffset(page, pageSize), pageSize);
  }

  /** A page past the end is empty and has nothing after it. */
  lemma PastTheEnd<T>(all: seq<T>, page: int, pageSize: int)
    requires page >= 1 && pageSize >= 0 && PageOffset(page, pageSize) >= |all|
    ensures Paginate(all, page, pageSize).results == []
    ensures !Paginate(all, page, pageSize).hasMore
  {
    PageContents(all, page, pageSize);
  }

  /** `hasMore` says exactly that the next page is not empty. */
  lemma HasMoreIffNextPage<T>(all: seq<T>, page: int, pageSize: int)
    requires page >= 1 && pageSize > 0
    ensures Paginate(all, page, pageSize).hasMore <==> Paginate(all, page + 1, pageSize).results != []
  {
    OffsetFacts(page, pageSize);
    PageContents(all, page + 1, pageSize);
  }

  /** Pages 1 to `k`, one after another. */
  function FirstPages<T>(all: seq<T>, k: nat, pageSize: int): seq<T>
  {
    if k == 0 then [] else FirstPages(all, k - 1, pageSize) + Paginate(all, k, pageSize).results
  }

  lemma AppendWindow<T>(all: seq<T>, offset: nat, pageSize: nat)
    ensures all[..Min(offset, |all|)] + (if offset >= |all| then [] else all[offset..Min(offset + pageSize, |all|)])
         == all[..Min(offset + pageSize, |all|)]
  {
  }

  /** Reading pages 1 to `k` in order gives the first `k * pageSize`
      results, without gaps or repeats. */
  lemma {:induction false} PagesConcatenate<T>(all: seq<T>, k: nat, pageSize: nat)
    ensures FirstPages(all, k, pageSize) == all[..Min(k * pageSize, |all|)]
  {
    if k > 0 {
      PagesConcatenate(all, k - 1, pageSize);
      OffsetFacts(k, pageSize);
      var offset: nat := PageOffset(k, pageSize);
      assert (k - 1) * pageSize == offset;
      assert k * pageSize == offset + pageSize;
      PageContents(all, k, pageSize);
      AppendWindow(all, offset, pageSize);
    }
  }

  /** Twenty-five results in pages of ten: page 3 holds the last five and
      has nothing after it. */
  lemma ThirdOfTwentyFive<T>(all: seq<T>)
    requires |all| == 25
    ensures Paginate(all, 3, 10) == Paged(all[20..25], false, 25)
  {
    PageContents(all, 3, 10);
  }

  /** Every page of an ordered list is ordered. */
  lemma PageSorted<T>(all: seq<T>, key: T -> nat, page: int, pageSize: int)
    requires Ranking.SortedDesc(all, key)
    ensures Ranking.SortedDesc(Paginate(all, page, pageSize).results, key)
  {
    var offset := PageOffset(page, pageSize);
    SliceSorted(all, key, offset, offset + pageSize);
  }

  /** The pages of a search are the pages of its unlimited result list, so
      every page is ordered by relevance, largest first. */
  lemma PagesOrderedByRelevance(c: Casing, searchQuery: string, allContent: seq<BookContent>,
                                books: map<int, string>, page: int, pageSize: int)
    ensures Ranking.SortedDesc(
      Paginate(SearchBooksResult(c, searchQuery, allContent, books, None, 0), page, pageSize).results,
      Relevance(c.lower, Keywords.ParseKeywords(searchQuery)))
  {
    var all := SearchBooksResult(c, searchQuery, allContent, books, None, 0);
    var key := Relevance(c.lower, Keywords.ParseKeywords(searchQuery));
    ResultsOrderedByRelevance(c, searchQuery, allContent, books, None, 0);
    PageSorted(all, key, page, pageSize);
  }
}
