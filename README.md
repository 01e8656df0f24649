# Local full-text search over indexed book pages

This project models the search engine in `src/lib/search.ts` of an
e-book reader app. The engine works on the pages the app has indexed.

A query is a comma-separated list of keywords. A page matches when its text,
folded by `normalizeTurkish`, contains a folded keyword. For each matching
page the engine:

- cuts a snippet of about 300 characters of context around the first
  matched keyword;
- highlights every matched keyword in the snippet with a `<mark>` element,
  coloured from an eight-colour palette.

Results are sorted by how many keywords their snippet contains, largest first.
Then a limit and offset window is cut out of them. `searchWithPagination`
turns a page number and page size into that window, and also reports the
total and whether more results follow.

The two database reads become inputs:

- the indexed pages (`db.bookContent.toArray()`) are a sequence of
  `BookContent` records;
- `db.books.get` is a map from book id to title.

Two host behaviours are parameters (`Normalize.Casing`):

- `lower: char -> char` is what `toLowerCase` does to one character;
- `canon: char -> char` is the canonical form that the `i` flag of a regular
  expression compares characters by.

Modules, one per part of the source:

| module | models |
|---|---|
| `Strings` | `includes`, `indexOf`, `trim`, `split`, `slice` (with JavaScript's negative-index rules) |
| `Normalize` | `normalizeTurkish` |
| `Highlight` | `HIGHLIGHT_COLORS`, `getHighlightColor`, `highlightText`; the replacement is a global, case-insensitive, literal-pattern replace |
| `Snippet` | `extractSnippet` |
| `Keywords` | the query split: `split(',')`, then `map(trim)`, then `filter(non-empty)` |
| `Ranking` | `Array.prototype.sort` with the comparator `bMatches - aMatches`: a stable sort by a key, largest first |
| `Search` | `searchBooks`: the scan loop, the relevance sort, the limit and offset slice |
| `Pagination` | `searchWithPagination` |

The imperative parts of the source are methods proved against specification
functions:

- `HighlightText` (the `forEach` loop) is proved against `Highlighted`.
- `ExtractSnippet` (the `let snippet` reassignments) is proved against
  `SnippetOf`.
- `SearchBooks` is proved against `SearchBooksResult`. Its scan loop keeps
  `results == Scan(..., allContent[..i])`.
- `SearchWithPagination` is proved against `Paginate`.

The properties are lemmas about those functions. Some behaviours of the code
that a reader might not expect:

- Duplicate keywords are kept: `w,w` gives `w` twice
  (`Keywords.DuplicatesKept`), and each copy is matched, counted by the sort
  key and highlighted with its own colour (`Search.MatchedKeywordsCount`).
- The only ordering is by how many keywords the snippet contains. There is no
  grouping by book, no round-robin interleaving and no filter by document.
- Under the usual lowercasing, `I` becomes `i` before the replacement of `I`
  by `ı` runs, so `IŞIK` and `ışık` fold differently
  (`Normalize.CapitalIFoldsToDottedI`).

## Model

| member | source | states |
|---|---|---|
| Strings.Contains | src/lib/search.ts:100 | `includes`: the pattern occurs at some position of the text; `IndexOf` is -1 exactly when it does not hold |
| Strings.IndexOf | src/lib/search.ts:58 | `indexOf` is -1 exactly when the pattern does not occur; otherwise it is an occurrence with no earlier occurrence |
| Strings.Trim | src/lib/search.ts:78 | `trim` returns a slice of its input with only white space cut off either end, and leaves no white space at either end |
| Strings.TrimEmptyIff | src/lib/search.ts:78 | `searchQuery.trim()` is empty exactly when the query is all white space |
| Strings.Split | src/lib/search.ts:82 | `split(',')` returns at least one piece, and no piece contains the separator |
| Strings.SplitJoin | src/lib/search.ts:82 | joining the pieces with the separator gives back the query |
| Strings.JsSlice | src/lib/search.ts:135-137 | `slice(start, end)`: a negative bound counts from the end, both bounds are clamped to the array, and a window that ends before it starts is empty; the result is never longer than the input |
| Strings.JsSliceLength | src/lib/search.ts:136 | `slice(start, start + n)` with `n >= 0` returns at most `n` elements, whatever the signs of the bounds |
| Normalize.NormalizeTurkish | src/lib/search.ts:13-19 | folding keeps the length, and the result has no capital `I` and no dotted capital `İ` |
| Normalize.NormalizeSlice | src/lib/search.ts:56-65 | folding a slice is the slice of the folded text, so a position found in the folded text is a position in the original |
| Normalize.NormalizeConcat | src/lib/search.ts:13-19 | folding works piece by piece on a concatenation |
| Normalize.NormalizeIdempotent | src/lib/search.ts:13-19 | folding twice is folding once, when lowercasing is idempotent and leaves `i` and `ı` alone |
| Normalize.CapitalIFoldsToDottedI | src/lib/search.ts:15-18 | when `toLowerCase` turns `I` into `i`, `I` folds like `i` and unlike `ı` |
| Normalize.DottedCapitalIFoldsToI | src/lib/search.ts:17 | when `toLowerCase` leaves `İ` alone or makes it `i`, `İ` folds like `i` |
| Highlight.HighlightColor | src/lib/search.ts:22-35 | the colour is always one of the eight palette entries |
| Highlight.ColorPeriodic | src/lib/search.ts:33-35 | colour `i + 8` is colour `i` |
| Highlight.ColorsDistinct | src/lib/search.ts:22-35 | any eight consecutive keyword positions get eight different colours |
| Highlight.ReplaceAll | src/lib/search.ts:44-48 | the global, case-insensitive replace: every leftmost non-overlapping match of the folded keyword is replaced by a mark around its own text, an empty pattern marking every position; its properties are the `Replace…` lemmas |
| Highlight.ReplaceLeftmost | src/lib/search.ts:44-48 | for a non-empty pattern whose leftmost match is at `i`, the output is the text before `i`, then that match wrapped in a mark of the colour, then the replacement of the rest |
| Highlight.ReplaceMarksLeftmost | src/lib/search.ts:44-48 | a non-empty pattern that occurs has its leftmost match wrapped in a mark of the colour, with the match's own characters inside, and the output contains the colour's opening tag |
| Highlight.Highlighted | src/lib/search.ts:38-52 | `highlightText`: keyword `i`, folded, is replaced with colour `getHighlightColor(i)` in the output of the keywords before it |
| Highlight.HighlightText | src/lib/search.ts:38-52 | the `forEach` loop returns `Highlighted`: each keyword in turn wraps its folded, case-insensitive matches in its colour |
| Highlight.HighlightMarksKeyword | src/lib/search.ts:41-49 | when folded keyword `i` is non-empty and occurs in the output of the keywords before it, its pass wraps the leftmost match there in a mark of colour `getHighlightColor(i)`, and the result contains that colour's opening tag |
| Highlight.HighlightFirstKeyword | src/lib/search.ts:38-52 | the first keyword's leftmost match in the text itself is wrapped in the first palette colour |
| Highlight.ReplaceNoOccurrence | src/lib/search.ts:44-48 | a pattern that never occurs leaves the text unchanged |
| Highlight.HighlightNoOccurrence | src/lib/search.ts:39-51 | with no keywords, or with keywords that never occur, the text comes back unchanged |
| Highlight.StripReplaceAll | src/lib/search.ts:45-48 | after one replace pass over text without `<`, deleting the tags gives back the text |
| Highlight.HighlightSingleStrip | src/lib/search.ts:38-52 | for a single keyword, deleting the inserted `<mark …>` and `</mark>` tags gives back the input, when the input has no `<` |
| Snippet.SnippetOf | src/lib/search.ts:55-70 | the snippet is at most `2 * contextLength + |keyword| + 6` characters long |
| Snippet.ExtractSnippet | src/lib/search.ts:55-70 | the method with its `let snippet` reassignments returns `SnippetOf` |
| Snippet.SnippetWithoutMatch | src/lib/search.ts:60 | when the folded keyword is absent, the snippet is the first `contextLength` characters followed by `...` |
| Snippet.SnippetWindow | src/lib/search.ts:62-69 | otherwise the snippet is the text from `max(0, idx - ctx)` to `min(|text|, idx + |kw| + ctx)`, reaching `ctx` either side of the match, with `...` in front exactly when text was cut off before the window and `...` behind exactly when text was cut off after it; the window is at most `2 * ctx + |kw|` long |
| Snippet.SnippetContainsKeyword | src/lib/search.ts:58-69 | when the folded keyword occurs in the text, it occurs in the folded snippet |
| Keywords.ParseKeywords | src/lib/search.ts:81-84 | the query split at commas, each piece trimmed, empty pieces dropped, in query order; its properties are the `Keyword…` lemmas below |
| Keywords.KeywordsEmptyIff | src/lib/search.ts:81-86 | the keyword list is empty exactly when the query is only commas and white space |
| Keywords.KeywordShape | src/lib/search.ts:81-84 | every keyword is non-empty, has no comma, begins and ends with a character that is not white space, and is a substring of the query |
| Keywords.KeywordsAppend | src/lib/search.ts:81-84 | the keywords of `a,b` are those of `a` followed by those of `b`, so query order is kept |
| Keywords.SingleKeyword | src/lib/search.ts:81-84 | a trimmed piece with no comma parses to itself |
| Keywords.DuplicatesKept | src/lib/search.ts:81-84 | `w,w` gives the keyword `w` twice; duplicates are not removed |
| Ranking.SortByKeyDesc | src/lib/search.ts:124-132 | the comparator `bMatches - aMatches` as a stable insertion sort by key, largest first; it keeps the length, and the lemmas below prove it sorted, a permutation, stable and the only such order |
| Ranking.SortSorted | src/lib/search.ts:124-132 | the sort orders by key, largest first |
| Ranking.SortPermutes | src/lib/search.ts:124-132 | the sort only rearranges: same multiset |
| Ranking.SortStable | src/lib/search.ts:124-132 | elements with equal keys keep their input order |
| Ranking.StableSortUnique | src/lib/search.ts:124-132 | any two sequences that are both ordered by key and keep the same order within every key group are equal, so every stable sort gives this result |
| Search.MatchedKeywords | src/lib/search.ts:98-101 | `keywords.filter(...)`: the keywords whose folded form occurs in the folded text, in query order, never more of them than keywords |
| Search.MatchedKeywordsMember | src/lib/search.ts:98-101 | a keyword is matched exactly when it is a query keyword whose folded form occurs in the folded page text |
| Search.MatchedKeywordsCount | src/lib/search.ts:98-101 | each keyword appears among the matched keywords as many times as in the query when its folded form occurs, and not at all otherwise |
| Search.MatchedKeywordsSnoc | src/lib/search.ts:98-101 | a keyword added at the end of the query is added at the end of the matched keywords exactly when it occurs |
| Search.MatchedKeywordsSubsequence | src/lib/search.ts:98-101 | the matched keywords are an order-preserving subsequence of the keywords |
| Search.MatchedKeywordsEmpty | src/lib/search.ts:98-103 | no keyword matches exactly when no folded keyword occurs |
| Search.PageResult | src/lib/search.ts:95-119 | one pass of the scan loop: no result when no keyword occurs or the book is missing, otherwise the record with the snippet around the first matched keyword, highlighted with all of them |
| Search.Scan | src/lib/search.ts:91-121 | the `results` array the `for … of` loop builds: the results of the pages visited so far, in page order; its properties are `ScanMember` and the `Collect…` lemmas |
| Search.Relevance | src/lib/search.ts:125-130 | the sort key: how many query keywords, duplicates included, occur in the folded snippet |
| Search.Ranked | src/lib/search.ts:124-132 | the `results` array after `results.sort`: the scan sorted by relevance, largest first, ties in scan order |
| Search.ApplyLimit | src/lib/search.ts:135-137 | a truthy limit gives `slice(offset, offset + limit)`, an absent or zero limit gives `slice(offset)`; its properties are `FalsyLimitReturnsRest` and `PositiveLimitReturnsWindow` |
| Search.SearchBooksResult | src/lib/search.ts:73-139 | `searchBooks`: no results for a blank query or no keywords, else the scanned results sorted by relevance and cut to the limit and offset window |
| Search.SearchBooks | src/lib/search.ts:73-144 | the method (early returns, scan loop, sort, slice) returns `SearchBooksResult` |
| Search.BlankQueryFindsNothing | src/lib/search.ts:78-86 | a query made only of commas and white space returns no results |
| Search.PageResultIff | src/lib/search.ts:94-106 | a page gives a result exactly when its book exists and its folded text contains a folded keyword |
| Search.PageResultFacts | src/lib/search.ts:103-119 | a result carries its page's ids, page number and book title; its snippet is taken around the first matched keyword and contains it; it is highlighted with exactly the matched keywords, which are a non-empty ordered subsequence of the keywords, each occurring in the page |
| Search.ScanMember | src/lib/search.ts:94-121 | the scanned results are exactly the results of the individual pages |
| Search.RelevanceAtLeastOne | src/lib/search.ts:109-131 | every result's snippet contains at least one keyword, so its sort key is at least one |
| Search.ResultsOrderedByRelevance | src/lib/search.ts:124-137 | whatever the limit and offset, keyword counts never increase along the results |
| Search.UnlimitedResultsAreStableRanking | src/lib/search.ts:124-132 | without limit and offset, the results are a rearrangement of the scanned results, and results with equal counts keep scan order |
| Search.ResultsComeFromPages | src/lib/search.ts:94-137 | every returned result is the result of some page and has relevance at least one |
| Search.UnlimitedResultsIff | src/lib/search.ts:94-139 | without limit and offset, a non-blank query returns exactly the results of the pages that have one |
| Search.FalsyLimitReturnsRest | src/lib/search.ts:135-137 | an absent or zero limit returns everything from the offset on |
| Search.PositiveLimitReturnsWindow | src/lib/search.ts:135-136 | a positive limit returns the results from the offset, at most `limit` of them |
| Pagination.Paginate | src/lib/search.ts:152-162 | the page `slice((page - 1) * pageSize, offset + pageSize)` of the full list, `hasMore` when the page ends before the list does, and the list's length as `total` |
| Pagination.SearchWithPagination | src/lib/search.ts:147-163 | the method returns `Paginate` of the unlimited search |
| Pagination.PageContents | src/lib/search.ts:152-162 | for pages from 1 on: `total` is the number of results, `hasMore` is `offset + pageSize < total`, the page is the stretch from the offset, and it holds at most `pageSize` results |
| Pagination.PastTheEnd | src/lib/search.ts:159-160 | a page whose offset is past the end is empty and has `hasMore` false |
| Pagination.HasMoreIffNextPage | src/lib/search.ts:159-160 | for a positive page size, `hasMore` holds exactly when the next page is not empty |
| Pagination.PagesConcatenate | src/lib/search.ts:152-159 | pages 1 to `k` read in order are the first `k * pageSize` results, with no gaps and no repeats |
| Pagination.ThirdOfTwentyFive | src/lib/search.ts:152-162 | with 25 results and pages of 10, page 3 is results 21 to 25, `hasMore` is false, and `total` is 25 |
| Pagination.PagesOrderedByRelevance | src/lib/search.ts:155-159 | every page is ordered by keyword count, largest first |

## Left out

- The user interface, the database layer and the file importer (`src/pages/`,
  `src/lib/db.ts`, `src/lib/fileProcessor.ts`) are not part of this model.
  They are UI, IndexedDB and PDF/EPUB parsing code.
- The two database reads are inputs. `async`/`await`, database errors and the
  `try`/`catch` that logs and rethrows (src/lib/search.ts:140-143) are not
  modelled.
- `db.books.get` is only called for pages that match. Because the map is a
  plain input, the model checks the two conditions in either order.
- `toLowerCase` is an abstract character map. Real Unicode lowercasing can
  change the length of a string: `İ` becomes `i` plus a combining dot.
  Strings made of UTF-16 surrogate pairs are not modelled either. In both
  cases the index found in the folded text would no longer line up with the
  original text. Mappings that depend on context cannot be expressed either:
  `Σ` lowers to `ς` at the end of a word and to `σ` elsewhere, so the keyword
  `ΑΣ` folds to `ας` and does not match the text `ΑΣΑ`, which folds to `ασα`;
  the model lowers both sigmas the same way and finds the match.
- Regular-expression semantics in `highlightText` are not modelled. The
  keyword is used unescaped as a pattern (src/lib/search.ts:44). The model
  treats it as a literal. So it covers neither metacharacters nor a pattern
  that fails to compile and throws.
- The case-insensitive comparison of the `i` flag is the parameter `canon`.
  JavaScript's own case-folding table is not modelled.
- `Highlight.HighlightText`: when keywords overlap, or when a keyword occurs
  inside markup added for an earlier keyword, a later pass can nest marks or
  wrap the tags themselves. The model reproduces this, but proves the
  markup-removal round trip only for a single keyword, and
  `Highlight.HighlightMarksKeyword` speaks of the pass of keyword `i` only, not
  of what later passes do to its marks.
- `Highlight.HighlightSingleStrip`: the markup-removal round trip is proved
  only for text without `<`. Removing tags deletes every `<…>`, so it cannot
  tell tags already in the book text from those the highlighter inserted.
- `limit`, `offset`, `page` and `pageSize` are integers. Fractional numbers,
  `NaN` and non-integer `slice` bounds are not modelled.
- `extractSnippet` is only called with its default context length of 300,
  which is a natural number. Negative context lengths are not modelled.
- The page record's `id!` non-null assertion has no effect at run time.
  Records read from the database always have an id, so `id` is a plain
  integer.
- `Array.prototype.sort` sorts in place. The model sorts a value with a
  stable insertion sort. `Ranking.StableSortUnique` shows that any stable sort
  with this comparator gives the same sequence.
- The default arguments `offset = 0` of `searchBooks` and `page = 1`,
  `pageSize = 10` of `searchWithPagination` are not modelled: every argument is
  an explicit parameter, and a caller that omits one passes the default.
