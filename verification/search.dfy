/**
 * `searchManga`, `parseSeriesPage` and `seriesInfo` (src/index.js:224-363).
 *
 * Fetching and HTML parsing are abstracted away: a search answers either with
 * a redirect to one series page, or with the sequence of result pages the
 * adapter would receive by following "next" links, each already reduced to
 * the rows the selectors pick out. When a page carries a next link but the
 * sequence has no further page, the transport failed to deliver it.
 */
module Search {
  import opened Wrappers
  import opened Records
  import Text

  /** `Number.MAX_SAFE_INTEGER`, the default `limit` of `searchManga` (src/index.js:250). */
  const MaxSafeInteger: int := 9007199254740991

  /** One `#book_list > .item` row: the title link's text and path, and the cover's `src`. */
  datatype SearchRow = SearchRow(titleText: string, hrefPath: string, coverSrc: string)

  /** A result page: its rows in document order and the `href` of `a.next.page-numbers`, if any. */
  datatype ResultPage = ResultPage(rows: seq<SearchRow>, nextHref: Option<string>)

  /** A series page: the path of its URL, the `.info > h1` text and the cover's `src`. */
  datatype SeriesPage = SeriesPage(urlPath: string, titleText: string, coverSrc: string)

  /** What the search request produced. */
  datatype SearchResponse =
    | Redirected(page: SeriesPage)       // an exact match sends the client to the series page
    | Listing(pages: seq<ResultPage>)    // the result pages, in the order they are fetched

  /** The next-link test of src/index.js:322: an absent or empty `href` ends the search. */
  predicate HasNextLink(p: ResultPage) {
    p.nextHref.Some? && p.nextHref.value != ""
  }

  /** The series a search row describes, at the given rank. */
  function RowSeries(row: SearchRow, rank: int): (m: MangaSeries)
    ensures m.ranking == rank && '/' !in m.identifier
    ensures Text.IsNormalized(m.name)
    ensures m.identifier == Text.LastSegment(row.hrefPath) && m.coverUrl == Some(row.coverSrc)
    ensures m.name == Text.CleanTitle(row.titleText)
  {
    Text.CleanTitleNormalized(row.titleText);
    MangaSeries(
      name := Text.CleanTitle(row.titleText),
      identifier := Text.LastSegment(row.hrefPath),
      coverUrl := Some(row.coverSrc),
      ranking := rank)
  }

  /** `f` applied to every element together with its position counted from `first`. */
  function Numbered<A, B>(f: (A, int) -> B, xs: seq<A>, first: int): (ys: seq<B>)
    ensures |ys| == |xs|
    ensures forall k :: 0 <= k < |xs| ==> ys[k] == f(xs[k], first + k)
  {
    seq(|xs|, k requires 0 <= k < |xs| => f(xs[k], first + k))
  }

  lemma NumberedConcat<A, B>(f: (A, int) -> B, a: seq<A>, b: seq<A>, first: int, next: int)
    requires next == first + |a|
    ensures Numbered(f, a + b, first) == Numbered(f, a, first) + Numbered(f, b, next)
  {
    var whole, parts := Numbered(f, a + b, first), Numbered(f, a, first) + Numbered(f, b, next);
    forall k | 0 <= k < |whole| ensures whole[k] == parts[k] {
      if k < |a| {
        assert (a + b)[k] == a[k];
      } else {
        assert (a + b)[k] == b[k - |a|];
      }
    }
  }

  /** The rows of one page as series, ranked consecutively from `first` (the `maxRank` counter). */
  function RankFrom(rows: seq<SearchRow>, first: int): (ms: seq<MangaSeries>)
    ensures |ms| == |rows|
  {
    Numbered(RowSeries, rows, first)
  }

  // ---------------------------------------------------------------------------
  // An independent description of the result

  /** The rows of the first `n` pages, in page order. */
  function Rows(pages: seq<ResultPage>, n: nat): seq<SearchRow>
    requires n <= |pages|
  {
    if n == 0 then [] else Rows(pages, n - 1) + pages[n - 1].rows
  }

  /** Every row ranked by its position among all rows seen. */
  function Ranked(rows: seq<SearchRow>): (ms: seq<MangaSeries>)
    ensures |ms| == |rows|
  {
    RankFrom(rows, 0)
  }

  /** The k-th ranked series has ranking k, and is the k-th row's series. */
  lemma RankedByPosition(rows: seq<SearchRow>)
    ensures forall k :: 0 <= k < |rows| ==> Ranked(rows)[k].ranking == k
    ensures forall k :: 0 <= k < |rows| ==> Ranked(rows)[k] == RowSeries(rows[k], k)
  {
  }

  /** After page `j` the search goes on: fewer than `limit` rows so far, and a next link. */
  predicate Continues(pages: seq<ResultPage>, j: nat, limit: int)
    requires j < |pages|
  {
    |Rows(pages, j + 1)| < limit && HasNextLink(pages[j])
  }

  /** The first page at or after `j` after which the search stops, if the pages reach that far. */
  function StopPage(pages: seq<ResultPage>, j: nat, limit: int): (n: Option<nat>)
    requires j <= |pages|
    ensures n.Some? ==> j <= n.value < |pages| && !Continues(pages, n.value, limit)
    ensures n.Some? ==> forall i :: j <= i < n.value ==> Continues(pages, i, limit)
    ensures n.None? ==> forall i :: j <= i < |pages| ==> Continues(pages, i, limit)
    decreases |pages| - j
  {
    if j == |pages| then None
    else if !Continues(pages, j, limit) then Some(j)
    else StopPage(pages, j + 1, limit)
  }

  /**
   * `s.slice(0, limit)` as JavaScript evaluates it: a negative bound counts
   * from the end.
   */
  function Keep<T>(s: seq<T>, limit: int): (r: seq<T>)
    ensures limit >= 0 ==> |r| == if limit < |s| then limit else |s|
    ensures limit < 0 ==> |r| == if |s| + limit > 0 then |s| + limit else 0
    ensures r == s[..|r|]
    ensures |r| >= limit <==> |s| >= limit
  {
    if limit >= 0 then (if limit < |s| then s[..limit] else s)
    else if |s| + limit > 0 then s[..|s| + limit] else []
  }

  // ---------------------------------------------------------------------------
  // The accumulator loop

  /** The end index `pageResults.slice(0, end)` stops at. */
  function SliceEnd(len: nat, end: int): (e: nat)
    requires end <= len
    ensures end >= 0 ==> e == end
    ensures end < 0 ==> e == if len + end > 0 then len + end else 0
  {
    if end >= 0 then end else if len + end > 0 then len + end else 0
  }

  /** Ranking two runs of rows together numbers the second run on from where the first ends. */
  lemma RankFromConcat(a: seq<SearchRow>, b: seq<SearchRow>, first: int, next: int)
    requires next == first + |a|
    ensures RankFrom(a + b, first) == RankFrom(a, first) + RankFrom(b, next)
  {
    NumberedConcat(RowSeries, a, b, first, next);
  }

  /** The rows of one more page are ranked on from the number of rows seen so far. */
  lemma RowsStep(pages: seq<ResultPage>, j: nat, next: int)
    requires j < |pages| && next == |Rows(pages, j)|
    ensures Ranked(Rows(pages, j + 1)) == Ranked(Rows(pages, j)) + RankFrom(pages[j].rows, next)
  {
    RankFromConcat(Rows(pages, j), pages[j].rows, 0, next);
  }

  /** Once every page before `j` continued, the stopping page is found from `j` on. */
  lemma {:induction false} StopPageFrom(pages: seq<ResultPage>, j: nat, limit: int)
    requires j <= |pages|
    requires forall i :: 0 <= i < j ==> Continues(pages, i, limit)
    ensures StopPage(pages, 0, limit) == StopPage(pages, j, limit)
    decreases j
  {
    if j > 0 {
      StopPageFrom(pages, j - 1, limit);
    }
  }

  /**
   * The limit-truncation branch of src/index.js:308-315: append the whole page
   * while the total stays below `limit`, otherwise only the part that fits.
   */
  function AppendUpTo(allResults: seq<MangaSeries>, pageResults: seq<MangaSeries>, limit: int): seq<MangaSeries> {
    if |allResults| + |pageResults| < limit then allResults + pageResults
    else
      var remaining := limit - |allResults|;
      var end := if remaining < |pageResults| then remaining else |pageResults|;
      allResults + pageResults[..SliceEnd(|pageResults|, end)]
  }

  /** Appending never drops a result already collected, and adds a leading part of the page. */
  lemma AppendUpToExtends(allResults: seq<MangaSeries>, pageResults: seq<MangaSeries>, limit: int)
    ensures var r := AppendUpTo(allResults, pageResults, limit);
      allResults <= r && r[|allResults|..] <= pageResults
  {
  }

  /** Appending up to the limit is truncating the concatenation, when below the limit so far. */
  lemma AppendUpToKeeps(allResults: seq<MangaSeries>, pageResults: seq<MangaSeries>, limit: int)
    requires allResults == [] || |allResults| < limit
    ensures AppendUpTo(allResults, pageResults, limit) == Keep(allResults + pageResults, limit)
  {
    var s := allResults + pageResults;
    var r := AppendUpTo(allResults, pageResults, limit);
    if |s| >= limit {
      assert |r| == |Keep(s, limit)|;
      assert r == s[..|r|];
    }
  }

  /**
   * One pass of the loop body appends the page's rows, ranked on, up to the
   * limit; the limit is reached exactly when the rows seen so far reach it,
   * and below it nothing has been cut.
   */
  lemma PageStep(pages: seq<ResultPage>, j: nat, allResults: seq<MangaSeries>, pageResults: seq<MangaSeries>, limit: int)
    requires j < |pages| && allResults == Ranked(Rows(pages, j)) && (j > 0 ==> |allResults| < limit)
    requires pageResults == RankFrom(pages[j].rows, |allResults|)
    ensures var next := AppendUpTo(allResults, pageResults, limit);
      && next == Keep(Ranked(Rows(pages, j + 1)), limit)
      && (|next| >= limit <==> |Rows(pages, j + 1)| >= limit)
      && (|next| < limit ==> next == Ranked(Rows(pages, j + 1)))
  {
    RowsStep(pages, j, |allResults|);
    AppendUpToKeeps(allResults, pageResults, limit);
  }

  /** A search that continued after every page before `j` and not after `j` stops at `j`. */
  lemma StopsAt(pages: seq<ResultPage>, j: nat, limit: int)
    requires j < |pages| && !Continues(pages, j, limit)
    requires forall i :: 0 <= i < j ==> Continues(pages, i, limit)
    ensures StopPage(pages, 0, limit) == Some(j)
  {
    StopPageFrom(pages, j, limit);
  }

  /**
   * A next link that is missing or has an empty `href` ends the search at
   * that page at the latest, whatever the limit; a page with a non-empty
   * next link below the limit is never the last one read.
   */
  lemma NextLinkDecides(pages: seq<ResultPage>, limit: int, j: nat)
    requires j < |pages|
    ensures pages[j].nextHref.None? || pages[j].nextHref == Some("") ==>
              StopPage(pages, 0, limit).Some? && StopPage(pages, 0, limit).value <= j
    ensures HasNextLink(pages[j]) && |Rows(pages, j + 1)| < limit ==> StopPage(pages, 0, limit) != Some(j)
  {
    if !HasNextLink(pages[j]) {
      assert !Continues(pages, j, limit);
    }
  }

  /** A search that would continue after every page never stops. */
  lemma NeverStops(pages: seq<ResultPage>, limit: int)
    requires forall i :: 0 <= i < |pages| ==> Continues(pages, i, limit)
    ensures StopPage(pages, 0, limit).None?
  {
    StopPageFrom(pages, |pages|, limit);
  }

  /**
   * The `do … while (true)` loop of `searchManga` (src/index.js:276-332):
   * rank each page's rows with the running `maxRank`, append them up to
   * `limit`, stop when the limit is reached or no next link remains, and
   * otherwise fetch the next page.
   */
  method CollectResults(pages: seq<ResultPage>, limit: int) returns (r: Result<seq<MangaSeries>, Error>)
    ensures pages == [] ==> r == Failure(FetchFailed)
    ensures r.Success? <==> StopPage(pages, 0, limit).Some?
    ensures r.Success? ==> r.value == Keep(Ranked(Rows(pages, StopPage(pages, 0, limit).value + 1)), limit)
  {
    if |pages| == 0 {
      return Failure(FetchFailed);
    }
    var allResults: seq<MangaSeries> := [];
    var maxRank := 0;
    var j := 0;
    while true
      invariant 0 <= j < |pages|
      invariant forall i :: 0 <= i < j ==> Continues(pages, i, limit)
      invariant allResults == Ranked(Rows(pages, j))
      invariant j > 0 ==> |allResults| < limit
      invariant maxRank == |allResults|
      decreases |pages| - j
    {
      var pageResults := RankFrom(pages[j].rows, maxRank);
      PageStep(pages, j, allResults, pageResults, limit);
      allResults := AppendUpTo(allResults, pageResults, limit);
      maxRank := maxRank + |pageResults|;
      if |allResults| >= limit || !HasNextLink(pages[j]) {
        StopsAt(pages, j, limit);
        return Success(allResults);
      }
      if j + 1 == |pages| {
        NeverStops(pages, limit);
        return Failure(FetchFailed);
      }
      j := j + 1;
    }
  }

  /**
   * `parseSeriesPage` (src/index.js:224-245): the series a redirect lands on,
   * identified by the last segment of the page's path, ranked best.
   */
  function ParseSeriesPage(page: SeriesPage): (m: MangaSeries)
    ensures m.ranking == 0 && '/' !in m.identifier && Text.IsNormalized(m.name)
    ensures m.identifier == Text.LastSegment(page.urlPath) && m.coverUrl == Some(page.coverSrc)
    ensures m.name == Text.CleanTitle(page.titleText)
  {
    RowSeries(SearchRow(page.titleText, page.urlPath, page.coverSrc), 0)
  }

  /**
   * `searchManga` (src/index.js:247-339). `limit` is the caller's limit;
   * `offset` is accepted by the source and never used, so it is not a parameter.
   */
  method SearchManga(response: SearchResponse, limit: int := MaxSafeInteger) returns (r: Result<MangaSeriesList, Error>)
    ensures response.Redirected? ==> r == Success(MangaSeriesList([ParseSeriesPage(response.page)]))
    ensures response.Redirected? ==> |r.value.results| == 1 && r.value.results[0].ranking == 0
    ensures response.Listing? ==>
      var n := StopPage(response.pages, 0, limit);
      && (r.Success? <==> n.Some?)
      && (r.Success? ==> r.value.results == Keep(Ranked(Rows(response.pages, n.value + 1)), limit))
  {
    match response
    case Redirected(page) =>
      return Success(MangaSeriesList([ParseSeriesPage(page)]));
    case Listing(pages) =>
      var collected := CollectResults(pages, limit);
      if collected.Failure? {
        return Failure(collected.error);
      }
      return Success(MangaSeriesList(collected.value));
  }

  // ---------------------------------------------------------------------------
  // Properties of a search

  /**
   * With a non-negative limit, the results never exceed the limit, are a
   * prefix of all rows seen in page order, and the k-th result has ranking k.
   */
  lemma ResultShape(pages: seq<ResultPage>, limit: int, n: nat)
    requires limit >= 0 && n < |pages| && StopPage(pages, 0, limit) == Some(n)
    ensures var r := Keep(Ranked(Rows(pages, n + 1)), limit);
      && |r| <= limit
      && r == Ranked(Rows(pages, n + 1))[..|r|]
      && (forall k :: 0 <= k < |r| ==> r[k].ranking == k)
  {
    RankedByPosition(Rows(pages, n + 1));
  }

  /** Rows of earlier pages come first: the rows seen are a prefix of the rows of all pages. */
  lemma {:induction false} RowsPrefix(pages: seq<ResultPage>, m: nat, n: nat)
    requires m <= n <= |pages|
    ensures |Rows(pages, m)| <= |Rows(pages, n)|
    ensures Rows(pages, m) == Rows(pages, n)[..|Rows(pages, m)|]
    decreases n - m
  {
    if m < n {
      RowsPrefix(pages, m, n - 1);
      var a := Rows(pages, n - 1);
      assert Rows(pages, n) == a + pages[n - 1].rows;
      assert Rows(pages, n)[..|a|] == a;
    }
  }

  /**
   * The search stops with the limit reached, or on a page without a next
   * link; every earlier page had fewer rows in total than the limit and a link.
   */
  lemma StopsForAReason(pages: seq<ResultPage>, limit: int, n: nat)
    requires StopPage(pages, 0, limit) == Some(n)
    ensures n < |pages|
    ensures |Rows(pages, n + 1)| >= limit || !HasNextLink(pages[n])
    ensures forall i :: 0 < i <= n ==> |Rows(pages, i)| < limit
    ensures forall i :: 0 <= i < n ==> HasNextLink(pages[i])
  {
    forall i | 0 < i <= n
      ensures |Rows(pages, i)| < limit
    {
      assert Continues(pages, i - 1, limit);
    }
    forall i | 0 <= i < n
      ensures HasNextLink(pages[i])
    {
      assert Continues(pages, i, limit);
    }
  }

  /** A limit of 0 fetches one page and returns nothing. */
  lemma ZeroLimit(pages: seq<ResultPage>)
    requires |pages| > 0
    ensures StopPage(pages, 0, 0) == Some(0)
    ensures Keep(Ranked(Rows(pages, 1)), 0) == []
  {
  }

  /**
   * A negative limit never gets past the first page and, through JavaScript's
   * negative `slice` bound, drops that many rows from its end.
   */
  lemma NegativeLimit(pages: seq<ResultPage>, limit: int)
    requires |pages| > 0 && limit < 0
    ensures StopPage(pages, 0, limit) == Some(0)
    ensures var rows := pages[0].rows;
      Keep(Ranked(Rows(pages, 1)), limit) == Ranked(rows)[..if |rows| + limit > 0 then |rows| + limit else 0]
  {
    assert Rows(pages, 1) == pages[0].rows;
  }

  /**
   * Ten rows with a next link, then five rows without one, and a limit of 12:
   * both pages are read, and the result is the first page and two rows of the second.
   */
  lemma TwoPagesToTwelve(pages: seq<ResultPage>)
    requires |pages| == 2 && |pages[0].rows| == 10 && |pages[1].rows| == 5
    requires HasNextLink(pages[0]) && !HasNextLink(pages[1])
    ensures StopPage(pages, 0, 12) == Some(1)
    ensures Keep(Ranked(Rows(pages, 2)), 12) == Ranked(pages[0].rows + pages[1].rows[..2])
  {
    assert Rows(pages, 1) == pages[0].rows;
    assert Continues(pages, 0, 12);
    var all := Rows(pages, 2);
    assert all == pages[0].rows + pages[1].rows;
    assert all[..12] == pages[0].rows + pages[1].rows[..2];
    RankFromConcat(all[..12], all[12..], 0, 12);
    assert all == all[..12] + all[12..];
  }

  // ---------------------------------------------------------------------------
  // seriesInfo

  /** The `#single_book` container of a series page: the `.info > .heading` text and the cover's `src`. */
  datatype SeriesDetail = SeriesDetail(titleText: string, coverSrc: string)

  /**
   * `seriesInfo` (src/index.js:341-363): the identifier is the one asked for,
   * unchanged, and the series is ranked best.
   */
  function SeriesInfo(seriesIdentifier: string, detail: SeriesDetail): (m: MangaSeries)
    ensures m.identifier == seriesIdentifier && m.ranking == 0
    ensures Text.IsNormalized(m.name) && m.coverUrl == Some(detail.coverSrc)
    ensures m.name == Text.CleanTitle(detail.titleText)
  {
    Text.CleanTitleNormalized(detail.titleText);
    MangaSeries(
      name := Text.CleanTitle(detail.titleText),
      identifier := seriesIdentifier,
      coverUrl := Some(detail.coverSrc),
      ranking := 0)
  }
}
