/**
 * `listChapters` and `getChapter` (src/index.js:366-454).
 *
 * The chapter table of a series page is given as its rows, already reduced to
 * what the selectors pick out: the value `Date.parse` produced for the
 * `.update_time` text, the chapter link's text, and the path of its `href`.
 */
module Chapters {
  import opened Wrappers
  import opened Records
  import Text
  import ChapterNumber
  import opened ChapterIdentifier
  import Bytes

  /** One row of the `.chapters` table. `updated` is `None` when `Date.parse` gave NaN. */
  datatype ChapterRow = ChapterRow(updated: Option<int>, linkText: string, linkPath: string)

  /** The `since` argument: `null` (the default) or a `Date`, whose time value may be NaN. */
  datatype Since = NullSince | SinceDate(time: Option<int>)

  /**
   * `updated < since` as JavaScript evaluates it: `null` converts to 0, a
   * `Date` to its time value, and any comparison with NaN is false.
   */
  predicate IsBefore(updated: Option<int>, since: Since): (before: bool)
    ensures before ==> updated.Some?
  {
    match since
    case NullSince => updated.Some? && updated.value < 0
    case SinceDate(t) => updated.Some? && t.Some? && updated.value < t.value
  }

  /** The identifier of the chapter a link path leads to, within a series. */
  function ChapterKeyOf(linkPath: string, seriesIdentifier: string): (k: ChapterKey)
    ensures k.seriesId == seriesIdentifier && '/' !in k.chapId
    ensures k.chapId == Text.LastSegment(linkPath)
  {
    ChapterKey(Text.LastSegment(linkPath), seriesIdentifier)
  }

  /**
   * The callback of src/index.js:381-411 for one row: `None` when the row is
   * older than `since` or its title has no chapter number, otherwise the item.
   */
  function ChapterItem(row: ChapterRow, seriesIdentifier: string, since: Since): (item: Option<ChapterListItem>)
    ensures item.Some? ==> ChapterNumber.IsDecimal(item.value.number) && Text.IsNormalized(item.value.title)
    ensures item.Some? ==> item.value.title == Text.CleanChapterTitle(row.linkText)
    ensures item.Some? ==> ChapterNumber.ChapterNumber(item.value.title) == Some(item.value.number)
    ensures item.Some? ==> item.value.updated == row.updated
    ensures item.Some? ==> item.value.identifier == EncodeID(ChapterKeyOf(row.linkPath, seriesIdentifier))
  {
    if IsBefore(row.updated, since) then None
    else
      var title := Text.CleanChapterTitle(row.linkText);
      match ChapterNumber.ChapterNumber(title)
      case None => None
      case Some(number) =>
        Text.CleanChapterTitleNormalized(row.linkText);
        Some(ChapterListItem(
          number := number,
          identifier := EncodeID(ChapterKeyOf(row.linkPath, seriesIdentifier)),
          title := title,
          updated := row.updated))
  }

  /** The row is kept: not older than `since`, and its cleaned title has a chapter number. */
  predicate Kept(row: ChapterRow, since: Since) {
    !IsBefore(row.updated, since) && ChapterNumber.ChapterNumber(Text.CleanChapterTitle(row.linkText)).Some?
  }

  lemma KeptIff(row: ChapterRow, seriesIdentifier: string, since: Since)
    ensures ChapterItem(row, seriesIdentifier, since).Some? <==> Kept(row, since)
  {
  }

  /**
   * cheerio's `.map(f)` on a selection: the values `f` returns, in order; a
   * call that returns nothing (`undefined`) contributes no element.
   */
  function FilterMap<A, B>(f: A -> Option<B>, xs: seq<A>): (ys: seq<B>)
    ensures |ys| <= |xs|
  {
    if |xs| == 0 then []
    else
      var rest := FilterMap(f, xs[1..]);
      match f(xs[0])
      case None => rest
      case Some(y) => [y] + rest
  }

  lemma {:induction false} FilterMapConcat<A, B>(f: A -> Option<B>, a: seq<A>, b: seq<A>)
    ensures FilterMap(f, a + b) == FilterMap(f, a) + FilterMap(f, b)
    decreases |a|
  {
    if |a| > 0 {
      assert (a + b)[0] == a[0] && (a + b)[1..] == a[1..] + b;
      FilterMapConcat(f, a[1..], b);
    } else {
      assert a + b == b;
    }
  }

  /** The output has one element for each input position, from `j` on, where `f` gives a value. */
  lemma {:induction false} FilterMapCount<A, B>(f: A -> Option<B>, xs: seq<A>, j: nat, positions: set<int>)
    requires j <= |xs|
    requires forall i :: i in positions <==> j <= i < |xs| && f(xs[i]).Some?
    ensures |FilterMap(f, xs[j..])| == |positions|
    decreases |xs| - j
  {
    if j < |xs| {
      var later := positions - {j};
      FilterMapCount(f, xs, j + 1, later);
      assert xs[j..][0] == xs[j] && xs[j..][1..] == xs[j + 1..];
      if f(xs[j]).Some? {
        assert positions == later + {j};
      } else {
        assert positions == later;
      }
    } else {
      assert forall i :: i !in positions;
      assert positions == {};
    }
  }

  /** Every output element is what `f` gives for some input. */
  lemma {:induction false} FilterMapSource<A, B>(f: A -> Option<B>, xs: seq<A>, k: nat)
    requires k < |FilterMap(f, xs)|
    ensures exists i :: 0 <= i < |xs| && f(xs[i]) == Some(FilterMap(f, xs)[k])
    decreases |xs|
  {
    var rest := FilterMap(f, xs[1..]);
    if f(xs[0]).Some? && k == 0 {
      assert f(xs[0]) == Some(FilterMap(f, xs)[0]);
    } else {
      var k' := if f(xs[0]).Some? then k - 1 else k;
      assert FilterMap(f, xs)[k] == rest[k'];
      FilterMapSource(f, xs[1..], k');
      var i :| 0 <= i < |xs[1..]| && f(xs[1..][i]) == Some(rest[k']);
      assert xs[1..][i] == xs[i + 1];
    }
  }

  /** Every value `f` gives for an input appears in the output. */
  lemma {:induction false} FilterMapKeeps<A, B>(f: A -> Option<B>, xs: seq<A>, i: nat)
    requires i < |xs| && f(xs[i]).Some?
    ensures f(xs[i]).value in FilterMap(f, xs)
    decreases i
  {
    if i > 0 {
      FilterMapKeeps(f, xs[1..], i - 1);
      assert xs[1..][i - 1] == xs[i];
    }
  }

  /**
   * A value `f` gives for an input after another input that also gives one is
   * not the first output: it appears after the first element.
   */
  lemma {:induction false} FilterMapKeepsLater<A, B>(f: A -> Option<B>, xs: seq<A>, j: nat, i: nat)
    requires j < i < |xs| && f(xs[j]).Some? && f(xs[i]).Some?
    ensures |FilterMap(f, xs)| > 0 && f(xs[i]).value in FilterMap(f, xs)[1..]
    decreases j
  {
    assert xs[1..][i - 1] == xs[i];
    if f(xs[0]).Some? {
      assert FilterMap(f, xs)[1..] == FilterMap(f, xs[1..]);
      FilterMapKeeps(f, xs[1..], i - 1);
    } else {
      assert xs[1..][j - 1] == xs[j];
      FilterMapKeepsLater(f, xs[1..], j - 1, i - 1);
    }
  }

  /**
   * cheerio's `.filter(x => x)`. cheerio calls a filter function with the
   * element's index first (the jQuery convention), so `x` is the index, and an
   * element is kept exactly when its index is truthy, that is, not 0. `from`
   * is the index of `xs[0]` in the whole selection.
   */
  function FilterTruthyIndex<T>(xs: seq<T>, from: nat): (ys: seq<T>)
    ensures |ys| <= |xs|
    decreases |xs|
  {
    if |xs| == 0 then []
    else
      var rest := FilterTruthyIndex(xs[1..], from + 1);
      if from != 0 then [xs[0]] + rest else rest
  }

  /** Past index 0 every index is truthy, so nothing is dropped. */
  lemma {:induction false} FilterTruthyIndexPastFirst<T>(xs: seq<T>, from: nat)
    requires from > 0
    ensures FilterTruthyIndex(xs, from) == xs
    decreases |xs|
  {
    if |xs| > 0 {
      FilterTruthyIndexPastFirst(xs[1..], from + 1);
      assert xs == [xs[0]] + xs[1..];
    }
  }

  /** Over a whole selection, exactly the element at index 0 is dropped. */
  lemma FilterTruthyIndexDropsFirst<T>(xs: seq<T>)
    ensures |xs| > 0 ==> FilterTruthyIndex(xs, 0) == xs[1..]
    ensures |xs| == 0 ==> FilterTruthyIndex(xs, 0) == []
  {
    if |xs| > 0 {
      FilterTruthyIndexPastFirst(xs[1..], 1);
    }
  }

  /** Filtering a concatenated selection: only the first element of the whole is dropped. */
  lemma FilterTruthyIndexConcat<T>(x: seq<T>, y: seq<T>)
    ensures |x| > 0 ==> FilterTruthyIndex(x + y, 0) == FilterTruthyIndex(x, 0) + y
    ensures |x| == 0 ==> FilterTruthyIndex(x + y, 0) == FilterTruthyIndex(y, 0)
  {
    FilterTruthyIndexDropsFirst(x + y);
    FilterTruthyIndexDropsFirst(x);
    if |x| > 0 {
      assert (x + y)[1..] == x[1..] + y;
    } else {
      assert x + y == y;
    }
  }

  /** Every element left by `.map(f).filter(x => x)` is what `f` gives for some input. */
  lemma FilteredSource<A, B>(f: A -> Option<B>, xs: seq<A>, k: nat) returns (i: nat)
    requires k < |FilterTruthyIndex(FilterMap(f, xs), 0)|
    ensures i < |xs| && f(xs[i]) == Some(FilterTruthyIndex(FilterMap(f, xs), 0)[k])
  {
    var ys := FilterMap(f, xs);
    FilterTruthyIndexDropsFirst(ys);
    assert FilterTruthyIndex(ys, 0)[k] == ys[k + 1];
    FilterMapSource(f, xs, k + 1);
    i :| 0 <= i < |xs| && f(xs[i]) == Some(ys[k + 1]);
  }

  /**
   * The list `listChapters` evidently means to return: the item of every kept
   * row, in document order (what `Array.prototype.filter(x => x)` would leave).
   */
  function ListChaptersIntended(seriesIdentifier: string, rows: seq<ChapterRow>, since: Since := NullSince): (list: ChapterList)
    ensures |list.chapters| <= |rows|
  {
    ChapterList(FilterMap(row => ChapterItem(row, seriesIdentifier, since), rows))
  }

  /**
   * `listChapters` (src/index.js:366-420) as written: the callback's items,
   * then cheerio's `.filter(x => x)`. `offset`, `limit` and `order` are
   * accepted by the source and never used, so they are not parameters.
   */
  function ListChapters(seriesIdentifier: string, rows: seq<ChapterRow>, since: Since := NullSince): (list: ChapterList)
    ensures |list.chapters| <= |rows|
  {
    ChapterList(FilterTruthyIndex(ListChaptersIntended(seriesIdentifier, rows, since).chapters, 0))
  }

  // ---------------------------------------------------------------------------
  // Properties of the chapter list

  /** The list as written is the intended list without its first chapter. */
  lemma ListChaptersDropsFirst(seriesIdentifier: string, rows: seq<ChapterRow>, since: Since)
    ensures var intended := ListChaptersIntended(seriesIdentifier, rows, since).chapters;
      ListChapters(seriesIdentifier, rows, since).chapters == if |intended| == 0 then [] else intended[1..]
  {
    FilterTruthyIndexDropsFirst(ListChaptersIntended(seriesIdentifier, rows, since).chapters);
  }

  /** A table whose one row has a chapter number lists no chapter at all. */
  lemma FirstChapterMissing(seriesIdentifier: string, row: ChapterRow, since: Since)
    requires Kept(row, since)
    ensures |ListChaptersIntended(seriesIdentifier, [row], since).chapters| == 1
    ensures ListChapters(seriesIdentifier, [row], since).chapters == []
  {
    KeptIff(row, seriesIdentifier, since);
    ListChaptersDropsFirst(seriesIdentifier, [row], since);
  }

  /** The intended list of a table split in two is that of the first part followed by that of the second. */
  lemma ListChaptersIntendedConcat(seriesIdentifier: string, a: seq<ChapterRow>, b: seq<ChapterRow>, since: Since)
    ensures ListChaptersIntended(seriesIdentifier, a + b, since).chapters
            == ListChaptersIntended(seriesIdentifier, a, since).chapters + ListChaptersIntended(seriesIdentifier, b, since).chapters
  {
    FilterMapConcat(row => ChapterItem(row, seriesIdentifier, since), a, b);
  }

  /**
   * The list as written of a table split in two: once the first part has a
   * chapter, the second part's chapters all follow; otherwise the second
   * part loses its first chapter instead.
   */
  lemma ListChaptersConcat(seriesIdentifier: string, a: seq<ChapterRow>, b: seq<ChapterRow>, since: Since)
    ensures |ListChaptersIntended(seriesIdentifier, a, since).chapters| > 0 ==>
              ListChapters(seriesIdentifier, a + b, since).chapters
              == ListChapters(seriesIdentifier, a, since).chapters + ListChaptersIntended(seriesIdentifier, b, since).chapters
    ensures |ListChaptersIntended(seriesIdentifier, a, since).chapters| == 0 ==>
              ListChapters(seriesIdentifier, a + b, since).chapters == ListChapters(seriesIdentifier, b, since).chapters
  {
    ListChaptersIntendedConcat(seriesIdentifier, a, b, since);
    FilterTruthyIndexConcat(ListChaptersIntended(seriesIdentifier, a, since).chapters,
                            ListChaptersIntended(seriesIdentifier, b, since).chapters);
  }

  /** The intended list has one chapter per kept row. */
  lemma ListChaptersIntendedCount(seriesIdentifier: string, rows: seq<ChapterRow>, since: Since)
    ensures |ListChaptersIntended(seriesIdentifier, rows, since).chapters| == |set i | 0 <= i < |rows| && Kept(rows[i], since)|
  {
    var f := row => ChapterItem(row, seriesIdentifier, since);
    var kept := set i | 0 <= i < |rows| && Kept(rows[i], since);
    forall i ensures i in kept <==> 0 <= i < |rows| && f(rows[i]).Some? {
      if 0 <= i < |rows| {
        KeptIff(rows[i], seriesIdentifier, since);
      }
    }
    FilterMapCount(f, rows, 0, kept);
    assert rows[0..] == rows;
  }

  /** The list as written has one chapter fewer than there are kept rows, and none when no row is kept. */
  lemma ListChaptersCount(seriesIdentifier: string, rows: seq<ChapterRow>, since: Since)
    ensures var kept := |set i | 0 <= i < |rows| && Kept(rows[i], since)|;
      |ListChapters(seriesIdentifier, rows, since).chapters| == if kept == 0 then 0 else kept - 1
  {
    ListChaptersIntendedCount(seriesIdentifier, rows, since);
    ListChaptersDropsFirst(seriesIdentifier, rows, since);
  }

  /** Every listed chapter comes from a kept row: the `k`-th one is the item of row `i`. */
  lemma ListedChapterSource(seriesIdentifier: string, rows: seq<ChapterRow>, since: Since, k: nat) returns (i: nat)
    requires k < |ListChapters(seriesIdentifier, rows, since).chapters|
    ensures i < |rows| && Kept(rows[i], since)
    ensures ChapterItem(rows[i], seriesIdentifier, since) == Some(ListChapters(seriesIdentifier, rows, since).chapters[k])
  {
    i := FilteredSource(row => ChapterItem(row, seriesIdentifier, since), rows, k);
    KeptIff(rows[i], seriesIdentifier, since);
  }

  /** Every kept row's item is in the intended list. */
  lemma KeptRowListedIntended(seriesIdentifier: string, rows: seq<ChapterRow>, since: Since, i: nat)
    requires i < |rows| && Kept(rows[i], since)
    ensures ChapterItem(rows[i], seriesIdentifier, since).Some?
    ensures ChapterItem(rows[i], seriesIdentifier, since).value in ListChaptersIntended(seriesIdentifier, rows, since).chapters
  {
    KeptIff(rows[i], seriesIdentifier, since);
    FilterMapKeeps(row => ChapterItem(row, seriesIdentifier, since), rows, i);
  }

  /** The list as written still has the item of every kept row after the first kept one. */
  lemma KeptRowListed(seriesIdentifier: string, rows: seq<ChapterRow>, since: Since, j: nat, i: nat)
    requires j < i < |rows| && Kept(rows[j], since) && Kept(rows[i], since)
    ensures ChapterItem(rows[i], seriesIdentifier, since).Some?
    ensures ChapterItem(rows[i], seriesIdentifier, since).value in ListChapters(seriesIdentifier, rows, since).chapters
  {
    KeptIff(rows[j], seriesIdentifier, since);
    KeptIff(rows[i], seriesIdentifier, since);
    FilterMapKeepsLater(row => ChapterItem(row, seriesIdentifier, since), rows, j, i);
    ListChaptersDropsFirst(seriesIdentifier, rows, since);
  }

  /** A row whose time did not parse (NaN) is never dropped by `since`: it is listed exactly when its title has a number. */
  lemma UnparsedTimeIsKept(row: ChapterRow, seriesIdentifier: string, since: Since)
    requires row.updated.None?
    ensures ChapterItem(row, seriesIdentifier, since).Some?
            <==> ChapterNumber.ChapterNumber(Text.CleanChapterTitle(row.linkText)).Some?
  {
  }

  /**
   * With `since` left at null, a row dated before 1970 yields no item, and any
   * other row yields one exactly when its title has a number.
   */
  lemma NullSinceDropsPre1970(row: ChapterRow, seriesIdentifier: string)
    ensures row.updated.Some? && row.updated.value < 0 ==> ChapterItem(row, seriesIdentifier, NullSince).None?
    ensures !(row.updated.Some? && row.updated.value < 0) ==>
              (ChapterItem(row, seriesIdentifier, NullSince).Some?
               <==> ChapterNumber.ChapterNumber(Text.CleanChapterTitle(row.linkText)).Some?)
  {
  }

  /** The identifier of a listed chapter decodes to (last path segment, series id) when both are ASCII. */
  lemma ChapterIdentifierDecodes(row: ChapterRow, seriesIdentifier: string, since: Since)
    requires ChapterItem(row, seriesIdentifier, since).Some?
    requires Bytes.IsAscii(row.linkPath) && Bytes.IsAscii(seriesIdentifier)
    ensures DecodeID(ChapterItem(row, seriesIdentifier, since).value.identifier)
            == Success(ChapterKey(Text.LastSegment(row.linkPath), seriesIdentifier))
  {
    LastSegmentAscii(row.linkPath);
    RoundTripIffAscii(ChapterKeyOf(row.linkPath, seriesIdentifier));
  }

  lemma LastSegmentAscii(path: string)
    requires Bytes.IsAscii(path)
    ensures Bytes.IsAscii(Text.LastSegment(path))
  {
    var last := Text.LastSegment(path);
    forall t | 0 <= t < |last| ensures last[t] as int < 128 {
      assert last[t] == path[|path| - |last| + t];
    }
  }

  // ---------------------------------------------------------------------------
  // getChapter

  /** The chapter page `getChapter` fetches for an identifier (src/index.js:428-430). */
  function ChapterUrl(chapterIdentifier: string): (r: Result<string, Error>)
    ensures r.Failure? ==> r.error == MalformedIdentifier
    ensures r.Success? <==> DecodeID(chapterIdentifier).Success?
  {
    var key :- DecodeID(chapterIdentifier);
    Success(BASE_URL + "/manga/" + key.seriesId + "/" + key.chapId)
  }

  /**
   * `getChapter` (src/index.js:422-454). The page URLs are the array the
   * source extracts from the page script; each becomes a page with only its
   * high-quality URL set.
   */
  function GetChapter(chapterIdentifier: string, pageUrls: seq<string>): (r: Result<ChapterData, Error>)
    ensures r.Success? <==> DecodeID(chapterIdentifier).Success?
    ensures r.Success? ==> |r.value.pages| == |pageUrls|
    ensures r.Success? ==> forall i :: 0 <= i < |pageUrls| ==>
              r.value.pages[i].highUrl == pageUrls[i] && r.value.pages[i].lowUrl.None?
  {
    var _ :- DecodeID(chapterIdentifier);
    Success(ChapterData(seq(|pageUrls|, i requires 0 <= i < |pageUrls| => PageData(pageUrls[i]))))
  }

  /**
   * A chapter listed for an ASCII series id, from an ASCII link path, is
   * fetched from that series' page followed by the link's last segment.
   */
  lemma ListedChapterUrl(row: ChapterRow, seriesIdentifier: string, since: Since)
    requires ChapterItem(row, seriesIdentifier, since).Some?
    requires Bytes.IsAscii(row.linkPath) && Bytes.IsAscii(seriesIdentifier)
    ensures ChapterUrl(ChapterItem(row, seriesIdentifier, since).value.identifier)
            == Success(BASE_URL + "/manga/" + seriesIdentifier + "/" + Text.LastSegment(row.linkPath))
  {
    ChapterIdentifierDecodes(row, seriesIdentifier, since);
  }

  /** An identifier holding a character that base64 does not use is refused as malformed. */
  lemma MalformedIdentifierRefused(t: string, i: nat)
    requires i < |t| && !Base64.IsBase64Char(t[i]) && t[i] != '='
    ensures ChapterUrl(t) == Failure(MalformedIdentifier)
  {
    Base64.DecodeRejects(t, i);
  }
}
