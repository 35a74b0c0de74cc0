/**
 * The adapter's data classes (src/index.js:6-165) as immutable datatypes.
 * Constructor parameters with defaults in the source carry the same defaults here.
 * A JavaScript `Date`/timestamp is its millisecond value; NaN and null are `None`.
 */
module Records {
  import opened Wrappers

  /** One chapter of a series. `updated` holds the value `Date.parse` produced. */
  datatype ChapterListItem = ChapterListItem(
    number: string,
    identifier: string,
    title: string,
    description: string := "",
    group: Option<string> := None,
    variant: Option<string> := None,
    created: Option<int> := None,
    updated: Option<int> := None,
    published: Option<int> := None)

  datatype ChapterList = ChapterList(chapters: seq<ChapterListItem>)

  /**
   * One page image of a chapter. The optional URL handlers of the source are
   * always left at null by this adapter and are not represented.
   */
  datatype PageData = PageData(highUrl: string, lowUrl: Option<string> := None) {
    const version: string := "1.0.0"
  }

  datatype ChapterData = ChapterData(pages: seq<PageData>) {
    const version: string := "2.0.0"
  }

  /** A series. Ranking 0 is the best match; every negative ranking means "unranked". */
  datatype MangaSeries = MangaSeries(
    name: string,
    identifier: string,
    coverUrl: Option<string> := None,
    ranking: int := -1)

  datatype MangaSeriesList = MangaSeriesList(results: seq<MangaSeries> := [])

  /** Failures the adapter surfaces to its caller. */
  datatype Error =
    | MalformedIdentifier   // a chapter identifier that does not decode
    | FetchFailed           // the transport delivered no response for a requested page

  const BASE_URL: string := "https://mangakatana.com"
}
