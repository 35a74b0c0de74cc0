# mangakatana adapter — a Dafny model

This project models the pure core of the mangakatana.com adapter (`src/index.js`).
The adapter scrapes the site for four operations: `searchManga`, `seriesInfo`,
`listChapters` and `getChapter`. Behind its network and HTML plumbing sit a few
sequential pieces, and the model covers those:

- **The chapter-identifier codec** (`encodeID`/`decodeID`). The pair
  `{chapId, seriesId}` goes through `JSON.stringify`, then UTF-8, then standard
  base64 (section 4 of RFC 4648, `=` padding). Decoding runs base64, reads the
  bytes as Latin-1 ("binary"), then parses the JSON. Modules: `Bytes`, `Base64`,
  `Json`, `ChapterIdentifier`.
- **The title cleaners.**
  - Series titles: `replace(/\s+/g, " ")`, then `&amp;` → `&`, then `trim()`.
  - Chapter titles: the same without the entity step.
  - The search query: whitespace runs become `+`.
  - Module: `Text`.
- **The last path segment** of a link, `pathname.split("/")[length-1]`, in `Text`.
- **The chapter-number pattern** `/ch(?:ap(?:ter)?)?[\s\.]*(\d+(\.\d+)?)/i`, as
  a leftmost, backtracking, greedy matcher. Module: `ChapterNumber`.
- **Search** (`Search`):
  - the redirect short-cut;
  - the pagination loop, with its running `maxRank`, its limit truncation and its next-link test;
  - `parseSeriesPage` and `seriesInfo`.
- **Chapter listing** (`Chapters`):
  - the per-row callback of `listChapters`: the `since` filter, the number match and identifier construction;
  - cheerio's `.map(...).filter(x => x)` over the rows, as written and as evidently intended;
  - `getChapter`'s identifier decoding and page wrapping.
- **The data classes** as datatypes with the source's defaults, in `Records`.
  `Wrappers` provides `Option`/`Result`.

HTTP responses and HTML are inputs, already reduced to the values the selectors
pick out:
- a search is a redirect to a series page, or the sequence of result pages that following "next" links would fetch;
- a chapter table is a sequence of rows, each holding a parsed time, a link text and a link path.

When a page has a next link but no page follows, the fetch failed (`FetchFailed`). The source's loop has no bound of its own: a site whose next links never stop keeps it fetching forever, and a finite sequence of pages can show this only as `FetchFailed` once the pages run out.

Behaviour worth knowing, as the code has it:

- **Title cleaning is not idempotent.** `"&amp;amp;"` cleans to `"&amp;"`, which cleans to `"&"`.
  `Text.CleanTitleNotIdempotent` shows this. Chapter-title cleaning is idempotent (`Text.CleanChapterTitleIdempotent`).
- **The token is standard base64, not a URL-safe alphabet.** It may contain `+`, `/` and `=`.
- **The codec round-trips only ASCII ids.** The write side is UTF-8 and the read side Latin-1, so a non-ASCII id comes back changed (`"é"` becomes `"Ã©"`).
- **`since` does drop rows.** A row is dropped when `updated < since`. With the default `since = null` this compares against 0, so rows dated before 1970 are dropped.
- **`listChapters` drops its first chapter.** The chapter items go through cheerio's `.filter(x => x)`, whose callback receives the index first, so the item at index 0 is dropped (see Findings).
- **A negative `limit` is not rejected.** It reaches `slice` with a negative end: the first page is kept minus that many rows from its end.

## Model

| member | source | states |
|---|---|---|
| ChapterIdentifier.EncodeID | src/index.js:171-179 | every identifier is well-formed padded base64: alphabet `A–Z a–z 0–9 + /`, `=` only as trailing padding, length a multiple of 4 |
| ChapterIdentifier.DecodeID | src/index.js:181-187 | a token that does not decode is refused as `MalformedIdentifier`, and only a multiple of four characters decodes; what it returns for encoded pairs is `DecodeEncode` |
| ChapterIdentifier.Stringify | src/index.js:177 | the JSON text starts with `{"chapId":` and ends with `}`; `ParseStringify` reads it back |
| ChapterIdentifier.ParseKey | src/index.js:186 | only text starting with `{"chapId":` is read as a pair |
| ChapterIdentifier.DecodeEncode | src/index.js:171-187 | decoding an encoded pair always succeeds and yields each id as the Latin-1 reading of its UTF-8 bytes |
| ChapterIdentifier.RoundTripIffAscii | src/index.js:171-187 | `decodeID(encodeID(k)) == k` exactly when both ids are ASCII |
| ChapterIdentifier.EncodeInjectiveOnAscii | src/index.js:171-179 | distinct ASCII pairs get distinct identifiers |
| ChapterIdentifier.NonAsciiIdChanges | src/index.js:171-187 | the chapter id `"é"` comes back as `"Ã©"` |
| ChapterIdentifier.ParseStringify | src/index.js:177 | the parser reads back exactly the pair `JSON.stringify` wrote |
| ChapterIdentifier.GarbleStringify | src/index.js:177-184 | UTF-8-then-Latin-1 of the JSON text is the JSON text of the garbled ids (escaping commutes with the garbling) |
| Base64.DecodeEncode | src/index.js:178-184 | base64 decoding inverts base64 encoding for every byte sequence |
| Base64.EncodeShape | src/index.js:178 | an encoding of n bytes is ⌈n/3⌉·4 characters; every character before the final (3 − n mod 3) mod 3 is an alphabet character and each of those last ones is `=` |
| Base64.Encode | src/index.js:178 | an encoding of n bytes has 4·⌈n/3⌉ characters |
| Base64.Decode | src/index.js:182-184 | only a multiple of four characters decodes, to at most three bytes per four characters |
| Base64.DecodeSymbolsLength | src/index.js:182-184 | only whole groups of four symbols decode, each group to at most three bytes |
| Base64.EncodeSymbols | src/index.js:178 | the encoding of n bytes has 4·⌈n/3⌉ symbols |
| Base64.GroupRoundTrip | src/index.js:178-184 | one 3-byte group (or the final 1- or 2-byte group with padding) decodes back to its bytes |
| Base64.ScanRejects | src/index.js:182-183 | a text holding, anywhere, a character that is neither in the alphabet nor `=` does not scan (the strict reading; Node skips such characters, see "## Left out") |
| Base64.DecodeRejects | src/index.js:182-183 | such a text does not decode under the strict reading |
| Base64.ScanRender | src/index.js:182-183 | reading the characters of rendered symbols gives the symbols back |
| Base64.SymbolChar | src/index.js:178 | a digit symbol is an alphabet character and the pad symbol is `=` |
| Base64.CharSymbol | src/index.js:182-183 | a character is read as a symbol exactly when it is in the alphabet or `=`, and reading inverts rendering |
| Bytes.Utf8Char | src/index.js:178 | a character is 1 to 4 UTF-8 bytes; an ASCII character is its own single byte; a non-ASCII one is ≥ 2 bytes, each ≥ 128 |
| Bytes.Utf8CharDecodes | src/index.js:178 | the UTF-8 bytes of a character decode back to its code point |
| Bytes.Utf8 | src/index.js:178 | the UTF-8 bytes are never fewer than the characters |
| Bytes.Utf8Ascii | src/index.js:178 | an ASCII text encodes as one byte per character, each byte the character's code |
| Bytes.Latin1 | src/index.js:184 | the Latin-1 ("binary") reading maps each byte to the character with that code |
| Bytes.GarbleFixedIffAscii | src/index.js:178-184 | a string survives UTF-8-then-Latin-1 unchanged exactly when it is ASCII |
| Bytes.GarbleGrows | src/index.js:178-184 | a non-ASCII string comes back strictly longer |
| Json.EscapeChar | src/index.js:177 | a character is written as itself exactly when JSON.stringify leaves it plain; an ASCII character escapes to ASCII |
| Json.Escape | src/index.js:177 | escaping never shortens the text |
| Json.EscapeAscii | src/index.js:177 | the escaped form of ASCII text is ASCII |
| Json.EscapePlain | src/index.js:177 | text whose characters JSON.stringify leaves plain is written unchanged |
| Json.Quote | src/index.js:177 | a string literal is the escaped text between two `"`, never shorter than the text plus two |
| Json.ReadQuoted | src/index.js:186 | a JSON string literal written by JSON.stringify is read back as the same string, with the rest of the input untouched |
| Json.ReadEscaped | src/index.js:186 | the body of an escaped string is read back up to its closing quote |
| Json.ReadEscapedChar | src/index.js:177-186 | the escape written for any one character (plain, short `\x` or `\u00XX`) reads back as that character |
| Json.HexRoundTrip | src/index.js:177-186 | the hexadecimal digit of a `\u` escape reads back as its value |
| Text.CleanTitleNormalized | src/index.js:228-232 | a cleaned series title has no leading or trailing whitespace, no two adjacent whitespace characters, and only `' '` as whitespace |
| Text.CleanTitle | src/index.js:228-232 | cleaning a series title never lengthens it (`CleanTitleNormalized` gives its shape) |
| Text.CleanTitleKeepsPlain | src/index.js:285-289 | a normalised title holding no `&amp;` is returned unchanged, bare `&` included |
| Text.CleanTitleKeepsBareAmp | src/index.js:285-289 | `"Tom & Jerry"`, the text cheerio gives for an entity-decoded title, comes out unchanged |
| Text.CleanTitleNotIdempotent | src/index.js:355 | cleaning `"&amp;amp;"` gives `"&amp;"`, and cleaning that again gives `"&"` |
| Text.UnescapeEscape | src/index.js:231 | unescaping `&amp;` undoes writing every `&` as `&amp;` |
| Text.UnescapeWithoutAmp | src/index.js:231 | text holding no `&amp;` is untouched by the entity step, so every bare `&` survives |
| Text.CleanChapterTitleNormalized | src/index.js:392 | a cleaned chapter title is trimmed, has no adjacent whitespace and only `' '` as whitespace |
| Text.CleanChapterTitle | src/index.js:392 | cleaning a chapter title never lengthens it (`CleanChapterTitleNormalized` gives its shape) |
| Text.CleanChapterTitleIdempotent | src/index.js:392 | cleaning a cleaned chapter title changes nothing |
| Text.CleanChapterTitleKeepsVisible | src/index.js:392 | chapter-title cleaning keeps every non-whitespace character, in order |
| Text.NormalizedIsFixed | src/index.js:392 | an already normalised title is returned unchanged |
| Text.Trim | src/index.js:232 | `trim()` never lengthens the text and leaves no whitespace at either end |
| Text.TrimIsSlice | src/index.js:232 | what `trim()` keeps is a contiguous slice of the input with only whitespace on either side of it |
| Text.TrimKeepsVisible | src/index.js:232 | trimming removes only whitespace |
| Text.CollapseSpaces | src/index.js:229 | collapsing never lengthens the text; a non-empty text stays non-empty, and its first character becomes the separator when it was whitespace and is kept otherwise |
| Text.CollapseNoAdjacent | src/index.js:229 | after collapsing, no two whitespace characters are adjacent |
| Text.CollapseRun | src/index.js:229 | each maximal whitespace run becomes exactly one separator: text, a run, text collapses to the collapse of each side joined by one separator |
| Text.CollapseBetween | src/index.js:229 | a visible character, a whitespace run and a text starting visibly collapse to that character, one separator and the collapsed text |
| Text.CollapseHeadStep | src/index.js:229 | the first step of collapsing a text that ends visibly does not depend on what follows it |
| Text.CollapseExample | src/index.js:229 | `"a   b\n\tc"` collapses to `"a b c"` |
| Text.CollapseKeepsVisible | src/index.js:229 | collapsing keeps every non-whitespace character, in order |
| Text.UnescapeAmp | src/index.js:231 | the entity step never lengthens the text and keeps its first character |
| Text.SanitizeQuery | src/index.js:254 | the search query contains no whitespace |
| Text.SanitizeQueryIsPlusCollapsed | src/index.js:254 | the query is the whitespace-collapsed name with each space written as `+` |
| Text.LastSegment | src/index.js:233-234 | the segment contains no `/`, is a suffix of the path, and is preceded by `/` whenever it is not the whole path |
| Text.LastSegmentIsLastPiece | src/index.js:291-292 | the segment is the last element of `path.split("/")` |
| Text.JoinSplit | src/index.js:402 | joining the pieces of `split("/")` with `/` gives the path back |
| Text.LastSegmentOfJoined | src/index.js:402-403 | the last segment of `dir + "/" + seg` is `seg` |
| ChapterNumber.ChapterNumber | src/index.js:394-400 | an extracted chapter number is digits with at most one `.`, with digits on both sides |
| ChapterNumber.MatchAtIff | src/index.js:380 | the matcher succeeds at a position exactly when `ch`, `chap` or `chapter` (any case) is there, followed by separators and a digit |
| ChapterNumber.AlternativesIff | src/index.js:380 | trying the prefixes in order succeeds exactly when one of them is followed by separators and a digit |
| ChapterNumber.AlternativesPrefix | src/index.js:380 | a successful alternative captures right after one of the words and the separators that follow it |
| ChapterNumber.SkipToDigit | src/index.js:380 | skipping separators lands on a digit exactly when `[\s.]*\d` matches there |
| ChapterNumber.RestAt | src/index.js:380 | a capture starts after separators only, is a decimal, and cannot be extended by the greedy quantifiers |
| ChapterNumber.FindFrom | src/index.js:394 | a found match is the matcher's result at its position; no match means none at any later position |
| ChapterNumber.FindFromLeftmost | src/index.js:394 | no position before the returned match matches |
| ChapterNumber.ChapterNumberNoneIff | src/index.js:394-397 | no number is extracted exactly when the pattern matches nowhere in the title |
| ChapterNumber.ChapterNumberLeftmost | src/index.js:394-400 | the number belongs to the leftmost match, starts right after that match's prefix (`chapter`, `chap` or `ch`) and its separators, and is the maximal capture there |
| ChapterNumber.ChapterNumberWithFraction | src/index.js:380-400 | `"Chapter 12.5 - Homecoming"` yields `"12.5"` |
| ChapterNumber.ChapterNumberShortPrefix | src/index.js:380-400 | `"Ch. 3.5.1"` yields `"3.5"`: after the `ch` prefix, at most one fraction |
| Search.CollectResults | src/index.js:276-332 | without a first page the search fails with `FetchFailed`; the loop succeeds exactly when it reaches a page after which it stops, and its result is the rows of the pages read up to that one, ranked by position, cut by `slice(0, limit)` |
| Search.SearchManga | src/index.js:247-339 | `limit` defaults to `Number.MAX_SAFE_INTEGER`; a redirect returns exactly the one series of the landing page, with ranking 0, whatever the limit; otherwise the result is that of the pagination loop |
| Search.ResultShape | src/index.js:277-316 | with `limit >= 0`, there are at most `limit` results, they are a prefix of the rows read in page order, and the k-th has ranking k |
| Search.NextLinkDecides | src/index.js:322-323 | `HasNextLink`: a next link that is missing or has an empty `href` ends the search at that page at the latest, whatever the limit; a page below the limit with a non-empty next link is never the last one read |
| Search.StopsForAReason | src/index.js:317-331 | the search stops on a page with the limit reached or without a next link; every earlier page had fewer rows in total than the limit and a next link |
| Search.StopPage | src/index.js:317-331 | the stopping page is the first page after which the loop does not continue |
| Search.RowsPrefix | src/index.js:309-314 | the rows of fewer pages are a prefix of the rows of more pages |
| Search.AppendUpTo | src/index.js:308-315 | the loop's append-up-to-the-limit step; `AppendUpToExtends` and `AppendUpToKeeps` state what it keeps |
| Search.AppendUpToExtends | src/index.js:308-315 | appending never drops a result already collected, and what it adds is a leading part of the page |
| Search.AppendUpToKeeps | src/index.js:308-315 | the truncation branch yields the first `limit` elements of the concatenation, in JavaScript's `slice` sense |
| Search.Keep | src/index.js:311-313 | `slice(0, limit)` returns a prefix of length `min(limit, n)`, or `max(n + limit, 0)` for a negative limit |
| Search.TwoPagesToTwelve | src/index.js:276-332 | 10 rows with a next link, then 5 without, and limit 12: two pages are read and the result is page one plus two rows of page two |
| Search.ZeroLimit | src/index.js:308-319 | limit 0 reads one page and returns nothing |
| Search.NegativeLimit | src/index.js:308-319 | a negative limit stops after the first page and drops that many rows from its end |
| Search.RowSeries | src/index.js:282-305 | a row's series has the given ranking, the last segment of the link path as identifier, the cleaned title text (normalised) as name, and the cover `src` |
| Search.RankedByPosition | src/index.js:277-303 | the k-th ranked series has ranking k and is the series of the k-th row |
| Search.PageStep | src/index.js:283-317 | one pass of the loop body leaves `slice(0, limit)` of all rows read so far, ranked; the limit is reached exactly when those rows reach it |
| Search.StopsAt | src/index.js:317-331 | a search that went on after every earlier page and not after page j stops at page j |
| Search.ParseSeriesPage | src/index.js:224-245 | the landing page's series has ranking 0, the last path segment as identifier, the cleaned `.info > h1` text (normalised) as name, and the cover URL |
| Search.SeriesInfo | src/index.js:341-363 | the series keeps the identifier asked for, has ranking 0, the cleaned `.info > .heading` text (normalised) as name, and the cover URL |
| Chapters.ChapterItem | src/index.js:381-411 | an item's title is the cleaned link text (normalised), its number is the pattern's capture in that title (a decimal), it carries the row's parsed time and the identifier of (last path segment, series id) |
| Chapters.IsBefore | src/index.js:386 | `updated < since` can hold only for a time that parsed: NaN is never before anything |
| Chapters.KeptIff | src/index.js:386-397 | a row yields an item exactly when it is not before `since` and its cleaned title has a chapter number |
| Chapters.ListChapters | src/index.js:366-420 | as written: never more chapters than rows |
| Chapters.ListChaptersConcat | src/index.js:381-412 | for a table split in two, once the first part has a chapter the second part's chapters all follow those listed for the first part; otherwise the table lists what the second part alone lists |
| Chapters.ListChaptersCount | src/index.js:381-412 | one chapter fewer is listed than there are kept rows, and none when no row is kept |
| Chapters.ListedChapterSource | src/index.js:381-412 | every listed chapter is the item of a kept row |
| Chapters.KeptRowListed | src/index.js:381-412 | the item of every kept row after the first kept row is listed |
| Chapters.FilterMap | src/index.js:381-411 | cheerio's `.map`: the callback's values other than `undefined`, in input order, never more than the inputs |
| Chapters.FilterMapSource | src/index.js:381-411 | every element of cheerio's `.map` result is the callback's value for some input |
| Chapters.FilterMapKeeps | src/index.js:381-411 | every value the callback returns is in cheerio's `.map` result |
| Chapters.FilterMapKeepsLater | src/index.js:381-411 | a value returned for an input after another input that also gave one is not the first element of the `.map` result |
| Chapters.FilterTruthyIndex | src/index.js:412 | cheerio's `.filter(x => x)`: a subsequence of the items, never longer; which items it keeps is stated by the two rows below |
| Chapters.FilterTruthyIndexDropsFirst | src/index.js:412 | cheerio's `.filter(x => x)` receives the index, so it drops exactly the element at index 0 |
| Chapters.FilterTruthyIndexConcat | src/index.js:412 | filtering a concatenated selection drops only the first element of the whole |
| Chapters.FilteredSource | src/index.js:381-412 | every element left by `.map(...).filter(x => x)` is the callback's value for some input |
| Chapters.ListChaptersDropsFirst | src/index.js:381-412 | the list as written is the intended list without its first chapter |
| Chapters.FirstChapterMissing | src/index.js:381-412 | a table whose one row has a chapter number lists no chapter, where one is intended |
| Chapters.ListChaptersIntended | src/index.js:381-412 | the intended list (every kept row's item, in order): never more chapters than rows |
| Chapters.ListChaptersIntendedConcat | src/index.js:381-412 | the intended list of a table split in two is that of the first part followed by that of the second, so document order is kept |
| Chapters.ListChaptersIntendedCount | src/index.js:381-412 | the intended list has exactly one chapter per kept row |
| Chapters.KeptRowListedIntended | src/index.js:381-412 | every kept row's item is in the intended list |
| Chapters.UnparsedTimeIsKept | src/index.js:384-397 | whatever `since` is, a row whose time did not parse (NaN) yields an item exactly when its cleaned title has a chapter number |
| Chapters.NullSinceDropsPre1970 | src/index.js:370-397 | with the default `since = null`, a row dated before 1970 yields no item, and any other row yields one exactly when its cleaned title has a chapter number |
| Chapters.ChapterKeyOf | src/index.js:401-405 | a chapter key carries the series id asked for and, as chapter id, the last segment of the link path (so it is `/`-free) |
| Chapters.ChapterIdentifierDecodes | src/index.js:401-405 | for ASCII path and series id, a listed chapter's identifier decodes to (last path segment, series id) |
| Chapters.ChapterUrl | src/index.js:426-430 | the URL is built exactly when the identifier decodes; otherwise the identifier is refused as malformed |
| Chapters.ListedChapterUrl | src/index.js:401-430 | a listed chapter (ASCII ids) is fetched from `https://mangakatana.com/manga/<series>/<last segment>` |
| Chapters.MalformedIdentifierRefused | src/index.js:426 | every token holding a character outside the base64 alphabet and `=` is refused as malformed, under the strict base64 reading |
| Chapters.GetChapter | src/index.js:422-454 | it succeeds exactly when the identifier decodes, with one page per URL in order, each with only its high-quality URL |

## Left out

- Network and HTML. `fetch`, `response.text()`, `URL`/`URLSearchParams` and the cheerio selectors are not modelled. Their results are inputs: pre-extracted rows, link paths, cover sources and next links.
- Relative or unparsable `href`s. `new URL(...)` would throw on these, and they are not modelled. Link paths are given directly.
- Missing attributes. A missing `src` or `href` raises a TypeError in the source, which is not modelled. Rows always carry strings.
- `Date.parse`. The parsed time value is an input (`None` for NaN).
- Fractional `limit` values. `limit` is an integer.
- The page-array extraction of `getChapter`. The regex match is fed to `eval`, which cannot be modelled. The resulting URL array is an input.
- Base64 decoding leniency. Node's `Buffer` ignores invalid characters and missing padding. The model's decoder accepts only well-formed padded base64, and refuses anything else as `MalformedIdentifier`. So `Base64.ScanRejects`, `Base64.DecodeRejects` and `Chapters.MalformedIdentifierRefused` describe that strict reading: in the source, such a token fails only if what remains does not parse as the expected JSON.
- Full `JSON.parse`. The model reads back only the exact two-member shape `JSON.stringify` writes.
- Lone surrogates. Strings are sequences of Unicode scalar values, so UTF-16 lone surrogates (and their `\u` escapes) cannot occur.
- The encoding of the search query into the URL. `URLSearchParams` encoding is not modelled; only the `+` substitution is.
- `parsePage`. It is never called.
- The `offset` and `order` parameters, and the `limit` parameter of `listChapters`. They are accepted and never used.
- The `chapters` value's type. `listChapters` hands `ChapterList` the cheerio selection itself, not an `Array`; the model gives it the sequence of items.
- `EXTENSION_ID`.
- Logging.
- The bundler configuration.
- The handler functions of `PageData`. They are always null in this adapter.
- Concurrency and timeouts. The source has none of its own.

## Findings

| source | as written | input that shows it | evidently intended | confidence | as-written member | corrected member |
|---|---|---|---|---|---|---|
| src/index.js:381-412 | the chapter items go through `.filter(x => x)` on a cheerio selection; cheerio calls a filter function with the index first, so `x` is the index and the item at index 0 is dropped | a table with one row `"Chapter 1"` whose time does not parse, `since` left null: no chapter is listed | every row not before `since` whose title has a chapter number is listed, as `Array.prototype.filter(x => x)` on the items would do | medium, not executed (rests on cheerio's jQuery-style `(index, element)` callback order) | Chapters.ListChapters, Chapters.FirstChapterMissing | Chapters.ListChaptersIntended, Chapters.ListChaptersIntendedCount |
