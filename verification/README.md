# opensubs-rs page extraction, in Dafny

This project models the part of opensubs-rs that turns opensubtitles.org
pages into search results:

- the HTML tag stripper `strip_html_tags`;
- the page parser, which covers:
  - page classification;
  - the single-episode page;
  - the search listing and its rows;
  - the download link;
- the search URL builder `get_request_url`.

The model is written as pure functions over immutable data. Contracts and
lemmas state what each operation promises.

Modules:

- `Domain` (`domain.dfy`): the search result item and the error kinds.
  `U8` and `U16` are the source's unsigned integer widths.
- `Strings` (`strings.dfy`): `str::replace` as a leftmost, non-overlapping
  scan. It also holds:
  - ASCII readings of `\d`, `\w` and `\s`;
  - the UTF-8 byte length behind `String::len`;
  - provenance maps, which record where each output character came from.
- `Strip` (`strip.dfy`): the two tag regexes, each given twice:
  - as a reference predicate on the matched text (`IsOpenTagText`,
    `IsCloseTagText`);
  - as a scanner (`TagAt`, `TagEnd`), proved to agree with the reference.

  Then `replace_all` with the empty string (`DeleteTags`) and the four
  stages of `strip_html_tags`. It ends with characterisations of the
  stripper: which inputs it leaves alone, how typical markup strips, and
  that stripping twice can differ from stripping once.
- `Html` (`html.dfy`): the parsed document that the `scraper` crate
  provides. A document is a forest of element and text nodes. Selectors
  are compound `tag#id.class` selectors. `select(...).next()` is modelled
  twice:
  - by a scanner (`FindFirst`);
  - by a reference: the pre-order list of all nodes, filtered, and its head.

  `FindFirstIsHead` proves that the two agree.
- `Patterns` (`patterns.dfy`): the two season/episode regexes,
  `\[S(\d{1,2})E(\d{1,2})\]` and `.*S(\d{1,2})E(\d{1,2}).*`. For each
  position there is a scanner (`MatchAt`), proved equal to a reference shape
  (`MatchShape`). On top of it sit:
  - the leftmost match, which `captures_iter().next()` of the bracketed
    pattern takes;
  - the last match on the first line that has one, which the greedy `.*`
    of the unbracketed pattern selects.
- `Parser` (`parser.dfy`): `get_page_type`, `parse_episode_page`,
  `get_search_item_from_row`, `parse_search_results` (a loop with
  invariants against a recursive reference) and
  `get_sub_download_url_from_page`.
- `Search` (`search.dfy`): the mask sanitising and the URL template of
  `get_request_url`.

Behaviour worth knowing:

- **Normalisation is not idempotent.** Stripping the tags a second time can
  remove more. For example, `<<b>a>` strips to `<a>`, which strips to the
  empty string (`Strip.StripNotIdempotent`).
- **The download URL is not absolutised.** `get_sub_download_url_from_page`
  returns the `href` verbatim. The page URL is only logged
  (`Parser.DownloadUrlIgnoresPageUrl`). The code adds no base URL; the
  result is absolute only if the page's `href` is (the test in
  `src/parser_tests.rs:43-48` expects an absolute URL from its page).
- **Repeated words are not all replaced.** `" subtitles "` is replaced with
  the leftmost, non-overlapping scan of `str::replace`, so
  `x subtitles subtitles y` becomes `x subtitles y`.
- **The URL builder is never called.** `get_request_url` is a private helper
  of `src/search.rs`, and `src/lib.rs:5-12` does not declare that module. It
  is modelled as the string function it is.

## Model

| member | source | states |
|---|---|---|
| Strings.ReplaceAll | src/strip.rs:20-26 | `str::replace` with a replacement no longer than the pattern never lengthens the text. |
| Strings.ReplaceCharwise | src/parser.rs:187-188 | Replacing a one-character pattern by one character keeps the length and changes exactly the positions that held the pattern character. |
| Strings.ReplaceEliminates | src/strip.rs:20-22 | Once every `&nbsp;` has been replaced by a space, no `&nbsp;` remains anywhere. |
| Strings.ReplaceTrace | src/strip.rs:20-26 | Each character of a replacement's result is an input character copied in order, or the replacement character standing at an occurrence of the pattern. |
| Strings.ReplaceSkipPrefix | src/parser.rs:48 | A prefix in which no occurrence of the pattern starts is copied unchanged, and the scan continues after it. |
| Strings.Utf8Length | src/parser.rs:201 | `len()` counts UTF-8 bytes: at least the number of characters and at most four times it. |
| Strings.Utf8LengthAboveOne | src/parser.rs:201 | `len() > 1` counts UTF-8 bytes, so it holds iff the text has two or more characters or one non-ASCII character. |
| Strip.TagEnd | src/strip.rs:4-5 | A tag that the scanner finds at the front runs from the `<` to the first `>` after it, so it is at least three characters long. |
| Strip.TagAtIsMatch | src/strip.rs:4-5 | The scanner `TagAt` finds exactly the matches of the patterns: a match of the open-tag or close-tag pattern starts at the front iff it says so. The match is unique and as long as `TagEnd` reports. |
| Strip.DeleteTags | src/strip.rs:15-18 | `replace_all` with the empty string never lengthens the text. |
| Strip.DeleteUnchanged | src/strip.rs:15-18 | `replace_all` with the empty string leaves the text unchanged iff no match of the pattern starts anywhere in it. |
| Strip.DeleteShrinks | src/strip.rs:15-18 | A match anywhere makes the result strictly shorter. |
| Strip.DeleteTrace | src/strip.rs:15-18 | Deleting matches keeps the other characters in order: each output character is an input character, with increasing origins. |
| Strip.StripHtmlTags | src/strip.rs:11-29 | The stripped text is no longer than the input and holds no `&nbsp;` and no U+00A0. |
| Strip.StripTrace | src/strip.rs:11-29 | Each stripped character is an input character, in order, or a space standing for the `&` of an `&nbsp;` or for a U+00A0. |
| Strip.StripPieces | src/strip.rs:11-29 | Markup made of text, well-formed open and close tags, `&nbsp;` and U+00A0 strips to its text, with each entity and no-break space turned into a space. |
| Strip.StripUnchanged | src/strip.rs:11-29 | The stripper returns its input iff the input holds no open tag, no close tag, no `&nbsp;` and no U+00A0. |
| Strip.StripPlainText | src/strip.rs:11-29 | Text without `<`, `&nbsp;` and U+00A0 is returned unchanged. |
| Strip.LooseCloseTagKept | src/strip.rs:5 | A `</...>` whose name holds a character other than a word character or `+` is no tag, and the text is kept whole. |
| Strip.StripElement | src/strip_tests.rs:7-18 | An element with attributes between plain texts strips to the texts around its content. |
| Strip.StripSpaces | src/strip_tests.rs:19-30 | Words joined by `&nbsp;` or by U+00A0 come out joined by single spaces. |
| Strip.StripLoneTag | src/strip_tests.rs:11-14 | A tag with no closing partner, such as `<br>`, is removed and the texts around it are joined. |
| Strip.StripConcat | src/strip_tests.rs:32-35 | Well-formed markup strips part by part: the strip of a concatenation is the concatenation of the strips. |
| Strip.StripNestedBracket | src/strip.rs:15-18 | A tag nested in a bracketed word leaves the word with its outer brackets. |
| Strip.StripNotIdempotent | src/strip.rs:11-29 | The stripper is not idempotent: the bracketed word left by the first pass is removed by a second pass. |
| Html.FindFirst | src/parser.rs:25 | `select(...).next()` yields only a node that the selector matches. |
| Html.SelectIn | src/parser.rs:183-185 | `select(...).next()` inside an element yields only an element that the selector matches. |
| Html.FindFirstIsHead | src/parser.rs:25 | `select(...).next()` yields nothing iff no node satisfies the query; otherwise it yields the first satisfying node in document order. |
| Html.FirstText | src/parser.rs:187 | `text().next()` is the content of the first text node below the element, in document order, and is absent iff the element has no text node below it. |
| Patterns.MatchAtIsShape | src/parser.rs:95 | Wherever the pattern matches, the scanner reports a match with the decimal values of the two captured digit runs. |
| Patterns.MatchAtHasShape | src/parser.rs:95 | Every match the scanner reports comes from a real match of the pattern. |
| Patterns.MatchIsOneLine | src/parser.rs:50 | A match starts inside the text and not at a line feed. |
| Patterns.MatchAt | src/parser.rs:95 | A match at one position, of either pattern, captures a season and an episode below 100, since `\d{1,2}` takes at most two digits. The integer parses of the captures cannot fail. |
| Patterns.LongSeasonNoMatch | src/parser.rs:50 | Three digits after the `S` rule out a match at that `S`. |
| Patterns.FirstMatch | src/parser.rs:216-217 | The leftmost match at or after a position: none earlier, and none at all when it finds nothing. |
| Patterns.LastMatch | src/parser.rs:50 | The rightmost match in a range: none later in the range, and none at all when it finds nothing. |
| Patterns.ListingSeries | src/parser.rs:216-229 | The season and episode of the leftmost `[S..E..]`, both below 100. |
| Patterns.EpisodeMatch | src/parser.rs:50-57 | The position it reports is a match of the unbracketed pattern. |
| Patterns.EpisodeMatchNone | src/parser.rs:55 | `is_match` fails iff the pattern matches at no position. |
| Patterns.EpisodeMatchIsLastOnFirstLine | src/parser.rs:50-57 | The captures come from the last occurrence on the first line that has one. Every earlier occurrence lies on that line, and every later one on a later line. |
| Patterns.EpisodeSeries | src/parser.rs:55-63 | Season and episode exist iff the pattern matches, and both are below 100. |
| Parser.GetPageType | src/parser.rs:19-35 | A listing iff some element of the document has the id `search_results`; otherwise a single-episode page. |
| Parser.EpisodeTitle | src/parser.rs:46-48 | The cleaned heading is no longer than the heading's markup and holds no no-break space. |
| Parser.ParseEpisodePage | src/parser.rs:37-83 | Without an `h1` the result is a parse error. Otherwise it is one item with index 1, the page URL, the cleaned heading as title, and the heading's season and episode, or 0 and 0 when it has none. |
| Parser.SubtitlesCollapsed | src/parser.rs:48 | One `" subtitles "` in an otherwise clean heading becomes a single space. |
| Parser.RowItem | src/parser.rs:168-247 | A row yields an item iff its first `td` has stripped text longer than one byte. The item carries the given index, the link's first text with line feeds made spaces, the `href` (or empty strings without a link), and the first `[S..E..]` of the column text (or 0 and 0). Any other row gives the general error. |
| Parser.RowEmits | src/parser.rs:198-201 | The byte test `len() > 1` on the stripped title column: a row emits iff it has a title column whose stripped text has two or more characters, or one non-ASCII character. |
| Parser.ListingRows | src/parser.rs:100-112 | Every row the loop visits is a `tr` element with the class `change`. |
| Parser.ParseSearchResults | src/parser.rs:86-137 | The result is a parse error iff there is no `#search_results` or no `tbody` inside it. Otherwise it holds the items of the `tr.change` rows under that `tbody`: one per emitting row, in document order, item `k` numbered `k + 1`. |
| Parser.CollectItems | src/parser.rs:98-124 | The loop with its `u8` counter yields one item per emitting row, in order. Item `k` is numbered `k + 1` and is what the row function gives the `k`-th emitting row with that number; rows that do not emit take no number. |
| Parser.ItemsFrom | src/parser.rs:112-124 | The recursive reference: with the counter starting at `n`, the rows give one item per emitting row, numbered `n`, `n + 1`, … without gaps. |
| Parser.ItemsFromIndexed | src/parser.rs:112-120 | Item `k` of the reference is what the row function gives the `k`-th emitting row under the item's own number. |
| Parser.GetSubDownloadUrl | src/parser.rs:139-166 | The result is the `href` of the first `a.bt-dwl.external`, verbatim. A missing link or a missing `href` is a parse error. `Ok(None)` never occurs. |
| Parser.DownloadUrlIgnoresPageUrl | src/parser.rs:139-140 | The page URL does not affect the result. |
| Search.SanitizeMask | src/search.rs:51 | The sanitised mask has the mask's length, holds `+` exactly where the mask had a space, equals the mask elsewhere, and contains no space. |
| Search.SanitizeKeepsPlainMask | src/search.rs:51 | A mask without spaces is inserted unchanged. |
| Search.SanitizeRoundTrip | src/search.rs:51 | For a mask without `+`, turning `+` back into spaces restores the mask. |
| Search.SanitizeIdempotent | src/search.rs:51 | Sanitising twice is sanitising once. |
| Search.GetRequestUrl | src/search.rs:50-57 | The URL is laid out as: base URL, search path, sanitised mask, language parameters, language, fixed parameters. Each part sits at its offset, and base URL and language are copied verbatim. |
| Search.RequestUrlDistinguishesMasks | src/search.rs:50-57 | With the base URL and language fixed, two masks without `+` that give the same URL are equal. |
| Search.SpaceAndPlusCollide | src/search.rs:51-56 | Nothing is percent-encoded: a space and a literal `+` in the same place give the same request. |

## Left out

- The HTTP calls are left out, because they are network I/O and not page
  extraction. This covers `search_by_mask` (`src/search.rs:10-48`), the login
  in `src/auth.rs` and the higher-level entry points that fetch pages. Logging
  is left out too.
- HTML parsing and serialisation (`Html::parse_fragment`, `inner_html`) are
  parameters. A document is given as its tree, and each element carries its
  inner HTML as a given string. The model does not check that this string
  agrees with the element's children.
- `Html::select` in scraper yields the matching elements in node creation
  order. The model uses document pre-order. The two differ only when the
  HTML parser moves misplaced table content out of a table (foster
  parenting).
- Only the selector forms the parser uses are modelled: a tag, an `#id` and
  classes.
- The regex classes `\d`, `\w` and `\s` are read as ASCII. The Rust regex
  crate reads them as Unicode classes.
  - Non-ASCII word characters right after `<` are not recognised as tag
    starts.
  - A close tag with a non-ASCII name, such as `</б>`, is kept by the model.
    The source removes it, because its `[\w+]+` matches Unicode letters.
  - Non-ASCII digits in a season or episode are not captured. With such
    digits, the source's `parse` would fail: `expect` would panic in
    `parse_episode_page`, and `get_search_item_from_row` would log an error.
- Parser.RowItem: its precondition `RowReadable` rules out a details link
  with no text, where the source's `unwrap` (`src/parser.rs:187`) panics. A
  panic has no `Result` to model. The model returns `Ok` on rows where the
  source's year slice (`src/parser.rs:202-211`) panics: a title line that
  begins or ends with a multi-byte character, such as
  `Терминатор (2008)`, makes `year_match.start()+1` or `end()-1` fall inside
  a character.
- Parser.ParseSearchResults: its precondition `ListingReadable` limits the
  emitting rows to 254, so the `u8` counter (`src/parser.rs:98`, `119`) does
  not overflow. With more rows the source panics in debug builds and wraps
  in release builds.
- The year extraction (`src/parser.rs:96`, `202-211`) is left out. Its
  result is only logged. Its slice `title_row[start+1..end-1]` can also
  panic when the matched line begins or ends with a multi-byte character.
- The item fields hold a `u8` season (`src/parser.rs:213`) in a `u16` field
  (`src/domain.rs:17`). Both are modelled as bounded naturals. The values
  are below 100 in any case.
- The `IOError` variant of `OperationError` (`src/error.rs:16`) is left out,
  because no modelled operation produces it.
- The source's tests on literal strings are stated as lemmas over shapes of
  input, with the varying parts as parameters. `Strip.StripElement` covers
  elements with attributes, `Strip.StripSpaces` covers `&nbsp;` and U+00A0,
  and `Strip.StripConcat` covers long markup.
- The tests in `src/parser_tests.rs:9-33` call a function that does not
  exist (`parse_series_search_results`) and expect a year in the title, which
  the code never adds. They are not modelled.
