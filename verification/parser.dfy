/**
 * The page parser (`src/parser.rs`): it classifies a page, reads a
 * single-episode page, walks the rows of a search listing and finds the
 * download link. Every lookup is `select(...).next()` on the parsed tree,
 * and each contract restates it as "the first node in document order".
 */
module Parser {
  import opened Domain
  import opened Strings
  import opened Strip
  import opened Html
  import opened Patterns

  /** The two kinds of result page. */
  datatype PageType = MultipleOptions | SingleOption

  /** `#search_results` */
  const SEARCH_RESULTS: Selector := Selector(None, Some("search_results"), {})
  /** `h1` */
  const TITLE: Selector := Selector(Some("h1"), None, {})
  /** `tbody` */
  const TABLE_BODY: Selector := Selector(Some("tbody"), None, {})
  /** `tr.change` */
  const ROWS: Selector := Selector(Some("tr"), None, {"change"})
  /** `td` */
  const TITLE_COLUMN: Selector := Selector(Some("td"), None, {})
  /** `a` */
  const DETAILS_LINK: Selector := Selector(Some("a"), None, {})
  /** `a.bt-dwl.external` */
  const DOWNLOAD_LINK: Selector := Selector(Some("a"), None, {"bt-dwl", "external"})

  /** The text removed from an episode heading, and what stands in its place. */
  const SUBTITLES_WORD := " subtitles "
  const SUBTITLES_REPLACEMENT := " "

  /** The first node of the forest matching `sel`, by the reference definition. */
  function FirstOf(ns: seq<Node>, sel: Selector): Option<Node> {
    Head(SelectAll(ns, BySelector(sel)))
  }

  /** `select(sel).next()` is the first matching node in document order. */
  lemma SelectFirstIsFirstOf(ns: seq<Node>, sel: Selector)
    ensures SelectFirst(ns, sel) == FirstOf(ns, sel)
  {
    FindFirstIsHead(ns, BySelector(sel));
  }

  // ---------------------------------------------------------------------
  // get_page_type
  // ---------------------------------------------------------------------

  /** A listing iff some element has the id `search_results`. */
  function GetPageType(doc: Document): (r: PageType)
    ensures r == MultipleOptions <==> exists n :: n in Flatten(doc.roots) && Matches(SEARCH_RESULTS, n)
  {
    SelectFirstIsFirstOf(doc.roots, SEARCH_RESULTS);
    assert SelectAll(doc.roots, BySelector(SEARCH_RESULTS)) != [] <==>
      exists n :: n in Flatten(doc.roots) && Matches(SEARCH_RESULTS, n) by {
      FilterFindsAll(Flatten(doc.roots), BySelector(SEARCH_RESULTS));
    }
    if SelectFirst(doc.roots, SEARCH_RESULTS).Some? then MultipleOptions else SingleOption
  }

  /** The filtered list is empty iff no member satisfies the query. */
  lemma {:induction false} FilterFindsAll(ns: seq<Node>, q: Query)
    ensures Filter(ns, q) != [] <==> exists n :: n in ns && Satisfies(q, n)
    decreases |ns|
  {
    if ns != [] {
      FilterFindsAll(ns[1..], q);
      if !Satisfies(q, ns[0]) {
        assert forall n :: n in ns && n != ns[0] ==> n in ns[1..];
      }
    }
  }

  // ---------------------------------------------------------------------
  // parse_episode_page
  // ---------------------------------------------------------------------

  /**
   * The heading text with its tags stripped and `" subtitles "` replaced by a
   * space. It is no longer than the heading's markup, and no no-break space
   * survives in it.
   */
  function EpisodeTitle(heading: Node): (r: string)
    requires heading.Element?
    ensures |r| <= |heading.innerHtml|
    ensures NBSP !in r
  {
    var stripped := StripHtmlTags(heading.innerHtml);
    ReplaceTrace(stripped, SUBTITLES_WORD, SUBTITLES_REPLACEMENT);
    ReplaceAll(stripped, SUBTITLES_WORD, SUBTITLES_REPLACEMENT)
  }

  /**
   * A single-episode page yields one item: index 1, the page's own URL, the
   * cleaned heading as title, and the season and episode that the
   * unbracketed pattern captures in that title (0 and 0 when it does not match).
   * A page without `h1` is a parse error.
   */
  function ParseEpisodePage(doc: Document, pageUrl: string): (r: Result<SearchResults>)
    ensures r.Err? <==> FirstOf(doc.roots, TITLE).None?
    ensures r.Err? ==> r.error == HtmlParseError
    ensures r.Ok? ==>
      var heading := FirstOf(doc.roots, TITLE).value;
      && |r.value| == 1
      && r.value[0].index == 1
      && r.value[0].detailsUrl == pageUrl
      && r.value[0].title == EpisodeTitle(heading)
      && (EpisodeMatch(r.value[0].title).None? ==> r.value[0].season == 0 && r.value[0].episode == 0)
      && (EpisodeMatch(r.value[0].title).Some? ==>
            var info := MatchAt(Unbracketed, r.value[0].title, EpisodeMatch(r.value[0].title).value).value;
            r.value[0].season == info.season && r.value[0].episode == info.episode)
  {
    SelectFirstIsFirstOf(doc.roots, TITLE);
    match SelectFirst(doc.roots, TITLE)
    case None => Err(HtmlParseError)
    case Some(heading) =>
      var title := EpisodeTitle(heading);
      var series := EpisodeSeries(title).GetOr(SeriesInfo(0, 0));
      Ok([SearchResultItem(1, title, pageUrl, series.season, series.episode)])
  }

  /**
   * One `" subtitles "` in an otherwise clean heading collapses to a single
   * space: `Adventure Time subtitles S10E04` reads `Adventure Time S10E04`.
   */
  lemma SubtitlesCollapsed(name: string, rest: string)
    requires forall i: nat :: i < |name| ==> !OccursAt(name + SUBTITLES_WORD + rest, i, SUBTITLES_WORD)
    requires forall i: nat :: !OccursAt(rest, i, SUBTITLES_WORD)
    ensures ReplaceAll(name + SUBTITLES_WORD + rest, SUBTITLES_WORD, SUBTITLES_REPLACEMENT)
      == name + " " + rest
  {
    assert name + SUBTITLES_WORD + rest == name + (SUBTITLES_WORD + rest);
    ReplaceSkipPrefix(name, SUBTITLES_WORD + rest, SUBTITLES_WORD, SUBTITLES_REPLACEMENT);
    ReplacePatternPrefix(rest, SUBTITLES_WORD, SUBTITLES_REPLACEMENT);
    ReplaceAbsent(rest, SUBTITLES_WORD, SUBTITLES_REPLACEMENT);
  }

  // ---------------------------------------------------------------------
  // get_search_item_from_row
  // ---------------------------------------------------------------------

  /** The first title column of a row, by the reference definition. */
  function TitleColumn(row: Node): Option<Node> {
    FirstOf(ChildrenOf(row), TITLE_COLUMN)
  }

  /** The first link inside the title column, by the reference definition. */
  function DetailsLink(row: Node): Option<Node> {
    match TitleColumn(row)
    case Some(column) => FirstOf(ChildrenOf(column), DETAILS_LINK)
    case None => None
  }

  /**
   * A row yields an item iff it has a title column whose stripped inner HTML
   * is longer than one byte in UTF-8. One byte is not enough: a column whose
   * stripped text is a single ASCII character is skipped, while one non-ASCII
   * character or any two characters emit.
   */
  predicate RowEmits(row: Node)
    ensures RowEmits(row) <==>
      && TitleColumn(row).Some?
      && var cell := StripHtmlTags(TitleColumn(row).value.innerHtml);
         |cell| > 1 || (|cell| == 1 && cell[0] as int >= 0x80)
  {
    if TitleColumn(row).None? then false
    else
      var cell := StripHtmlTags(TitleColumn(row).value.innerHtml);
      Utf8LengthAboveOne(cell);
      Utf8Length(cell) > 1
  }

  /** The source unwraps the link's first text; a link without text would panic. */
  predicate RowReadable(row: Node) {
    DetailsLink(row).Some? ==> FirstText(DetailsLink(row).value).Some?
  }

  /**
   * `get_search_item_from_row`: a row that emits gives an item numbered
   * `rowIndex`, titled by the link's first text with line feeds turned into
   * spaces, pointing at the link's `href`, with the season and episode of the
   * first `[S..E..]` of the stripped column text (0 and 0 when there is none).
   * A missing link leaves title and URL empty; a missing `href` leaves the URL empty.
   * Any other row is the general error.
   */
  function RowItem(rowIndex: U8, row: Node): (r: Result<SearchResultItem>)
    requires RowReadable(row)
    ensures r.Ok? <==> RowEmits(row)
    ensures r.Err? ==> r.error == Error
    ensures r.Ok? ==>
      && r.value.index == rowIndex
      && (DetailsLink(row).None? ==> r.value.title == "" && r.value.detailsUrl == "")
      && (DetailsLink(row).Some? ==>
            var text := FirstText(DetailsLink(row).value).value;
            && |r.value.title| == |text|
            && (forall k :: 0 <= k < |text| ==> r.value.title[k] == (if text[k] == '\n' then ' ' else text[k]))
            && r.value.detailsUrl == Attr(DetailsLink(row).value, "href").GetOr(""))
      && var cell := StripHtmlTags(TitleColumn(row).value.innerHtml);
         (ListingSeries(cell).None? ==> r.value.season == 0 && r.value.episode == 0)
         && (ListingSeries(cell).Some? ==>
               r.value.season == ListingSeries(cell).value.season
               && r.value.episode == ListingSeries(cell).value.episode)
  {
    SelectFirstIsFirstOf(ChildrenOf(row), TITLE_COLUMN);
    match SelectIn(row, TITLE_COLUMN)
    case None => Err(Error)
    case Some(column) =>
      SelectFirstIsFirstOf(ChildrenOf(column), DETAILS_LINK);
      var link := SelectIn(column, DETAILS_LINK);
      var title :=
        if link.Some? then
          ReplaceCharwise(FirstText(link.value).value, "\n", " ");
          ReplaceAll(FirstText(link.value).value, "\n", " ")
        else "";
      var detailsUrl := if link.Some? then Attr(link.value, "href").GetOr("") else "";
      var cell := StripHtmlTags(column.innerHtml);
      if Utf8Length(cell) > 1 then
        var series := ListingSeries(cell).GetOr(SeriesInfo(0, 0));
        Ok(SearchResultItem(rowIndex, title, detailsUrl, series.season, series.episode))
      else
        Err(Error)
  }

  // ---------------------------------------------------------------------
  // parse_search_results
  // ---------------------------------------------------------------------

  /** The rows that yield an item, in document order. */
  function EmittingRows(rows: seq<Node>): (r: seq<Node>)
    ensures |r| <= |rows|
  {
    if rows == [] then []
    else if RowEmits(rows[0]) then [rows[0]] + EmittingRows(rows[1..])
    else EmittingRows(rows[1..])
  }

  /** The `tr.change` rows under the first `tbody` of the first `#search_results`. */
  function ListingRows(doc: Document): (r: Option<seq<Node>>)
    ensures r.Some? ==> forall k :: 0 <= k < |r.value| ==> Matches(ROWS, r.value[k])
  {
    match FirstOf(doc.roots, SEARCH_RESULTS)
    case None => None
    case Some(table) =>
      match FirstOf(ChildrenOf(table), TABLE_BODY)
      case None => None
      case Some(body) => Some(SelectAll(ChildrenOf(body), BySelector(ROWS)))
  }

  /**
   * The rows meet the two conditions the loop relies on when the `u8`
   * counter stands at `n`: every row's details link has text, so the
   * `unwrap` on it succeeds, and the counter, which steps after each item,
   * never passes 255.
   */
  predicate RowsReadable(rows: seq<Node>, n: nat) {
    && 1 <= n
    && n + |EmittingRows(rows)| <= 255
    && AllReadable(rows)
  }

  /** Every row's link, if any, has text. */
  predicate AllReadable(rows: seq<Node>) {
    rows == [] || (RowReadable(rows[0]) && AllReadable(rows[1..]))
  }

  /** The whole listing is readable with the counter starting at 1. */
  predicate ListingReadable(doc: Document) {
    ListingRows(doc).Some? ==> RowsReadable(ListingRows(doc).value, 1)
  }

  /**
   * The items of the rows, counted from 1: one per emitting row, in order,
   * item `k` numbered `k + 1` and being what the row function gives the
   * `k`-th emitting row with that number. Rows that do not emit take no number.
   */
  predicate NumberedItems(rows: seq<Node>, items: SearchResults)
    requires RowsReadable(rows, 1)
  {
    && |items| == |EmittingRows(rows)|
    && forall k :: 0 <= k < |items| ==>
         && items[k].index as int == k + 1
         && RowReadable(EmittingRows(rows)[k])
         && RowItem(k + 1, EmittingRows(rows)[k]) == Ok(items[k])
  }

  /**
   * `parse_search_results`: a parse error without `#search_results` or
   * without a `tbody` inside it; otherwise the numbered items of the
   * `tr.change` rows under that `tbody`.
   */
  method ParseSearchResults(doc: Document) returns (r: Result<SearchResults>)
    requires ListingReadable(doc)
    ensures r.Err? <==> ListingRows(doc).None?
    ensures r.Err? ==> r.error == HtmlParseError
    ensures r.Ok? ==> NumberedItems(ListingRows(doc).value, r.value)
  {
    SelectFirstIsFirstOf(doc.roots, SEARCH_RESULTS);
    var table := SelectFirst(doc.roots, SEARCH_RESULTS);
    if table.None? {
      return Err(HtmlParseError);
    }
    SelectFirstIsFirstOf(ChildrenOf(table.value), TABLE_BODY);
    var body := SelectIn(table.value, TABLE_BODY);
    if body.None? {
      return Err(HtmlParseError);
    }
    var rows := SelectAll(ChildrenOf(body.value), BySelector(ROWS));
    assert ListingRows(doc) == Some(rows);
    var items := CollectItems(rows);
    return Ok(items);
  }

  /**
   * Past the first row the rest stays readable, with the counter stepped
   * iff the first row emits.
   */
  lemma RowsReadableTail(rows: seq<Node>, n: nat)
    requires rows != [] && RowsReadable(rows, n)
    ensures RowReadable(rows[0])
    ensures RowEmits(rows[0]) ==>
      && n < 255 && RowsReadable(rows[1..], n + 1)
      && |EmittingRows(rows)| == |EmittingRows(rows[1..])| + 1
    ensures !RowEmits(rows[0]) ==>
      && RowsReadable(rows[1..], n)
      && |EmittingRows(rows)| == |EmittingRows(rows[1..])|
  {
  }

  /**
   * The reference for the loop: the items the rows give with the counter
   * starting at `n`. Rows that do not emit are skipped and take no number,
   * so there is one item per emitting row, numbered `n`, `n + 1`, … without gaps.
   */
  function ItemsFrom(rows: seq<Node>, n: nat): (r: SearchResults)
    requires RowsReadable(rows, n)
    ensures |r| == |EmittingRows(rows)|
    ensures forall k :: 0 <= k < |r| ==> r[k].index as int == n + k
    decreases |rows|
  {
    if rows == [] then []
    else
      RowsReadableTail(rows, n);
      match RowItem(n, rows[0])
      case Ok(item) => [item] + ItemsFrom(rows[1..], n + 1)
      case Err(_) => ItemsFrom(rows[1..], n)
  }

  /**
   * One step of the reference: the first row's item, if any, then the rest
   * counted on from `next`, the counter stepped iff the first row emits.
   */
  lemma ItemsFromCons(rows: seq<Node>, n: nat, next: nat)
    requires rows != [] && RowsReadable(rows, n)
    requires next == if RowEmits(rows[0]) then n + 1 else n
    ensures RowReadable(rows[0]) && RowsReadable(rows[1..], next)
    ensures RowEmits(rows[0]) ==>
      && n < 255
      && EmittingRows(rows) == [rows[0]] + EmittingRows(rows[1..])
      && ItemsFrom(rows, n) == [RowItem(n, rows[0]).value] + ItemsFrom(rows[1..], next)
    ensures !RowEmits(rows[0]) ==>
      && EmittingRows(rows) == EmittingRows(rows[1..])
      && ItemsFrom(rows, n) == ItemsFrom(rows[1..], next)
  {
    RowsReadableTail(rows, n);
  }

  /** Past the head of a list, index `k == j + 1` is index `j` of the tail. */
  lemma ConsIndex<T>(s: seq<T>, x: T, t: seq<T>, k: nat, j: nat)
    requires s == [x] + t && k == j + 1 && k < |s|
    ensures s[k] == t[j]
  {
  }

  /**
   * Item `k` is what the row function gives the `k`-th emitting row under
   * the item's own number, which is `n + k` by the contract of `ItemsFrom`.
   */
  lemma {:induction false} ItemsFromIndexed(rows: seq<Node>, n: nat, k: nat)
    requires RowsReadable(rows, n) && k < |EmittingRows(rows)|
    ensures RowReadable(EmittingRows(rows)[k])
    ensures RowItem(ItemsFrom(rows, n)[k].index as U8, EmittingRows(rows)[k]) == Ok(ItemsFrom(rows, n)[k])
    decreases |rows|
  {
    var next := if RowEmits(rows[0]) then n + 1 else n;
    RowsReadableTail(rows, n);
    if !RowEmits(rows[0]) {
      IndexedPastSkipped(rows, n, k);
      ItemsFromIndexed(rows[1..], next, k);
    } else if k == 0 {
      IndexedHead(rows, n);
    } else {
      var j := k - 1;
      IndexedPastHead(rows, n, next, k, j);
      ItemsFromIndexed(rows[1..], next, j);
    }
  }

  /** The case of `ItemsFromIndexed` for an emitting first row and `k == 0`. */
  lemma IndexedHead(rows: seq<Node>, n: nat)
    requires rows != [] && RowsReadable(rows, n) && RowEmits(rows[0])
    ensures 0 < |EmittingRows(rows)| && RowReadable(EmittingRows(rows)[0])
    ensures RowItem(ItemsFrom(rows, n)[0].index as U8, EmittingRows(rows)[0]) == Ok(ItemsFrom(rows, n)[0])
  {
    ItemsFromCons(rows, n, n + 1);
  }

  /**
   * The step of `ItemsFromIndexed` past a first row that does not emit:
   * item `k` of the rest is item `k` of the whole.
   */
  lemma IndexedPastSkipped(rows: seq<Node>, n: nat, k: nat)
    requires rows != [] && RowsReadable(rows, n) && !RowEmits(rows[0])
    requires k < |EmittingRows(rows)|
    ensures RowsReadable(rows[1..], n) && k < |EmittingRows(rows[1..])|
    ensures
      && RowReadable(EmittingRows(rows[1..])[k])
      && RowItem(ItemsFrom(rows[1..], n)[k].index as U8, EmittingRows(rows[1..])[k]) == Ok(ItemsFrom(rows[1..], n)[k])
      ==>
      && RowReadable(EmittingRows(rows)[k])
      && RowItem(ItemsFrom(rows, n)[k].index as U8, EmittingRows(rows)[k]) == Ok(ItemsFrom(rows, n)[k])
  {
    ItemsFromCons(rows, n, n);
  }

  /**
   * The step of `ItemsFromIndexed` past an emitting first row: item `j`
   * of the rest, counted from `next`, is item `k == j + 1` of the whole.
   */
  lemma IndexedPastHead(rows: seq<Node>, n: nat, next: nat, k: nat, j: nat)
    requires rows != [] && RowsReadable(rows, n) && RowEmits(rows[0]) && next == n + 1
    requires k == j + 1 && k < |EmittingRows(rows)|
    ensures RowsReadable(rows[1..], next) && j < |EmittingRows(rows[1..])|
    ensures
      && RowReadable(EmittingRows(rows[1..])[j])
      && RowItem(ItemsFrom(rows[1..], next)[j].index as U8, EmittingRows(rows[1..])[j])
         == Ok(ItemsFrom(rows[1..], next)[j])
      ==>
      && RowReadable(EmittingRows(rows)[k])
      && RowItem(ItemsFrom(rows, n)[k].index as U8, EmittingRows(rows)[k]) == Ok(ItemsFrom(rows, n)[k])
  {
    ItemsFromCons(rows, n, next);
    ConsIndex(EmittingRows(rows), rows[0], EmittingRows(rows[1..]), k, j);
    ConsIndex(ItemsFrom(rows, n), RowItem(n, rows[0]).value, ItemsFrom(rows[1..], next), k, j);
  }

  /** Moving one element across a concatenation. */
  lemma AppendRegroup<T>(a: seq<T>, x: T, b: seq<T>)
    ensures a + [x] + b == a + ([x] + b)
  {
  }

  /**
   * The loop over the rows: an item for each emitting row, in order, each
   * numbered one more than the item before, starting from 1.
   */
  method CollectItems(rows: seq<Node>) returns (items: SearchResults)
    requires RowsReadable(rows, 1)
    ensures NumberedItems(rows, items)
  {
    items := [];
    var rowIndex: U8 := 1;
    for i := 0 to |rows|
      invariant RowsReadable(rows[i..], rowIndex as nat)
      invariant items + ItemsFrom(rows[i..], rowIndex as nat) == ItemsFrom(rows, 1)
    {
      var rest := rows[i..];
      assert rest[0] == rows[i] && rest[1..] == rows[i + 1..];
      var item := RowItem(rowIndex, rows[i]);
      var next := if item.Ok? then rowIndex as nat + 1 else rowIndex as nat;
      ItemsFromCons(rest, rowIndex as nat, next);
      if item.Ok? {
        AppendRegroup(items, item.value, ItemsFrom(rows[i + 1..], next));
        items := items + [item.value];
      }
      rowIndex := next as U8;
    }
    ItemsFromNumbered(rows, items);
  }

  /** Counted from 1, the reference gives the numbered items of the rows. */
  lemma ItemsFromNumbered(rows: seq<Node>, items: SearchResults)
    requires RowsReadable(rows, 1) && items == ItemsFrom(rows, 1)
    ensures NumberedItems(rows, items)
  {
    forall k | 0 <= k < |items|
      ensures items[k].index as int == k + 1
      ensures RowReadable(EmittingRows(rows)[k])
      ensures RowItem(k + 1, EmittingRows(rows)[k]) == Ok(items[k])
    {
      ItemsFromIndexed(rows, 1, k);
      SameRowItem(k + 1, items[k].index as U8, EmittingRows(rows)[k]);
    }
  }

  /** The row function depends on its arguments only. */
  lemma SameRowItem(a: U8, b: U8, row: Node)
    requires a == b && RowReadable(row)
    ensures RowItem(a, row) == RowItem(b, row)
  {
  }

  // ---------------------------------------------------------------------
  // get_sub_download_url_from_page
  // ---------------------------------------------------------------------

  /**
   * The `href` of the first `a.bt-dwl.external`, verbatim. A missing link or
   * a link without `href` is a parse error; `Ok(None)` never occurs.
   */
  function GetSubDownloadUrl(doc: Document, pageUrl: string): (r: Result<Option<string>>)
    ensures r.Ok? <==> FirstOf(doc.roots, DOWNLOAD_LINK).Some? && Attr(FirstOf(doc.roots, DOWNLOAD_LINK).value, "href").Some?
    ensures r.Err? ==> r.error == HtmlParseError
    ensures r.Ok? ==> r.value == Some(FirstOf(doc.roots, DOWNLOAD_LINK).value.attributes["href"])
  {
    SelectFirstIsFirstOf(doc.roots, DOWNLOAD_LINK);
    match SelectFirst(doc.roots, DOWNLOAD_LINK)
    case None => Err(HtmlParseError)
    case Some(link) =>
      match Attr(link, "href")
      case Some(href) => Ok(Some(href))
      case None => Err(HtmlParseError)
  }

  /** The page URL is only logged: it does not affect the result. */
  lemma DownloadUrlIgnoresPageUrl(doc: Document, pageUrl: string, otherUrl: string)
    ensures GetSubDownloadUrl(doc, pageUrl) == GetSubDownloadUrl(doc, otherUrl)
  {
  }
}
