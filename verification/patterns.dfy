/**
 * The two season/episode regular expressions of the page parser, as
 * scanners over the text, each checked against a reference description of
 * what the pattern matches.
 *
 * - `\[S(\d{1,2})E(\d{1,2})\]` on a listing row: the first match counts.
 * - `.*S(\d{1,2})E(\d{1,2}).*` on an episode title: `.` does not cross a
 *   line feed and both `.*` are greedy, so the match starts on the first line
 *   that holds an occurrence and captures the last occurrence on that line.
 */
module Patterns {
  import opened Domain
  import opened Strings

  /** A captured season and episode. */
  datatype SeriesInfo = SeriesInfo(season: nat, episode: nat)

  /** Which of the two patterns. */
  datatype SeriesPattern = Bracketed | Unbracketed

  /** `10^n`. */
  function Pow10(n: nat): (p: nat)
    ensures p >= 1
  {
    if n == 0 then 1 else 10 * Pow10(n - 1)
  }

  /** Every character is an ASCII digit. */
  predicate AllDigits(ds: string) {
    forall k :: 0 <= k < |ds| ==> IsDigit(ds[k])
  }

  /** `str::parse` of a string of ASCII digits. */
  function Decimal(ds: string): (v: nat)
    requires AllDigits(ds)
    ensures v < Pow10(|ds|)
    decreases |ds|
  {
    if ds == [] then 0
    else 10 * Decimal(ds[..|ds| - 1]) + (ds[|ds| - 1] as int - '0' as int)
  }

  // ---------------------------------------------------------------------
  // Reference: the shape of one match
  // ---------------------------------------------------------------------

  /** `s[a..b]` is one or two digits: what `\d{1,2}` can capture. */
  ghost predicate ShortDigits(s: string, a: nat, b: nat) {
    a < b <= a + 2 && b <= |s| && forall j :: a <= j < b ==> IsDigit(s[j])
  }

  /** Where the season digits start, for a match at `i`. */
  function SeasonStart(pattern: SeriesPattern, i: nat): nat {
    match pattern
    case Bracketed => i + 2
    case Unbracketed => i + 1
  }

  /**
   * The pattern matches at `i` with the season captured in `s[SeasonStart..k]`
   * and the episode in `s[k + 1..e]`. For the unbracketed pattern the greedy
   * `\d{1,2}` takes a second digit whenever there is one.
   */
  ghost predicate MatchShape(pattern: SeriesPattern, s: string, i: nat, k: nat, e: nat) {
    match pattern
    case Bracketed =>
      && i + 1 < |s| && s[i] == '[' && s[i + 1] == 'S'
      && ShortDigits(s, i + 2, k) && k < |s| && s[k] == 'E'
      && ShortDigits(s, k + 1, e) && e < |s| && s[e] == ']'
    case Unbracketed =>
      && i < |s| && s[i] == 'S'
      && ShortDigits(s, i + 1, k) && k < |s| && s[k] == 'E'
      && ShortDigits(s, k + 1, e)
      && (e < |s| && IsDigit(s[e]) ==> e == k + 3)
  }

  // ---------------------------------------------------------------------
  // The scanner
  // ---------------------------------------------------------------------

  /** The end of the episode digits, given where they start and where their run ends. */
  function EpisodeEnd(pattern: SeriesPattern, start: nat, run: nat): nat {
    match pattern
    case Bracketed => run
    case Unbracketed => if run > start + 2 then start + 2 else run
  }

  /**
   * The captures of a match of `pattern` at `i`, or `None` when it does not
   * match there. `\d{1,2}` captures at most two digits, so both values are
   * below 100.
   */
  function MatchAt(pattern: SeriesPattern, s: string, i: nat): (r: Option<SeriesInfo>)
    ensures r.Some? ==> r.value.season < 100 && r.value.episode < 100
  {
    var p := SeasonStart(pattern, i);
    if p > |s| || s[i..p] != (if pattern.Bracketed? then "[S" else "S") then None
    else
      var k := Span(s, p, IsDigit);
      if !(p < k <= p + 2 && k < |s| && s[k] == 'E') then None
      else
        var run := Span(s, k + 1, IsDigit);
        var e := EpisodeEnd(pattern, k + 1, run);
        if !(k + 1 < e <= k + 3) then None
        else if pattern.Bracketed? && !(e < |s| && s[e] == ']') then None
        else
          assert Pow10(|s[p..k]|) <= 100 && Pow10(|s[k + 1..e]|) <= 100;
          Some(SeriesInfo(Decimal(s[p..k]), Decimal(s[k + 1..e])))
  }

  /**
   * The scanner finds exactly the matches: it answers at `i` iff the pattern
   * has a match there, and then with the digits that match captures.
   */
  lemma MatchAtIsShape(pattern: SeriesPattern, s: string, i: nat, k: nat, e: nat)
    ensures MatchShape(pattern, s, i, k, e) ==>
      && MatchAt(pattern, s, i).Some?
      && AllDigits(s[SeasonStart(pattern, i)..k]) && AllDigits(s[k + 1..e])
      && MatchAt(pattern, s, i).value
         == SeriesInfo(Decimal(s[SeasonStart(pattern, i)..k]), Decimal(s[k + 1..e]))
  {
    if MatchShape(pattern, s, i, k, e) {
      var p := SeasonStart(pattern, i);
      ShortDigitsAll(s, p, k);
      ShortDigitsAll(s, k + 1, e);
      if pattern.Bracketed? {
        BracketedAt(s, i, k, e);
      } else {
        UnbracketedAt(s, i, k, e);
      }
    }
  }

  /** Digits that `\d{1,2}` can capture are all digits. */
  lemma ShortDigitsAll(s: string, a: nat, b: nat)
    requires ShortDigits(s, a, b)
    ensures AllDigits(s[a..b])
  {
    assert forall j :: 0 <= j < b - a ==> s[a..b][j] == s[a + j];
  }

  /** The scanner at a match of the bracketed pattern. */
  lemma BracketedAt(s: string, i: nat, k: nat, e: nat)
    requires MatchShape(Bracketed, s, i, k, e)
    ensures MatchAt(Bracketed, s, i) == Some(SeriesInfo(Decimal(s[i + 2..k]), Decimal(s[k + 1..e])))
  {
    assert s[i..i + 2] == "[S";
    SpanStopsAt(s, i + 2, k, IsDigit);
    SpanStopsAt(s, k + 1, e, IsDigit);
  }

  /** The scanner at a match of the unbracketed pattern: the episode takes two digits when it can. */
  lemma UnbracketedAt(s: string, i: nat, k: nat, e: nat)
    requires MatchShape(Unbracketed, s, i, k, e)
    ensures MatchAt(Unbracketed, s, i) == Some(SeriesInfo(Decimal(s[i + 1..k]), Decimal(s[k + 1..e])))
  {
    assert s[i..i + 1] == "S";
    SpanStopsAt(s, i + 1, k, IsDigit);
    var run := Span(s, k + 1, IsDigit);
    if e < k + 3 {
      SpanStopsAt(s, k + 1, e, IsDigit);
    } else {
      assert run >= e;
    }
  }

  /** Every answer of the scanner comes from a match of the pattern. */
  lemma MatchAtHasShape(pattern: SeriesPattern, s: string, i: nat)
    requires MatchAt(pattern, s, i).Some?
    ensures exists k: nat, e: nat :: MatchShape(pattern, s, i, k, e)
  {
    var p := SeasonStart(pattern, i);
    var k := Span(s, p, IsDigit);
    var e := EpisodeEnd(pattern, k + 1, Span(s, k + 1, IsDigit));
    assert s[i..p] == (if pattern.Bracketed? then "[S" else "S");
    if pattern.Bracketed? {
      assert s[i] == '[' && s[i + 1] == 'S';
    } else {
      assert s[i] == 'S';
    }
    assert MatchShape(pattern, s, i, k, e);
  }

  /** A match starts inside the text, and not at a line feed. */
  lemma MatchIsOneLine(pattern: SeriesPattern, s: string, i: nat)
    requires MatchAt(pattern, s, i).Some?
    ensures i < |s| && s[i] != '\n'
  {
    var p := SeasonStart(pattern, i);
    assert s[i..p][0] == s[i];
  }

  /** Three digits after the `S`, as in `S123E4`, rule out a match at that `S`. */
  lemma LongSeasonNoMatch(pattern: SeriesPattern, s: string, i: nat)
    requires SeasonStart(pattern, i) + 3 <= |s|
    requires forall j :: SeasonStart(pattern, i) <= j < SeasonStart(pattern, i) + 3 ==> IsDigit(s[j])
    ensures MatchAt(pattern, s, i).None?
  {
    var p := SeasonStart(pattern, i);
    if s[i..p] == (if pattern.Bracketed? then "[S" else "S") {
      assert Span(s, p, IsDigit) >= p + 3 by {
        assert IsDigit(s[p]) && IsDigit(s[p + 1]) && IsDigit(s[p + 2]);
      }
    }
  }

  // ---------------------------------------------------------------------
  // Leftmost and rightmost matches
  // ---------------------------------------------------------------------

  /** The leftmost position at or after `from` where `pattern` matches. */
  function FirstMatch(pattern: SeriesPattern, s: string, from: nat): (r: Option<nat>)
    ensures r.Some? ==> from <= r.value < |s| && MatchAt(pattern, s, r.value).Some?
    ensures r.Some? ==> forall j :: from <= j < r.value ==> MatchAt(pattern, s, j).None?
    ensures r.None? ==> forall j :: from <= j ==> MatchAt(pattern, s, j).None?
    decreases |s| - from
  {
    if from >= |s| then
      assert forall j :: from <= j ==> MatchAt(pattern, s, j).None? by {
        forall j | from <= j
          ensures MatchAt(pattern, s, j).None?
        {
          if MatchAt(pattern, s, j).Some? {
            MatchIsOneLine(pattern, s, j);
          }
        }
      }
      None
    else if MatchAt(pattern, s, from).Some? then Some(from)
    else FirstMatch(pattern, s, from + 1)
  }

  /** The rightmost position in `[a, b)` where `pattern` matches. */
  function LastMatch(pattern: SeriesPattern, s: string, a: nat, b: nat): (r: Option<nat>)
    ensures r.Some? ==> a <= r.value < b && MatchAt(pattern, s, r.value).Some?
    ensures r.Some? ==> forall j: nat :: r.value < j < b ==> MatchAt(pattern, s, j).None?
    ensures r.None? ==> forall j: nat :: a <= j < b ==> MatchAt(pattern, s, j).None?
    decreases b
  {
    if b <= a then None
    else
      var here := MatchAt(pattern, s, b - 1);
      if here.Some? then Some(b - 1)
      else LastMatch(pattern, s, a, b - 1)
  }

  /** `captures_iter(s).next()` for the bracketed listing pattern: the leftmost match. */
  function ListingSeries(s: string): (r: Option<SeriesInfo>)
    ensures r.Some? ==> r.value.season < 100 && r.value.episode < 100
  {
    match FirstMatch(Bracketed, s, 0)
    case Some(i) => MatchAt(Bracketed, s, i)
    case None => None
  }

  /** `s[a..b]` holds no line feed. */
  ghost predicate SameLine(s: string, a: nat, b: nat) {
    forall j :: a <= j < b && j < |s| ==> s[j] != '\n'
  }

  /**
   * Where `.*S(\d{1,2})E(\d{1,2}).*` takes its captures: the last occurrence
   * on the first line that has one.
   */
  function EpisodeMatch(s: string): (r: Option<nat>)
    ensures r.Some? ==> MatchAt(Unbracketed, s, r.value).Some?
  {
    match FirstMatch(Unbracketed, s, 0)
    case Some(first) =>
      MatchIsOneLine(Unbracketed, s, first);
      LastMatch(Unbracketed, s, first, FindChar(s, first, '\n'))
    case None => None
  }

  /** `EpisodeMatch` finds nothing iff the pattern matches nowhere. */
  lemma EpisodeMatchNone(s: string)
    ensures EpisodeMatch(s).None? <==> forall j: nat :: MatchAt(Unbracketed, s, j).None?
  {
    if FirstMatch(Unbracketed, s, 0).Some? {
      var first := FirstMatch(Unbracketed, s, 0).value;
      MatchIsOneLine(Unbracketed, s, first);
      assert first < FindChar(s, first, '\n');
    }
  }

  /**
   * The regex reading of `EpisodeMatch`: every earlier occurrence lies on
   * the same line as the chosen one, and every later one on a later line.
   */
  lemma EpisodeMatchIsLastOnFirstLine(s: string, j: nat)
    requires EpisodeMatch(s).Some? && MatchAt(Unbracketed, s, j).Some?
    ensures j < EpisodeMatch(s).value ==> SameLine(s, j, EpisodeMatch(s).value)
    ensures j > EpisodeMatch(s).value ==> !SameLine(s, EpisodeMatch(s).value, j)
  {
    var first := FirstMatch(Unbracketed, s, 0).value;
    var lineEnd := FindChar(s, first, '\n');
    var q := EpisodeMatch(s).value;
    assert q == LastMatch(Unbracketed, s, first, lineEnd).value;
    if j < q {
      EarlierOnSameLine(s, first, lineEnd, j, q);
    } else if j > q {
      MatchIsOneLine(Unbracketed, s, j);
      assert lineEnd <= j;
      LaterOnLaterLine(s, first, lineEnd, j, q);
    }
  }

  /** A match between an earlier match and the line end lies on that line. */
  lemma EarlierOnSameLine(s: string, first: nat, lineEnd: nat, j: nat, q: nat)
    requires first <= |s| && lineEnd == FindChar(s, first, '\n')
    requires FirstMatch(Unbracketed, s, 0) == Some(first)
    requires MatchAt(Unbracketed, s, j).Some? && j < q < lineEnd
    ensures SameLine(s, j, q)
  {
  }

  /** A position past the end of the first line, not itself a line feed, lies on a later line. */
  lemma LaterOnLaterLine(s: string, first: nat, lineEnd: nat, j: nat, q: nat)
    requires first <= q < lineEnd <= j < |s| && lineEnd == FindChar(s, first, '\n')
    requires s[j] != '\n'
    ensures !SameLine(s, q, j)
  {
    assert lineEnd < j && s[lineEnd] == '\n';
  }

  /** The season and episode of an episode title, when the pattern matches. */
  function EpisodeSeries(s: string): (r: Option<SeriesInfo>)
    ensures r.Some? <==> EpisodeMatch(s).Some?
    ensures r.Some? ==> r.value.season < 100 && r.value.episode < 100
  {
    match EpisodeMatch(s)
    case Some(q) => MatchAt(Unbracketed, s, q)
    case None => None
  }
}
