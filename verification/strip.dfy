/**
 * `strip_html_tags` (src/strip.rs): a four-stage rewrite that deletes open
 * tags, then close tags, then turns `&nbsp;` and U+00A0 into plain spaces.
 * Each regular expression stage is a left-to-right scanner that deletes the
 * leftmost, non-overlapping matches, as `Regex::replace_all` does.
 */
module Strip {
  import opened Strings

  /** The HTML entity for a no-break space. */
  const SPACE_CHARACTER_CODE: string := "&nbsp;"

  /** What both no-break space spellings become. */
  const SPACE_CHARACTER_VALUE: string := " "

  /** The two tag patterns: `<\s*\w[^>]*>` and `</[\w+]+>`. */
  datatype TagKind = OpenTag | CloseTag

  /** `[\w+]`: inside the class the plus sign is literal. */
  predicate IsCloseNameChar(c: char) {
    IsWordChar(c) || c == '+'
  }

  // ---------------------------------------------------------------------
  // The patterns, as whole-string matches (the reference reading)
  // ---------------------------------------------------------------------

  /** `t` as a whole matches `<\s*\w[^>]*>`. */
  ghost predicate IsOpenTagText(t: string) {
    && |t| >= 3 && t[0] == '<' && t[|t| - 1] == '>'
    && exists w ::
         && 1 <= w < |t| - 1
         && (forall k :: 1 <= k < w ==> IsSpace(t[k]))
         && IsWordChar(t[w])
         && (forall k :: w < k < |t| - 1 ==> t[k] != '>')
  }

  /** `t` as a whole matches `</[\w+]+>`. */
  ghost predicate IsCloseTagText(t: string) {
    && |t| >= 4 && t[0] == '<' && t[1] == '/' && t[|t| - 1] == '>'
    && forall k :: 2 <= k < |t| - 1 ==> IsCloseNameChar(t[k])
  }

  /** A whole tag of the given kind. */
  ghost predicate IsTagText(kind: TagKind, t: string) {
    match kind
    case OpenTag => IsOpenTagText(t)
    case CloseTag => IsCloseTagText(t)
  }

  // ---------------------------------------------------------------------
  // The scanners
  // ---------------------------------------------------------------------

  /** A match of `kind` starts at the beginning of `s`. */
  predicate TagAt(kind: TagKind, s: string) {
    match kind
    case OpenTag =>
      |s| > 0 && s[0] == '<' &&
      (var w := Span(s, 1, IsSpace);
       w < |s| && IsWordChar(s[w]) && FindChar(s, w, '>') < |s|)
    case CloseTag =>
      |s| > 1 && s[0] == '<' && s[1] == '/' &&
      (var n := Span(s, 2, IsCloseNameChar);
       2 < n < |s| && s[n] == '>')
  }

  /**
   * The length of the match that starts at the beginning of `s`: it runs
   * from the `<` to the first `>` after it.
   */
  function TagEnd(kind: TagKind, s: string): (e: nat)
    requires TagAt(kind, s)
    ensures 3 <= e <= |s| && s[e - 1] == '>'
    ensures forall k :: 0 < k < e - 1 ==> s[k] != '>'
  {
    match kind
    case OpenTag => FindChar(s, Span(s, 1, IsSpace), '>') + 1
    case CloseTag => Span(s, 2, IsCloseNameChar) + 1
  }

  /**
   * The scanner finds exactly the matches of the pattern: a match starts at
   * the beginning of `s` iff some prefix of `s` matches, and then that prefix
   * is unique and as long as the scanner says.
   */
  lemma TagAtIsMatch(kind: TagKind, s: string)
    ensures TagAt(kind, s) ==> IsTagText(kind, s[..TagEnd(kind, s)])
    ensures forall e :: 0 < e <= |s| && IsTagText(kind, s[..e]) ==>
      TagAt(kind, s) && e == TagEnd(kind, s)
  {
    if kind == OpenTag {
      OpenScanSound(s);
    }
    forall e | 0 < e <= |s| && IsTagText(kind, s[..e])
      ensures TagAt(kind, s) && e == TagEnd(kind, s)
    {
      match kind
      case OpenTag => OpenScanComplete(s, e);
      case CloseTag => CloseScanComplete(s, e);
    }
  }

  /** What the open-tag scanner accepts matches the pattern. */
  lemma OpenScanSound(s: string)
    ensures TagAt(OpenTag, s) ==> IsOpenTagText(s[..TagEnd(OpenTag, s)])
  {
    if TagAt(OpenTag, s) {
      var w := Span(s, 1, IsSpace);
      var t := s[..TagEnd(OpenTag, s)];
      assert 1 <= w < |t| - 1 && (forall k :: 1 <= k < w ==> IsSpace(t[k])) && IsWordChar(t[w]);
    }
  }

  /** Every match of the open-tag pattern is found by the scanner, whole. */
  lemma OpenScanComplete(s: string, e: nat)
    requires 0 < e <= |s| && IsOpenTagText(s[..e])
    ensures TagAt(OpenTag, s) && e == TagEnd(OpenTag, s)
  {
    var t := s[..e];
    var w :| 1 <= w < |t| - 1 && (forall k :: 1 <= k < w ==> IsSpace(t[k]))
      && IsWordChar(t[w]) && (forall k :: w < k < |t| - 1 ==> t[k] != '>');
    assert forall k :: 0 <= k < e ==> s[k] == t[k];
    OpenScanAt(s, e, w);
  }

  /** The scanner on a text whose first `e` characters are an open tag with its name at `w`. */
  lemma OpenScanAt(s: string, e: nat, w: nat)
    requires 1 <= w < e - 1 && e <= |s| && s[0] == '<' && s[e - 1] == '>'
    requires forall k :: 1 <= k < w ==> IsSpace(s[k])
    requires IsWordChar(s[w])
    requires forall k :: w < k < e - 1 ==> s[k] != '>'
    ensures TagAt(OpenTag, s) && e == TagEnd(OpenTag, s)
  {
    SpanStopsAt(s, 1, w, IsSpace);
    FindCharStopsAt(s, w, e - 1, '>');
  }

  /** Every match of the close-tag pattern is found by the scanner, whole. */
  lemma CloseScanComplete(s: string, e: nat)
    requires 0 < e <= |s| && IsCloseTagText(s[..e])
    ensures TagAt(CloseTag, s) && e == TagEnd(CloseTag, s)
  {
    assert Span(s, 2, IsCloseNameChar) == e - 1;
  }

  /** `Regex::replace_all(s, "")` for the pattern of `kind`. */
  function DeleteTags(s: string, kind: TagKind): (r: string)
    ensures |r| <= |s|
    decreases |s|
  {
    if s == [] then []
    else if TagAt(kind, s) then DeleteTags(s[TagEnd(kind, s)..], kind)
    else [s[0]] + DeleteTags(s[1..], kind)
  }

  /** `strip_html_tags`. */
  function StripHtmlTags(text: string): (r: string)
    ensures |r| <= |text|
    ensures forall i: nat :: !OccursAt(r, i, SPACE_CHARACTER_CODE)
    ensures NBSP !in r
  {
    var withoutOpen := DeleteTags(text, OpenTag);
    var withoutClose := DeleteTags(withoutOpen, CloseTag);
    var codesReplaced := ReplaceAll(withoutClose, SPACE_CHARACTER_CODE, SPACE_CHARACTER_VALUE);
    ReplaceEliminates(withoutClose, SPACE_CHARACTER_CODE, SPACE_CHARACTER_VALUE);
    ReplaceCharwise(codesReplaced, [NBSP], SPACE_CHARACTER_VALUE);
    CharwiseCreatesNothing(codesReplaced, [NBSP], SPACE_CHARACTER_VALUE, SPACE_CHARACTER_CODE);
    ReplaceAll(codesReplaced, [NBSP], SPACE_CHARACTER_VALUE)
  }

  /** No match of `kind` starts anywhere in `s`. */
  predicate NoTagIn(kind: TagKind, s: string) {
    forall i: nat :: i < |s| ==> !TagAt(kind, s[i..])
  }

  /** A stage deletes nothing exactly when the pattern matches nowhere in the text. */
  lemma {:induction false} DeleteUnchanged(s: string, kind: TagKind)
    ensures DeleteTags(s, kind) == s <==> NoTagIn(kind, s)
    decreases |s|
  {
    if s != [] {
      if TagAt(kind, s) {
        assert s[0..] == s;
      } else {
        DeleteUnchanged(s[1..], kind);
        assert DeleteTags(s, kind) == [s[0]] + DeleteTags(s[1..], kind);
        assert s == [s[0]] + s[1..];
        assert NoTagIn(kind, s) <==> NoTagIn(kind, s[1..]) by {
          if NoTagIn(kind, s[1..]) {
            forall i: nat | i < |s|
              ensures !TagAt(kind, s[i..])
            {
              if i > 0 {
                assert s[1..][i - 1..] == s[i..];
              }
            }
          }
        }
      }
    }
  }

  /** A match anywhere means the stage deletes something. */
  lemma {:induction false} DeleteShrinks(s: string, kind: TagKind, i: nat)
    requires i < |s| && TagAt(kind, s[i..])
    ensures |DeleteTags(s, kind)| < |s|
    decreases |s|
  {
    if !TagAt(kind, s) {
      assert i > 0 && s[1..][i - 1..] == s[i..];
      DeleteShrinks(s[1..], kind, i - 1);
    }
  }

  // ---------------------------------------------------------------------
  // Provenance: every output character comes from the input, in order
  // ---------------------------------------------------------------------

  /** Where each character left by `DeleteTags` sits in its input. */
  ghost function DeleteOrigins(s: string, kind: TagKind): seq<nat>
    decreases |s|
  {
    if s == [] then []
    else if TagAt(kind, s) then Shift(DeleteOrigins(s[TagEnd(kind, s)..], kind), TagEnd(kind, s))
    else [0] + Shift(DeleteOrigins(s[1..], kind), 1)
  }

  /** `o` maps `out` into `inp`, and every character of `out` is a copy. */
  ghost predicate TracesCopy(out: string, inp: string, o: seq<nat>) {
    IsOriginMap(out, inp, o) && forall k :: 0 <= k < |out| ==> out[k] == inp[o[k]]
  }

  /** Skipping a prefix of the input keeps a trace of copies. */
  lemma CopySkip(out: string, inp: string, o: seq<nat>, d: nat)
    requires d <= |inp| && TracesCopy(out, inp[d..], o)
    ensures TracesCopy(out, inp, Shift(o, d))
  {
    forall k | 0 <= k < |out|
      ensures out[k] == inp[Shift(o, d)[k]]
    {
      assert inp[d..][o[k]] == inp[o[k] + d];
    }
  }

  /** Copying the first input character keeps a trace of copies. */
  lemma CopyKeep(out: string, inp: string, o: seq<nat>)
    requires 0 < |inp| && TracesCopy(out, inp[1..], o)
    ensures TracesCopy([inp[0]] + out, inp, [0] + Shift(o, 1))
  {
    ConsOrigins(inp[0], out, inp, o, 1);
    CopySkip(out, inp, o, 1);
  }

  /** Deleting tags only deletes: the output is the input with some characters left out. */
  lemma {:induction false} DeleteTrace(s: string, kind: TagKind)
    ensures TracesCopy(DeleteTags(s, kind), s, DeleteOrigins(s, kind))
    decreases |s|
  {
    if s != [] {
      if TagAt(kind, s) {
        var e := TagEnd(kind, s);
        DeleteTrace(s[e..], kind);
        CopySkip(DeleteTags(s[e..], kind), s, DeleteOrigins(s[e..], kind), e);
      } else {
        DeleteTrace(s[1..], kind);
        CopyKeep(DeleteTags(s[1..], kind), s, DeleteOrigins(s[1..], kind));
      }
    }
  }

  /** Where each character left by the four stages sits in the original text. */
  ghost function StripOrigins(text: string): seq<nat> {
    var withoutOpen := DeleteTags(text, OpenTag);
    var withoutClose := DeleteTags(withoutOpen, CloseTag);
    var codesReplaced := ReplaceAll(withoutClose, SPACE_CHARACTER_CODE, SPACE_CHARACTER_VALUE);
    DeleteTrace(text, OpenTag);
    DeleteTrace(withoutOpen, CloseTag);
    ReplaceTrace(withoutClose, SPACE_CHARACTER_CODE, SPACE_CHARACTER_VALUE);
    ReplaceTrace(codesReplaced, [NBSP], SPACE_CHARACTER_VALUE);
    var o1 := DeleteOrigins(text, OpenTag);
    var o2 := DeleteOrigins(withoutOpen, CloseTag);
    var o3 := ReplaceOrigins(withoutClose, SPACE_CHARACTER_CODE, SPACE_CHARACTER_VALUE);
    var o4 := ReplaceOrigins(codesReplaced, [NBSP], SPACE_CHARACTER_VALUE);
    Compose(Compose(Compose(o1, o2), o3), o4)
  }

  /**
   * Every output character is an input character, copied in order, or a space
   * standing where the input had the `&` of an `&nbsp;` or a U+00A0.
   */
  lemma StripTrace(text: string)
    ensures IsOriginMap(StripHtmlTags(text), text, StripOrigins(text))
    ensures forall k :: 0 <= k < |StripHtmlTags(text)| ==>
      var c := StripHtmlTags(text)[k];
      var origin := text[StripOrigins(text)[k]];
      c == origin || (c == ' ' && (origin == '&' || origin == NBSP))
  {
    var withoutOpen := DeleteTags(text, OpenTag);
    var withoutClose := DeleteTags(withoutOpen, CloseTag);
    var codesReplaced := ReplaceAll(withoutClose, SPACE_CHARACTER_CODE, SPACE_CHARACTER_VALUE);
    var r := StripHtmlTags(text);
    DeleteTrace(text, OpenTag);
    DeleteTrace(withoutOpen, CloseTag);
    ReplaceTrace(withoutClose, SPACE_CHARACTER_CODE, SPACE_CHARACTER_VALUE);
    ReplaceTrace(codesReplaced, [NBSP], SPACE_CHARACTER_VALUE);
    var o1 := DeleteOrigins(text, OpenTag);
    var o2 := DeleteOrigins(withoutOpen, CloseTag);
    var o3 := ReplaceOrigins(withoutClose, SPACE_CHARACTER_CODE, SPACE_CHARACTER_VALUE);
    var o4 := ReplaceOrigins(codesReplaced, [NBSP], SPACE_CHARACTER_VALUE);
    var o12 := Compose(o1, o2);
    var o123 := Compose(o12, o3);
    ComposeOrigins(withoutClose, withoutOpen, text, o2, o1);
    ComposeOrigins(codesReplaced, withoutClose, text, o3, o12);
    ComposeOrigins(r, codesReplaced, text, o4, o123);
    // Characters of the middle strings, traced back to the input.
    assert forall j :: 0 <= j < |withoutClose| ==> withoutClose[j] == text[o12[j]];
    forall j | 0 <= j < |codesReplaced|
      ensures codesReplaced[j] == text[o123[j]] || (codesReplaced[j] == ' ' && text[o123[j]] == '&')
    {
      if codesReplaced[j] != withoutClose[o3[j]] {
        assert withoutClose[o3[j]] == SPACE_CHARACTER_CODE[0];
      }
    }
  }

  // ---------------------------------------------------------------------
  // Stage-by-stage rewriting of concatenations
  // ---------------------------------------------------------------------

  /** Text without `<` passes every tag-deleting stage unchanged. */
  lemma {:induction false} DeletePlainPrefix(p: string, rest: string, kind: TagKind)
    requires '<' !in p
    ensures DeleteTags(p + rest, kind) == p + DeleteTags(rest, kind)
    decreases |p|
  {
    if p != [] {
      assert (p + rest)[0] == p[0] != '<';
      assert (p + rest)[1..] == p[1..] + rest;
      DeletePlainPrefix(p[1..], rest, kind);
      assert p + DeleteTags(rest, kind) == [p[0]] + (p[1..] + DeleteTags(rest, kind));
    } else {
      assert p + rest == rest;
    }
  }

  /** A complete match at the front is deleted and the scan resumes after it. */
  lemma DeleteTagPrefix(t: string, rest: string, kind: TagKind)
    requires IsTagText(kind, t)
    ensures DeleteTags(t + rest, kind) == DeleteTags(rest, kind)
  {
    assert (t + rest)[..|t|] == t;
    TagAtIsMatch(kind, t + rest);
    assert (t + rest)[|t|..] == rest;
  }

  /** A character that starts no match is kept. */
  lemma DeleteKeepsChar(c: char, rest: string, kind: TagKind)
    requires !TagAt(kind, [c] + rest)
    ensures DeleteTags([c] + rest, kind) == [c] + DeleteTags(rest, kind)
  {
    assert ([c] + rest)[1..] == rest;
  }

  /** `<`, a name starting with a word character, attributes, `>`: an open tag. */
  lemma OpenTagIntro(name: string, attributes: string)
    requires name != [] && IsWordChar(name[0]) && '>' !in name && '>' !in attributes
    ensures IsOpenTagText("<" + name + attributes + ">")
  {
    var t := "<" + name + attributes + ">";
    forall k | 1 <= k < |t| - 1
      ensures t[k] != '>'
    {
      if k <= |name| {
        assert t[k] == name[k - 1];
      } else {
        assert t[k] == attributes[k - 1 - |name|];
      }
    }
    assert IsWordChar(t[1]);
  }

  // ---------------------------------------------------------------------
  // Markup built from well-behaved pieces
  // ---------------------------------------------------------------------

  /**
   * A piece of simple markup: text free of `<`, `&` and U+00A0, an open tag
   * `<` name attributes `>`, a close tag `</` name `>`, an `&nbsp;` entity or
   * a U+00A0.
   */
  datatype Piece =
    | Plain(text: string)
    | Open(name: string, attributes: string)
    | Close(tagName: string)
    | EntitySpace
    | NoBreakSpace

  /** A piece renders as itself and does not run into its neighbours. */
  predicate WellFormedPiece(p: Piece) {
    match p
    case Plain(t) => '<' !in t && '&' !in t && NBSP !in t
    case Open(n, a) => n != [] && IsWordChar(n[0]) && '>' !in n && '>' !in a
    case Close(n) => n != [] && forall k :: 0 <= k < |n| ==> IsCloseNameChar(n[k])
    case EntitySpace => true
    case NoBreakSpace => true
  }

  /**
   * The text of a piece after the first `stage` stages of `strip_html_tags`:
   * 0 is the markup itself, 1 after open tags, 2 after close tags, 3 after
   * `&nbsp;`, 4 after U+00A0.
   */
  function RenderAt(p: Piece, stage: nat): string {
    match p
    case Plain(t) => t
    case Open(n, a) => if stage >= 1 then "" else "<" + n + a + ">"
    case Close(n) => if stage >= 2 then "" else "</" + n + ">"
    case EntitySpace => if stage >= 3 then SPACE_CHARACTER_VALUE else SPACE_CHARACTER_CODE
    case NoBreakSpace => if stage >= 4 then SPACE_CHARACTER_VALUE else [NBSP]
  }

  /** A list of pieces rendered at a stage and joined. */
  function JoinAt(ps: seq<Piece>, stage: nat): string
    decreases |ps|
  {
    if ps == [] then [] else RenderAt(ps[0], stage) + JoinAt(ps[1..], stage)
  }

  /** The open-tag stage on one piece followed by anything. */
  lemma OpenStageOnPiece(p: Piece, rest: string)
    requires WellFormedPiece(p)
    ensures DeleteTags(RenderAt(p, 0) + rest, OpenTag) == RenderAt(p, 1) + DeleteTags(rest, OpenTag)
  {
    match p
    case Open(n, a) => OpenTagDeleted(n, a, rest);
    case Close(n) => CloseTagSurvivesOpenStage(n, rest);
    case _ => DeletePlainPrefix(RenderAt(p, 0), rest, OpenTag);
  }

  /** A well-formed open tag is removed whole by the open-tag stage. */
  lemma OpenTagDeleted(name: string, attributes: string, rest: string)
    requires name != [] && IsWordChar(name[0])
    requires '>' !in name && '>' !in attributes
    ensures DeleteTags("<" + name + attributes + ">" + rest, OpenTag) == DeleteTags(rest, OpenTag)
  {
    OpenTagIntro(name, attributes);
    DeleteTagPrefix("<" + name + attributes + ">", rest, OpenTag);
  }

  /** A close tag is not an open tag: `/` is not a word character. */
  lemma CloseTagSurvivesOpenStage(name: string, rest: string)
    requires '<' !in name
    ensures DeleteTags("</" + name + ">" + rest, OpenTag) == "</" + name + ">" + DeleteTags(rest, OpenTag)
  {
    var tail := "/" + name + ">";
    DeletePlainPrefix(tail, rest, OpenTag);
    var s := ['<'] + (tail + rest);
    assert s[1] == '/';
    assert Span(s, 1, IsSpace) == 1;
    assert !TagAt(OpenTag, s);
    DeleteKeepsChar('<', tail + rest, OpenTag);
    assert "</" + name + ">" + rest == s;
  }

  /** The close-tag stage on one piece followed by anything. */
  lemma CloseStageOnPiece(p: Piece, rest: string)
    requires WellFormedPiece(p)
    ensures DeleteTags(RenderAt(p, 1) + rest, CloseTag) == RenderAt(p, 2) + DeleteTags(rest, CloseTag)
  {
    match p
    case Close(n) =>
      var t := "</" + n + ">";
      assert forall k :: 2 <= k < |t| - 1 ==> t[k] == n[k - 2];
      assert IsCloseTagText(t);
      DeleteTagPrefix(t, rest, CloseTag);
    case _ =>
      DeletePlainPrefix(RenderAt(p, 1), rest, CloseTag);
  }

  /** The `&nbsp;` stage on one piece followed by anything. */
  lemma EntityStageOnPiece(p: Piece, rest: string)
    requires WellFormedPiece(p)
    ensures ReplaceAll(RenderAt(p, 2) + rest, SPACE_CHARACTER_CODE, SPACE_CHARACTER_VALUE)
      == RenderAt(p, 3) + ReplaceAll(rest, SPACE_CHARACTER_CODE, SPACE_CHARACTER_VALUE)
  {
    if p.EntitySpace? {
      ReplacePatternPrefix(rest, SPACE_CHARACTER_CODE, SPACE_CHARACTER_VALUE);
    } else {
      ReplacePlainPrefix(RenderAt(p, 2), rest, SPACE_CHARACTER_CODE, SPACE_CHARACTER_VALUE);
    }
  }

  /** The U+00A0 stage on one piece followed by anything. */
  lemma NbspStageOnPiece(p: Piece, rest: string)
    requires WellFormedPiece(p)
    ensures ReplaceAll(RenderAt(p, 3) + rest, [NBSP], SPACE_CHARACTER_VALUE)
      == RenderAt(p, 4) + ReplaceAll(rest, [NBSP], SPACE_CHARACTER_VALUE)
  {
    if p.NoBreakSpace? {
      ReplacePatternPrefix(rest, [NBSP], SPACE_CHARACTER_VALUE);
    } else {
      ReplacePlainPrefix(RenderAt(p, 3), rest, [NBSP], SPACE_CHARACTER_VALUE);
    }
  }

  /** One stage of `strip_html_tags`, by number. */
  function StageStep(s: string, stage: nat): string
    requires 1 <= stage <= 4
  {
    match stage
    case 1 => DeleteTags(s, OpenTag)
    case 2 => DeleteTags(s, CloseTag)
    case 3 => ReplaceAll(s, SPACE_CHARACTER_CODE, SPACE_CHARACTER_VALUE)
    case 4 => ReplaceAll(s, [NBSP], SPACE_CHARACTER_VALUE)
  }

  /** The stripper is its four stages in order. */
  lemma StripInStages(text: string)
    ensures StripHtmlTags(text) == StageStep(StageStep(StageStep(StageStep(text, 1), 2), 3), 4)
  {
  }

  /** Each stage turns the pieces' texts of the previous stage into those of the next. */
  lemma {:induction false} StageOnPieces(ps: seq<Piece>, stage: nat)
    requires 1 <= stage <= 4
    requires forall i :: 0 <= i < |ps| ==> WellFormedPiece(ps[i])
    ensures StageStep(JoinAt(ps, stage - 1), stage) == JoinAt(ps, stage)
    decreases |ps|
  {
    if ps != [] {
      var rest := JoinAt(ps[1..], stage - 1);
      StageOnPieces(ps[1..], stage);
      match stage
      case 1 => OpenStageOnPiece(ps[0], rest);
      case 2 => CloseStageOnPiece(ps[0], rest);
      case 3 => EntityStageOnPiece(ps[0], rest);
      case 4 => NbspStageOnPiece(ps[0], rest);
    }
  }

  /**
   * Markup made of well-formed pieces is stripped to the text of its pieces,
   * with each no-break space, in either spelling, turned into a plain space.
   */
  lemma StripPieces(ps: seq<Piece>)
    requires forall i :: 0 <= i < |ps| ==> WellFormedPiece(ps[i])
    ensures StripHtmlTags(JoinAt(ps, 0)) == JoinAt(ps, 4)
  {
    StripInStages(JoinAt(ps, 0));
    StageOnPieces(ps, 1);
    StageOnPieces(ps, 2);
    StageOnPieces(ps, 3);
    StageOnPieces(ps, 4);
  }

  // ---------------------------------------------------------------------
  // Texts the stripper leaves alone
  // ---------------------------------------------------------------------

  /**
   * `strip_html_tags` returns its input unchanged exactly when no tag of
   * either pattern starts anywhere in it and it holds no `&nbsp;` and no U+00A0.
   */
  lemma StripUnchanged(text: string)
    ensures StripHtmlTags(text) == text <==>
      && NoTagIn(OpenTag, text)
      && NoTagIn(CloseTag, text)
      && (forall i: nat :: !OccursAt(text, i, SPACE_CHARACTER_CODE))
      && NBSP !in text
  {
    if StripHtmlTags(text) == text {
      UnchangedHasNothingToStrip(text);
    }
    if NoTagIn(OpenTag, text) && NoTagIn(CloseTag, text) && NBSP !in text
      && forall i: nat :: !OccursAt(text, i, SPACE_CHARACTER_CODE)
    {
      NothingToStripUnchanged(text);
    }
  }

  /** Every stage is the identity on a text it finds nothing in. */
  lemma NothingToStripUnchanged(text: string)
    requires NoTagIn(OpenTag, text) && NoTagIn(CloseTag, text) && NBSP !in text
    requires forall i: nat :: !OccursAt(text, i, SPACE_CHARACTER_CODE)
    ensures StripHtmlTags(text) == text
  {
    DeleteUnchanged(text, OpenTag);
    DeleteUnchanged(text, CloseTag);
    ReplaceAbsent(text, SPACE_CHARACTER_CODE, SPACE_CHARACTER_VALUE);
    forall i: nat
      ensures !OccursAt(text, i, [NBSP])
    {
      if i < |text| {
        assert text[i] != NBSP;
      }
    }
    ReplaceAbsent(text, [NBSP], SPACE_CHARACTER_VALUE);
  }

  /** A tag stage that finds something shortens the text. */
  lemma UnchangedHasNothingToStrip(text: string)
    requires StripHtmlTags(text) == text
    ensures NoTagIn(OpenTag, text) && NoTagIn(CloseTag, text) && NBSP !in text
    ensures forall i: nat :: !OccursAt(text, i, SPACE_CHARACTER_CODE)
  {
    var a := DeleteTags(text, OpenTag);
    var b := DeleteTags(a, CloseTag);
    var c := ReplaceAll(b, SPACE_CHARACTER_CODE, SPACE_CHARACTER_VALUE);
    ReplaceCharwise(c, [NBSP], SPACE_CHARACTER_VALUE);
    assert |text| == |c| <= |b| <= |a| <= |text|;
    if !NoTagIn(OpenTag, text) {
      var i: nat :| i < |text| && TagAt(OpenTag, text[i..]);
      DeleteShrinks(text, OpenTag, i);
    }
    DeleteUnchanged(text, OpenTag);
    if !NoTagIn(CloseTag, text) {
      var i: nat :| i < |text| && TagAt(CloseTag, text[i..]);
      DeleteShrinks(text, CloseTag, i);
    }
    DeleteUnchanged(text, CloseTag);
  }

  /** Text with no `<`, no `&nbsp;` and no U+00A0 comes back as it is. */
  lemma StripPlainText(text: string)
    requires '<' !in text && NBSP !in text
    requires forall i: nat :: !OccursAt(text, i, SPACE_CHARACTER_CODE)
    ensures StripHtmlTags(text) == text
  {
    forall i: nat | i < |text|
      ensures text[i..][0] != '<'
    {
    }
    StripUnchanged(text);
  }

  /** A close tag with anything but word characters and `+` between `</` and `>`, such as `</ b>`, is kept. */
  lemma LooseCloseTagKept(before: string, name: string, after: string)
    requires WellFormedPiece(Plain(before)) && WellFormedPiece(Plain(after))
    requires WellFormedPiece(Plain(name)) && '>' !in name
    requires exists k :: 0 <= k < |name| && !IsCloseNameChar(name[k])
    ensures StripHtmlTags(before + "</" + name + ">" + after) == before + "</" + name + ">" + after
  {
    var text := before + "</" + name + ">" + after;
    var tag := "</" + name + ">" + after;
    assert text == before + tag;
    forall i: nat | i < |text|
      ensures !TagAt(OpenTag, text[i..]) && !TagAt(CloseTag, text[i..])
    {
      if i == |before| {
        assert text[i..] == tag;
        LooseCloseTagIsNoTag(name, after);
      } else {
        assert text[i..][0] == text[i] != '<';
      }
    }
    forall i: nat
      ensures !OccursAt(text, i, SPACE_CHARACTER_CODE)
    {
      if i < |text| {
        assert text[i] != '&';
      }
    }
    NothingToStripUnchanged(text);
  }

  /** Neither pattern matches at the `<` of such a close tag. */
  lemma LooseCloseTagIsNoTag(name: string, after: string)
    requires '>' !in name
    requires exists k :: 0 <= k < |name| && !IsCloseNameChar(name[k])
    ensures !TagAt(OpenTag, "</" + name + ">" + after) && !TagAt(CloseTag, "</" + name + ">" + after)
  {
    var t := "</" + name + ">" + after;
    assert t[1] == '/';
    assert Span(t, 1, IsSpace) == 1;
    var k :| 0 <= k < |name| && !IsCloseNameChar(name[k]);
    assert !IsCloseNameChar(t[k + 2]);
    var n := Span(t, 2, IsCloseNameChar);
    assert n <= k + 2 && t[n] == name[n - 2];
  }

  // ---------------------------------------------------------------------
  // Typical inputs
  // ---------------------------------------------------------------------

  /** Joining five pieces is rendering each. */
  lemma JoinFive(ps: seq<Piece>, stage: nat)
    requires |ps| == 5
    ensures JoinAt(ps, stage)
      == RenderAt(ps[0], stage) + RenderAt(ps[1], stage) + RenderAt(ps[2], stage)
         + RenderAt(ps[3], stage) + RenderAt(ps[4], stage)
  {
    var r0, r1, r2, r3, r4 := RenderAt(ps[0], stage), RenderAt(ps[1], stage), RenderAt(ps[2], stage),
      RenderAt(ps[3], stage), RenderAt(ps[4], stage);
    assert JoinAt(ps[4..], stage) == r4 by {
      assert ps[4..][1..] == [];
      assert r4 + [] == r4;
    }
    assert JoinAt(ps[3..], stage) == r3 + r4 by {
      assert ps[3..][1..] == ps[4..];
    }
    assert JoinAt(ps[2..], stage) == r2 + (r3 + r4) by {
      assert ps[2..][1..] == ps[3..];
    }
    assert JoinAt(ps[1..], stage) == r1 + (r2 + (r3 + r4)) by {
      assert ps[1..][1..] == ps[2..];
    }
    assert JoinAt(ps, stage) == r0 + (r1 + (r2 + (r3 + r4)));
    RegroupFive(r0, r1, r2, r3, r4);
  }

  /** Five strings joined from the right are joined from the left. */
  lemma RegroupFive(a: string, b: string, c: string, d: string, e: string)
    ensures a + (b + (c + (d + e))) == a + b + c + d + e
  {
  }

  /** Five well-formed pieces in a row. */
  lemma StripFive(p0: Piece, p1: Piece, p2: Piece, p3: Piece, p4: Piece)
    requires WellFormedPiece(p0) && WellFormedPiece(p1) && WellFormedPiece(p2)
    requires WellFormedPiece(p3) && WellFormedPiece(p4)
    ensures StripHtmlTags(RenderAt(p0, 0) + RenderAt(p1, 0) + RenderAt(p2, 0) + RenderAt(p3, 0) + RenderAt(p4, 0))
      == RenderAt(p0, 4) + RenderAt(p1, 4) + RenderAt(p2, 4) + RenderAt(p3, 4) + RenderAt(p4, 4)
  {
    var ps := [p0, p1, p2, p3, p4];
    assert forall i :: 0 <= i < |ps| ==> WellFormedPiece(ps[i]);
    StripPieces(ps);
    JoinFive(ps, 0);
    JoinFive(ps, 4);
  }

  /** A word character followed by word characters is a name both patterns accept. */
  predicate IsTagName(name: string) {
    name != [] && forall k :: 0 <= k < |name| ==> IsWordChar(name[k])
  }

  /**
   * An element with attributes around plain text loses both its tags, as in
   * `Some text <span class="...">with</span> tags.`.
   */
  lemma StripElement(before: string, name: string, attributes: string, inner: string, after: string)
    requires WellFormedPiece(Plain(before)) && WellFormedPiece(Plain(inner)) && WellFormedPiece(Plain(after))
    requires IsTagName(name) && '>' !in attributes
    ensures StripHtmlTags(before + ("<" + name + attributes + ">") + inner + ("</" + name + ">") + after)
      == before + inner + after
  {
    StripFive(Plain(before), Open(name, attributes), Plain(inner), Close(name), Plain(after));
    assert before + "" + inner + "" + after == before + inner + after;
  }

  /**
   * Words joined by `&nbsp;` or by U+00A0 come out joined by plain spaces,
   * as in `How&nbsp;about&nbsp;special&nbsp;combinations?` and `12.45` U+00A0 `GB`.
   */
  lemma StripSpaces(before: string, middle: string, after: string)
    requires WellFormedPiece(Plain(before)) && WellFormedPiece(Plain(middle)) && WellFormedPiece(Plain(after))
    ensures StripHtmlTags(before + SPACE_CHARACTER_CODE + middle + [NBSP] + after)
      == before + " " + middle + " " + after
  {
    StripFive(Plain(before), EntitySpace, Plain(middle), NoBreakSpace, Plain(after));
  }

  /** A lone tag with no closing partner, such as `<br>` or `<wbr>`, is removed. */
  lemma StripLoneTag(before: string, name: string, attributes: string, after: string)
    requires WellFormedPiece(Plain(before)) && WellFormedPiece(Plain(after))
    requires IsTagName(name) && '>' !in attributes
    ensures StripHtmlTags(before + ("<" + name + attributes + ">") + after) == before + after
  {
    StripFive(Plain(before), Open(name, attributes), Plain(after), Plain(""), Plain(""));
    assert before + ("<" + name + attributes + ">") + after + "" + "" == before + ("<" + name + attributes + ">") + after;
    assert before + "" + after + "" + "" == before + after;
  }

  /** Markup made of well-formed pieces strips part by part. */
  lemma StripConcat(ps: seq<Piece>, qs: seq<Piece>)
    requires forall i :: 0 <= i < |ps| ==> WellFormedPiece(ps[i])
    requires forall i :: 0 <= i < |qs| ==> WellFormedPiece(qs[i])
    ensures StripHtmlTags(JoinAt(ps, 0) + JoinAt(qs, 0))
      == StripHtmlTags(JoinAt(ps, 0)) + StripHtmlTags(JoinAt(qs, 0))
  {
    StripPieces(ps);
    StripPieces(qs);
    StripPieces(ps + qs);
    JoinAppend(ps, qs, 0);
    JoinAppend(ps, qs, 4);
  }

  /** Joining two lists one after the other is joining their concatenation. */
  lemma {:induction false} JoinAppend(ps: seq<Piece>, qs: seq<Piece>, stage: nat)
    ensures JoinAt(ps + qs, stage) == JoinAt(ps, stage) + JoinAt(qs, stage)
    decreases |ps|
  {
    if ps == [] {
      assert ps + qs == qs;
    } else {
      assert (ps + qs)[1..] == ps[1..] + qs;
      JoinAppend(ps[1..], qs, stage);
    }
  }

  // ---------------------------------------------------------------------
  // The stripper is not idempotent
  // ---------------------------------------------------------------------

  /** `<<b>a>` strips to `<a>`: the first `<` is followed by another `<` and starts no tag. */
  lemma StripNestedBracket(inner: string, word: string)
    requires IsTagName(inner) && IsTagName(word)
    ensures StripHtmlTags("<" + ("<" + inner + ">") + word + ">") == "<" + word + ">"
  {
    var z := "<" + word + ">";
    NestedOpenStage(inner, word);
    BracketedWordSurvivesCloseStage(word);
    ReplacePlainPrefix(z, [], SPACE_CHARACTER_CODE, SPACE_CHARACTER_VALUE);
    ReplacePlainPrefix(z, [], [NBSP], SPACE_CHARACTER_VALUE);
    assert z + [] == z;
  }

  /** The first stage removes the inner tag and leaves the outer brackets around the word. */
  lemma NestedOpenStage(inner: string, word: string)
    requires IsTagName(inner) && IsTagName(word)
    ensures DeleteTags("<" + ("<" + inner + ">") + word + ">", OpenTag) == "<" + word + ">"
  {
    OpenTagIntro(inner, "");
    assert "<" + inner + "" + ">" == "<" + inner + ">";
    TagAfterBracket("<" + inner + ">", word + ">");
    assert "<" + ("<" + inner + ">") + word + ">" == "<" + ("<" + inner + ">") + (word + ">");
  }

  /** A stray `<` right before a tag stays and the tag goes. */
  lemma TagAfterBracket(tag: string, rest: string)
    requires IsOpenTagText(tag) && '<' !in rest
    ensures DeleteTags("<" + tag + rest, OpenTag) == "<" + rest
  {
    assert "<" + tag + rest == "<" + (tag + rest);
    DoubledBracketKept(tag + rest);
    DeleteTagPrefix(tag, rest, OpenTag);
    DeletePlainPrefix(rest, [], OpenTag);
    assert rest + [] == rest;
  }

  /** A `<` followed by another `<` is not the start of a tag. */
  lemma DoubledBracketKept(rest: string)
    requires rest != [] && rest[0] == '<'
    ensures DeleteTags("<" + rest, OpenTag) == "<" + DeleteTags(rest, OpenTag)
  {
    var x := "<" + rest;
    assert x[1] == '<' && Span(x, 1, IsSpace) == 1;
    DeleteKeepsChar('<', rest, OpenTag);
  }

  /** `<word>` has no `/` and so is no closing tag. */
  lemma BracketedWordSurvivesCloseStage(word: string)
    requires IsTagName(word)
    ensures DeleteTags("<" + word + ">", CloseTag) == "<" + word + ">"
  {
    var z := "<" + word + ">";
    assert z == ['<'] + (word + ">") && z[1] == word[0];
    DeleteKeepsChar('<', word + ">", CloseTag);
    DeletePlainPrefix(word + ">", [], CloseTag);
    assert (word + ">") + [] == word + ">";
  }

  /** A second pass then removes `<a>` as an open tag. */
  lemma StripNotIdempotent(inner: string, word: string)
    requires IsTagName(inner) && IsTagName(word)
    ensures StripHtmlTags(StripHtmlTags("<" + ("<" + inner + ">") + word + ">")) == ""
    ensures StripHtmlTags(StripHtmlTags("<" + ("<" + inner + ">") + word + ">"))
      != StripHtmlTags("<" + ("<" + inner + ">") + word + ">")
  {
    StripNestedBracket(inner, word);
    OpenTagDeleted(word, "", []);
    assert "<" + word + "" + ">" + [] == "<" + word + ">";
  }
}
