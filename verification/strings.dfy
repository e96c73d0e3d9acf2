/**
 * The string primitives the scraper relies on: Rust's `str::replace`, the
 * ASCII readings of the regex classes `\d`, `\w` and `\s`, the UTF-8 length
 * that `String::len` reports, and provenance maps that say where each output
 * character of a rewrite came from.
 */
module Strings {

  /** U+00A0 NO-BREAK SPACE. */
  const NBSP: char := '\U{00A0}'

  /** `\d`, restricted to ASCII. */
  predicate IsDigit(c: char) {
    '0' <= c <= '9'
  }

  /** `\w`, restricted to ASCII. */
  predicate IsWordChar(c: char) {
    IsDigit(c) || 'a' <= c <= 'z' || 'A' <= c <= 'Z' || c == '_'
  }

  /** `\s`, restricted to ASCII: tab, line feed, vertical tab, form feed, carriage return, space. */
  predicate IsSpace(c: char) {
    c == ' ' || c == '\t' || c == '\n' || c == '\r' || c == '\U{000B}' || c == '\U{000C}'
  }

  /** The end of the longest run of characters satisfying `p` that starts at `i`. */
  function Span(s: string, i: nat, p: char -> bool): (j: nat)
    requires i <= |s|
    ensures i <= j <= |s|
    ensures forall k :: i <= k < j ==> p(s[k])
    ensures j < |s| ==> !p(s[j])
    decreases |s| - i
  {
    if i == |s| || !p(s[i]) then i else Span(s, i + 1, p)
  }

  /** The first index at or after `i` holding `c`, or `|s|` when there is none. */
  function FindChar(s: string, i: nat, c: char): (j: nat)
    requires i <= |s|
    ensures i <= j <= |s|
    ensures forall k :: i <= k < j ==> s[k] != c
    ensures j < |s| ==> s[j] == c
    decreases |s| - i
  {
    if i == |s| || s[i] == c then i else FindChar(s, i + 1, c)
  }

  /** A run of `p` that ends at `j` is the run `Span` finds. */
  lemma SpanStopsAt(s: string, i: nat, j: nat, p: char -> bool)
    requires i <= j <= |s|
    requires forall k :: i <= k < j ==> p(s[k])
    requires j < |s| ==> !p(s[j])
    ensures Span(s, i, p) == j
  {
  }

  /** The first `c` at or after `i` is the one `FindChar` finds. */
  lemma FindCharStopsAt(s: string, i: nat, j: nat, c: char)
    requires i <= j < |s| && s[j] == c
    requires forall k :: i <= k < j ==> s[k] != c
    ensures FindChar(s, i, c) == j
  {
  }

  /** `pat` occurs in `s` starting at index `i`. */
  predicate OccursAt(s: string, i: nat, pat: string) {
    i <= |s| && pat <= s[i..]
  }

  /**
   * Rust's `str::replace(pat, rep)`: every leftmost, non-overlapping
   * occurrence of `pat`, scanning left to right, is replaced by `rep`.
   */
  function ReplaceAll(s: string, pat: string, rep: string): (r: string)
    requires pat != []
    ensures |rep| <= |pat| ==> |r| <= |s|
    decreases |s|
  {
    if s == [] then []
    else if pat <= s then rep + ReplaceAll(s[|pat|..], pat, rep)
    else [s[0]] + ReplaceAll(s[1..], pat, rep)
  }

  /** A string in which `pat` does not occur is returned unchanged. */
  lemma {:induction false} ReplaceAbsent(s: string, pat: string, rep: string)
    requires pat != []
    requires forall i: nat :: !OccursAt(s, i, pat)
    ensures ReplaceAll(s, pat, rep) == s
    decreases |s|
  {
    if s != [] {
      assert !OccursAt(s, 0, pat);
      forall i: nat | OccursAt(s[1..], i, pat)
        ensures OccursAt(s, i + 1, pat)
      {
        assert s[1..][i..] == s[i + 1..];
      }
      ReplaceAbsent(s[1..], pat, rep);
    }
  }

  /** Replacing one character by one character is a character-by-character map. */
  lemma {:induction false} ReplaceCharwise(s: string, pat: string, rep: string)
    requires |pat| == 1 && |rep| == 1
    ensures |ReplaceAll(s, pat, rep)| == |s|
    ensures forall k :: 0 <= k < |s| ==>
      ReplaceAll(s, pat, rep)[k] == (if s[k] == pat[0] then rep[0] else s[k])
    decreases |s|
  {
    if s != [] {
      ReplaceCharwise(s[1..], pat, rep);
      assert pat <= s <==> s[0] == pat[0];
    }
  }

  /**
   * A character-by-character replacement by a character foreign to `p2`
   * creates no occurrence of `p2`.
   */
  lemma CharwiseCreatesNothing(s: string, pat: string, rep: string, p2: string)
    requires |pat| == 1 && |rep| == 1 && rep[0] !in p2
    ensures forall i: nat :: OccursAt(ReplaceAll(s, pat, rep), i, p2) ==> OccursAt(s, i, p2)
  {
    var r := ReplaceAll(s, pat, rep);
    ReplaceCharwise(s, pat, rep);
    forall i: nat | OccursAt(r, i, p2)
      ensures OccursAt(s, i, p2)
    {
      forall k | 0 <= k < |p2|
        ensures s[i + k] == p2[k]
      {
        assert r[i..][k] == p2[k];
      }
      assert s[i..][..|p2|] == p2;
    }
  }

  /**
   * While no `rep[0]` has been produced, the output of a replacement by a
   * character foreign to `pat` is a plain copy of the input.
   */
  lemma {:induction false} ReplacePrefixCopied(s: string, pat: string, rep: string, m: nat)
    requires pat != [] && |rep| == 1 && rep[0] !in pat
    requires m <= |ReplaceAll(s, pat, rep)|
    ensures rep[0] !in ReplaceAll(s, pat, rep)[..m] ==>
      m <= |s| && ReplaceAll(s, pat, rep)[..m] == s[..m]
    decreases |s|
  {
    var r := ReplaceAll(s, pat, rep);
    if m > 0 {
      if pat <= s {
        assert r[..m][0] == rep[0];
      } else {
        var t := ReplaceAll(s[1..], pat, rep);
        assert r == [s[0]] + t;
        assert t[..m - 1] == r[..m][1..];
        ReplacePrefixCopied(s[1..], pat, rep, m - 1);
        assert r[..m] == [s[0]] + t[..m - 1];
      }
    }
  }

  /**
   * Replacing `pat` by a single character that does not occur in `pat`
   * leaves no occurrence of `pat` behind.
   */
  lemma {:induction false} ReplaceEliminates(s: string, pat: string, rep: string)
    requires pat != [] && |rep| == 1 && rep[0] !in pat
    ensures forall i: nat :: !OccursAt(ReplaceAll(s, pat, rep), i, pat)
    decreases |s|
  {
    var r := ReplaceAll(s, pat, rep);
    if s != [] {
      var d := if pat <= s then |pat| else 1;
      var t := ReplaceAll(s[d..], pat, rep);
      assert r == (if pat <= s then rep else [s[0]]) + t;
      ReplaceEliminates(s[d..], pat, rep);
      forall i: nat
        ensures !OccursAt(r, i, pat)
      {
        if i == 0 {
          if pat <= s {
            assert r[0] == rep[0];
          } else if |pat| <= |r| {
            ReplacePrefixCopied(s, pat, rep, |pat|);
          }
        } else if i <= |r| {
          assert r[i..] == t[i - 1..];
          assert !OccursAt(t, i - 1, pat);
        }
      }
    }
  }

  /** A prefix without the first character of `pat` is copied as it is. */
  lemma {:induction false} ReplacePlainPrefix(p: string, rest: string, pat: string, rep: string)
    requires pat != [] && pat[0] !in p
    ensures ReplaceAll(p + rest, pat, rep) == p + ReplaceAll(rest, pat, rep)
    decreases |p|
  {
    if p != [] {
      assert (p + rest)[0] == p[0] != pat[0];
      assert (p + rest)[1..] == p[1..] + rest;
      ReplacePlainPrefix(p[1..], rest, pat, rep);
      assert p + ReplaceAll(rest, pat, rep) == [p[0]] + (p[1..] + ReplaceAll(rest, pat, rep));
    } else {
      assert p + rest == rest;
    }
  }

  /** A prefix in which no occurrence of `pat` starts is copied as it is. */
  lemma {:induction false} ReplaceSkipPrefix(p: string, rest: string, pat: string, rep: string)
    requires pat != []
    requires forall i: nat :: i < |p| ==> !OccursAt(p + rest, i, pat)
    ensures ReplaceAll(p + rest, pat, rep) == p + ReplaceAll(rest, pat, rep)
    decreases |p|
  {
    if p == [] {
      assert p + rest == rest;
    } else {
      var s := p + rest;
      assert !OccursAt(s, 0, pat) && s[0..] == s;
      assert s[1..] == p[1..] + rest;
      forall i: nat | i < |p[1..]|
        ensures !OccursAt(p[1..] + rest, i, pat)
      {
        assert !OccursAt(s, i + 1, pat);
        assert s[i + 1..] == (p[1..] + rest)[i..];
      }
      ReplaceSkipPrefix(p[1..], rest, pat, rep);
      assert p + ReplaceAll(rest, pat, rep) == [p[0]] + (p[1..] + ReplaceAll(rest, pat, rep));
    }
  }

  /** An occurrence of `pat` at the front is replaced and the scan resumes after it. */
  lemma ReplacePatternPrefix(rest: string, pat: string, rep: string)
    requires pat != []
    ensures ReplaceAll(pat + rest, pat, rep) == rep + ReplaceAll(rest, pat, rep)
  {
    assert (pat + rest)[|pat|..] == rest;
  }

  /** The UTF-8 width of one Unicode scalar value. */
  function Utf8Width(c: char): (w: nat)
    ensures 1 <= w <= 4
    ensures w == 1 <==> c as int < 0x80
  {
    if c as int < 0x80 then 1
    else if c as int < 0x800 then 2
    else if c as int < 0x1_0000 then 3
    else 4
  }

  /** `String::len`: the number of bytes of the UTF-8 encoding. */
  function Utf8Length(s: string): (n: nat)
    ensures |s| <= n <= 4 * |s|
  {
    if s == [] then 0 else Utf8Width(s[0]) + Utf8Length(s[1..])
  }

  /** More than one UTF-8 byte means more than one character, or one non-ASCII character. */
  lemma Utf8LengthAboveOne(s: string)
    ensures Utf8Length(s) > 1 <==> |s| > 1 || (|s| == 1 && s[0] as int >= 0x80)
  {
    if |s| == 1 {
      assert Utf8Length(s) == Utf8Width(s[0]) + Utf8Length(s[1..]);
    }
  }

  // ---------------------------------------------------------------------
  // Provenance of rewritten strings
  // ---------------------------------------------------------------------

  /**
   * `o` sends each character of `out` to a position of `inp`, strictly
   * increasing: `out` was read off `inp` left to right.
   */
  ghost predicate IsOriginMap(out: string, inp: string, o: seq<nat>) {
    && |o| == |out|
    && (forall k :: 0 <= k < |o| ==> o[k] < |inp|)
    && (forall j, k :: 0 <= j < k < |o| ==> o[j] < o[k])
  }

  /** The origins of a suffix that starts at `d`, as positions in the whole. */
  ghost function Shift(o: seq<nat>, d: nat): (r: seq<nat>)
    ensures |r| == |o|
    ensures forall k :: 0 <= k < |o| ==> r[k] == o[k] + d
  {
    seq(|o|, k requires 0 <= k < |o| => o[k] + d)
  }

  /** Following `inner` then `outer`. */
  ghost function Compose(outer: seq<nat>, inner: seq<nat>): (r: seq<nat>)
    requires forall k :: 0 <= k < |inner| ==> inner[k] < |outer|
    ensures |r| == |inner|
    ensures forall k :: 0 <= k < |inner| ==> r[k] == outer[inner[k]]
  {
    seq(|inner|, k requires 0 <= k < |inner| => outer[inner[k]])
  }

  /** One character read at position 0, then the rest read from position `d` on. */
  lemma ConsOrigins(c: char, out: string, inp: string, o: seq<nat>, d: nat)
    requires 0 < d <= |inp|
    requires IsOriginMap(out, inp[d..], o)
    ensures IsOriginMap([c] + out, inp, [0] + Shift(o, d))
  {
  }

  /** Origin maps compose: out from mid, mid from inp gives out from inp. */
  lemma ComposeOrigins(out: string, mid: string, inp: string, inner: seq<nat>, outer: seq<nat>)
    requires IsOriginMap(out, mid, inner)
    requires IsOriginMap(mid, inp, outer)
    ensures IsOriginMap(out, inp, Compose(outer, inner))
  {
  }

  /** Where each character of a replacement result comes from in its input. */
  ghost function ReplaceOrigins(s: string, pat: string, rep: string): seq<nat>
    requires pat != []
    decreases |s|
  {
    if s == [] then []
    else if pat <= s then [0] + Shift(ReplaceOrigins(s[|pat|..], pat, rep), |pat|)
    else [0] + Shift(ReplaceOrigins(s[1..], pat, rep), 1)
  }

  /**
   * `o` is an origin map from `out` to `inp` under which each output character
   * is the input character it came from, or `c` standing at an occurrence of `pat`.
   */
  ghost predicate TracesReplacement(out: string, inp: string, o: seq<nat>, pat: string, c: char) {
    && IsOriginMap(out, inp, o)
    && forall k :: 0 <= k < |out| ==> out[k] == inp[o[k]] || (out[k] == c && OccursAt(inp, o[k], pat))
  }

  /** With a one-character replacement, every output character is traced back to the input. */
  lemma {:induction false} ReplaceTrace(s: string, pat: string, rep: string)
    requires pat != [] && |rep| == 1
    ensures TracesReplacement(ReplaceAll(s, pat, rep), s, ReplaceOrigins(s, pat, rep), pat, rep[0])
    decreases |s|
  {
    if s != [] {
      var r := ReplaceAll(s, pat, rep);
      var o := ReplaceOrigins(s, pat, rep);
      var d := if pat <= s then |pat| else 1;
      var t := ReplaceAll(s[d..], pat, rep);
      var ot := ReplaceOrigins(s[d..], pat, rep);
      ReplaceTrace(s[d..], pat, rep);
      assert r == (if pat <= s then rep else [s[0]]) + t;
      assert o == [0] + Shift(ot, d);
      ConsOrigins(r[0], t, s, ot, d);
      forall k | 0 < k < |r|
        ensures r[k] == s[o[k]] || (r[k] == rep[0] && OccursAt(s, o[k], pat))
      {
        assert r[k] == t[k - 1];
        assert o[k] == ot[k - 1] + d;
        assert s[d..][ot[k - 1]..] == s[o[k]..];
      }
      assert r[0] == s[o[0]] || (r[0] == rep[0] && OccursAt(s, o[0], pat));
    }
  }
}
