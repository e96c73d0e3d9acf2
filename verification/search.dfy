/**
 * The search request URL (`get_request_url` in `src/search.rs`): the mask
 * has its spaces turned into `+` and is spliced, with the language, into a
 * fixed query template after the base URL. Nothing else is escaped.
 */
module Search {
  import opened Strings

  /** The path and first parameter, up to where the mask goes. */
  const SEARCH_PATH := "/ru/search2?MovieName="
  /** The parameters between the mask and the language. */
  const LANGUAGE_PARAMS := "&id=8&action=search&SubLanguageID=rus&SubLanguageID="
  /**
   * The empty or fixed parameters after the language. The source writes them
   * over several lines joined by backslash continuations, which drop the
   * line breaks and the indentation, so they form one unbroken string.
   */
  const FIXED_SUFFIX :=
    "&Season=&Episode=&SubSumCD=&Genre=&MovieByteSize=&MovieLanguage=&"
    + "MovieImdbRatingSign=1&MovieImdbRating=&MovieCountry=&MovieYearSign=1&"
    + "MovieYear=&MovieFPS=&SubFormat=&SubAddDate=&Uploader=&IDUser=&Translator=&"
    + "IMDBID=&MovieHash=&IDMovie="

  /** `search_mask.replace(" ", "+")`: every space becomes `+`, everything else stays. */
  function SanitizeMask(mask: string): (r: string)
    ensures |r| == |mask|
    ensures forall k :: 0 <= k < |mask| ==> r[k] == (if mask[k] == ' ' then '+' else mask[k])
    ensures ' ' !in r
  {
    ReplaceCharwise(mask, " ", "+");
    ReplaceAll(mask, " ", "+")
  }

  /** The inverse direction: every `+` back to a space. */
  function DesanitizeMask(s: string): (r: string)
    ensures |r| == |s|
    ensures forall k :: 0 <= k < |s| ==> r[k] == (if s[k] == '+' then ' ' else s[k])
  {
    ReplaceCharwise(s, "+", " ");
    ReplaceAll(s, "+", " ")
  }

  /** A mask without spaces is inserted as it is. */
  lemma SanitizeKeepsPlainMask(mask: string)
    requires ' ' !in mask
    ensures SanitizeMask(mask) == mask
  {
  }

  /** A mask that holds no `+` of its own can be read back from its sanitized form. */
  lemma SanitizeRoundTrip(mask: string)
    requires '+' !in mask
    ensures DesanitizeMask(SanitizeMask(mask)) == mask
  {
  }

  /** Sanitizing twice is sanitizing once. */
  lemma SanitizeIdempotent(mask: string)
    ensures SanitizeMask(SanitizeMask(mask)) == SanitizeMask(mask)
  {
  }

  /**
   * `get_request_url`: the base URL, the search path, the sanitized mask,
   * the language parameters, the language and the fixed parameters, each in
   * its place and in that order. Base URL and language are copied verbatim.
   */
  function GetRequestUrl(baseUrl: string, mask: string, language: string): (r: string)
    ensures |r| == |baseUrl| + |SEARCH_PATH| + |mask| + |LANGUAGE_PARAMS| + |language| + |FIXED_SUFFIX|
    ensures var m := |baseUrl| + |SEARCH_PATH|;
      var l := m + |mask| + |LANGUAGE_PARAMS|;
      && r[..|baseUrl|] == baseUrl
      && r[|baseUrl|..m] == SEARCH_PATH
      && r[m..m + |mask|] == SanitizeMask(mask)
      && r[m + |mask|..l] == LANGUAGE_PARAMS
      && r[l..l + |language|] == language
      && r[l + |language|..] == FIXED_SUFFIX
  {
    var m := SanitizeMask(mask);
    var path, params, suffix := SEARCH_PATH, LANGUAGE_PARAMS, FIXED_SUFFIX;
    UrlLayout(baseUrl, path, m, params, language, suffix);
    baseUrl + path + m + params + language + suffix
  }

  /** Where each of six concatenated parts sits in the whole. */
  lemma UrlLayout(a: string, b: string, c: string, d: string, e: string, f: string)
    ensures var r := a + b + c + d + e + f;
      var i := |a| + |b|;
      var j := i + |c| + |d|;
      && r[..|a|] == a
      && r[|a|..i] == b
      && r[i..i + |c|] == c
      && r[i + |c|..j] == d
      && r[j..j + |e|] == e
      && r[j + |e|..] == f
  {
  }

  /**
   * With the base URL and the language fixed, masks without `+` give
   * different URLs: the mask can be recovered from the request.
   */
  lemma RequestUrlDistinguishesMasks(baseUrl: string, mask1: string, mask2: string, language: string)
    requires '+' !in mask1 && '+' !in mask2
    requires GetRequestUrl(baseUrl, mask1, language) == GetRequestUrl(baseUrl, mask2, language)
    ensures mask1 == mask2
  {
    var m := |baseUrl| + |SEARCH_PATH|;
    var r := GetRequestUrl(baseUrl, mask1, language);
    assert SanitizeMask(mask1) == r[m..m + |mask1|] == SanitizeMask(mask2);
    SanitizeRoundTrip(mask1);
    SanitizeRoundTrip(mask2);
  }

  /**
   * Nothing is percent-encoded: a space and a literal `+` in the same place
   * produce the same request.
   */
  lemma SpaceAndPlusCollide(baseUrl: string, before: string, after: string, language: string)
    ensures GetRequestUrl(baseUrl, before + " " + after, language)
         == GetRequestUrl(baseUrl, before + "+" + after, language)
  {
    assert SanitizeMask(before + " " + after) == SanitizeMask(before + "+" + after);
  }
}
