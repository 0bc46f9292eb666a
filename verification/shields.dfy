/**
 * The request URL `saveSvg` builds for the badge service:
 * `https://img.shields.io/badge/<label>-<message>-<color>`, where label and
 * message go through `url.QueryEscape` (a parameter here) and the colour
 * is inserted as given.
 */
module Shields {
  import opened Wrappers
  import opened GoStrings

  const BadgePrefix: string := "https://img.shields.io/badge/"

  /** The three dash-separated parts of a badge path. */
  datatype BadgePath = BadgePath(text: string, message: string, color: string)

  /** The URL `saveSvg` fetches. */
  function BadgeUrl(text: string, coverage: string, color: string, escape: string -> string): (url: string)
    ensures |BadgePrefix| <= |url| && url[..|BadgePrefix|] == BadgePrefix
    ensures |color| <= |url| && url[|url| - |color|..] == color
    ensures |url| == |BadgePrefix| + |escape(text)| + |escape(coverage)| + 2 + |color|
  {
    BadgePrefix + JoinPath(BadgePath(escape(text), escape(coverage), color))
  }

  /** The path `<label>-<message>-<color>` of a badge. */
  function JoinPath(b: BadgePath): string {
    b.text + "-" + b.message + "-" + b.color
  }

  /**
   * Reads a badge path back: the text up to the first dash, the text up to
   * the next dash, and the rest as the colour.
   */
  function SplitBadgePath(path: string): (r: Option<BadgePath>)
    ensures r.Some? ==> '-' !in r.value.text && '-' !in r.value.message
    ensures r.Some? ==> JoinPath(r.value) == path
  {
    var i := FirstIndex(path, '-');
    if i == |path| then None
    else
      var tail := path[i + 1..];
      var j := FirstIndex(tail, '-');
      if j == |tail| then None
      else
        var r := BadgePath(path[..i], tail[..j], tail[j + 1..]);
        JoinSplit(path, i, j);
        Some(r)
  }

  /** Cutting at a dash and then at a later dash and joining the pieces gives the path back. */
  lemma JoinSplit(path: string, i: nat, j: nat)
    requires i < |path| && path[i] == '-'
    requires j < |path| - i - 1 && path[i + 1 + j] == '-'
    ensures JoinPath(BadgePath(path[..i], path[i + 1..][..j], path[i + 1..][j + 1..])) == path
  {
  }

  /** Reads a badge URL back: the prefix, then the badge path. */
  function SplitBadgeUrl(url: string): (r: Option<BadgePath>)
    ensures r.Some? ==> '-' !in r.value.text && '-' !in r.value.message
    ensures r.Some? ==> url == BadgePrefix + JoinPath(r.value)
  {
    var n := |BadgePrefix|;
    if |url| < n || url[..n] != BadgePrefix then None
    else
      var r := SplitBadgePath(url[n..]);
      assert url == url[..n] + url[n..];
      r
  }

  /** A dash-free label and message are recovered from their badge path. */
  lemma SplitBadgePathJoin(l: string, m: string, color: string)
    requires '-' !in l && '-' !in m
    ensures SplitBadgePath(l + "-" + m + "-" + color) == Some(BadgePath(l, m, color))
  {
    var tail := m + "-" + color;
    assert l + "-" + m + "-" + color == l + ['-'] + tail;
    CutAtFirst(l, '-', tail);
    CutAtFirst(m, '-', color);
  }

  /**
   * When neither escaped part contains a dash, the URL splits back into the
   * escaped label, the escaped coverage and the colour exactly as given.
   */
  lemma BadgeUrlRoundTrip(text: string, coverage: string, color: string, escape: string -> string)
    requires '-' !in escape(text) && '-' !in escape(coverage)
    ensures SplitBadgeUrl(BadgeUrl(text, coverage, color, escape))
         == Some(BadgePath(escape(text), escape(coverage), color))
  {
    var path := escape(text) + "-" + escape(coverage) + "-" + color;
    var url := BadgeUrl(text, coverage, color, escape);
    assert url == BadgePrefix + path;
    assert url[|BadgePrefix|..] == path;
    SplitBadgePathJoin(escape(text), escape(coverage), color);
  }

  /**
   * Under the same condition the URL determines its inputs: with an escape
   * that is injective on the labels and coverages involved, different
   * badges get different URLs.
   */
  lemma BadgeUrlInjective(text: string, coverage: string, color: string,
                          text': string, coverage': string, color': string,
                          escape: string -> string)
    requires '-' !in escape(text) && '-' !in escape(coverage)
    requires '-' !in escape(text') && '-' !in escape(coverage')
    requires escape(text) == escape(text') ==> text == text'
    requires escape(coverage) == escape(coverage') ==> coverage == coverage'
    requires BadgeUrl(text, coverage, color, escape) == BadgeUrl(text', coverage', color', escape)
    ensures text == text' && coverage == coverage' && color == color'
  {
    BadgeUrlRoundTrip(text, coverage, color, escape);
    BadgeUrlRoundTrip(text', coverage', color', escape);
  }

  /**
   * A dash that survives escaping (as `url.QueryEscape` leaves `-` alone)
   * makes the split ambiguous: label text `a-b` with coverage `c` and label text `a`
   * with coverage `b-c` produce the same URL.
   */
  lemma DashInLabelIsAmbiguous(color: string, escape: string -> string)
    requires escape("a-b") == "a-b" && escape("c") == "c"
    requires escape("a") == "a" && escape("b-c") == "b-c"
    ensures BadgeUrl("a-b", "c", color, escape) == BadgeUrl("a", "b-c", color, escape)
  {
  }
}
