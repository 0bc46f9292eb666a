/**
 * `generateBadge`: resolve the coverage, pick the colour, and build the
 * request `saveSvg` sends to the badge service together with the file the
 * answer is written to.  The fetch and the write are not modelled: the
 * result is the request that would be made.
 */
module Badge {
  import opened Wrappers
  import opened GoFloat
  import opened Color
  import opened Coverage
  import opened Shields
  import opened GoStrings

  datatype Threshold = Threshold(yellow: int, green: int)

  /** The options `main` reads from the command line; `link` is accepted and never used. */
  datatype Params = Params(text: string, threshold: Threshold, color: string, value: string, link: string)

  /** What `saveSvg` does with its arguments: fetch `url`, write the body to `target`. */
  datatype BadgeRequest = BadgeRequest(url: string, target: string, coverage: string)

  function GenerateBadge(fs: FileSystem, source: string, target: string, params: Params,
                         parse: string -> ParseResult, escape: string -> string): (r: Result<BadgeRequest, ExtractError>)
    ensures ResolveCoverage(fs, source, params.value).Failure? ==> r == Failure(ResolveCoverage(fs, source, params.value).error)
    ensures ResolveCoverage(fs, source, params.value).Success? ==>
      r.Success? && r.value.coverage == ResolveCoverage(fs, source, params.value).value
    ensures params.value != "" ==> r.Success? && r.value.coverage == params.value
    ensures r.Success? ==> r.value.target == target
  {
    match ResolveCoverage(fs, source, params.value)
    case Failure(e) => Failure(e)
    case Success(coverage) =>
      var color := SetColor(coverage, params.threshold.yellow, params.threshold.green, params.color, parse);
      Success(BadgeRequest(BadgeUrl(params.text, coverage, color, escape), target, coverage))
  }

  /**
   * A successful run asks for the badge of the resolved coverage in the
   * colour `setColor` picks for it.  For every escape the URL starts with the
   * service prefix and ends with that colour, unescaped; when the escaped
   * label and coverage hold no dash, it splits back into exactly the escaped
   * label, the escaped coverage and that colour.
   */
  lemma RequestCarriesBadge(fs: FileSystem, source: string, target: string, params: Params,
                            parse: string -> ParseResult, escape: string -> string)
    requires GenerateBadge(fs, source, target, params, parse, escape).Success?
    ensures var req := GenerateBadge(fs, source, target, params, parse, escape).value;
      var color := SetColor(req.coverage, params.threshold.yellow, params.threshold.green, params.color, parse);
      && ResolveCoverage(fs, source, params.value) == Success(req.coverage)
      && req.url == BadgeUrl(params.text, req.coverage, color, escape)
      && |BadgePrefix| <= |req.url| && req.url[..|BadgePrefix|] == BadgePrefix
      && |color| <= |req.url| && req.url[|req.url| - |color|..] == color
      && ('-' !in escape(params.text) && '-' !in escape(req.coverage) ==>
            SplitBadgeUrl(req.url) == Some(BadgePath(escape(params.text), escape(req.coverage), color)))
  {
    var req := GenerateBadge(fs, source, target, params, parse, escape).value;
    var color := SetColor(req.coverage, params.threshold.yellow, params.threshold.green, params.color, parse);
    if '-' !in escape(params.text) && '-' !in escape(req.coverage) {
      BadgeUrlRoundTrip(params.text, req.coverage, color, escape);
    }
  }

  /**
   * The main path: with no `value` and a coverage file holding a token, the
   * run succeeds with the file's last token as coverage and asks for the
   * badge of that coverage in the colour its tier (or the override) gives.
   */
  lemma ReadableSourceSucceeds(fs: FileSystem, source: string, target: string, params: Params,
                               parse: string -> ParseResult, escape: string -> string)
    requires params.value == "" && fs(source).Success? && HasWord(fs(source).value)
    ensures var r := GenerateBadge(fs, source, target, params, parse, escape);
      && r.Success?
      && IsLastWord(fs(source).value, r.value.coverage)
      && r.value.target == target
      && r.value.url == BadgeUrl(params.text, r.value.coverage,
                                 SetColor(r.value.coverage, params.threshold.yellow, params.threshold.green,
                                          params.color, parse),
                                 escape)
  {
  }

  /** The `link` option has no effect on the request. */
  lemma LinkIgnored(fs: FileSystem, source: string, target: string, params: Params, link: string,
                    parse: string -> ParseResult, escape: string -> string)
    ensures GenerateBadge(fs, source, target, params.(link := link), parse, escape)
         == GenerateBadge(fs, source, target, params, parse, escape)
  {
  }

  /**
   * Running with `--value 42% --color red` never reads the coverage file:
   * whatever the file system holds, the request is the red badge for 42%.
   */
  lemma ValueAndColorOverride(fs: FileSystem, source: string, target: string, params: Params,
                              parse: string -> ParseResult, escape: string -> string)
    requires params.value == "42%" && params.color == "red"
    ensures GenerateBadge(fs, source, target, params, parse, escape)
         == Success(BadgeRequest(BadgeUrl(params.text, "42%", "red", escape), target, "42%"))
  {
  }

  /** With no override value, a file that cannot be opened or read fails the run with that error. */
  lemma UnreadableSourceFails(fs: FileSystem, source: string, target: string, params: Params,
                              parse: string -> ParseResult, escape: string -> string)
    requires params.value == "" && fs(source).Failure?
    ensures GenerateBadge(fs, source, target, params, parse, escape) == Failure(Io(fs(source).error))
  {
  }
}
