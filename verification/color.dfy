/**
 * `setColor`: the badge colour for a coverage string, two integer
 * thresholds and an optional override colour.
 */
module Color {
  import opened Wrappers
  import opened GoStrings
  import opened GoFloat

  /** The three colours the threshold ladder can pick, lowest first. */
  datatype Tier = Red | Yellow | BrightGreen {

    /** The colour name sent to the badge service. */
    function Name(): string {
      match this
      case Red => "red"
      case Yellow => "yellow"
      case BrightGreen => "brightgreen"
    }

    function Rank(): nat {
      match this
      case Red => 0
      case Yellow => 1
      case BrightGreen => 2
    }
  }

  /**
   * The first-match-wins ladder: green threshold first, then yellow, else
   * red.  The green test runs first, so a value at or above green is
   * brightgreen whatever the yellow threshold, even above green.
   */
  function Classify(x: Float64, yellow: int, green: int): (t: Tier)
    ensures t == BrightGreen <==> AtLeast(x, green)
    ensures t == Red <==> !AtLeast(x, green) && !AtLeast(x, yellow)
  {
    if AtLeast(x, green) then BrightGreen
    else if AtLeast(x, yellow) then Yellow
    else Red
  }

  /**
   * The number `setColor` compares: the coverage with its first `%` removed,
   * parsed, error discarded.  Text without `%` is parsed as it is; otherwise
   * the text is cut around its first `%` and the two halves parsed together.
   */
  function CoverageNumber(coverage: string, parse: string -> ParseResult): (x: Float64)
    ensures '%' !in coverage ==> x == parse(coverage).value
    ensures '%' in coverage ==>
      exists i :: 0 <= i < |coverage| && coverage[i] == '%' && '%' !in coverage[..i]
               && x == parse(coverage[..i] + coverage[i + 1..]).value
  {
    var x := parse(RemoveFirst(coverage, '%')).value;
    var i := FirstIndex(coverage, '%');
    if i == |coverage| then x
    else
      assert coverage == coverage[..i] + ['%'] + coverage[i + 1..];
      RemoveFirstInverse(coverage[..i], '%', coverage[i + 1..]);
      x
  }

  /**
   * `setColor`.  A non-empty override is returned verbatim whatever the
   * coverage and thresholds; otherwise the result is one of the three tier
   * names.
   */
  function SetColor(coverage: string, yellow: int, green: int, color: string,
                    parse: string -> ParseResult): (r: string)
    ensures color != "" ==> r == color
    ensures color == "" ==> exists t: Tier :: r == t.Name()
  {
    if color != "" then color
    else Classify(CoverageNumber(coverage, parse), yellow, green).Name()
  }

  /**
   * With ordered thresholds the ladder is the partition of the number line
   * into [green, +inf), [yellow, green) and the rest: each tier is chosen
   * exactly when the value lies in its band.
   */
  lemma ClassifyBands(x: Float64, yellow: int, green: int)
    requires yellow <= green
    ensures Classify(x, yellow, green) == BrightGreen <==> AtLeast(x, green)
    ensures Classify(x, yellow, green) == Yellow <==> AtLeast(x, yellow) && !AtLeast(x, green)
    ensures Classify(x, yellow, green) == Red <==> !AtLeast(x, yellow)
  {
  }

  /**
   * When yellow exceeds green the green check shadows the yellow one: a
   * value at or above green is brightgreen, every other value is red, and
   * yellow is never chosen.
   */
  lemma YellowUnreachableWhenInverted(x: Float64, yellow: int, green: int)
    requires yellow > green
    ensures Classify(x, yellow, green) != Yellow
    ensures Classify(x, yellow, green) == BrightGreen <==> AtLeast(x, green)
    ensures Classify(x, yellow, green) == Red <==> !AtLeast(x, green)
  {
  }

  /** A larger value never gets a lower tier, whatever the order of the thresholds. */
  lemma ClassifyMonotone(a: Float64, b: Float64, yellow: int, green: int)
    requires LessEq(a, b)
    ensures Classify(a, yellow, green).Rank() <= Classify(b, yellow, green).Rank()
  {
  }

  /** Raising either threshold never raises the tier of a value. */
  lemma ClassifyAntitoneInThresholds(x: Float64, yellow: int, green: int, yellow': int, green': int)
    requires yellow <= yellow' && green <= green'
    ensures Classify(x, yellow', green').Rank() <= Classify(x, yellow, green).Rank()
  {
  }

  /** The colour `setColor` picks without an override, as a tier of the parsed coverage. */
  lemma SetColorTier(coverage: string, yellow: int, green: int, parse: string -> ParseResult)
    returns (t: Tier)
    ensures SetColor(coverage, yellow, green, "", parse) == t.Name()
    ensures t == BrightGreen <==> AtLeast(CoverageNumber(coverage, parse), green)
    ensures t == Red <==>
      !AtLeast(CoverageNumber(coverage, parse), green) && !AtLeast(CoverageNumber(coverage, parse), yellow)
    ensures yellow <= green ==>
      (t == Red <==> !AtLeast(CoverageNumber(coverage, parse), yellow))
  {
    var x := CoverageNumber(coverage, parse);
    t := Classify(x, yellow, green);
    if yellow <= green {
      ClassifyBands(x, yellow, green);
    }
  }

  /** Only the first `%` is dropped before parsing: `p + "%" + q` is read as `p + q` when `p` has no `%`. */
  lemma PercentStripped(p: string, q: string, parse: string -> ParseResult)
    requires '%' !in p
    ensures CoverageNumber(p + "%" + q, parse) == parse(p + q).value
  {
    RemoveFirstInverse(p, '%', q);
  }

  /**
   * A coverage string that does not parse reads as 0, so with no override it
   * is red whenever 0 lies below both thresholds, and brightgreen when the
   * green threshold is at most 0.
   */
  lemma MalformedCoverage(coverage: string, yellow: int, green: int, parse: string -> ParseResult)
    requires ParseFloatConvention(parse)
    requires parse(RemoveFirst(coverage, '%')).err == Some(ErrSyntax)
    ensures 0 < yellow && 0 < green ==> SetColor(coverage, yellow, green, "", parse) == "red"
    ensures green <= 0 ==> SetColor(coverage, yellow, green, "", parse) == "brightgreen"
  {
  }

  /** A number too large for a float64 reads as an infinity: +inf is brightgreen, -inf is red. */
  lemma OutOfRangeCoverage(coverage: string, yellow: int, green: int, parse: string -> ParseResult)
    requires ParseFloatConvention(parse)
    requires parse(RemoveFirst(coverage, '%')).err == Some(ErrRange)
    ensures SetColor(coverage, yellow, green, "", parse) in {"brightgreen", "red"}
  {
  }

  /** A trailing `%` after a `%`-free number is ignored. */
  lemma TrailingPercent(p: string, parse: string -> ParseResult)
    requires '%' !in p
    ensures CoverageNumber(p + "%", parse) == parse(p).value
  {
    assert p + "%" == p + "%" + "" && p + "" == p;
    PercentStripped(p, "", parse);
  }

  /** The worked examples with the default thresholds 30 and 70: 85% is brightgreen. */
  lemma GreenExample(parse: string -> ParseResult)
    requires parse("85").value == Finite(85.0)
    ensures SetColor("85%", 30, 70, "", parse) == "brightgreen"
  {
    assert "85%" == "85" + "%";
    TrailingPercent("85", parse);
  }

  /** 50% is yellow with the default thresholds. */
  lemma YellowExample(parse: string -> ParseResult)
    requires parse("50").value == Finite(50.0)
    ensures SetColor("50%", 30, 70, "", parse) == "yellow"
  {
    assert "50%" == "50" + "%";
    TrailingPercent("50", parse);
  }

  /** 10% is red with the default thresholds. */
  lemma RedExample(parse: string -> ParseResult)
    requires parse("10").value == Finite(10.0)
    ensures SetColor("10%", 30, 70, "", parse) == "red"
  {
    assert "10%" == "10" + "%";
    TrailingPercent("10", parse);
  }

  /** Text that is not a number is red with the default thresholds; an override wins regardless. */
  lemma MalformedExample(parse: string -> ParseResult)
    requires ParseFloatConvention(parse)
    requires parse("not-a-number").err == Some(ErrSyntax)
    ensures SetColor("not-a-number", 30, 70, "", parse) == "red"
    ensures SetColor("not-a-number", 30, 70, "purple", parse) == "purple"
  {
    NoPercentInExample();
    MalformedCoverage("not-a-number", 30, 70, parse);
  }

  lemma NoPercentInExample()
    ensures RemoveFirst("not-a-number", '%') == "not-a-number"
  {
    var s := "not-a-number";
    assert forall k :: 0 <= k < |s| ==> s[k] != '%';
  }
}
