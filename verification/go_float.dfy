/**
 * The numbers `setColor` compares: a float64 as `strconv.ParseFloat`
 * returns it.  Only the parts that matter to a comparison with a
 * threshold are kept: finite values are exact reals, and the two
 * infinities and NaN are explicit.  Rounding to 53 bits is not modelled.
 */
module GoFloat {
  import opened Wrappers

  datatype Float64 = Finite(r: real) | PosInf | NegInf | NaN

  /** The error `strconv.ParseFloat` reports besides its value. */
  datatype NumError = ErrSyntax | ErrRange

  /** The pair `(f, err)` returned by `strconv.ParseFloat`. */
  datatype ParseResult = ParseResult(value: Float64, err: Option<NumError>)

  /**
   * What `strconv.ParseFloat` promises about the value it returns next to
   * an error: 0 for text that is not a number, an infinity for a number
   * too large to represent.  Either way the value next to an error is
   * never NaN.
   */
  ghost predicate ParseFloatConvention(parse: string -> ParseResult): (ok: bool)
    ensures ok ==> forall s :: parse(s).err.Some? ==> parse(s).value != NaN
  {
    ErrorKinds(parse);
    forall s ::
      && (parse(s).err == Some(ErrSyntax) ==> parse(s).value == Finite(0.0))
      && (parse(s).err == Some(ErrRange) ==> (parse(s).value == PosInf || parse(s).value == NegInf))
  }

  /** Every error `strconv.ParseFloat` reports is a syntax error or a range error. */
  lemma ErrorKinds(parse: string -> ParseResult)
    ensures forall s :: parse(s).err.Some? ==> parse(s).err == Some(ErrSyntax) || parse(s).err == Some(ErrRange)
  {
    forall s | parse(s).err.Some?
      ensures parse(s).err == Some(ErrSyntax) || parse(s).err == Some(ErrRange)
    {
      match parse(s).err.value
      case ErrSyntax =>
      case ErrRange =>
    }
  }

  /**
   * Go's `f >= float64(t)` for an integer threshold `t`: +inf passes every
   * threshold, -inf and NaN pass none.
   */
  predicate AtLeast(f: Float64, t: int)
    ensures f == PosInf ==> AtLeast(f, t)
    ensures f == NegInf || f == NaN ==> !AtLeast(f, t)
    ensures f.Finite? ==> (AtLeast(f, t) <==> f.r >= t as real)
  {
    match f
    case Finite(r) => r >= t as real
    case PosInf => true
    case NegInf => false
    case NaN => false
  }

  /** Go's `a <= b` on float64; NaN is unordered. */
  predicate LessEq(a: Float64, b: Float64) {
    match (a, b)
    case (NaN, _) => false
    case (_, NaN) => false
    case (NegInf, _) => true
    case (_, PosInf) => true
    case (Finite(x), Finite(y)) => x <= y
    case (_, _) => false
  }

  /** Comparing against a threshold is monotone in the compared value and antitone in the threshold. */
  lemma AtLeastMonotone(a: Float64, b: Float64, t: int, u: int)
    requires LessEq(a, b) && u <= t
    ensures AtLeast(a, t) ==> AtLeast(b, u)
  {
  }
}
