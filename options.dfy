/** The option contract descriptor and its payoff at maturity.

    The source declares an abstract `Option` base class holding strike,
    maturity and call/put type, with two subclasses (European and American)
    that implement the same payoff.  Here the contract is one immutable
    datatype and the subclass becomes an explicit exercise-style tag; the
    payoff is a single function dispatching on the call/put type. */
module Options {

  /** Call or put: the only two kinds of option. */
  datatype OptionType = Call | Put

  /** The exercise style, chosen in the source by the concrete subclass. */
  datatype ExerciseStyle = European | American

  /** An option: strike K, maturity T in years, call/put type and style.
      A datatype value is immutable, so no field can change after it is built;
      the field names are the getters. */
  datatype Option = Option(strike: real, maturity: real, kind: OptionType, style: ExerciseStyle)

  /** The larger of two reals, as std::max. */
  function Max(a: real, b: real): (m: real)
    ensures m >= a && m >= b
    ensures m == a || m == b
  {
    if a < b then b else a
  }

  /** Payoff at terminal spot: max(S - K, 0) for a call, max(K - S, 0) for a put.
      Neither the style nor the maturity takes part. */
  function Payoff(o: Option, spot: real): (r: real)
    ensures r >= 0.0
  {
    match o.kind
    case Call => Max(spot - o.strike, 0.0)
    case Put => Max(o.strike - spot, 0.0)
  }

  /** The getters give back exactly the values the option was built from. */
  lemma GettersReturnConstructorArguments(strike: real, maturity: real, kind: OptionType, style: ExerciseStyle)
    ensures Option(strike, maturity, kind, style).strike == strike
    ensures Option(strike, maturity, kind, style).maturity == maturity
    ensures Option(strike, maturity, kind, style).kind == kind
    ensures Option(strike, maturity, kind, style).style == style
  {
  }

  /** An option type is exactly one of Call and Put. */
  lemma OptionTypeIsCallOrPut(t: OptionType)
    ensures t == Call || t == Put
    ensures !(t == Call && t == Put)
  {
  }

  /** A call pays S - K in the money and nothing out of the money. */
  lemma CallPayoffCases(o: Option, spot: real)
    requires o.kind == Call
    ensures spot >= o.strike ==> Payoff(o, spot) == spot - o.strike
    ensures spot <= o.strike ==> Payoff(o, spot) == 0.0
  {
  }

  /** A put pays K - S in the money and nothing out of the money. */
  lemma PutPayoffCases(o: Option, spot: real)
    requires o.kind == Put
    ensures spot <= o.strike ==> Payoff(o, spot) == o.strike - spot
    ensures spot >= o.strike ==> Payoff(o, spot) == 0.0
  {
  }

  /** Call payoff minus put payoff at the same strike and spot is S - K,
      whatever the maturity and the style. */
  lemma PayoffParity(strike: real, maturity: real, style: ExerciseStyle, spot: real)
    ensures Payoff(Option(strike, maturity, Call, style), spot)
          - Payoff(Option(strike, maturity, Put, style), spot) == spot - strike
  {
  }

  /** A call's payoff never decreases and a put's never increases as the spot rises. */
  lemma PayoffMonotoneInSpot(o: Option, s1: real, s2: real)
    requires s1 <= s2
    ensures o.kind == Call ==> Payoff(o, s1) <= Payoff(o, s2)
    ensures o.kind == Put ==> Payoff(o, s1) >= Payoff(o, s2)
  {
  }

  /** The American payoff equals the European one for the same strike, type and spot. */
  lemma PayoffIgnoresStyle(o: Option, spot: real)
    ensures Payoff(o.(style := American), spot) == Payoff(o.(style := European), spot)
  {
  }

  /** The payoff depends on spot, strike and type only, not on the maturity. */
  lemma PayoffIgnoresMaturity(o: Option, maturity: real, spot: real)
    ensures Payoff(o.(maturity := maturity), spot) == Payoff(o, spot)
  {
  }
}
