/**
 * xs:boolean (XSBoolean): the cast from any item by its string value, and
 * the three comparisons.
 */
module Booleans {
  import opened Results
  import opened AtomicValues

  /** The six texts that cast to false. */
  const FalseTexts: set<string> := {"0", "false", "+0", "-0", "0.0E0", "NaN"}

  /** `isBooleanFalse`: one exact comparison per false text. */
  predicate IsBooleanFalse(strVal: string)
    ensures IsBooleanFalse(strVal) <==> strVal in FalseTexts
  {
    strVal == "0" || strVal == "false" || strVal == "+0" || strVal == "-0"
    || strVal == "0.0E0" || strVal == "NaN"
  }

  /**
   * `constructor`: empty for empty input; otherwise false exactly when the
   * item's string value is one of the false texts, and true for every other
   * text, the empty one included. It never fails.
   */
  function Construct(arg: Option<AnyType>): (r: Outcome<bool>)
    ensures r.Empty? <==> arg.None?
    ensures arg.Some? ==> r.One?
    ensures r == One(false) <==> arg.Some? && StringValue(arg.value) in FalseTexts
  {
    match arg
    case None => Empty
    case Some(v) => One(!IsBooleanFalse(StringValue(v)))
  }

  /** The empty string is not a false text. */
  lemma EmptyTextIsTrue()
    ensures Construct(Some(Str(""))) == One(true)
  {
  }

  /** A boolean's string value casts back to the same boolean. */
  lemma BooleanRoundTrip(b: bool)
    ensures Construct(Some(Boolean(b))) == One(b)
  {
  }

  /** The order XPath gives the booleans: false before true. */
  function Rank(b: bool): int {
    if b then 1 else 0
  }

  /** `equals`. */
  predicate Equals(a: bool, b: bool)
    ensures Equals(a, b) <==> Rank(a) == Rank(b)
  {
    a == b
  }

  /** `lt`: only false is below true. */
  predicate Lt(a: bool, b: bool)
    ensures Lt(a, b) <==> Rank(a) < Rank(b)
  {
    !a && b
  }

  /** `gt`: only true is above false. */
  predicate Gt(a: bool, b: bool)
    ensures Gt(a, b) <==> Rank(a) > Rank(b)
  {
    a && !b
  }

  /** `lt` is `gt` with the operands swapped, and exactly one comparison holds. */
  lemma ComparisonsAreTotal(a: bool, b: bool)
    ensures Lt(a, b) == Gt(b, a)
    ensures (Lt(a, b) && !Equals(a, b) && !Gt(a, b))
         || (!Lt(a, b) && Equals(a, b) && !Gt(a, b))
         || (!Lt(a, b) && !Equals(a, b) && Gt(a, b))
  {
  }
}
