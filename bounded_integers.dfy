/**
 * xs:long (XSLong) and xs:int (XSInt): the casts that read an item's
 * string value as integer text and refuse a number outside the type's
 * inclusive range.
 *
 * Both classes inherit the XSInteger object, its string value and its
 * comparisons; only the cast is their own, and it differs from the
 * xs:integer one: a numeric item is not truncated, so "1.5" is refused,
 * and the refusal is a thrown error, not a Java null.
 */
module BoundedIntegers {
  import opened Results
  import opened Lexical
  import opened AtomicValues

  const MinLong: int := -0x8000_0000_0000_0000
  const MaxLong: int := 0x7fff_ffff_ffff_ffff
  const MinInt: int := MinInt32
  const MaxInt: int := MaxInt32

  /**
   * The cast both classes share: empty for empty input; text that is not
   * integer text raises the wrapped NumberFormatException; a number below
   * `min` or above `max` raises the out-of-range error naming the text and
   * the type; any other number is the one item.
   */
  function ConstructInRange(arg: Option<AnyType>, min: int, max: int, typeName: string): (r: Outcome<int>)
    ensures r.Empty? <==> arg.None?
    ensures !r.Null?
    ensures r.One? <==> arg.Some? && ParseBigInteger(StringValue(arg.value)).Some?
                        && min <= ParseBigInteger(StringValue(arg.value)).value <= max
    ensures r.One? ==> Some(r.value) == ParseBigInteger(StringValue(arg.value))
    ensures r == Raised(NumberFormat) <==> arg.Some? && ParseBigInteger(StringValue(arg.value)).None?
    ensures r.Raised? && r.error.OutOfRange? ==> r.error == OutOfRange(StringValue(arg.value), typeName)
  {
    match arg
    case None => Empty
    case Some(v) =>
      var sv := StringValue(v);
      match ParseBigInteger(sv)
      case None => Raised(NumberFormat)
      case Some(n) =>
        if n < min || n > max then Raised(OutOfRange(sv, typeName)) else One(n)
  }

  /** `XSLong.constructor`. */
  function LongConstruct(arg: Option<AnyType>): (r: Outcome<int>)
    ensures r.One? ==> MinLong <= r.value <= MaxLong
  {
    ConstructInRange(arg, MinLong, MaxLong, "xs:long")
  }

  /** `XSInt.constructor`. */
  function IntConstruct(arg: Option<AnyType>): (r: Outcome<int>)
    ensures r.One? ==> MinInt <= r.value <= MaxInt
  {
    ConstructInRange(arg, MinInt, MaxInt, "xs:int")
  }

  /** Every xs:int the cast accepts is an xs:long the long cast accepts, and the same number. */
  lemma IntAcceptedIsLongAccepted(arg: Option<AnyType>)
    ensures IntConstruct(arg).One? ==> LongConstruct(arg) == IntConstruct(arg)
    ensures LongConstruct(arg) == Raised(NumberFormat) <==> IntConstruct(arg) == Raised(NumberFormat)
  {
  }

  /** An integer item casts to itself inside the range and raises the out-of-range error outside it. */
  lemma IntegerItemCast(kind: IntegerKind, i: int)
    ensures IntConstruct(Some(Integer(kind, i))) ==
      if MinInt <= i <= MaxInt then One(i) else Raised(OutOfRange(IntToString(i), "xs:int"))
    ensures LongConstruct(Some(Integer(kind, i))) ==
      if MinLong <= i <= MaxLong then One(i) else Raised(OutOfRange(IntToString(i), "xs:long"))
  {
    IntToStringRoundTrip(i);
  }

  /** The largest xs:int is accepted and the next number is refused. */
  lemma IntUpperBoundary()
    ensures IntConstruct(Some(Integer(XsLong, 2147483647))) == One(2147483647)
    ensures IntConstruct(Some(Integer(XsLong, 2147483648))).error.OutOfRange?
  {
    IntegerItemCast(XsLong, 2147483647);
    IntegerItemCast(XsLong, 2147483648);
  }

  /** A decimal with a fraction is no integer text: unlike the xs:integer cast, nothing is truncated. */
  lemma FractionRaises(shown: string, d: Decimals.BigDecimal)
    requires !Decimals.IsZero(d) && '.' in shown
    ensures LongConstruct(Some(Decimal(d, shown))) == Raised(NumberFormat)
    ensures IntConstruct(Some(Decimal(d, shown))) == Raised(NumberFormat)
  {
  }

  /** A boolean's text "true" or "false" is not integer text either. */
  lemma BooleanRaises(b: bool)
    ensures LongConstruct(Some(Boolean(b))) == Raised(NumberFormat)
  {
    var t := StringValue(Boolean(b));
    assert !IsDigit(t[0]) && Unsigned(t) == t;
  }
}
