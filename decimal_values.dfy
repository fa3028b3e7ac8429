/**
 * xs:decimal (XSDecimal): an object holding a BigDecimal, its string value
 * (which rewrites the field in passing), the cast from any item and the
 * three comparisons.
 */
module DecimalValues {
  import opened Results
  import opened Lexical
  import opened Decimals
  import opened AtomicValues

  /** An XSDecimal object. */
  class XSDecimal {
    var value: BigDecimal

    /** `new XSDecimal(BigDecimal)`. */
    constructor (d: BigDecimal)
      ensures value == d
    {
      value := d;
    }

    /** `new XSDecimal(String)` on text `new BigDecimal` accepts. */
    constructor FromText(str: string)
      requires ParseDecimal(str).Some?
      ensures Some(value) == ParseDecimal(str)
    {
      value := ParseDecimal(str).value;
    }

    /** `zero()`: the value compares equal to zero, at any scale. */
    function Zero(): (r: bool)
      reads this
      ensures r <==> ToReal(value) == 0.0
    {
      IsZero(value)
    }

    /**
     * `stringValue()`: "0" for a zero value; otherwise the field is replaced
     * by the decimal read back from its text with the leading zeros removed,
     * and that decimal goes to the formatter. The replacement is the same
     * number at the same scale, so the object is left as it was.
     */
    method StringValue(format: BigDecimal -> string) returns (s: string)
      modifies this
      ensures value == old(value)
      ensures s == if IsZero(value) then "0" else format(value)
    {
      if Zero() {
        return "0";
      }
      StrippedTextRoundTrip(value);
      value := ParseDecimal(StripLeadingZeros(PlainString(value))).value;
      s := format(value);
    }
  }

  /** At one scale, the value decides the unscaled integer. */
  lemma SameScaleSameValue(a: BigDecimal, b: BigDecimal)
    ensures a.scale == b.scale && ToReal(a) == ToReal(b) ==> a == b
  {
    if a.scale == b.scale && ToReal(a) == ToReal(b) {
      var p := Pow10(a.scale) as real;
      assert a.unscaled as real == ToReal(a) * p;
      assert b.unscaled as real == ToReal(b) * p;
    }
  }

  /** `equals`: BigDecimal.equals, which compares the unscaled value and the scale. */
  predicate Equals(a: BigDecimal, b: BigDecimal)
    ensures Equals(a, b) <==> ToReal(a) == ToReal(b) && a.scale == b.scale
  {
    SameScaleSameValue(a, b);
    a == b
  }

  /** `lt`: `compareTo` is -1. */
  predicate Lt(a: BigDecimal, b: BigDecimal)
    ensures Lt(a, b) <==> ToReal(a) < ToReal(b)
  {
    CompareToIsValueOrder(a, b);
    CompareTo(a, b) == -1
  }

  /** `gt`: `compareTo` is 1. */
  predicate Gt(a: BigDecimal, b: BigDecimal)
    ensures Gt(a, b) <==> ToReal(a) > ToReal(b)
  {
    CompareToIsValueOrder(a, b);
    CompareTo(a, b) == 1
  }

  /**
   * `lt` and `gt` order the values; `equals` implies equal values but not the
   * converse, so for two numbers exactly one of `lt`, `gt` and "same value"
   * holds.
   */
  lemma ComparisonsOrderValues(a: BigDecimal, b: BigDecimal)
    ensures Lt(a, b) <==> ToReal(a) < ToReal(b)
    ensures Gt(a, b) <==> ToReal(a) > ToReal(b)
    ensures Lt(a, b) <==> Gt(b, a)
    ensures Equals(a, b) ==> !Lt(a, b) && !Gt(a, b)
  {
    CompareToIsValueOrder(a, b);
    CompareToIsValueOrder(b, a);
  }

  /** 1.0 and 1.00 are neither below nor above each other, yet not `equals`. */
  lemma EqualsSeesScale()
    ensures !Equals(BigDecimal(10, 1), BigDecimal(100, 2))
    ensures !Lt(BigDecimal(10, 1), BigDecimal(100, 2)) && !Gt(BigDecimal(10, 1), BigDecimal(100, 2))
  {
    ComparisonsOrderValues(BigDecimal(10, 1), BigDecimal(100, 2));
    assert ToReal(BigDecimal(10, 1)) == 1.0;
    assert ToReal(BigDecimal(100, 2)) == 1.0;
  }

  /**
   * `castToDecimal`: a boolean gives 1 for "true" and 0 otherwise; any other
   * item's string value is read as decimal text. None is the
   * NumberFormatException of text that does not read.
   */
  function CastToDecimal(v: AnyType): (r: Option<BigDecimal>)
    ensures v.Boolean? ==> r == Some(BigDecimal(if v.b then 1 else 0, 0))
    ensures !v.Boolean? ==> r == ParseDecimal(StringValue(v))
  {
    if v.Boolean? then
      Some(BigDecimal(if StringValue(v) == "true" then 1 else 0, 0))
    else
      ParseDecimal(StringValue(v))
  }

  /** `constructor`: empty for empty input, Java null when the cast fails. */
  function Construct(arg: Option<AnyType>): (r: Outcome<BigDecimal>)
    ensures r.Empty? <==> arg.None?
    ensures r.Null? <==> arg.Some? && CastToDecimal(arg.value).None?
    ensures r.One? ==> Some(r.value) == CastToDecimal(arg.value)
    ensures !r.Raised?
  {
    match arg
    case None => Empty
    case Some(v) =>
      match CastToDecimal(v)
      case None => Null
      case Some(d) => One(d)
  }

  /** An item of any integer class casts to its own number at scale 0. */
  lemma IntegerItemCast(kind: IntegerKind, i: int)
    ensures Construct(Some(Integer(kind, i))) == One(BigDecimal(i, 0))
  {
    IntToStringRoundTrip(i);
    IntegerTextIsDecimalText(IntToString(i));
  }

  /** A zero decimal, at whatever scale, casts to 0 at scale 0: its text is "0". */
  lemma ZeroItemCast(d: BigDecimal, shown: string)
    requires IsZero(d)
    ensures Construct(Some(Decimal(d, shown))) == One(BigDecimal(0, 0))
  {
    IntegerTextIsDecimalText("0");
    assert Unsigned("0") == "0";
  }

  /**
   * Text with a lower-case letter other than the exponent mark 'e' does not
   * read: the cast gives Java null.
   */
  lemma LetterTextIsNull(s: string, k: nat)
    requires k < |s| && 'a' <= s[k] <= 'z' && s[k] != 'e'
    ensures Construct(Some(Str(s))) == Null
  {
    assert !IsNumeral(s) by {
      assert !IsNumeralChar(s[k]);
    }
    NonNumeralDoesNotRead(s);
    assert StringValue(Str(s)) == s;
    assert CastToDecimal(Str(s)).None?;
  }
}
