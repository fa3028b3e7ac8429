/**
 * xs:integer (XSInteger): an object holding a BigInteger next to the
 * BigDecimal its XSDecimal parent keeps, the cast from any item, and the
 * comparisons and product.
 */
module Integers {
  import opened Results
  import opened Lexical
  import opened Decimals
  import opened AtomicValues

  /** An XSInteger object: its own integer and the decimal its parent class stores. */
  class XSInteger {
    var value: int
    var decimalValue: BigDecimal

    /** `new XSInteger(BigInteger)`: both fields hold the same number. */
    constructor (val: int)
      ensures value == val
      ensures ToReal(decimalValue) == val as real && decimalValue.scale == 0
    {
      value := val;
      decimalValue := BigDecimal(val, 0);
    }

    /**
     * `new XSInteger(String)`: the parent reads the text as a decimal and
     * this class reads it as an integer; for integer text the two agree.
     */
    constructor FromText(val: string)
      requires ParseBigInteger(val).Some?
      ensures Some(value) == ParseBigInteger(val)
      ensures Some(decimalValue) == ParseDecimal(val)
      ensures decimalValue == BigDecimal(value, 0)
    {
      IntegerTextIsDecimalText(val);
      value := ParseBigInteger(val).value;
      decimalValue := ParseDecimal(val).value;
    }

    /** `stringValue()`: the integer in base 10. */
    function StringValue(): (r: string)
      reads this
      ensures ParseBigInteger(r) == Some(value)
    {
      IntToStringRoundTrip(value);
      IntToString(value)
    }

    /** `setInt`: replaces the integer and leaves the parent's decimal as it was. */
    method SetInt(val: int)
      modifies this
      ensures value == val && decimalValue == old(decimalValue)
    {
      value := val;
    }
  }

  /**
   * `castToInteger`: a boolean gives 1 for "true" and 0 otherwise; an
   * xs:decimal (the integer types included), xs:float or xs:double is read
   * as a decimal and truncated toward zero; anything else must be integer
   * text. None is the NumberFormatException an unreadable text raises.
   */
  function CastToInteger(v: AnyType): (r: Option<int>)
    ensures v.Boolean? ==> r == Some(if v.b then 1 else 0)
    ensures IsDecimal(v) || v.Float? || v.Double? ==>
      (r.Some? <==> ParseDecimal(StringValue(v)).Some?)
    ensures !IsNumeric(v) && !v.Boolean? ==> r == ParseBigInteger(StringValue(v))
  {
    if v.Boolean? then
      Some(if StringValue(v) == "true" then 1 else 0)
    else if IsDecimal(v) || v.Float? || v.Double? then
      match ParseDecimal(StringValue(v))
      case None => None
      case Some(d) => Some(Truncate(d))
    else
      ParseBigInteger(StringValue(v))
  }

  /** `constructor`: empty for empty input, Java null when the text does not read. */
  function Construct(arg: Option<AnyType>): (r: Outcome<int>)
    ensures r.Empty? <==> arg.None?
    ensures r.Null? <==> arg.Some? && CastToInteger(arg.value).None?
    ensures r.One? ==> r.value == CastToInteger(arg.value).value
    ensures !r.Raised?
  {
    match arg
    case None => Empty
    case Some(v) =>
      match CastToInteger(v)
      case None => Null
      case Some(i) => One(i)
  }

  /**
   * A numeric item whose text reads as a decimal casts to that decimal
   * truncated toward zero: the integer part, with the sign kept.
   */
  lemma NumericCastTruncates(v: AnyType, d: BigDecimal)
    requires IsNumeric(v) && ParseDecimal(StringValue(v)) == Some(d)
    ensures CastToInteger(v).Some?
    ensures ToReal(d) >= 0.0 ==> CastToInteger(v).value as real <= ToReal(d) < (CastToInteger(v).value + 1) as real
    ensures ToReal(d) < 0.0 ==> (CastToInteger(v).value - 1) as real < ToReal(d) <= CastToInteger(v).value as real
  {
    TruncateIsIntegerPart(d);
  }

  /** An integer item casts back to its own value, whichever integer class holds it. */
  lemma IntegerRoundTrip(kind: IntegerKind, i: int)
    ensures Construct(Some(Integer(kind, i))) == One(i)
  {
    IntToStringRoundTrip(i);
    IntegerTextIsDecimalText(IntToString(i));
  }

  /** A boolean casts to 1 or 0. */
  lemma BooleanCast(b: bool)
    ensures Construct(Some(Boolean(b))) == One(if b then 1 else 0)
  {
  }

  /** A string with a fraction is no integer text: the result is Java null, not a truncation. */
  lemma StringFractionRejected()
    ensures Construct(Some(Str("1.5"))) == Null
  {
    assert !IsDigit("1.5"[1]);
  }

  /** `equals`: the same order as the two integers compared as decimals. */
  predicate Equals(a: int, b: int)
    ensures Equals(a, b) <==> CompareTo(BigDecimal(a, 0), BigDecimal(b, 0)) == 0
  {
    CompareToIsValueOrder(BigDecimal(a, 0), BigDecimal(b, 0));
    a == b
  }

  /** `lt`: `compareTo` below zero. */
  predicate Lt(a: int, b: int)
    ensures Lt(a, b) <==> CompareTo(BigDecimal(a, 0), BigDecimal(b, 0)) == -1
  {
    CompareToIsValueOrder(BigDecimal(a, 0), BigDecimal(b, 0));
    a < b
  }

  /** `gt`: `compareTo` above zero. */
  predicate Gt(a: int, b: int)
    ensures Gt(a, b) <==> CompareTo(BigDecimal(a, 0), BigDecimal(b, 0)) == 1
  {
    CompareToIsValueOrder(BigDecimal(a, 0), BigDecimal(b, 0));
    a > b
  }

  /** Exactly one comparison holds, and `lt` is `gt` with the operands swapped. */
  lemma ComparisonsAreTotal(a: int, b: int)
    ensures Lt(a, b) == Gt(b, a)
    ensures (Lt(a, b) && !Equals(a, b) && !Gt(a, b))
         || (!Lt(a, b) && Equals(a, b) && !Gt(a, b))
         || (!Lt(a, b) && !Equals(a, b) && Gt(a, b))
  {
  }

  /** `multiply`: a new XSInteger holding the product. */
  method Multiply(a: XSInteger, b: XSInteger) returns (r: XSInteger)
    ensures fresh(r)
    ensures r.value == a.value * b.value
    ensures ToReal(r.decimalValue) == (a.value * b.value) as real
  {
    r := new XSInteger(a.value * b.value);
  }
}
