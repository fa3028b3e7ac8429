/**
 * The items a type's `constructor` may be handed: one case per XSAnyType
 * class the casts tell apart, with the string value each of them reports.
 *
 * Formatted numbers (a non-zero xs:decimal, xs:float, xs:double) and
 * durations are printed by formatters outside this model; their text is
 * carried as the `shown` field of the item.
 */
module AtomicValues {
  import opened Results
  import opened Lexical
  import opened Decimals
  import opened QNames
  import opened Durations

  /** The three integer classes: XSInteger, its subclass XSLong, and XSLong's subclass XSInt. */
  datatype IntegerKind = XsInteger | XsLong | XsInt

  datatype AnyType =
    | Boolean(b: bool)
    | Decimal(d: BigDecimal, shown: string)      // shown: the formatted text of a non-zero value
    | Integer(kind: IntegerKind, i: int)
    | Float(shown: string)
    | Double(shown: string)
    | Str(s: string)                             // XSString
    | NormalizedStr(s: string)                   // XSNormalizedString, a subclass of XSString
    | QNameItem(q: QName)
    | Duration(duration: DayTimeDuration, dayTime: bool, shown: string)  // any XSDuration
    | UntypedAtomic(s: string)
    | Untyped(s: string)                         // XSUntyped: an XSAnyType that is not atomic
    | Other(typeName: string, shown: string)     // any other atomic type

  /** `stringValue()` of each item. */
  function StringValue(v: AnyType): string {
    match v
    case Boolean(b) => if b then "true" else "false"
    case Decimal(d, shown) => if IsZero(d) then "0" else shown
    case Integer(_, i) => IntToString(i)
    case Float(shown) => shown
    case Double(shown) => shown
    case Str(s) => s
    case NormalizedStr(s) => s
    case QNameItem(q) => QNames.StringValue(q)
    case Duration(_, _, shown) => shown
    case UntypedAtomic(s) => s
    case Untyped(s) => s
    case Other(_, shown) => shown
  }

  /**
   * What the casts read back from a string value: "true" or "false" for a
   * boolean, the integer itself for an integer, and "0" for any zero
   * decimal.
   */
  lemma StringValueReadsBack(v: AnyType)
    ensures v.Boolean? ==> (StringValue(v) == "true" <==> v.b) && (StringValue(v) == "false" <==> !v.b)
    ensures v.Integer? ==> ParseBigInteger(StringValue(v)) == Some(v.i)
    ensures v.Decimal? && IsZero(v.d) ==> StringValue(v) == "0"
  {
    if v.Integer? {
      IntToStringRoundTrip(v.i);
    }
  }

  /** `typeName()` of each item. */
  function TypeName(v: AnyType): (r: string)
    ensures v.Integer? ==> r in {"integer", "long", "int"}
    ensures v.Duration? ==> (r == "dayTimeDuration" <==> v.dayTime)
  {
    match v
    case Boolean(_) => "boolean"
    case Decimal(_, _) => "decimal"
    case Integer(kind, _) => (match kind case XsInteger => "integer" case XsLong => "long" case XsInt => "int")
    case Float(_) => "float"
    case Double(_) => "double"
    case Str(_) => "string"
    case NormalizedStr(_) => "normalizedString"
    case QNameItem(_) => "QName"
    case Duration(_, dayTime, _) => if dayTime then "dayTimeDuration" else "duration"
    case UntypedAtomic(_) => "untypedAtomic"
    case Untyped(_) => "untyped"
    case Other(name, _) => name
  }

  /** `stringType()`: the type name in the xs namespace. */
  function StringType(v: AnyType): (r: string)
    ensures |r| == |TypeName(v)| + 3 && r[..3] == "xs:" && r[3..] == TypeName(v)
  {
    "xs:" + TypeName(v)
  }

  /** `instanceof XSNumericType`. */
  predicate IsNumeric(v: AnyType) {
    v.Decimal? || v.Integer? || v.Float? || v.Double?
  }

  /** `instanceof XSDecimal`, which the integer classes extend. */
  predicate IsDecimal(v: AnyType) {
    v.Decimal? || v.Integer?
  }

  /** `instanceof XSString`, which XSNormalizedString extends. */
  predicate IsString(v: AnyType) {
    v.Str? || v.NormalizedStr?
  }

  /** `instanceof XSAnyAtomicType`: everything but XSUntyped. */
  predicate IsAtomic(v: AnyType) {
    !v.Untyped?
  }

  /** The names the two untyped classes report. */
  lemma UntypedNames(s: string)
    ensures TypeName(UntypedAtomic(s)) == "untypedAtomic" && StringType(UntypedAtomic(s)) == "xs:untypedAtomic"
    ensures TypeName(Untyped(s)) == "untyped" && StringType(Untyped(s)) == "xs:untyped"
  {
  }

  /** The names xs:boolean reports. */
  lemma BooleanNames(b: bool)
    ensures TypeName(Boolean(b)) == "boolean" && StringType(Boolean(b)) == "xs:boolean"
  {
  }

  /** The names xs:decimal reports. */
  lemma DecimalNames(d: BigDecimal, shown: string)
    ensures TypeName(Decimal(d, shown)) == "decimal" && StringType(Decimal(d, shown)) == "xs:decimal"
  {
  }

  /** The names of the three integer classes, one per kind. */
  lemma IntegerNames(i: int)
    ensures TypeName(Integer(XsInteger, i)) == "integer" && StringType(Integer(XsInteger, i)) == "xs:integer"
    ensures TypeName(Integer(XsLong, i)) == "long" && StringType(Integer(XsLong, i)) == "xs:long"
    ensures TypeName(Integer(XsInt, i)) == "int" && StringType(Integer(XsInt, i)) == "xs:int"
  {
  }

  /** The names xs:QName reports. */
  lemma QNameNames(q: QName)
    ensures TypeName(QNameItem(q)) == "QName" && StringType(QNameItem(q)) == "xs:QName"
  {
  }

  /** The names xs:normalizedString reports. */
  lemma NormalizedStringNames(s: string)
    ensures TypeName(NormalizedStr(s)) == "normalizedString" && StringType(NormalizedStr(s)) == "xs:normalizedString"
  {
  }

  /** The names a day-time duration reports. */
  lemma DayTimeDurationNames(d: DayTimeDuration, shown: string)
    ensures TypeName(Duration(d, true, shown)) == "dayTimeDuration"
    ensures StringType(Duration(d, true, shown)) == "xs:dayTimeDuration"
  {
  }

  /** A zero decimal reports "0", whatever its scale. */
  lemma ZeroDecimalText(d: BigDecimal, shown: string)
    requires ToReal(d) == 0.0
    ensures StringValue(Decimal(d, shown)) == "0"
  {
  }
}
