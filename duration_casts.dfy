/**
 * The xs:dayTimeDuration operations that take an arbitrary item: the cast
 * (`constructor`), and multiplication and division by a number or, for
 * division, by another day-time duration.
 *
 * A numeric operand is read the way `new XSDouble(String)` reads its string
 * value; `value()` of a duration, its signed length in seconds, comes from
 * the XSDuration parent class and is a parameter here.
 */
module DurationCasts {
  import opened Results
  import opened Lexical
  import opened Decimals
  import opened Durations
  import opened AtomicValues

  // ---------------------------------------------------------------------
  // Reading a number as an xs:double

  /** A double as the duration arithmetic inspects it. */
  datatype DoubleReading =
    | NotANumber
    | Infinite(negative: bool)
    | Finite(x: real, negativeZero: bool)   // negativeZero: the value is -0.0

  /**
   * `new XSDouble(String)`: "-INF" and "INF" first, then `new Double`,
   * which takes an optional sign before "NaN", "Infinity" or decimal text;
   * any other text is FORG0006.
   */
  function ReadDouble(t: string): (r: Result<DoubleReading>)
    ensures r.Err? ==> r.error == FORG0006
    ensures t == "INF" ==> r == Ok(Infinite(false))
    ensures t == "-INF" ==> r == Ok(Infinite(true))
    ensures r.Ok? && r.value.Finite? ==>
      ParseDecimal(t).Some? && r.value.x == ToReal(ParseDecimal(t).value)
  {
    if t == "-INF" then Ok(Infinite(true))
    else if t == "INF" then Ok(Infinite(false))
    else if Unsigned(t) == "NaN" then Ok(NotANumber)
    else if Unsigned(t) == "Infinity" then Ok(Infinite(SignOf(t)))
    else
      match ParseDecimal(t)
      case None => Err(FORG0006)
      case Some(d) => Ok(Finite(ToReal(d), SignOf(t) && IsZero(d)))
  }

  /** Decimal text reads as the finite double of its value, negative zero when it is "-" and zero. */
  lemma ReadDoubleOfDecimalText(t: string)
    requires ParseDecimal(t).Some?
    ensures ReadDouble(t) ==
      Ok(Finite(ToReal(ParseDecimal(t).value), SignOf(t) && IsZero(ParseDecimal(t).value)))
  {
    ParsedDecimalIsNumeral(t);
  }

  /** `XSDouble.zero()`: `Double.compare(x, 0.0) == 0`, which holds for +0.0 only. */
  predicate IsPositiveZero(r: DoubleReading) {
    r.Finite? && r.x == 0.0 && !r.negativeZero
  }

  /** The reading of an integer item: its own value, never negative zero. */
  lemma ReadIntegerItem(kind: IntegerKind, i: int)
    ensures ReadDouble(StringValue(Integer(kind, i))) == Ok(Finite(i as real, false))
  {
    var t := IntToString(i);
    IntToStringRoundTrip(i);
    IntegerTextIsDecimalText(t);
    ReadDoubleOfDecimalText(t);
    assert ToReal(BigDecimal(i, 0)) == i as real;
    if SignOf(t) {
      assert i < 0;
    }
  }

  // ---------------------------------------------------------------------
  // The cast

  /**
   * `castToDayTimeDuration`: a duration item's days, hours, minutes,
   * seconds and sign are copied; any other item's string value goes to the
   * scanner.
   */
  function CastOf(v: AnyType): (r: Result<DayTimeDuration>)
    ensures v.Duration? ==> r == Ok(v.duration)
    ensures r.Err? ==> r.error == XTTE0570
  {
    if v.Duration? then Ok(v.duration) else ScanResult(StringValue(v))
  }

  /** `castToDayTimeDuration`, calling the scanner method. */
  method CastToDayTimeDuration(v: AnyType) returns (r: Result<DayTimeDuration>)
    ensures r == CastOf(v)
  {
    if v.Duration? {
      return Ok(DayTimeDuration(v.duration.days, v.duration.hours, v.duration.minutes,
                                v.duration.seconds, v.duration.negative));
    }
    r := ParseDayTimeDuration(StringValue(v));
  }

  /** `constructor`: empty for empty input; the cast's duration, or its error thrown. */
  method Construct(arg: Option<AnyType>) returns (r: Outcome<DayTimeDuration>)
    ensures r.Empty? <==> arg.None?
    ensures arg.Some? && CastOf(arg.value).Ok? ==> r == One(CastOf(arg.value).value)
    ensures arg.Some? && CastOf(arg.value).Err? ==> r == Raised(XTTE0570)
  {
    if arg.None? {
      return Empty;
    }
    var cast := CastToDayTimeDuration(arg.value);
    match cast
    case Ok(d) => r := One(d);
    case Err(e) => r := Raised(e);
  }

  /**
   * A non-duration item casts exactly when its string value is the
   * rendering of a well-formed lexeme, and then to that lexeme's meaning.
   */
  lemma CastOfText(v: AnyType)
    requires !v.Duration?
    ensures CastOf(v).Ok? <==> exists p :: Denotes(p, StringValue(v))
    ensures forall p :: Denotes(p, StringValue(v)) ==> CastOf(v) == Ok(Meaning(p))
  {
    ScanResultIsGrammar(StringValue(v));
  }

  /** The rendering of any well-formed lexeme, as a string item, casts to its meaning. */
  lemma RenderedLexemeCasts(p: Lexeme)
    requires WellFormed(p)
    ensures CastOf(Str(Render(p))) == Ok(Meaning(p))
  {
    var s := Render(p);
    assert StringValue(Str(s)) == s;
    assert ScanResult(s) == Ok(Meaning(p)) by {
      ScanResultIsGrammar(s);
      assert Denotes(p, s);
    }
  }

  // ---------------------------------------------------------------------
  // Multiplication

  /** A length scaled by a finite factor. */
  function Scale(length: real, factor: real): real {
    length * factor
  }

  /** The product of a length and a double: a duration, or a length that is not a finite number. */
  datatype Scaled = Exact(duration: DayTimeDuration) | NotFinite

  /**
   * `mult`: a numeric operand is read as a double; NaN, and any operand
   * that is not numeric, is FOCA0005; an infinite factor makes the length
   * non-finite; otherwise the result is the duration of the scaled length.
   */
  function Mult(value: DayTimeDuration -> real, self: DayTimeDuration, arg: AnyType): (r: Result<Scaled>)
    ensures !IsNumeric(arg) ==> r == Err(FOCA0005)
    ensures IsNumeric(arg) && ReadDouble(StringValue(arg)).Err? ==> r == Err(FORG0006)
    ensures IsNumeric(arg) && ReadDouble(StringValue(arg)) == Ok(NotANumber) ==> r == Err(FOCA0005)
    ensures IsNumeric(arg) && ReadDouble(StringValue(arg)).Ok? && ReadDouble(StringValue(arg)).value.Infinite? ==>
      r == Ok(NotFinite)
  {
    if IsNumeric(arg) then
      match ReadDouble(StringValue(arg))
      case Err(e) => Err(e)
      case Ok(reading) =>
        match reading
        case NotANumber => Err(FOCA0005)
        case Infinite(_) => Ok(NotFinite)
        case Finite(x, _) => Ok(Exact(FromSeconds(Scale(value(self), x))))
    else
      Err(FOCA0005)
  }

  /** A finite reading of the operand scales the length by it. */
  lemma MultOfFinite(value: DayTimeDuration -> real, self: DayTimeDuration, arg: AnyType, x: real, negativeZero: bool)
    requires IsNumeric(arg) && ReadDouble(StringValue(arg)) == Ok(Finite(x, negativeZero))
    ensures Mult(value, self, arg) == Ok(Exact(FromSeconds(Scale(value(self), x))))
  {
  }

  /** Multiplying by an integer item scales the length by that integer. */
  lemma MultByInteger(value: DayTimeDuration -> real, self: DayTimeDuration, kind: IntegerKind, i: int)
    ensures Mult(value, self, Integer(kind, i)) == Ok(Exact(FromSeconds(Scale(value(self), i as real))))
  {
    ReadIntegerItem(kind, i);
    MultOfFinite(value, self, Integer(kind, i), i as real, false);
  }

  /** With the XML Schema length as `value()`, a finite factor scales the length. */
  lemma MultScalesLength(self: DayTimeDuration, arg: AnyType, x: real, negativeZero: bool)
    requires IsNumeric(arg) && ReadDouble(StringValue(arg)) == Ok(Finite(x, negativeZero))
    ensures Mult(TotalSeconds, self, arg).Ok? && Mult(TotalSeconds, self, arg).value.Exact?
    ensures TotalSeconds(Mult(TotalSeconds, self, arg).value.duration) == Scale(TotalSeconds(self), x)
  {
    MultOfFinite(TotalSeconds, self, arg, x, negativeZero);
    FromSecondsKeepsLength(Scale(TotalSeconds(self), x));
  }

  // ---------------------------------------------------------------------
  // Division

  /** Scaling by a non-zero factor loses nothing. */
  lemma ScaleCancels(p: real, q: real, factor: real)
    requires factor != 0.0 && Scale(p, factor) == Scale(q, factor)
    ensures p == q
  {
    assert (p - q) * factor == 0.0;
  }

  /** A length divided by a non-zero divisor. */
  function Ratio(length: real, divisor: real): (r: real)
    requires divisor != 0.0
    ensures Scale(r, divisor) == length
  {
    length / divisor
  }

  /**
   * `div` as written. A numeric operand: NaN is FOCA0005, +0.0 is FODT0001,
   * an infinite divisor gives a zero length, and any other value divides
   * the length (the 18-digit BigDecimal division is taken as exact); but
   * -0.0 is not `zero()`, and `new BigDecimal(-0.0)` is zero, so the
   * BigDecimal division throws ArithmeticException. A day-time duration
   * operand divides by its seconds field alone, and a zero seconds field
   * is FODT0001. Any other operand is FORG0006.
   */
  function Div(value: DayTimeDuration -> real, self: DayTimeDuration, arg: AnyType): (r: Result<DayTimeDuration>)
    ensures !IsNumeric(arg) && !(arg.Duration? && arg.dayTime) ==> r == Err(FORG0006)
    ensures IsNumeric(arg) && ReadDouble(StringValue(arg)).Err? ==> r == Err(FORG0006)
    ensures IsNumeric(arg) && ReadDouble(StringValue(arg)) == Ok(NotANumber) ==> r == Err(FOCA0005)
    ensures IsNumeric(arg) && ReadDouble(StringValue(arg)).Ok? && IsPositiveZero(ReadDouble(StringValue(arg)).value) ==>
      r == Err(FODT0001)
    ensures IsNumeric(arg) && ReadDouble(StringValue(arg)).Ok? && ReadDouble(StringValue(arg)).value.Infinite? ==>
      r == Ok(DayTimeDuration(0, 0, 0, 0.0, false))
    ensures arg.Duration? && arg.dayTime ==> (r == Err(FODT0001) <==> arg.duration.seconds == 0.0)
  {
    if IsNumeric(arg) then
      match ReadDouble(StringValue(arg))
      case Err(e) => Err(e)
      case Ok(reading) =>
        match reading
        case NotANumber => Err(FOCA0005)
        case Infinite(_) => Ok(FromSeconds(0.0))
        case Finite(x, negativeZero) =>
          if x == 0.0 && !negativeZero then Err(FODT0001)
          else if x == 0.0 then Err(Arithmetic)
          else Ok(FromSeconds(Ratio(value(self), x)))
    else if arg.Duration? && arg.dayTime then
      var divisor := arg.duration.seconds;
      if divisor != 0.0 then Ok(FromSeconds(Ratio(value(self), divisor)))
      else Err(FODT0001)
    else
      Err(FORG0006)
  }

  /** A non-zero finite divisor divides the length; with the XML Schema length as `value()`, exactly. */
  lemma DivByNumber(value: DayTimeDuration -> real, self: DayTimeDuration, arg: AnyType, x: real, negativeZero: bool)
    requires IsNumeric(arg) && ReadDouble(StringValue(arg)) == Ok(Finite(x, negativeZero)) && x != 0.0
    ensures Div(value, self, arg) == Ok(FromSeconds(Ratio(value(self), x)))
    ensures value == TotalSeconds ==> Scale(TotalSeconds(Div(value, self, arg).value), x) == TotalSeconds(self)
  {
    FromSecondsKeepsLength(Ratio(value(self), x));
  }

  /**
   * A day-time duration divisor with a non-zero seconds field divides the
   * length by that field; with the XML Schema length as `value()`, exactly.
   */
  lemma DivByDuration(value: DayTimeDuration -> real, self: DayTimeDuration, divisor: DayTimeDuration, shown: string)
    requires divisor.seconds != 0.0
    ensures Div(value, self, Duration(divisor, true, shown)) == Ok(FromSeconds(Ratio(value(self), divisor.seconds)))
    ensures value == TotalSeconds ==>
      Scale(TotalSeconds(Div(value, self, Duration(divisor, true, shown)).value), divisor.seconds) == TotalSeconds(self)
  {
    FromSecondsKeepsLength(Ratio(value(self), divisor.seconds));
  }

  /** The xs:double -0 reads as negative zero. */
  lemma ReadNegativeZero()
    ensures ReadDouble("-0") == Ok(Finite(0.0, true))
  {
    assert Unsigned("-0") == "0";
    ReadWhole("0");
    assert ParseDecimal("-0") == Some(BigDecimal(0, 0));
    ReadDoubleOfDecimalText("-0");
  }

  /** Dividing by the xs:double -0 throws ArithmeticException, not FODT0001. */
  lemma DivByNegativeZero(value: DayTimeDuration -> real, self: DayTimeDuration)
    ensures Div(value, self, Double("-0")) == Err(Arithmetic)
  {
    ReadNegativeZero();
  }

  /**
   * Dividing by a duration of one minute: its length is 60 seconds, but its
   * seconds field is 0, so the division is FODT0001.
   */
  lemma DivByOneMinute(self: DayTimeDuration)
    ensures var minute := DayTimeDuration(0, 0, 1, 0.0, false);
      TotalSeconds(minute) == 60.0 && Div(TotalSeconds, self, Duration(minute, true, "PT1M")) == Err(FODT0001)
  {
  }

  /**
   * `div` as evidently intended: every zero divisor, -0 included, is
   * FODT0001, and a day-time duration divisor divides by its whole length.
   */
  function DivCorrected(value: DayTimeDuration -> real, self: DayTimeDuration, arg: AnyType): (r: Result<DayTimeDuration>)
    ensures r.Err? ==> r.error != Arithmetic
    ensures arg.Duration? && arg.dayTime ==>
      (r == Err(FODT0001) <==> value(arg.duration) == 0.0)
  {
    if IsNumeric(arg) then
      match ReadDouble(StringValue(arg))
      case Err(e) => Err(e)
      case Ok(reading) =>
        match reading
        case NotANumber => Err(FOCA0005)
        case Infinite(_) => Ok(FromSeconds(0.0))
        case Finite(x, _) =>
          if x == 0.0 then Err(FODT0001)
          else Ok(FromSeconds(Ratio(value(self), x)))
    else if arg.Duration? && arg.dayTime then
      var divisor := value(arg.duration);
      if divisor != 0.0 then Ok(FromSeconds(Ratio(value(self), divisor)))
      else Err(FODT0001)
    else
      Err(FORG0006)
  }

  /**
   * The corrected division agrees with `div` on every numeric operand other
   * than -0, and on every other operand that is not a day-time duration;
   * for -0 it raises FODT0001.
   */
  lemma DivCorrectedAgrees(value: DayTimeDuration -> real, self: DayTimeDuration, arg: AnyType)
    ensures !(arg.Duration? && arg.dayTime) && Div(value, self, arg) != Err(Arithmetic) ==>
      DivCorrected(value, self, arg) == Div(value, self, arg)
    ensures Div(value, self, arg) == Err(Arithmetic) ==> DivCorrected(value, self, arg) == Err(FODT0001)
  {
  }

  /** Divided by a day-time duration of non-zero length, the corrected division gives the ratio of the lengths. */
  lemma DivCorrectedByDuration(self: DayTimeDuration, divisor: DayTimeDuration, shown: string)
    requires TotalSeconds(divisor) != 0.0
    ensures DivCorrected(TotalSeconds, self, Duration(divisor, true, shown)).Ok?
    ensures Scale(TotalSeconds(DivCorrected(TotalSeconds, self, Duration(divisor, true, shown)).value), TotalSeconds(divisor))
            == TotalSeconds(self)
  {
    FromSecondsKeepsLength(Ratio(TotalSeconds(self), TotalSeconds(divisor)));
  }

  /** Multiplying by a non-zero integer and dividing by it again gives back the length. */
  lemma MultThenDiv(self: DayTimeDuration, kind: IntegerKind, i: int)
    requires i != 0
    ensures Mult(TotalSeconds, self, Integer(kind, i)).Ok?
    ensures var m := Mult(TotalSeconds, self, Integer(kind, i)).value;
      m.Exact? && Div(TotalSeconds, m.duration, Integer(kind, i)).Ok?
      && TotalSeconds(Div(TotalSeconds, m.duration, Integer(kind, i)).value) == TotalSeconds(self)
  {
    var a, x := TotalSeconds(self), i as real;
    ReadIntegerItem(kind, i);
    MultScalesLength(self, Integer(kind, i), x, false);
    var m := FromSeconds(Scale(a, x));
    DivByNumber(TotalSeconds, m, Integer(kind, i), x, false);
    var q := TotalSeconds(Div(TotalSeconds, m, Integer(kind, i)).value);
    ScaleCancels(q, a, x);
  }
}
