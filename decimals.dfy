/**
 * java.math.BigDecimal as the XSDecimal type uses it: an unscaled integer
 * and a scale, read from text, ordered by `compareTo`, compared by
 * `equals`, truncated by `toBigInteger` and printed by `toString`.
 */
module Decimals {
  import opened Results
  import opened Lexical

  /** The number unscaled / 10^scale; the scale is never negative here. */
  datatype BigDecimal = BigDecimal(unscaled: int, scale: nat)

  function Pow10(k: nat): (r: nat)
    ensures r >= 1
  {
    if k == 0 then 1 else 10 * Pow10(k - 1)
  }

  function Abs(i: int): nat {
    if i < 0 then -i else i
  }

  /** The exact value as a real number. */
  function ToReal(d: BigDecimal): real {
    d.unscaled as real / Pow10(d.scale) as real
  }

  /**
   * `new BigDecimal(t)` on ASCII text: an optional sign, then digits with an
   * optional point, with at least one digit; anything else is a
   * NumberFormatException (None). The scale is the number of digits after
   * the point.
   */
  function ParseDecimal(t: string): Option<BigDecimal>
  {
    Signed(SignOf(t), ReadMagnitude(Unsigned(t)))
  }

  /** A magnitude read from text, negated when the text carried a minus sign. */
  function Signed(negative: bool, m: Option<BigDecimal>): Option<BigDecimal>
  {
    match m
    case None => None
    case Some(d) => Some(if negative then BigDecimal(-d.unscaled, d.scale) else d)
  }

  /** Unsigned decimal text: digits with an optional point, at least one digit. */
  function ReadMagnitude(body: string): (r: Option<BigDecimal>)
    ensures r.Some? ==> r.value.unscaled >= 0
  {
    var dot := IndexOf(body, '.');
    var whole := if dot == -1 then body else body[..dot];
    var fraction := if dot == -1 then "" else body[dot + 1..];
    if IsDigits(whole) && IsDigits(fraction) && |whole| + |fraction| >= 1 then
      DigitsConcat(whole, fraction);
      Some(BigDecimal(DigitsValue(whole + fraction), |fraction|))
    else
      None
  }

  lemma DigitsConcat(a: string, b: string)
    requires IsDigits(a) && IsDigits(b)
    ensures IsDigits(a + b)
  {
    forall i | 0 <= i < |a + b| ensures IsDigit((a + b)[i]) {
      if i >= |a| { assert (a + b)[i] == b[i - |a|]; }
    }
  }

  /** Text that reads as a decimal holds only digits, signs and points. */
  lemma ParsedDecimalIsNumeral(t: string)
    requires ParseDecimal(t).Some?
    ensures IsNumeral(t)
  {
    var body := Unsigned(t);
    var dot := IndexOf(body, '.');
    var whole := if dot == -1 then body else body[..dot];
    var fraction := if dot == -1 then "" else body[dot + 1..];
    assert IsDigits(whole) && IsDigits(fraction);
    forall j | 0 <= j < |body| ensures IsNumeralChar(body[j]) {
      if dot == -1 {
        assert IsDigit(whole[j]);
      } else if j < dot {
        assert body[j] == whole[j];
      } else if j > dot {
        assert body[j] == fraction[j - dot - 1];
      }
    }
    var signed := |t| > 0 && (t[0] == '-' || t[0] == '+');
    forall i | 0 <= i < |t| ensures IsNumeralChar(t[i]) {
      if signed && i > 0 {
        assert t[i] == body[i - 1];
      } else if !signed {
        assert t[i] == body[i];
      }
    }
  }

  /** Text holding a character no numeral has does not read. */
  lemma NonNumeralDoesNotRead(t: string)
    requires !IsNumeral(t)
    ensures ParseDecimal(t).None?
  {
    if ParseDecimal(t).Some? {
      ParsedDecimalIsNumeral(t);
    }
  }

  lemma DigitsSuffix(a: string, b: string)
    requires IsDigits(a + b)
    ensures IsDigits(b)
  {
    forall i | 0 <= i < |b| ensures IsDigit(b[i]) {
      assert b[i] == (a + b)[|a| + i];
    }
  }

  lemma DigitsLackChar(s: string, c: char)
    requires IsDigits(s) && !IsDigit(c)
    ensures c !in s
  {
    forall i | 0 <= i < |s| ensures s[i] != c {
      assert IsDigit(s[i]);
    }
  }

  function SignText(negative: bool): string {
    if negative then "-" else ""
  }

  /** A sign in front of unsigned text negates its reading. */
  lemma ParseSigned(negative: bool, body: string)
    requires body != "" && body[0] != '+' && body[0] != '-'
    ensures ParseDecimal(SignText(negative) + body) == Signed(negative, ReadMagnitude(body))
  {
    var t := SignText(negative) + body;
    if negative {
      assert t[1..] == body;
    } else {
      assert t == body;
    }
    assert SignOf(t) == negative && Unsigned(t) == body;
  }

  /** The reading of `w.f`. */
  lemma ReadPointed(w: string, f: string)
    requires IsDigits(w) && IsDigits(f) && |f| >= 1
    ensures IsDigits(w + f)
    ensures ReadMagnitude(w + "." + f) == Some(BigDecimal(DigitsValue(w + f), |f|))
  {
    DigitsConcat(w, f);
    var body := w + "." + f;
    DigitsLackChar(w, '.');
    assert body[|w|] == '.' && body[..|w|] == w;
    assert IndexOf(body, '.') == |w|;
    assert body[|w| + 1..] == f;
  }

  /** The reading of digits with no point. */
  lemma ReadWhole(w: string)
    requires IsDigits(w) && |w| >= 1
    ensures ReadMagnitude(w) == Some(BigDecimal(DigitsValue(w), 0))
  {
    DigitsLackChar(w, '.');
    assert w + "" == w;
  }

  /** Every integer numeral is also a decimal numeral, with scale 0. */
  lemma IntegerTextIsDecimalText(t: string)
    requires ParseBigInteger(t).Some?
    ensures ParseDecimal(t) == Some(BigDecimal(ParseBigInteger(t).value, 0))
  {
    var body := Unsigned(t);
    DigitsLackChar(body, '.');
    assert body + "" == body;
  }

  /** `compareTo`: -1, 0 or 1 as the value of `a` is below, equal to or above that of `b`. */
  function CompareTo(a: BigDecimal, b: BigDecimal): (r: int)
    ensures r == -1 || r == 0 || r == 1
  {
    var x := a.unscaled * Pow10(b.scale);
    var y := b.unscaled * Pow10(a.scale);
    if x < y then -1 else if x == y then 0 else 1
  }

  lemma CrossMultiply(x: real, y: real, pa: real, pb: real)
    requires pa > 0.0 && pb > 0.0
    ensures x / pa < y / pb <==> x * pb < y * pa
    ensures x / pa == y / pb <==> x * pb == y * pa
  {
    var qx, qy := x / pa, y / pb;
    assert x == qx * pa && y == qy * pb;
    var c := pa * pb;
    assert c > 0.0;
    assert x * pb == qx * c && y * pa == qy * c;
    assert qx < qy <==> qx * c < qy * c;
  }

  /** `compareTo` orders the values of the two decimals. */
  lemma CompareToIsValueOrder(a: BigDecimal, b: BigDecimal)
    ensures CompareTo(a, b) == -1 <==> ToReal(a) < ToReal(b)
    ensures CompareTo(a, b) == 0 <==> ToReal(a) == ToReal(b)
  {
    var pa, pb := Pow10(a.scale) as real, Pow10(b.scale) as real;
    var x, y := a.unscaled as real, b.unscaled as real;
    assert (a.unscaled * Pow10(b.scale)) as real == x * pb;
    assert (b.unscaled * Pow10(a.scale)) as real == y * pa;
    CrossMultiply(x, y, pa, pb);
  }

  /** `compareTo(new BigDecimal(0.0)) == 0`. */
  function IsZero(d: BigDecimal): (r: bool)
    ensures r <==> d.unscaled == 0
    ensures r <==> ToReal(d) == 0.0
  {
    CompareTo(d, BigDecimal(0, 0)) == 0
  }

  lemma DivBounds(a: nat, p: nat)
    requires p >= 1
    ensures a / p >= 0
    ensures 0 <= a - (a / p) * p < p
    ensures p == 1 ==> a / p == a
  {
  }

  /** `toBigInteger`: the integer part, truncated toward zero. */
  function Truncate(d: BigDecimal): (r: int)
    ensures d.scale == 0 ==> r == d.unscaled
    ensures 0 <= Abs(d.unscaled) - Abs(r) * Pow10(d.scale) < Pow10(d.scale)
    ensures r != 0 ==> (r < 0 <==> d.unscaled < 0)
  {
    var a, p := Abs(d.unscaled), Pow10(d.scale);
    DivBounds(a, p);
    var m := a / p;
    assert Abs(if d.unscaled < 0 then -m else m) == m;
    if d.unscaled < 0 then -m else m
  }

  /** Comparing an integer with a quotient by a positive divisor is comparing the cross product. */
  lemma CompareQuotient(k: int, a: int, p: int)
    requires p >= 1
    ensures k * p < a <==> (k as real) < (a as real) / (p as real)
    ensures k * p == a <==> (k as real) == (a as real) / (p as real)
  {
    assert (k * p) as real == (k as real) * (p as real);
    CrossMultiply(k as real, a as real, 1.0, p as real);
  }

  /** Truncation keeps the integer part: the value lies within one of it, on the side away from zero. */
  lemma TruncateIsIntegerPart(d: BigDecimal)
    ensures ToReal(d) >= 0.0 ==> Truncate(d) as real <= ToReal(d) < (Truncate(d) + 1) as real
    ensures ToReal(d) < 0.0 ==> (Truncate(d) - 1) as real < ToReal(d) <= Truncate(d) as real
  {
    var u, p, r := d.unscaled, Pow10(d.scale), Truncate(d);
    assert ToReal(d) == (u as real) / (p as real);
    CompareQuotient(0, u, p);
    if u >= 0 {
      assert Abs(u) == u && Abs(r) == r;
      QuotientAbove(u, p, r);
    } else {
      assert Abs(u) == -u && Abs(r) == -r;
      QuotientBelow(u, p, r);
    }
  }

  /** A non-negative quotient lies in [r, r + 1) when r * p is within p below the dividend. */
  lemma QuotientAbove(u: int, p: int, r: int)
    requires p >= 1 && 0 <= u - r * p < p
    ensures (r as real) <= (u as real) / (p as real) < ((r + 1) as real)
  {
    assert (r + 1) * p == r * p + p;
    CompareQuotient(r, u, p);
    CompareQuotient(r + 1, u, p);
  }

  /** A negative quotient lies in (r - 1, r] when r * p is within p above the dividend. */
  lemma QuotientBelow(u: int, p: int, r: int)
    requires p >= 1 && 0 <= -u - (-r) * p < p
    ensures ((r - 1) as real) < (u as real) / (p as real) <= (r as real)
  {
    assert (-r) * p == -(r * p);
    assert (r - 1) * p == r * p - p;
    CompareQuotient(r, u, p);
    CompareQuotient(r - 1, u, p);
  }

  // ---------------------------------------------------------------------
  // toString, and the leading-zero strip that XSDecimal.stringValue applies

  function Zeros(n: nat): (r: string)
    ensures |r| == n && IsDigits(r)
    ensures forall i :: 0 <= i < n ==> r[i] == '0'
  {
    if n == 0 then "" else Zeros(n - 1) + "0"
  }

  /** The digits of the unscaled value, zero-padded to more than `scale` digits. */
  function PaddedDigits(d: BigDecimal): (r: string)
    ensures IsDigits(r) && |r| > d.scale
    ensures DigitsValue(r) == Abs(d.unscaled)
  {
    var digits := NatToString(Abs(d.unscaled));
    var pad := if |digits| <= d.scale then d.scale + 1 - |digits| else 0;
    DigitsValueLeadingZeros(pad, digits);
    Zeros(pad) + digits
  }

  /** The digits before the point: all but the last `scale` padded digits. */
  function WholeDigits(d: BigDecimal): (r: string)
    ensures IsDigits(r) && |r| >= 1
  {
    var padded := PaddedDigits(d);
    padded[..|padded| - d.scale]
  }

  lemma SplitDigits(s: string, k: nat)
    requires IsDigits(s) && k <= |s|
    ensures s[..k] + s[k..] == s
    ensures IsDigits(s[k..])
  {
    assert s[..k] + s[k..] == s;
    DigitsSuffix(s[..k], s[k..]);
  }

  /** The last `scale` padded digits, which follow the point. */
  function FractionDigits(d: BigDecimal): (r: string)
    ensures IsDigits(r) && |r| == d.scale
    ensures IsDigits(WholeDigits(d) + r)
    ensures DigitsValue(WholeDigits(d) + r) == Abs(d.unscaled)
  {
    var padded := PaddedDigits(d);
    var k := |padded| - d.scale;
    SplitDigits(padded, k);
    padded[k..]
  }

  /**
   * `toString()` in its plain form: a minus sign for a negative value, the
   * digits of the unscaled value, and for a positive scale a point with
   * `scale` digits after it and at least one digit before it.
   */
  function PlainString(d: BigDecimal): (r: string)
    ensures r != "" && (r[0] == '-' <==> d.unscaled < 0)
    ensures d.scale > 0 ==> |r| > d.scale + 1 && r[|r| - d.scale - 1] == '.'
  {
    if d.scale == 0 then SignText(d.unscaled < 0) + NatToString(Abs(d.unscaled))
    else SignText(d.unscaled < 0) + WholeDigits(d) + "." + FractionDigits(d)
  }

  /** `replaceFirst("0*", "")`: the text without its leading run of '0'. */
  function StripLeadingZeros(s: string): (r: string)
    ensures |r| <= |s|
    ensures r != "" ==> r[0] != '0'
  {
    if |s| > 0 && s[0] == '0' then StripLeadingZeros(s[1..]) else s
  }

  lemma {:induction false} DigitsValueLeadingZeros(n: nat, s: string)
    requires IsDigits(s)
    ensures IsDigits(Zeros(n) + s)
    ensures DigitsValue(Zeros(n) + s) == DigitsValue(s)
  {
    var z := Zeros(n) + s;
    assert IsDigits(z) by {
      forall i | 0 <= i < |z| ensures IsDigit(z[i]) {
        if i >= n { assert z[i] == s[i - n]; }
      }
    }
    if s == [] {
      assert z == Zeros(n);
      if n > 0 {
        assert z[..|z| - 1] == Zeros(n - 1) + "";
        DigitsValueLeadingZeros(n - 1, "");
      }
    } else {
      assert z[..|z| - 1] == Zeros(n) + s[..|s| - 1];
      DigitsValueLeadingZeros(n, s[..|s| - 1]);
    }
  }

  /** Any text is the run of zeros the strip drops followed by what it keeps. */
  lemma {:induction false} StripSplitsZeros(s: string)
    ensures var r := StripLeadingZeros(s);
      s == Zeros(|s| - |r|) + r
  {
    if |s| > 0 && s[0] == '0' {
      StripSplitsZeros(s[1..]);
      var r := StripLeadingZeros(s);
      assert Zeros(|s| - |r|) == "0" + Zeros(|s| - 1 - |r|) by {
        ZerosFront(|s| - |r|);
      }
      assert s == "0" + s[1..];
    } else {
      assert s == "" + s;
    }
  }

  lemma ZerosFront(n: nat)
    requires n >= 1
    ensures Zeros(n) == "0" + Zeros(n - 1)
  {
    if n > 1 {
      ZerosFront(n - 1);
    }
  }

  /** The strip stops at the point of a digits-point-digits text. */
  lemma {:induction false} StripBeforePoint(w: string, f: string)
    requires IsDigits(w)
    ensures StripLeadingZeros(w + "." + f) == StripLeadingZeros(w) + "." + f
  {
    if |w| > 0 && w[0] == '0' {
      assert (w + "." + f)[1..] == w[1..] + "." + f;
      StripBeforePoint(w[1..], f);
    }
  }

  /** Unsigned `w.f` reads as the digits `w + f` scaled by `|f|`. */
  lemma ParseUnsignedPointed(w: string, f: string)
    requires IsDigits(w) && IsDigits(f) && |f| >= 1
    ensures IsDigits(w + f)
    ensures ParseDecimal(w + "." + f) == Some(BigDecimal(DigitsValue(w + f), |f|))
  {
    var body := w + "." + f;
    assert body[0] != '+' && body[0] != '-' by {
      if w != "" { assert IsDigit(w[0]); } else { assert body[0] == '.'; }
    }
    ParseSigned(false, body);
    assert SignText(false) + body == body;
    ReadPointed(w, f);
  }

  /** Dropping the leading zeros of `w` keeps the value of `w + f`. */
  lemma StripKeepsValue(w: string, f: string)
    requires IsDigits(w) && IsDigits(f)
    ensures IsDigits(StripLeadingZeros(w)) && IsDigits(StripLeadingZeros(w) + f) && IsDigits(w + f)
    ensures DigitsValue(StripLeadingZeros(w) + f) == DigitsValue(w + f)
  {
    var kept := StripLeadingZeros(w);
    StripSplitsZeros(w);
    var z := Zeros(|w| - |kept|);
    DigitsSuffix(z, kept);
    DigitsConcat(kept, f);
    DigitsValueLeadingZeros(|z|, kept + f);
    assert z + (kept + f) == w + f;
  }

  /** Unsigned `w.f`: the strip drops the zeros of `w` and the reading is unchanged. */
  lemma StrippedPointed(w: string, f: string)
    requires IsDigits(w) && IsDigits(f) && |f| >= 1
    ensures IsDigits(w + f)
    ensures ParseDecimal(StripLeadingZeros(w + "." + f)) == Some(BigDecimal(DigitsValue(w + f), |f|))
  {
    StripBeforePoint(w, f);
    StripKeepsValue(w, f);
    ParseUnsignedPointed(StripLeadingZeros(w), f);
  }

  /** A positive value with a point: the strip only drops zeros before the point. */
  lemma StrippedPointedRoundTrip(d: BigDecimal)
    requires d.unscaled > 0 && d.scale > 0
    ensures ParseDecimal(StripLeadingZeros(PlainString(d))) == Some(d)
  {
    var w, f := WholeDigits(d), FractionDigits(d);
    assert PlainString(d) == w + "." + f;
    StrippedPointed(w, f);
  }

  /** A minus sign stops the strip at once. */
  lemma StrippedNegative(body: string)
    requires body != "" && IsDigit(body[0])
    ensures ParseDecimal(StripLeadingZeros(SignText(true) + body)) == Signed(true, ReadMagnitude(body))
  {
    var t := SignText(true) + body;
    assert t[0] == '-';
    ParseSigned(true, body);
  }

  /** A negative value with a point: the minus sign stops the strip at once. */
  lemma StrippedNegativeRoundTrip(d: BigDecimal)
    requires d.unscaled < 0 && d.scale > 0
    ensures ParseDecimal(StripLeadingZeros(PlainString(d))) == Some(d)
  {
    var w, f := WholeDigits(d), FractionDigits(d);
    var body := w + "." + f;
    assert PlainString(d) == SignText(true) + body;
    assert IsDigit(body[0]);
    StrippedNegative(body);
    ReadPointed(w, f);
  }

  /** A value with no point: the text is its sign and digits, with no zero to strip. */
  lemma StrippedWholeRoundTrip(d: BigDecimal)
    requires d.unscaled != 0 && d.scale == 0
    ensures ParseDecimal(StripLeadingZeros(PlainString(d))) == Some(d)
  {
    var digits := NatToString(Abs(d.unscaled));
    var t := PlainString(d);
    assert t == SignText(d.unscaled < 0) + digits;
    if d.unscaled < 0 {
      assert t[0] == '-';
    } else {
      assert t == digits && t[0] != '0';
    }
    assert IsDigit(digits[0]);
    ParseSigned(d.unscaled < 0, digits);
    ReadWhole(digits);
  }

  /** The value's text, read back after the zero strip, is the value itself. */
  lemma StrippedTextRoundTrip(d: BigDecimal)
    requires !IsZero(d)
    ensures ParseDecimal(StripLeadingZeros(PlainString(d))) == Some(d)
  {
    if d.scale == 0 {
      StrippedWholeRoundTrip(d);
    } else if d.unscaled < 0 {
      StrippedNegativeRoundTrip(d);
    } else {
      StrippedPointedRoundTrip(d);
    }
  }
}
