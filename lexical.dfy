/**
 * The Java string and integer-text operations the casts rely on:
 * `startsWith`, `indexOf`, `split`, `BigInteger(String)`,
 * `Integer.parseInt` and `BigInteger.toString`, over ASCII text.
 */
module Lexical {
  import opened Results

  const MinInt32: int := -0x8000_0000
  const MaxInt32: int := 0x7fff_ffff

  predicate StartsWith(s: string, prefix: string) {
    |prefix| <= |s| && s[..|prefix|] == prefix
  }

  /** `s.indexOf(c)`: the first position of `c` in `s`, or -1. */
  function IndexOf(s: string, c: char): (r: int)
    ensures r == -1 <==> c !in s
    ensures r != -1 ==> 0 <= r < |s| && s[r] == c && c !in s[..r]
  {
    if s == [] then -1
    else if s[0] == c then 0
    else
      var k := IndexOf(s[1..], c);
      assert s == [s[0]] + s[1..];
      if k == -1 then -1
      else
        assert s[..k + 1] == [s[0]] + s[1..][..k];
        k + 1
  }

  /** The first `c` in `a + [c] + b` is the one after `a`, when `a` has none. */
  lemma FindAfter(a: string, c: char, b: string)
    requires c !in a
    ensures var t := a + [c] + b;
      IndexOf(t, c) == |a| && t[..|a|] == a && t[|a| + 1..] == b
  {
    var t := a + [c] + b;
    assert t[|a|] == c;
  }

  /** The number of occurrences of `c` in `s`, counted from the left. */
  function Count(s: string, c: char): nat
  {
    if s == [] then 0
    else Count(s[..|s| - 1], c) + (if s[|s| - 1] == c then 1 else 0)
  }

  lemma {:induction false} CountZero(s: string, c: char)
    ensures Count(s, c) == 0 <==> c !in s
  {
    if s != [] {
      CountZero(s[..|s| - 1], c);
      assert s == s[..|s| - 1] + [s[|s| - 1]];
    }
  }

  /** Counting over a concatenation adds up. */
  lemma {:induction false} CountConcat(a: string, b: string, c: char)
    ensures Count(a + b, c) == Count(a, c) + Count(b, c)
  {
    if b != [] {
      assert (a + b)[..|a + b| - 1] == a + b[..|b| - 1];
      CountConcat(a, b[..|b| - 1], c);
    } else {
      assert a + b == a;
    }
  }

  /** With exactly one `c` in `s`, nothing on either side of it is a `c`. */
  lemma CountOne(s: string, c: char)
    requires Count(s, c) == 1
    ensures IndexOf(s, c) != -1
    ensures c !in s[IndexOf(s, c) + 1..]
  {
    CountZero(s, c);
    var i := IndexOf(s, c);
    assert s == s[..i] + [c] + s[i + 1..];
    CountConcat(s[..i] + [c], s[i + 1..], c);
    CountConcat(s[..i], [c], c);
    CountZero(s[..i], c);
    CountZero(s[i + 1..], c);
  }

  // ---------------------------------------------------------------------
  // String.split for a one-character delimiter that is not a regex
  // metacharacter, with Java's removal of trailing empty strings.

  /** Every piece between occurrences of `c`, empty ones included. */
  function Pieces(s: string, c: char): (r: seq<string>)
    ensures |r| == Count(s, c) + 1
    decreases |s|
  {
    var i := IndexOf(s, c);
    if i == -1 then
      CountZero(s, c);
      [s]
    else
      assert s == s[..i] + [c] + s[i + 1..];
      CountConcat(s[..i] + [c], s[i + 1..], c);
      CountConcat(s[..i], [c], c);
      CountZero(s[..i], c);
      [s[..i]] + Pieces(s[i + 1..], c)
  }

  function DropTrailingEmpty(ps: seq<string>): (r: seq<string>)
    ensures |r| <= |ps| && r == ps[..|r|]
    ensures r != [] ==> r[|r| - 1] != ""
  {
    if ps != [] && ps[|ps| - 1] == "" then DropTrailingEmpty(ps[..|ps| - 1]) else ps
  }

  /**
   * `s.split(c)`: when `c` does not occur the result is `[s]`, even for the
   * empty string; otherwise the pieces, without the trailing empty ones.
   */
  function Split(s: string, c: char): (r: seq<string>)
    ensures c !in s ==> r == [s]
    ensures c in s && r != [] ==> r[|r| - 1] != ""
  {
    if c !in s then [s] else DropTrailingEmpty(Pieces(s, c))
  }

  /** Splitting at a single delimiter, as a QName parse does. */
  lemma SplitAtOne(s: string, c: char)
    requires Count(s, c) == 1
    ensures c in s
    ensures var i := IndexOf(s, c);
      Split(s, c) ==
        if s[i + 1..] != "" then [s[..i], s[i + 1..]]
        else if s[..i] != "" then [s[..i]]
        else []
  {
    CountOne(s, c);
    var i := IndexOf(s, c);
    var rest := s[i + 1..];
    assert IndexOf(rest, c) == -1;
    assert Pieces(s, c) == [s[..i], rest];
    if rest == "" {
      assert DropTrailingEmpty([s[..i], rest]) == DropTrailingEmpty([s[..i]]);
      if s[..i] == "" {
        assert DropTrailingEmpty([s[..i]]) == DropTrailingEmpty([]);
      }
    }
  }

  // ---------------------------------------------------------------------
  // Decimal digit strings.

  predicate IsDigit(ch: char) {
    '0' <= ch <= '9'
  }

  predicate IsDigits(s: string) {
    forall i :: 0 <= i < |s| ==> IsDigit(s[i])
  }

  /** A character that may appear in a numeral: a digit, a sign or a point. */
  predicate IsNumeralChar(ch: char) {
    IsDigit(ch) || ch == '+' || ch == '-' || ch == '.'
  }

  predicate IsNumeral(s: string) {
    forall i :: 0 <= i < |s| ==> IsNumeralChar(s[i])
  }

  function DigitChar(d: nat): (ch: char)
    requires d < 10
    ensures IsDigit(ch)
  {
    ('0' as int + d) as char
  }

  /** The value of one decimal digit (0 for any other character). */
  function DigitValue(ch: char): (r: nat)
    ensures r < 10
  {
    if IsDigit(ch) then ch as int - '0' as int else 0
  }

  /** The value of a run of decimal digits, most significant first. */
  function DigitsValue(s: string): nat
  {
    if s == [] then 0
    else DigitsValue(s[..|s| - 1]) * 10 + DigitValue(s[|s| - 1])
  }

  /** `n` in base 10, without leading zeros. */
  function NatToString(n: nat): (r: string)
    ensures |r| >= 1 && IsDigits(r)
    ensures r[0] == '0' ==> n == 0
    ensures DigitsValue(r) == n
  {
    if n < 10 then
      [DigitChar(n)]
    else
      var front := NatToString(n / 10);
      var r := front + [DigitChar(n % 10)];
      assert r[..|r| - 1] == front;
      r
  }

  /** `BigInteger.toString()`: an optional minus sign and the digits. */
  function IntToString(i: int): string
  {
    if i < 0 then "-" + NatToString(-i) else NatToString(i)
  }

  /** The sign of a numeral: true when it starts with '-'. */
  function SignOf(t: string): bool {
    |t| > 0 && t[0] == '-'
  }

  /** A numeral without its optional leading '+' or '-'. */
  function Unsigned(t: string): string {
    if |t| > 0 && (t[0] == '-' || t[0] == '+') then t[1..] else t
  }

  /**
   * `new BigInteger(t)` on ASCII text: an optional sign followed by one or
   * more digits; anything else is a NumberFormatException (None).
   */
  function ParseBigInteger(t: string): Option<int>
  {
    var body := Unsigned(t);
    if |body| >= 1 && IsDigits(body) then
      Some(if SignOf(t) then -(DigitsValue(body) as int) else DigitsValue(body))
    else None
  }

  /** `Integer.parseInt(t)`: the same text, and the value must fit in 32 bits. */
  function ParseInt32(t: string): (r: Option<int>)
    ensures r.Some? ==> MinInt32 <= r.value <= MaxInt32
    ensures r.Some? <==> ParseBigInteger(t).Some? && MinInt32 <= ParseBigInteger(t).value <= MaxInt32
  {
    match ParseBigInteger(t)
    case None => None
    case Some(v) => if MinInt32 <= v <= MaxInt32 then Some(v) else None
  }

  /** Rendering an integer in base 10 and reading it back gives it again. */
  lemma IntToStringRoundTrip(i: int)
    ensures ParseBigInteger(IntToString(i)) == Some(i)
  {
    var t := IntToString(i);
    if i < 0 {
      assert Unsigned(t) == NatToString(-i);
    } else {
      assert Unsigned(t) == NatToString(i);
    }
  }

  /** Text that parses as an integer holds no letter. */
  lemma ParsedIntegerIsNumeral(t: string)
    requires ParseBigInteger(t).Some?
    ensures IsNumeral(t)
  {
    var body := Unsigned(t);
    forall i | 0 <= i < |t| ensures IsNumeralChar(t[i]) {
      if |t| > 0 && (t[0] == '-' || t[0] == '+') && i > 0 {
        assert t[i] == body[i - 1];
      }
    }
  }
}
