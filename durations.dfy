/**
 * xs:dayTimeDuration values (XSDayTimeDuration): the sign-folding seconds
 * constructor, `add` and `subtract`, and the hand-written scanner for the
 * lexical form `[-]P[nD][T[nH][nM][nS]]`, where each n is whatever
 * `Integer.parseInt` (days, hours, minutes) or `Double.parseDouble`
 * (seconds) reads. That is the scanner's own grammar, not the one of
 * section 3.4.27 of XML Schema Definition Language 1.1 Part 2: a component
 * may carry its own sign, and days, hours and minutes must fit in 32 bits.
 *
 * The scanner is proved against a grammar: a `Lexeme` names the sign and
 * the text of each present component, `Render` spells it out, and the
 * scanner accepts a string exactly when some well-formed lexeme renders to
 * it, returning that lexeme's meaning.
 */
module Durations {
  import opened Results
  import opened Lexical
  import opened Decimals

  /** The fields an XSDuration keeps for a day-time duration. */
  datatype DayTimeDuration = DayTimeDuration(days: int, hours: int, minutes: int, seconds: real, negative: bool)

  function RealAbs(x: real): real {
    if x < 0.0 then -x else x
  }

  /**
   * `new XSDayTimeDuration(secs)`: all of the time in the seconds field, as
   * a magnitude, with the sign kept in the negative flag.
   */
  function FromSeconds(secs: real): (r: DayTimeDuration)
    ensures r.days == 0 && r.hours == 0 && r.minutes == 0
    ensures r.seconds >= 0.0 && r.negative == (secs < 0.0)
    ensures (if r.negative then -r.seconds else r.seconds) == secs
  {
    DayTimeDuration(0, 0, 0, RealAbs(secs), secs < 0.0)
  }

  /**
   * The signed length of a duration in seconds, as the XML Schema value
   * space defines it (a day is 86400 seconds); the duration arithmetic
   * below takes the duration's `value()` as a parameter, and this is the
   * definition it is compared with.
   */
  function TotalSeconds(d: DayTimeDuration): (r: real)
    ensures d.days >= 0 && d.hours >= 0 && d.minutes >= 0 && d.seconds >= 0.0 ==>
      (d.negative ==> r <= 0.0) && (!d.negative ==> r >= 0.0)
  {
    var magnitude := (d.days * 86400 + d.hours * 3600 + d.minutes * 60) as real + d.seconds;
    if d.negative then -magnitude else magnitude
  }

  /** The seconds constructor keeps the signed length it is given. */
  lemma FromSecondsKeepsLength(secs: real)
    ensures TotalSeconds(FromSeconds(secs)) == secs
  {
    var r := FromSeconds(secs);
    assert (r.days * 86400 + r.hours * 3600 + r.minutes * 60) as real == 0.0;
  }

  /** `add`: the duration whose length is the sum of the two lengths. */
  function Add(value: DayTimeDuration -> real, a: DayTimeDuration, b: DayTimeDuration): (r: DayTimeDuration)
    ensures r.days == 0 && r.hours == 0 && r.minutes == 0 && r.seconds >= 0.0
    ensures (if r.negative then -r.seconds else r.seconds) == value(a) + value(b)
  {
    FromSeconds(value(a) + value(b))
  }

  /** `subtract`: the duration whose length is the difference of the two lengths. */
  function Subtract(value: DayTimeDuration -> real, a: DayTimeDuration, b: DayTimeDuration): (r: DayTimeDuration)
    ensures r.days == 0 && r.hours == 0 && r.minutes == 0 && r.seconds >= 0.0
    ensures (if r.negative then -r.seconds else r.seconds) == value(a) - value(b)
  {
    FromSeconds(value(a) - value(b))
  }

  /** With the XML Schema length as `value()`, `add` and `subtract` add and subtract lengths. */
  lemma AddSubtractLengths(a: DayTimeDuration, b: DayTimeDuration)
    ensures TotalSeconds(Add(TotalSeconds, a, b)) == TotalSeconds(a) + TotalSeconds(b)
    ensures TotalSeconds(Subtract(TotalSeconds, a, b)) == TotalSeconds(a) - TotalSeconds(b)
  {
    FromSecondsKeepsLength(TotalSeconds(a) + TotalSeconds(b));
    FromSecondsKeepsLength(TotalSeconds(a) - TotalSeconds(b));
  }

  /**
   * Whatever `value()` is, `add` is commutative, a duration minus itself is
   * the zero duration, and subtracting what was added gives back a duration
   * of the original length.
   */
  lemma AddSubtractAlgebra(value: DayTimeDuration -> real, a: DayTimeDuration, b: DayTimeDuration)
    ensures Add(value, a, b) == Add(value, b, a)
    ensures Subtract(value, a, a) == DayTimeDuration(0, 0, 0, 0.0, false)
    ensures value == TotalSeconds ==>
      TotalSeconds(Subtract(value, Add(value, a, b), b)) == TotalSeconds(a)
  {
    if value == TotalSeconds {
      FromSecondsKeepsLength(TotalSeconds(a) + TotalSeconds(b));
      FromSecondsKeepsLength(TotalSeconds(a));
    }
  }

  // ---------------------------------------------------------------------
  // The lexical grammar

  /** The sign and the text of each component that is present. */
  datatype Lexeme = Lexeme(negative: bool, day: Option<string>, hour: Option<string>,
                           minute: Option<string>, second: Option<string>)

  /** A component followed by its designator letter, or nothing when absent. */
  function Designated(c: Option<string>, letter: char): string {
    match c
    case None => ""
    case Some(t) => t + [letter]
  }

  predicate HasTime(p: Lexeme) {
    p.hour.Some? || p.minute.Some? || p.second.Some?
  }

  function Prefix(negative: bool): string {
    if negative then "-P" else "P"
  }

  function SecondPart(p: Lexeme): string {
    Designated(p.second, 'S')
  }

  function MinuteSecondPart(p: Lexeme): string {
    Designated(p.minute, 'M') + SecondPart(p)
  }

  function ClockPart(p: Lexeme): string {
    Designated(p.hour, 'H') + MinuteSecondPart(p)
  }

  function TimePart(p: Lexeme): string {
    if HasTime(p) then "T" + ClockPart(p) else ""
  }

  function Body(p: Lexeme): string {
    Designated(p.day, 'D') + TimePart(p)
  }

  /** The text of a lexeme: `[-]P[nD][T[nH][nM][nS]]`. */
  function Render(p: Lexeme): string {
    Prefix(p.negative) + Body(p)
  }

  /**
   * At least one component is present; days, hours and minutes read as
   * 32-bit integers (`Integer.parseInt`) and seconds as a decimal
   * (`Double.parseDouble`, modelled by its plain decimal subset).
   */
  predicate WellFormed(p: Lexeme) {
    (p.day.Some? || HasTime(p))
    && (p.day.Some? ==> ParseInt32(p.day.value).Some?)
    && (p.hour.Some? ==> ParseInt32(p.hour.value).Some?)
    && (p.minute.Some? ==> ParseInt32(p.minute.value).Some?)
    && (p.second.Some? ==> ParseDecimal(p.second.value).Some?)
  }

  function IntComponent(c: Option<string>): int
    requires c.Some? ==> ParseInt32(c.value).Some?
  {
    match c
    case None => 0
    case Some(t) => ParseInt32(t).value
  }

  function SecondsComponent(c: Option<string>): real
    requires c.Some? ==> ParseDecimal(c.value).Some?
  {
    match c
    case None => 0.0
    case Some(t) => ToReal(ParseDecimal(t).value)
  }

  /** The duration a well-formed lexeme stands for; an absent component is 0. */
  function Meaning(p: Lexeme): (d: DayTimeDuration)
    requires WellFormed(p)
    ensures d.negative == p.negative
    ensures p.day.None? ==> d.days == 0
    ensures p.hour.None? ==> d.hours == 0
    ensures p.minute.None? ==> d.minutes == 0
    ensures p.second.None? ==> d.seconds == 0.0
  {
    DayTimeDuration(IntComponent(p.day), IntComponent(p.hour), IntComponent(p.minute),
                    SecondsComponent(p.second), p.negative)
  }

  ghost predicate Denotes(p: Lexeme, s: string) {
    WellFormed(p) && Render(p) == s
  }

  // ---------------------------------------------------------------------
  // Facts about the grammar

  lemma NumeralLacks(s: string, c: char)
    requires IsNumeral(s) && !IsNumeralChar(c)
    ensures c !in s
  {
    forall i | 0 <= i < |s| ensures s[i] != c {
      assert IsNumeralChar(s[i]);
    }
  }

  /** Every component text of a well-formed lexeme is a numeral. */
  lemma ComponentsAreNumerals(p: Lexeme)
    requires WellFormed(p)
    ensures p.day.Some? ==> IsNumeral(p.day.value)
    ensures p.hour.Some? ==> IsNumeral(p.hour.value)
    ensures p.minute.Some? ==> IsNumeral(p.minute.value)
    ensures p.second.Some? ==> IsNumeral(p.second.value)
  {
    if p.day.Some? { ParsedIntegerIsNumeral(p.day.value); }
    if p.hour.Some? { ParsedIntegerIsNumeral(p.hour.value); }
    if p.minute.Some? { ParsedIntegerIsNumeral(p.minute.value); }
    if p.second.Some? { ParsedDecimalIsNumeral(p.second.value); }
  }

  /** A numeral component never holds another designator letter. */
  lemma DesignatedLacks(c: Option<string>, letter: char, other: char)
    requires c.Some? ==> IsNumeral(c.value)
    requires !IsNumeralChar(other) && other != letter
    ensures other !in Designated(c, letter)
  {
    if c.Some? {
      NumeralLacks(c.value, other);
    }
  }

  /** The component before the first `letter` in `t`, if any. */
  function Found(t: string, letter: char): Option<string> {
    var i := IndexOf(t, letter);
    if i == -1 then None else Some(t[..i])
  }

  /** What follows the first `letter` in `t`, or all of `t` when there is none. */
  function After(t: string, letter: char): string {
    var i := IndexOf(t, letter);
    if i == -1 then t else t[i + 1..]
  }

  /**
   * Looking up a designator letter recovers the component before it and
   * the text after it, whenever the component is a numeral and the rest
   * does not hold that letter.
   */
  lemma DesignatorSplit(c: Option<string>, letter: char, rest: string, t: string)
    requires c.Some? ==> IsNumeral(c.value)
    requires !IsNumeralChar(letter) && letter !in rest
    ensures Designated(c, letter) + rest == t <==> c == Found(t, letter) && rest == After(t, letter)
  {
    if Designated(c, letter) + rest == t {
      if c.Some? {
        NumeralLacks(c.value, letter);
        FindAfter(c.value, letter, rest);
      } else {
        assert t == rest;
      }
    }
    if c == Found(t, letter) && rest == After(t, letter) {
      var i := IndexOf(t, letter);
      if i != -1 {
        assert t == t[..i] + [letter] + t[i + 1..];
      } else {
        assert Designated(c, letter) + rest == rest;
      }
    }
  }

  lemma ClockLacksDay(p: Lexeme)
    requires WellFormed(p)
    ensures 'D' !in TimePart(p)
  {
    ComponentsAreNumerals(p);
    DesignatedLacks(p.hour, 'H', 'D');
    DesignatedLacks(p.minute, 'M', 'D');
    DesignatedLacks(p.second, 'S', 'D');
  }

  // ---------------------------------------------------------------------
  // The scanner's stages, each as an equivalence on the lexemes still possible

  ghost predicate BodyIs(p: Lexeme, negative: bool, pstr: string) {
    WellFormed(p) && p.negative == negative && Body(p) == pstr
  }

  /** What remains to read after `stage` designators; stage 1 is the clock part. */
  function Tail(p: Lexeme, stage: nat): string {
    if stage <= 1 then ClockPart(p)
    else if stage == 2 then MinuteSecondPart(p)
    else if stage == 3 then SecondPart(p)
    else ""
  }

  /**
   * A lexeme still possible after `stage` designators: it agrees with
   * `known` on the sign, the day and the components read so far, has a
   * time part exactly when a 'T' was seen, and its remaining text is `rest`.
   */
  ghost predicate Remains(p: Lexeme, known: Lexeme, stage: nat, tSeen: bool, rest: string) {
    WellFormed(p) && p.negative == known.negative && p.day == known.day
    && (tSeen <==> HasTime(p))
    && (stage >= 2 ==> p.hour == known.hour)
    && (stage >= 3 ==> p.minute == known.minute)
    && (stage >= 4 ==> p.second == known.second)
    && Tail(p, stage) == rest
  }

  /** The lexemes rendering to `s` are exactly those still possible at this stage. */
  ghost predicate Possible(s: string, known: Lexeme, stage: nat, tSeen: bool, rest: string) {
    forall p :: Denotes(p, s) <==> Remains(p, known, stage, tSeen, rest)
  }

  /** A string with neither prefix renders no lexeme. */
  lemma NoPrefix(s: string)
    requires !StartsWith(s, "-P") && !StartsWith(s, "P")
    ensures forall p :: !Denotes(p, s)
  {
    forall p | Render(p) == s ensures false {
      assert StartsWith(Render(p), Prefix(p.negative));
    }
  }

  /** The prefix fixes the sign; the rest must be the body. */
  lemma SignStep(s: string, negative: bool, pstr: string)
    requires negative ==> StartsWith(s, "-P") && pstr == s[2..]
    requires !negative ==> !StartsWith(s, "-P") && StartsWith(s, "P") && pstr == s[1..]
    ensures forall p :: Denotes(p, s) <==> BodyIs(p, negative, pstr)
  {
    forall p ensures Denotes(p, s) <==> BodyIs(p, negative, pstr) {
      if Render(p) == s {
        assert s[..|Prefix(p.negative)|] == Prefix(p.negative);
        if p.negative {
          assert StartsWith(s, "-P");
        } else {
          assert s[0] == 'P';
        }
        assert s == Prefix(negative) + Body(p);
      }
      if p.negative == negative && Body(p) == pstr {
        assert s == Prefix(negative) + pstr;
      }
    }
  }

  /** The time part is a 'T' followed by the clock part exactly when a component is present. */
  lemma TimeSplit(p: Lexeme, t: string)
    ensures var tSeen := StartsWith(t, "T");
      TimePart(p) == t <==> (tSeen <==> HasTime(p)) && ClockPart(p) == (if tSeen then t[1..] else t)
  {
    if HasTime(p) {
      assert ClockPart(p) != "" by {
        if p.hour.Some? {
          assert |Designated(p.hour, 'H')| > 0;
        } else if p.minute.Some? {
          assert |Designated(p.minute, 'M')| > 0;
        } else {
          assert |SecondPart(p)| > 0;
        }
      }
      if StartsWith(t, "T") {
        assert t == "T" + t[1..];
      }
    }
  }

  /**
   * The day designator and the optional 'T': the scanner keeps the text
   * before 'D' as the day, then drops a leading 'T' (or requires nothing
   * to remain when there is none).
   */
  lemma DayLexeme(p: Lexeme, negative: bool, pstr: string)
    ensures BodyIs(p, negative, pstr) <==>
      Remains(p, Lexeme(negative, Found(pstr, 'D'), None, None, None), 1, Clock(pstr).0, Clock(pstr).1)
  {
    if WellFormed(p) {
      ClockLacksDay(p);
      ComponentsAreNumerals(p);
      DesignatorSplit(p.day, 'D', TimePart(p), pstr);
      TimeSplit(p, After(pstr, 'D'));
    }
  }

  lemma DayStep(s: string, negative: bool, pstr: string)
    requires forall p :: Denotes(p, s) <==> BodyIs(p, negative, pstr)
    ensures Possible(s, Lexeme(negative, Found(pstr, 'D'), None, None, None), 1, Clock(pstr).0, Clock(pstr).1)
  {
    forall p {
      DayLexeme(p, negative, pstr);
    }
  }

  lemma HourStep(s: string, known: Lexeme, tSeen: bool, t: string)
    requires Possible(s, known, 1, tSeen, t)
    ensures Possible(s, known.(hour := Found(t, 'H')), 2, tSeen, After(t, 'H'))
  {
    var next := known.(hour := Found(t, 'H'));
    forall p ensures Remains(p, known, 1, tSeen, t) <==> Remains(p, next, 2, tSeen, After(t, 'H')) {
      if WellFormed(p) {
        ComponentsAreNumerals(p);
        DesignatedLacks(p.minute, 'M', 'H');
        DesignatedLacks(p.second, 'S', 'H');
        DesignatorSplit(p.hour, 'H', MinuteSecondPart(p), t);
      }
    }
  }

  lemma MinuteStep(s: string, known: Lexeme, tSeen: bool, t: string)
    requires Possible(s, known, 2, tSeen, t)
    ensures Possible(s, known.(minute := Found(t, 'M')), 3, tSeen, After(t, 'M'))
  {
    var next := known.(minute := Found(t, 'M'));
    forall p ensures Remains(p, known, 2, tSeen, t) <==> Remains(p, next, 3, tSeen, After(t, 'M')) {
      if WellFormed(p) {
        ComponentsAreNumerals(p);
        DesignatedLacks(p.second, 'S', 'M');
        DesignatorSplit(p.minute, 'M', SecondPart(p), t);
      }
    }
  }

  lemma SecondStep(s: string, known: Lexeme, tSeen: bool, t: string)
    requires Possible(s, known, 3, tSeen, t)
    ensures Possible(s, known.(second := Found(t, 'S')), 4, tSeen, After(t, 'S'))
  {
    var next := known.(second := Found(t, 'S'));
    forall p ensures Remains(p, known, 3, tSeen, t) <==> Remains(p, next, 4, tSeen, After(t, 'S')) {
      if WellFormed(p) {
        ComponentsAreNumerals(p);
        assert 'S' !in "";
        DesignatorSplit(p.second, 'S', "", t);
      }
    }
  }

  /** Once every designator is read, the only possible lexeme is the one read. */
  lemma FinalStep(s: string, known: Lexeme, tSeen: bool, t: string)
    requires Possible(s, known, 4, tSeen, t)
    ensures forall p :: Denotes(p, s) ==> p == known
    ensures Denotes(known, s) <==> WellFormed(known) && (tSeen <==> HasTime(known)) && t == ""
  {
    assert Remains(known, known, 4, tSeen, t) <==> WellFormed(known) && (tSeen <==> HasTime(known)) && t == "";
  }

  /**
   * The text after 'D', with the 'T' that opens the time part dropped
   * when there is one, and whether there was one.
   */
  function Clock(pstr: string): (bool, string) {
    var after := After(pstr, 'D');
    if StartsWith(after, "T") then (true, after[1..]) else (false, after)
  }

  /**
   * What the scanner reads from the text after the prefix: each component
   * is the text before the first occurrence of its designator in what the
   * previous designators left; also whether a 'T' was seen, and the text
   * left at the end.
   */
  function Scanned(negative: bool, pstr: string): (Lexeme, bool, string) {
    var (tSeen, t1) := Clock(pstr);
    var t2 := After(t1, 'H');
    var t3 := After(t2, 'M');
    (Lexeme(negative, Found(pstr, 'D'), Found(t1, 'H'), Found(t2, 'M'), Found(t3, 'S')), tSeen, After(t3, 'S'))
  }

  /** The sign a duration string starts with, and the text after the prefix. */
  function SplitPrefix(s: string): Option<(bool, string)> {
    if StartsWith(s, "-P") then Some((true, s[2..]))
    else if StartsWith(s, "P") then Some((false, s[1..]))
    else None
  }

  /**
   * The duration a string stands for by the scanner's reading: the lexeme
   * it reads must be well formed, have a time part exactly when a 'T' was
   * seen, and leave nothing over.
   */
  function ScanResult(s: string): Result<DayTimeDuration> {
    match SplitPrefix(s)
    case None => Err(XTTE0570)
    case Some((negative, pstr)) =>
      var (known, tSeen, rest) := Scanned(negative, pstr);
      if WellFormed(known) && (tSeen <==> HasTime(known)) && rest == "" then Ok(Meaning(known))
      else Err(XTTE0570)
  }

  /**
   * A string with a duration prefix renders at most one lexeme: the one the
   * scanner reads, and it does exactly when that lexeme is well formed, has
   * a time part exactly when a 'T' was seen, and nothing is left over.
   */
  lemma OnlyScanned(s: string, negative: bool, pstr: string)
    requires negative ==> StartsWith(s, "-P") && pstr == s[2..]
    requires !negative ==> !StartsWith(s, "-P") && StartsWith(s, "P") && pstr == s[1..]
    ensures var (known, tSeen, rest) := Scanned(negative, pstr);
      forall p :: Denotes(p, s) <==> p == known && WellFormed(known) && (tSeen <==> HasTime(known)) && rest == ""
  {
    var (tSeen, t1) := Clock(pstr);
    var t2 := After(t1, 'H');
    var t3 := After(t2, 'M');
    var k1 := Lexeme(negative, Found(pstr, 'D'), None, None, None);
    var k2 := k1.(hour := Found(t1, 'H'));
    var k3 := k2.(minute := Found(t2, 'M'));
    var k4 := k3.(second := Found(t3, 'S'));
    assert Possible(s, k4, 4, tSeen, After(t3, 'S')) by {
      SignStep(s, negative, pstr);
      DayStep(s, negative, pstr);
      HourStep(s, k1, tSeen, t1);
      MinuteStep(s, k2, tSeen, t2);
      SecondStep(s, k3, tSeen, t3);
    }
    FinalStep(s, k4, tSeen, After(t3, 'S'));
  }

  /**
   * The scanner's reading is the grammar: it succeeds exactly on the
   * renderings of well-formed lexemes, with their meaning, and otherwise
   * fails with XTTE0570.
   */
  lemma ScanResultIsGrammar(s: string)
    ensures ScanResult(s).Ok? <==> exists p :: Denotes(p, s)
    ensures forall p :: Denotes(p, s) ==> ScanResult(s) == Ok(Meaning(p))
    ensures ScanResult(s).Err? ==> ScanResult(s).error == XTTE0570
  {
    match SplitPrefix(s)
    case None =>
      NoPrefix(s);
    case Some((negative, pstr)) =>
      OnlyScanned(s, negative, pstr);
      var (known, tSeen, rest) := Scanned(negative, pstr);
      if ScanResult(s).Ok? {
        assert Denotes(known, s);
      }
  }

  // ---------------------------------------------------------------------
  // The scanner

  /** A rendering starts with "-P" exactly when the lexeme is negative. */
  lemma RenderSign(p: Lexeme)
    ensures StartsWith(Render(p), "-P") <==> p.negative
    ensures StartsWith(Render(p), "P") <==> !p.negative
  {
    assert Render(p)[..|Prefix(p.negative)|] == Prefix(p.negative);
    assert Render(p)[0] == Prefix(p.negative)[0];
  }

  /** The first `c` in `a + [c] + b`, read by `Found` and `After`. */
  lemma FoundAt(a: string, c: char, b: string)
    requires c !in a
    ensures Found(a + [c] + b, c) == Some(a) && After(a + [c] + b, c) == b
  {
    FindAfter(a, c, b);
  }

  lemma SplitPrefixOf(negative: bool, body: string)
    ensures SplitPrefix(Prefix(negative) + body) == Some((negative, body))
  {
    var s := Prefix(negative) + body;
    assert s[..|Prefix(negative)|] == Prefix(negative);
    assert s[0] == Prefix(negative)[0];
  }

  /** Days alone. */
  lemma DaysExample()
    ensures ScanResult("P3D") == Ok(DayTimeDuration(3, 0, 0, 0.0, false))
  {
    assert "P3D" == Prefix(false) + "3D";
    SplitPrefixOf(false, "3D");
    assert "3D" == "3" + ['D'] + "";
    FoundAt("3", 'D', "");
    assert Scanned(false, "3D") == (Lexeme(false, Some("3"), None, None, None), false, "");
  }

  lemma DecimalSecondsExample()
    ensures ParseDecimal("4.5") == Some(BigDecimal(45, 1))
  {
    ReadPointed("4", "5");
    assert "4" + "." + "5" == "4.5";
    assert Unsigned("4.5") == "4.5" && !SignOf("4.5");
    assert "4" + "5" == "45";
    assert DigitsValue("45") == 45 by {
      assert "45"[..1] == "4";
    }
  }

  lemma ClockExample()
    ensures Clock("1DT2H3M4.5S") == (true, "2H3M4.5S")
    ensures Found("1DT2H3M4.5S", 'D') == Some("1")
  {
    assert "1DT2H3M4.5S" == "1" + ['D'] + "T2H3M4.5S";
    FoundAt("1", 'D', "T2H3M4.5S");
  }

  lemma HourExample()
    ensures Found("2H3M4.5S", 'H') == Some("2") && After("2H3M4.5S", 'H') == "3M4.5S"
  {
    assert "2H3M4.5S" == "2" + ['H'] + "3M4.5S" by {
      assert "2" + ['H'] + "3M4.5S" == "2H" + "3M4.5S";
    }
    FoundAt("2", 'H', "3M4.5S");
  }

  /** The minute and second stages of the clock part "3M4.5S". */
  lemma MinuteSecondExample()
    ensures Found("3M4.5S", 'M') == Some("3") && After("3M4.5S", 'M') == "4.5S"
    ensures Found("4.5S", 'S') == Some("4.5") && After("4.5S", 'S') == ""
  {
    assert "3M4.5S" == "3" + ['M'] + "4.5S" by {
      assert "3" + ['M'] + "4.5S" == "3M" + "4.5S";
    }
    FoundAt("3", 'M', "4.5S");
    assert "4.5S" == "4.5" + ['S'] + "";
    FoundAt("4.5", 'S', "");
  }

  lemma SmallNumerals()
    ensures ParseInt32("1") == Some(1) && ParseInt32("2") == Some(2) && ParseInt32("3") == Some(3)
  {
    assert Unsigned("1") == "1" && Unsigned("2") == "2" && Unsigned("3") == "3";
  }

  lemma AllComponentsMeaning()
    ensures var known := Lexeme(true, Some("1"), Some("2"), Some("3"), Some("4.5"));
      WellFormed(known) && Meaning(known) == DayTimeDuration(1, 2, 3, 4.5, true)
  {
    DecimalSecondsExample();
    SmallNumerals();
    assert ToReal(BigDecimal(45, 1)) == 4.5;
  }

  /** Every component, negative, with a fractional second. */
  lemma AllComponentsExample()
    ensures ScanResult("-P1DT2H3M4.5S") == Ok(DayTimeDuration(1, 2, 3, 4.5, true))
  {
    var known := Lexeme(true, Some("1"), Some("2"), Some("3"), Some("4.5"));
    assert SplitPrefix("-P1DT2H3M4.5S") == Some((true, "1DT2H3M4.5S")) by {
      assert "-P1DT2H3M4.5S" == Prefix(true) + "1DT2H3M4.5S";
      SplitPrefixOf(true, "1DT2H3M4.5S");
    }
    assert Scanned(true, "1DT2H3M4.5S") == (known, true, "") by {
      ClockExample();
      HourExample();
      MinuteSecondExample();
    }
    AllComponentsMeaning();
  }

  /** A 'T' with nothing after it is rejected, with or without days. */
  lemma EmptyTimeExamples()
    ensures ScanResult("PT") == Err(XTTE0570)
    ensures ScanResult("P1DT") == Err(XTTE0570)
  {
    assert "PT" == Prefix(false) + "T";
    SplitPrefixOf(false, "T");
    assert 'D' !in "T";
    assert Clock("T") == (true, "");
    assert "P1DT" == Prefix(false) + "1DT";
    SplitPrefixOf(false, "1DT");
    assert "1DT" == "1" + ['D'] + "T";
    FoundAt("1", 'D', "T");
    assert Clock("1DT") == (true, "");
  }

  /** A number without its designator is left over, and rejected. */
  lemma TrailingNumberExample()
    ensures ScanResult("PT1H2") == Err(XTTE0570)
  {
    assert SplitPrefix("PT1H2") == Some((false, "T1H2")) by {
      assert "PT1H2" == Prefix(false) + "T1H2";
      SplitPrefixOf(false, "T1H2");
    }
    assert Clock("T1H2") == (true, "1H2") by {
      assert 'D' !in "T1H2";
    }
    assert After("1H2", 'H') == "2" by {
      assert "1H2" == "1" + ['H'] + "2";
      FoundAt("1", 'H', "2");
    }
    assert 'M' !in "2" && 'S' !in "2";
    assert Scanned(false, "T1H2").2 == "2";
  }

  /** Designators out of order: the hour text runs over the seconds. */
  lemma OutOfOrderExample()
    ensures ScanResult("PT1S2H") == Err(XTTE0570)
  {
    assert "PT1S2H" == Prefix(false) + "T1S2H";
    SplitPrefixOf(false, "T1S2H");
    assert 'D' !in "T1S2H";
    assert Clock("T1S2H") == (true, "1S2H");
    assert "1S2H" == "1S2" + ['H'] + "";
    FoundAt("1S2", 'H', "");
    assert !IsDigit("1S2"[1]);
    assert ParseInt32("1S2").None?;
  }

  // ---------------------------------------------------------------------
  // Signed components

  /** What the scanner reads from "PT-1H": the hour text "-1" and nothing left over. */
  lemma SignedHourScan()
    ensures SplitPrefix("PT-1H") == Some((false, "T-1H"))
    ensures Scanned(false, "T-1H") == (Lexeme(false, None, Some("-1"), None, None), true, "")
  {
    assert SplitPrefix("PT-1H") == Some((false, "T-1H")) by {
      assert "PT-1H" == Prefix(false) + "T-1H";
      SplitPrefixOf(false, "T-1H");
    }
    assert Clock("T-1H") == (true, "-1H") by {
      assert 'D' !in "T-1H";
    }
    assert Found("-1H", 'H') == Some("-1") && After("-1H", 'H') == "" by {
      assert "-1H" == "-1" + ['H'] + "";
      FoundAt("-1", 'H', "");
    }
  }

  /**
   * `Integer.parseInt` reads a leading sign too, so the hour text of
   * "PT-1H" is accepted: the duration keeps an hour count of -1 under a
   * positive sign.
   */
  lemma SignedHourExample()
    ensures ScanResult("PT-1H") == Ok(DayTimeDuration(0, -1, 0, 0.0, false))
  {
    SignedHourScan();
    assert ParseInt32("-1") == Some(-1) by {
      assert Unsigned("-1") == "1";
    }
  }

  /** A component whose text carries no leading '+' or '-'. */
  predicate UnsignedComponent(c: Option<string>) {
    c.Some? ==> Unsigned(c.value) == c.value
  }

  /** Every present component is unsigned, as the XSD duration grammar has them. */
  predicate UnsignedLexeme(p: Lexeme) {
    UnsignedComponent(p.day) && UnsignedComponent(p.hour)
    && UnsignedComponent(p.minute) && UnsignedComponent(p.second)
  }

  lemma UnsignedSecondsComponent(c: Option<string>)
    requires c.Some? ==> ParseDecimal(c.value).Some?
    requires UnsignedComponent(c)
    ensures SecondsComponent(c) >= 0.0
  {
    if c.Some? {
      var d := ParseDecimal(c.value).value;
      assert d.unscaled >= 0;
      assert ToReal(d) >= 0.0 by {
        var p := Pow10(d.scale) as real;
        assert p > 0.0;
        assert ToReal(d) == d.unscaled as real / p;
      }
    }
  }

  /** An unsigned well-formed lexeme means a duration with no negative field. */
  lemma UnsignedMeaning(p: Lexeme)
    requires WellFormed(p) && UnsignedLexeme(p)
    ensures Meaning(p).days >= 0 && Meaning(p).hours >= 0 && Meaning(p).minutes >= 0
    ensures Meaning(p).seconds >= 0.0
  {
    UnsignedSecondsComponent(p.second);
  }

  /**
   * The scanner with the components of section 3.4.27 of XML Schema
   * Definition Language 1.1 Part 2, which carry no sign of their own: the
   * scanner's reading, refused with XTTE0570 when a component is signed.
   */
  function ScanResultUnsigned(s: string): (r: Result<DayTimeDuration>)
    ensures r.Ok? ==> r == ScanResult(s)
    ensures r.Ok? ==> r.value.days >= 0 && r.value.hours >= 0 && r.value.minutes >= 0
    ensures r.Ok? ==> r.value.seconds >= 0.0
    ensures r.Err? ==> r.error == XTTE0570
  {
    match SplitPrefix(s)
    case None => Err(XTTE0570)
    case Some((negative, pstr)) =>
      var known := Scanned(negative, pstr).0;
      if UnsignedLexeme(known) && ScanResult(s).Ok? then
        UnsignedMeaning(known);
        ScanResult(s)
      else Err(XTTE0570)
  }

  /**
   * The corrected scanner accepts every rendering of an unsigned
   * well-formed lexeme, with its meaning, and refuses "PT-1H".
   */
  lemma UnsignedAcceptsRenderings(p: Lexeme)
    requires WellFormed(p) && UnsignedLexeme(p)
    ensures ScanResultUnsigned(Render(p)) == Ok(Meaning(p))
  {
    var s := Render(p);
    RenderSign(p);
    SplitPrefixOf(p.negative, Body(p));
    OnlyScanned(s, p.negative, Body(p));
    ScanResultIsGrammar(s);
    assert Denotes(p, s);
  }

  lemma UnsignedRefusesSignedHour()
    ensures ScanResultUnsigned("PT-1H") == Err(XTTE0570)
  {
    SignedHourScan();
    assert !UnsignedComponent(Some("-1")) by {
      assert Unsigned("-1") == "1";
    }
  }

  /**
   * The `indexOf` and `substring` pair the scanner repeats for each
   * designator: the text before the first `letter` when there is one, and
   * the text after it (all of `tstr` when there is none).
   */
  method FindDesignator(tstr: string, letter: char) returns (digit: Option<string>, rest: string)
    ensures digit == Found(tstr, letter) && rest == After(tstr, letter)
  {
    var index := IndexOf(tstr, letter);
    if index != -1 {
      digit := Some(tstr[..index]);
      rest := tstr[index + 1..];
    } else {
      digit := None;
      rest := tstr;
    }
  }

  /**
   * The hour, minute and second stages of the scanner, on the text after
   * the day and the 'T': each looks up its designator in what the previous
   * stage left, and parses the text before it. `ok` is false as soon as a
   * component does not parse; `sawAny` says whether a designator was found.
   */
  method ScanClock(t1: string) returns (ok: bool, hours: int, minutes: int, seconds: real, sawAny: bool, rest: string)
    ensures var t2 := After(t1, 'H');
      var t3 := After(t2, 'M');
      var h, m, sec := Found(t1, 'H'), Found(t2, 'M'), Found(t3, 'S');
      && (ok <==> (h.Some? ==> ParseInt32(h.value).Some?) && (m.Some? ==> ParseInt32(m.value).Some?)
                  && (sec.Some? ==> ParseDecimal(sec.value).Some?))
      && (ok ==> hours == IntComponent(h) && minutes == IntComponent(m) && seconds == SecondsComponent(sec))
      && (ok ==> sawAny == (h.Some? || m.Some? || sec.Some?) && rest == After(t3, 'S'))
  {
    hours, minutes, seconds, sawAny := 0, 0, 0.0, false;
    var tstr := t1;

    var hourText, afterH := FindDesignator(tstr, 'H');
    if hourText.Some? {
      var parsed := ParseInt32(hourText.value);
      if parsed.None? {
        return false, 0, 0, 0.0, false, "";
      }
      hours := parsed.value;
      tstr := afterH;
      sawAny := true;
    }

    var minuteText, afterM := FindDesignator(tstr, 'M');
    if minuteText.Some? {
      var parsed := ParseInt32(minuteText.value);
      if parsed.None? {
        return false, 0, 0, 0.0, false, "";
      }
      minutes := parsed.value;
      tstr := afterM;
      sawAny := true;
    }

    var secondText, afterS := FindDesignator(tstr, 'S');
    if secondText.Some? {
      var parsed := ParseDecimal(secondText.value);
      if parsed.None? {
        return false, 0, 0, 0.0, false, "";
      }
      seconds := ToReal(parsed.value);
      tstr := afterS;
      sawAny := true;
    }
    return true, hours, minutes, seconds, sawAny, tstr;
  }

  /**
   * `parseDayTimeDuration`: reads the sign, then looks up 'D', 'T', 'H',
   * 'M' and 'S' in turn, each on the text left after the previous one, and
   * fails with XTTE0570 as soon as a component does not parse, text is
   * left over, or nothing but the prefix (and a bare 'T') was read.
   * It succeeds exactly on the renderings of well-formed lexemes, with
   * their meaning.
   */
  method ParseDayTimeDuration(strVal: string) returns (r: Result<DayTimeDuration>)
    ensures r == ScanResult(strVal)
  {
    var negative: bool;
    var pstr: string;
    if StartsWith(strVal, "-P") {
      negative := true;
      pstr := strVal[2..];
    } else if StartsWith(strVal, "P") {
      negative := false;
      pstr := strVal[1..];
    } else {
      return Err(XTTE0570);
    }
    ghost var (known, tSeen, rest) := Scanned(negative, pstr);
    ghost var (_, t1) := Clock(pstr);

    var days, hours, minutes, seconds := 0, 0, 0, 0.0;
    var tstr: string;
    var actionStatus := false;

    // the day, and the 'T' that opens the time part
    var index := IndexOf(pstr, 'D');
    if index == -1 {
      if StartsWith(pstr, "T") {
        tstr := pstr[1..];
      } else {
        return Err(XTTE0570);
      }
    } else {
      var digit := pstr[..index];
      var parsed := ParseInt32(digit);
      if parsed.None? {
        return Err(XTTE0570);
      }
      days := parsed.value;
      tstr := pstr[index + 1..];
      if StartsWith(tstr, "T") {
        tstr := tstr[1..];
      } else {
        if |tstr| > 0 {
          assert !HasTime(known) ==> rest == t1;
          return Err(XTTE0570);
        }
        tstr := "";
        actionStatus := true;
      }
    }
    assert tstr == t1 && actionStatus == !tSeen;
    assert known.day.Some? ==> days == IntComponent(known.day);

    // hours, minutes and seconds
    var clockOk, hours', minutes', seconds', sawClock, tail := ScanClock(tstr);
    if !clockOk {
      return Err(XTTE0570);
    }
    hours, minutes, seconds := hours', minutes', seconds';
    if sawClock {
      actionStatus := true;
    }
    assert known.hour.Some? || known.minute.Some? || known.second.Some? <==> sawClock;
    assert tail == rest;
    assert actionStatus == (!tSeen || HasTime(known));

    if !actionStatus || |tail| != 0 {
      return Err(XTTE0570);
    }
    assert SplitPrefix(strVal) == Some((negative, pstr));
    assert WellFormed(known);
    assert Meaning(known) == DayTimeDuration(days, hours, minutes, seconds, negative);
    return Ok(DayTimeDuration(days, hours, minutes, seconds, negative));
  }
}
