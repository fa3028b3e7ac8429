/**
 * xs:normalizedString (XSNormalizedString): the cast that keeps an item's
 * string value as it is, provided it holds no carriage return, line feed
 * or tab.
 */
module NormalizedStrings {
  import opened Results
  import opened Lexical
  import opened AtomicValues

  const CarriageReturn: char := 13 as char
  const LineFeed: char := 10 as char
  const Tab: char := 9 as char

  /** A character an xs:normalizedString may not hold. */
  predicate IsProhibited(ch: char) {
    ch == CarriageReturn || ch == LineFeed || ch == Tab
  }

  /** `isSatisfiesConstraints`: none of the three characters occurs in the text. */
  function IsSatisfiesConstraints(srcString: string): (r: bool)
    ensures r <==> forall i :: 0 <= i < |srcString| ==> !IsProhibited(srcString[i])
  {
    !(IndexOf(srcString, CarriageReturn) != -1 || IndexOf(srcString, LineFeed) != -1
      || IndexOf(srcString, Tab) != -1)
  }

  /**
   * `constructor`: empty for empty input; the string value, unchanged, when
   * it satisfies the constraints; FORG0006 when it does not.
   */
  function Construct(arg: Option<AnyType>): (r: Outcome<string>)
    ensures r.Empty? <==> arg.None?
    ensures r.One? ==> r.value == StringValue(arg.value)
    ensures r.One? ==> forall i :: 0 <= i < |r.value| ==> !IsProhibited(r.value[i])
    ensures arg.Some? && !r.One? ==> r == Raised(FORG0006)
    ensures arg.Some? && !r.One? ==>
      exists i :: 0 <= i < |StringValue(arg.value)| && IsProhibited(StringValue(arg.value)[i])
  {
    match arg
    case None => Empty
    case Some(v) =>
      var srcString := StringValue(v);
      if !IsSatisfiesConstraints(srcString) then Raised(FORG0006) else One(srcString)
  }

  /** Casting the cast's own result again gives the same string: the cast is idempotent. */
  lemma ConstructIdempotent(arg: Option<AnyType>)
    requires Construct(arg).One?
    ensures Construct(Some(NormalizedStr(Construct(arg).value))) == Construct(arg)
  {
  }

  /** A space changes nothing about whether the text is accepted; a tab anywhere is refused. */
  lemma SpaceAllowedTabRefused(a: string, b: string)
    ensures Construct(Some(Str(a + " " + b))).One? <==> Construct(Some(Str(a + b))).One?
    ensures Construct(Some(Str(a + [Tab] + b))) == Raised(FORG0006)
  {
    var t := a + [Tab] + b;
    assert IsProhibited(t[|a|]);
    var s, u := a + " " + b, a + b;
    if IsSatisfiesConstraints(u) {
      forall i | 0 <= i < |s| ensures !IsProhibited(s[i]) {
        if i < |a| { assert s[i] == u[i]; }
        else if i > |a| { assert s[i] == u[i - 1]; }
      }
    } else {
      var k :| 0 <= k < |u| && IsProhibited(u[k]);
      if k < |a| { assert s[k] == u[k]; } else { assert s[k + 1] == u[k]; }
    }
  }
}
