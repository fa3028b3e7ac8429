/**
 * xs:untypedAtomic (XSUntypedAtomic) and xs:untyped (XSUntyped): items that
 * are only a string. The first has a cast, which accepts atomic items only;
 * both compare by string value with each other.
 */
module UntypedValues {
  import opened Results
  import opened AtomicValues

  /**
   * `XSUntypedAtomic.constructor`: empty for empty input; the string value
   * of an atomic item; an xs:untyped item is not an XSAnyAtomicType, and the
   * cast to it throws ClassCastException.
   */
  function Construct(arg: Option<AnyType>): (r: Outcome<string>)
    ensures r.Empty? <==> arg.None?
    ensures r == Raised(ClassCast) <==> arg.Some? && !IsAtomic(arg.value)
    ensures r.One? <==> arg.Some? && IsAtomic(arg.value)
    ensures r.One? ==> r.value == StringValue(arg.value)
  {
    match arg
    case None => Empty
    case Some(v) =>
      if !IsAtomic(v) then Raised(ClassCast) else One(StringValue(v))
  }

  /** The cast keeps the string value, so casting its result again changes nothing. */
  lemma ConstructKeepsText(v: AnyType)
    requires IsAtomic(v)
    ensures Construct(Some(v)).One?
    ensures StringValue(UntypedAtomic(Construct(Some(v)).value)) == StringValue(v)
    ensures Construct(Some(UntypedAtomic(Construct(Some(v)).value))) == Construct(Some(v))
  {
  }

  /**
   * `equals(XObject)` of either class, whose own value is `self`: another
   * untyped item is compared by its string value; any other object by its
   * `str()` rendering, which belongs to the XPath object layer and is given
   * here as `otherStr`.
   */
  predicate Equals(self: string, other: AnyType, otherStr: string)
    ensures (other.UntypedAtomic? || other.Untyped?) ==> (Equals(self, other, otherStr) <==> self == other.s)
    ensures !(other.UntypedAtomic? || other.Untyped?) ==> (Equals(self, other, otherStr) <==> self == otherStr)
  {
    if other.UntypedAtomic? || other.Untyped? then self == StringValue(other)
    else self == otherStr
  }

  /**
   * Between untyped items of either class, `equals` is string equality: it
   * is symmetric, and an xs:untypedAtomic equals the xs:untyped with the
   * same text.
   */
  lemma EqualsBetweenUntyped(a: AnyType, b: AnyType, aStr: string, bStr: string)
    requires a.UntypedAtomic? || a.Untyped?
    requires b.UntypedAtomic? || b.Untyped?
    ensures Equals(StringValue(a), b, bStr) <==> a.s == b.s
    ensures Equals(StringValue(a), b, bStr) == Equals(StringValue(b), a, aStr)
  {
  }
}
