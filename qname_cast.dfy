/**
 * The xs:QName cast (`XSQName.constructor`): a string or a QName item is
 * re-read from its string value by `parseQName`; any other item is
 * refused.
 */
module QNameCast {
  import opened Results
  import opened QNames
  import opened AtomicValues

  /**
   * `constructor`: empty for empty input; for an xs:string (or a subtype)
   * or an xs:QName item, the name `parseQName` reads from its string value,
   * or an empty sequence when it reads none; FORG0006 for any other item.
   */
  method Construct(arg: Option<AnyType>) returns (r: Outcome<QName>)
    ensures arg.None? ==> r == Empty
    ensures arg.Some? && !(IsString(arg.value) || arg.value.QNameItem?) ==> r == Raised(FORG0006)
    ensures arg.Some? && (IsString(arg.value) || arg.value.QNameItem?) ==>
      r == CastText(AtomicValues.StringValue(arg.value))
    ensures r.One? ==> r.value.namespaceUri.None? && !r.value.expanded
  {
    if arg.None? {
      return Empty;
    }
    var v := arg.value;
    if IsString(v) || v.QNameItem? {
      var parsed := ParseQName(AtomicValues.StringValue(v));
      if parsed.Some? {
        ParsedIsUnexpanded(AtomicValues.StringValue(v));
        return One(parsed.value);
      }
      return Empty;
    }
    return Raised(FORG0006);
  }

  /** What the cast gives for a string item, as a function of its text. */
  function CastText(s: string): (r: Outcome<QName>)
    ensures r.Empty? || r.One?
  {
    match QNameSpec(s) case None => Empty case Some(q) => One(q)
  }

  /**
   * A string holding the lexical form of an unexpanded name, with a
   * colon-free prefix and a colon-free non-empty local part, casts back to
   * that name.
   */
  lemma StringCastRoundTrip(q: QName)
    requires q.namespaceUri.None? && !q.expanded
    requires q.prefix.Some? ==> ':' !in q.prefix.value
    requires ':' !in q.localPart && q.localPart != ""
    ensures CastText(AtomicValues.StringValue(Str(LexicalForm(q)))) == One(q)
  {
    ParseLexicalForm(q);
  }

  /**
   * A QName item without a URI is re-read from its local part alone: its
   * prefix is lost.
   */
  lemma QNameItemLosesPrefix(q: QName)
    requires q.namespaceUri.None? && ':' !in q.localPart && q.localPart != ""
    ensures CastText(AtomicValues.StringValue(QNameItem(q))) == One(LocalName(q.localPart))
  {
    ParseLexicalForm(LocalName(q.localPart));
  }
}
