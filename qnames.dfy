/**
 * xs:QName values (XSQName): a local part with an optional prefix and an
 * optional namespace URI, the `_expanded` flag the constructors set, the
 * colon-counting parser, structural equality, the hash key string, the
 * string value and the expanded name.
 */
module QNames {
  import opened Results
  import opened Lexical

  /**
   * The fields of an XSQName. The local part is never null here; the
   * prefix and the namespace URI may be.
   */
  datatype QName = QName(prefix: Option<string>, localPart: string,
                         namespaceUri: Option<string>, expanded: bool)

  /** `new XSQName(prefix, localPart, namespaceUri)`: expanded exactly when a URI is given. */
  function QualifiedName(prefix: Option<string>, localPart: string, namespaceUri: Option<string>): (q: QName)
    ensures q.prefix == prefix && q.localPart == localPart && q.namespaceUri == namespaceUri
    ensures q.expanded <==> namespaceUri.Some?
  {
    QName(prefix, localPart, namespaceUri, namespaceUri.Some?)
  }

  /** `new XSQName(prefix, localPart)`: no URI, not expanded. */
  function PrefixedName(prefix: Option<string>, localPart: string): (q: QName)
    ensures q.prefix == prefix && q.localPart == localPart
    ensures q.namespaceUri.None? && !q.expanded
  {
    QName(prefix, localPart, None, false)
  }

  /** `new XSQName(localPart)`: no prefix, no URI, not expanded. */
  function LocalName(localPart: string): (q: QName)
    ensures q.localPart == localPart
    ensures q.prefix.None? && q.namespaceUri.None? && !q.expanded
  {
    QName(None, localPart, None, false)
  }

  /** An XSQName object, whose setters change one field each. */
  class XSQName {
    var prefix: Option<string>
    var localPart: string
    var namespaceUri: Option<string>
    var expanded: bool

    function Value(): QName
      reads this
    {
      QName(prefix, localPart, namespaceUri, expanded)
    }

    /** `isExpanded()`. */
    function IsExpanded(): bool
      reads this
    {
      expanded
    }

    constructor Qualified(prefix: Option<string>, localPart: string, namespaceUri: Option<string>)
      ensures Value() == QualifiedName(prefix, localPart, namespaceUri)
      ensures IsExpanded() <==> namespaceUri.Some?
    {
      this.prefix := prefix;
      this.localPart := localPart;
      this.namespaceUri := namespaceUri;
      this.expanded := namespaceUri.Some?;
    }

    constructor Prefixed(prefix: Option<string>, localPart: string)
      ensures Value() == PrefixedName(prefix, localPart)
      ensures !IsExpanded()
    {
      this.prefix := prefix;
      this.localPart := localPart;
      this.namespaceUri := None;
      this.expanded := false;
    }

    constructor Local(localPart: string)
      ensures Value() == LocalName(localPart)
      ensures !IsExpanded()
    {
      this.prefix := None;
      this.localPart := localPart;
      this.namespaceUri := None;
      this.expanded := false;
    }

    method SetPrefix(prefix: Option<string>)
      modifies this
      ensures Value() == old(Value()).(prefix := prefix)
    {
      this.prefix := prefix;
    }

    method SetLocalPart(localPart: string)
      modifies this
      ensures Value() == old(Value()).(localPart := localPart)
    {
      this.localPart := localPart;
    }

    /** Changes the URI only: the expanded flag keeps what the constructor set. */
    method SetNamespaceUri(namespaceUri: Option<string>)
      modifies this
      ensures Value() == old(Value()).(namespaceUri := namespaceUri)
      ensures IsExpanded() == old(IsExpanded())
    {
      this.namespaceUri := namespaceUri;
    }
  }

  // ---------------------------------------------------------------------
  // Parsing

  /**
   * What `parseQName` reads from `s`: nothing when there is more than one
   * ':'; the whole string as the local part when there is none; otherwise
   * the text before the ':' as the prefix and the text after it as the
   * local part, except that `split` drops an empty text after the ':'
   * (then the text before it is the local part, or there is no name at
   * all when it is empty too).
   */
  function QNameSpec(s: string): (r: Option<QName>)
    ensures Count(s, ':') > 1 ==> r.None?
    ensures r.Some? ==> r.value.namespaceUri.None? && !r.value.expanded
    ensures r.Some? && r.value.prefix.Some? ==> s == r.value.prefix.value + ":" + r.value.localPart
  {
    if Count(s, ':') > 1 then None
    else if ':' !in s then Some(LocalName(s))
    else
      var i := IndexOf(s, ':');
      if s[i + 1..] != "" then Some(PrefixedName(Some(s[..i]), s[i + 1..]))
      else if s[..i] != "" then Some(LocalName(s[..i]))
      else None
  }

  /**
   * `parseQName`: counts the colons, gives no name for more than one, and
   * otherwise builds the name from the tokens of `split(":")`.
   */
  method ParseQName(str: string) returns (r: Option<QName>)
    ensures r == QNameSpec(str)
  {
    var colonCount := 0;
    var i := 0;
    while i < |str|
      invariant 0 <= i <= |str|
      invariant colonCount == Count(str[..i], ':')
    {
      assert str[..i + 1][..i] == str[..i];
      if str[i] == ':' {
        colonCount := colonCount + 1;
      }
      i := i + 1;
    }
    assert str[..|str|] == str;
    if colonCount > 1 {
      return None;
    }
    if colonCount == 1 {
      SplitAtOne(str, ':');
    } else {
      CountZero(str, ':');
    }
    var tokens := Split(str, ':');
    r := None;
    if |tokens| == 1 {
      r := Some(LocalName(tokens[0]));
    }
    if |tokens| == 2 {
      r := Some(PrefixedName(Some(tokens[0]), tokens[1]));
    }
  }

  /** A parsed name never has a namespace URI and is never expanded. */
  lemma ParsedIsUnexpanded(s: string)
    requires QNameSpec(s).Some?
    ensures QNameSpec(s).value.namespaceUri.None?
    ensures !QNameSpec(s).value.expanded
    ensures ':' !in QNameSpec(s).value.localPart
  {
    if ':' in s && Count(s, ':') <= 1 {
      CountZero(s, ':');
      CountOne(s, ':');
      var i := IndexOf(s, ':');
      assert ':' !in s[..i];
    }
  }

  /** More than one ':' gives no name. */
  lemma ParseManyColons(s: string)
    requires Count(s, ':') > 1
    ensures QNameSpec(s).None?
  {
  }

  /** The text of a prefix-and-local name, as a parser reads it back. */
  function LexicalForm(q: QName): string {
    match q.prefix
    case None => q.localPart
    case Some(p) => p + ":" + q.localPart
  }

  /**
   * Parsing the lexical form of an unexpanded name with a colon-free
   * prefix and a colon-free, non-empty local part gives the name back.
   */
  lemma {:induction false} ParseLexicalForm(q: QName)
    requires q.namespaceUri.None? && !q.expanded
    requires q.prefix.Some? ==> ':' !in q.prefix.value
    requires ':' !in q.localPart && q.localPart != ""
    ensures QNameSpec(LexicalForm(q)) == Some(q)
  {
    CountZero(q.localPart, ':');
    if q.prefix.Some? {
      var p := q.prefix.value;
      var s := LexicalForm(q);
      CountZero(p, ':');
      assert s == p + [':'] + q.localPart;
      CountConcat(p + [':'], q.localPart, ':');
      CountConcat(p, [':'], ':');
      FindAfter(p, ':', q.localPart);
    }
  }

  /** The cases `split` makes special: a trailing ':' and a lone ':'. */
  lemma ParseTrailingColon(a: string)
    requires ':' !in a
    ensures QNameSpec(a + ":") == if a == "" then None else Some(LocalName(a))
  {
    var s := a + ":";
    CountZero(a, ':');
    CountConcat(a, ":", ':');
    FindAfter(a, ':', "");
    assert s == a + [':'] + "";
  }

  /** A leading ':' is kept as an empty prefix. */
  lemma ParseLeadingColon(l: string)
    requires ':' !in l && l != ""
    ensures QNameSpec(":" + l) == Some(PrefixedName(Some(""), l))
  {
    ParseLexicalForm(PrefixedName(Some(""), l));
    assert LexicalForm(PrefixedName(Some(""), l)) == ":" + l;
  }

  // ---------------------------------------------------------------------
  // Equality, hashing and the string forms

  /**
   * `equals(XSQName)` as written: different local parts are unequal; then
   * the second condition dereferences this name's URI when it is null and
   * the other's is null too; otherwise the URIs must both be present and
   * equal. The prefix is never consulted.
   */
  function Equals(a: QName, b: QName): (r: Result<bool>)
    ensures r.Err? <==> a.localPart == b.localPart && a.namespaceUri.None? && b.namespaceUri.None?
    ensures r.Err? ==> r.error == NullPointer
    ensures r == Ok(true) <==> a.localPart == b.localPart && a.namespaceUri.Some? && a.namespaceUri == b.namespaceUri
  {
    if a.localPart != b.localPart then Ok(false)
    else match a.namespaceUri
      case None => if b.namespaceUri.Some? then Ok(false) else Err(NullPointer)
      case Some(u) => Ok(b.namespaceUri == Some(u))
  }

  /** QName equality as intended: equal local parts and equal (possibly absent) URIs. */
  predicate EqualsCorrected(a: QName, b: QName)
    ensures EqualsCorrected(a, b) <==> a.(prefix := None, expanded := false) == b.(prefix := None, expanded := false)
  {
    a.localPart == b.localPart && a.namespaceUri == b.namespaceUri
  }

  /** Wherever `equals` returns, it returns the intended answer. */
  lemma EqualsAgreesWhereDefined(a: QName, b: QName)
    ensures Equals(a, b).Ok? ==> (Equals(a, b).value <==> EqualsCorrected(a, b))
  {
  }

  /** Two unprefixed names with the same local part and no URI make `equals` throw. */
  lemma EqualsThrowsOnNullUris()
    ensures Equals(LocalName("a"), LocalName("a")) == Err(NullPointer)
    ensures EqualsCorrected(LocalName("a"), LocalName("a"))
  {
  }

  /** Neither the prefix nor the expanded flag affects equality. */
  lemma EqualsIgnoresPrefix(a: QName, b: QName, p: Option<string>, q: Option<string>, x: bool, y: bool)
    ensures Equals(a.(prefix := p, expanded := x), b.(prefix := q, expanded := y)) == Equals(a, b)
    ensures EqualsCorrected(a.(prefix := p, expanded := x), b.(prefix := q, expanded := y)) <==> EqualsCorrected(a, b)
  {
  }

  /** The intended equality is an equivalence. */
  lemma EqualsCorrectedIsEquivalence(a: QName, b: QName, c: QName)
    ensures EqualsCorrected(a, a)
    ensures EqualsCorrected(a, b) ==> EqualsCorrected(b, a)
    ensures EqualsCorrected(a, b) && EqualsCorrected(b, c) ==> EqualsCorrected(a, c)
  {
  }

  /** A Java string in a concatenation: null is spelled "null". */
  function JavaText(s: Option<string>): string {
    match s
    case None => "null"
    case Some(t) => t
  }

  /** The string whose `hashCode` is the name's hash code, as written: the prefix is part of it. */
  function HashKey(q: QName): (k: string)
    ensures |k| > |JavaText(q.prefix)| && k[0] == '{' && k[1..|JavaText(q.prefix)| + 1] == JavaText(q.prefix)
    ensures |k| >= |q.localPart| && k[|k| - |q.localPart|..] == q.localPart
  {
    "{" + JavaText(q.prefix) + ":" + JavaText(q.namespaceUri) + "}" + q.localPart
  }

  /**
   * Two names that `equals` calls equal can have different hash keys, so
   * hashing breaks the rule that equal objects hash alike.
   */
  lemma HashKeySeesPrefix()
    ensures var a := QualifiedName(Some("p"), "l", Some("u"));
      var b := QualifiedName(Some("q"), "l", Some("u"));
      Equals(a, b) == Ok(true) && HashKey(a) != HashKey(b)
  {
    var a := QualifiedName(Some("p"), "l", Some("u"));
    var b := QualifiedName(Some("q"), "l", Some("u"));
    assert HashKey(a)[1] == 'p';
    assert HashKey(b)[1] == 'q';
  }

  /** The hash key built from what equality looks at: the URI and the local part. */
  function HashKeyCorrected(q: QName): (k: string)
    ensures |k| > |JavaText(q.namespaceUri)| && k[0] == '{' && k[1..|JavaText(q.namespaceUri)| + 1] == JavaText(q.namespaceUri)
    ensures |k| >= |q.localPart| && k[|k| - |q.localPart|..] == q.localPart
  {
    "{" + JavaText(q.namespaceUri) + "}" + q.localPart
  }

  /** Equal names hash alike under the corrected key, whichever equality decides. */
  lemma HashKeyCorrectedAgrees(a: QName, b: QName)
    ensures EqualsCorrected(a, b) ==> HashKeyCorrected(a) == HashKeyCorrected(b)
    ensures Equals(a, b) == Ok(true) ==> HashKeyCorrected(a) == HashKeyCorrected(b)
  {
  }

  /** `stringValue`: "{uri}local" when a URI is set, else the local part. */
  function StringValue(q: QName): string {
    match q.namespaceUri
    case None => q.localPart
    case Some(u) => "{" + u + "}" + q.localPart
  }

  /** The string value ends with the local part, and is longer exactly when a URI is set. */
  lemma StringValueShape(q: QName)
    ensures |StringValue(q)| >= |q.localPart|
    ensures StringValue(q)[|StringValue(q)| - |q.localPart|..] == q.localPart
    ensures q.namespaceUri.None? <==> |StringValue(q)| == |q.localPart|
  {
    if q.namespaceUri.Some? {
      var s := StringValue(q);
      assert s == ("{" + q.namespaceUri.value + "}") + q.localPart;
    }
  }

  /** Names the braces cannot confuse: no '}' in a URI and no leading '{' in a local part. */
  predicate Unambiguous(q: QName) {
    (q.namespaceUri.Some? ==> '}' !in q.namespaceUri.value)
    && (q.localPart == "" || q.localPart[0] != '{')
  }

  /**
   * For names the braces cannot confuse, the string values agree exactly
   * when the intended equality holds.
   */
  lemma StringValueDecidesEquality(a: QName, b: QName)
    requires Unambiguous(a) && Unambiguous(b)
    ensures StringValue(a) == StringValue(b) <==> EqualsCorrected(a, b)
  {
    if StringValue(a) == StringValue(b) {
      match (a.namespaceUri, b.namespaceUri)
      case (None, None) =>
      case (Some(u), None) =>
      case (None, Some(v)) =>
      case (Some(u), Some(v)) =>
        var s := StringValue(a);
        assert s == "{" + u + "}" + a.localPart;
        assert s[1..] == u + ['}'] + a.localPart;
        assert s[1..] == v + ['}'] + b.localPart;
        FindAfter(u, '}', a.localPart);
        FindAfter(v, '}', b.localPart);
        assert u == s[1..][..|u|];
    }
  }

  /** `getExpandedName`: "uri:local" when a URI is set, else the local part. */
  function ExpandedName(q: QName): (r: string)
    ensures |r| >= |q.localPart| && r[|r| - |q.localPart|..] == q.localPart
    ensures q.namespaceUri.Some? ==> |r| == |q.namespaceUri.value| + 1 + |q.localPart| && r[|q.namespaceUri.value|] == ':'
  {
    match q.namespaceUri
    case None => q.localPart
    case Some(u) => u + ":" + q.localPart
  }

  /**
   * Parsing an expanded name reads its URI back as a prefix (when neither
   * holds a ':'): the expanded name is a lexical form, not a namespace.
   */
  lemma ParseExpandedName(q: QName)
    requires q.namespaceUri.Some? ==> ':' !in q.namespaceUri.value
    requires ':' !in q.localPart && q.localPart != ""
    ensures QNameSpec(ExpandedName(q)) == Some(PrefixedName(q.namespaceUri, q.localPart))
  {
    ParseLexicalForm(PrefixedName(q.namespaceUri, q.localPart));
  }
}
