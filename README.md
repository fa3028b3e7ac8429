# XPath 3.1 atomic values: casts, lexical checks and comparisons

This project models the layer of an XPath 3.1 processor that turns a
sequence of zero or one item into a typed atomic value. For each of
xs:dayTimeDuration, xs:QName, xs:boolean, xs:integer, xs:long, xs:int,
xs:decimal, xs:normalizedString, xs:untypedAtomic and xs:untyped it models:

- the lexical checks that accept or refuse the item's string value;
- the value it builds;
- the comparisons on the values;
- the day-time-duration arithmetic;
- the timezone equality test shared by the calendar types.

The outcome of a `constructor` is an `Outcome`:

- `Empty` is the empty result sequence.
- `One(v)` is a one-item result.
- `Null` is the Java `null` that the xs:integer and xs:decimal casts return when the text does not read.
- `Raised(e)` is a thrown error. Its code is XTTE0570, FORG0006, FOCA0005 or FODT0001. The other kinds are an out-of-range error naming the text and the type, a wrapped NumberFormatException, a NullPointerException, a ClassCastException or an ArithmeticException.

Items are the closed datatype `AtomicValues.AnyType`:

- BigInteger is an unbounded `int`.
- BigDecimal is an `(unscaled, scale)` pair.
- Strings are `seq<char>`.

Each item carries what the casts read from it: its number and its string value.

Modules, one per source class and one per shared concern:

- `Results`: Option, Result and the constructor outcome.
- `Lexical`: Java string operations: `indexOf`, `split`, `startsWith`. Also the integer grammar of `new BigInteger(String)` and `Integer.parseInt`.
- `Decimals`: BigDecimal as a pair. It covers `new BigDecimal(String)`, `compareTo`, `toBigInteger`, and the plain `toString` with its leading-zero strip.
- `Durations`: the day-time duration value, the seconds constructor, `add` and `subtract`, and the hand-written scanner `parseDayTimeDuration`. The scanner is an imperative method. It is proved equal to `ScanResult`, and `ScanResult` is proved to accept exactly the strings that a well-formed lexeme of the scanner's own grammar renders to. That grammar is `[-]P[nD][T[nH][nM][nS]]`, where each n is whatever `Integer.parseInt` (days, hours, minutes) or `Double.parseDouble` (seconds) reads. It is not the grammar of section 3.4.27 of XML Schema Definition Language 1.1 Part 2. There, components are unsigned and unbounded. Here a component may carry its own sign, so "PT-1H" is accepted, and days, hours and minutes must fit in 32 bits.
- `DurationCasts`: the duration `constructor`, and `mult` and `div` with their error order. A numeric operand is read as `new XSDouble(String)` reads its text.
- `QNames`: the XSQName object. It covers the constructors, setters, `parseQName` (a loop that counts colons), `equals`, the `hashCode` key string, `stringValue` and `getExpandedName`.
- `QNameCast`: the xs:QName `constructor`.
- `AtomicValues`: the item union and each item's `stringValue`, `typeName` and `stringType`.
- `Booleans`, `Integers`, `BoundedIntegers` (xs:long and xs:int), `DecimalValues`, `NormalizedStrings`, `UntypedValues` (xs:untypedAtomic and xs:untyped): one module per class.
- `Calendar`: `isTimezoneEqual`.

XSLong and XSInt compare through their inherited integer the same way XSInteger does (`XSLong.java:89-99`, `XSInt.java:89-99`). `Integers.ComparisonsAreTotal` states those comparisons for all three.

XSUntypedAtomic and XSUntyped each keep the string they were built from. Their `stringValue` returns it unchanged (`XSUntyped.java:35-51`). Their `equals` takes the same branches in both classes (`XSUntyped.java:53-67`). `UntypedValues.EqualsBetweenUntyped` covers both.

## Model

| member | source | states |
|---|---|---|
| `Durations.FromSeconds` | src/xml/xpath31/processor/types/XSDayTimeDuration.java:54-56 | days, hours and minutes are 0, the seconds are non-negative, and the result is negative exactly when the argument is. The signed seconds equal the argument. |
| `Durations.FromSecondsKeepsLength` | src/xml/xpath31/processor/types/XSDayTimeDuration.java:44-56 | the duration built from a number of seconds has exactly that length |
| `Durations.Add` | src/xml/xpath31/processor/types/XSDayTimeDuration.java:216-220 | the sum is a seconds-only duration whose signed length is `value()` of the one plus `value()` of the other |
| `Durations.Subtract` | src/xml/xpath31/processor/types/XSDayTimeDuration.java:226-230 | the difference is a seconds-only duration whose signed length is the difference of the two `value()`s |
| `Durations.AddSubtractLengths` | src/xml/xpath31/processor/types/XSDayTimeDuration.java:217-227 | when `value()` is the duration's length, the lengths add and subtract |
| `Durations.AddSubtractAlgebra` | src/xml/xpath31/processor/types/XSDayTimeDuration.java:216-230 | `add` is commutative; subtracting a duration from itself gives the positive zero duration; subtracting b after adding b gives back a's length |
| `Durations.Meaning` | src/xml/xpath31/processor/types/XSDayTimeDuration.java:101-106 | a parsed duration keeps the sign, and every absent component is 0 |
| `Durations.FindDesignator` | src/xml/xpath31/processor/types/XSDayTimeDuration.java:150-156 | the text before the first occurrence of a designator, and the text after it, or no text and the input unchanged when the designator is absent |
| `Durations.ScanClock` | src/xml/xpath31/processor/types/XSDayTimeDuration.java:150-172 | reads H, then M, then S from what the previous stage left. It fails exactly when a present component does not parse (32-bit int for H and M, decimal for S). It returns those numbers, whether any designator was found, and the text left over. |
| `Durations.ParseDayTimeDuration` | src/xml/xpath31/processor/types/XSDayTimeDuration.java:99-192 | the imperative scanner returns exactly `ScanResult` of its input |
| `Durations.ScanResultIsGrammar` | src/xml/xpath31/processor/types/XSDayTimeDuration.java:111-189 | a string is accepted exactly when some well-formed lexeme renders to it, and the result is that lexeme's meaning. Every refusal is XTTE0570, never another exception. |
| `Durations.TotalSeconds` | src/xml/xpath31/processor/types/XSDayTimeDuration.java:216-220 | the length the arithmetic is compared with, as `value()`: a duration with no negative field is at most 0 seconds long when negative and at least 0 otherwise |
| `Durations.SignedHourExample` | src/xml/xpath31/processor/types/XSDayTimeDuration.java:150-156 | "PT-1H" is accepted, with an hour field of -1 and a positive sign |
| `Durations.ScanResultUnsigned` | src/xml/xpath31/processor/types/XSDayTimeDuration.java:150-172 | the scanner with unsigned components: where it accepts, it agrees with the scanner and no field of the result is negative; every refusal is XTTE0570 |
| `Durations.UnsignedMeaning` | src/xml/xpath31/processor/types/XSDayTimeDuration.java:135-169 | a well-formed lexeme with unsigned components means a duration with no negative field |
| `Durations.UnsignedAcceptsRenderings` | src/xml/xpath31/processor/types/XSDayTimeDuration.java:111-191 | the unsigned scanner accepts the rendering of every well-formed lexeme with unsigned components, with its meaning |
| `Durations.UnsignedRefusesSignedHour` | src/xml/xpath31/processor/types/XSDayTimeDuration.java:150-156 | the unsigned scanner refuses "PT-1H" with XTTE0570 |
| `Durations.OnlyScanned` | src/xml/xpath31/processor/types/XSDayTimeDuration.java:122-181 | after the prefix, at most one lexeme renders to the string: the one the scanner reads. It does exactly when that lexeme is well formed, has a time part exactly when a 'T' followed the day, and leaves no text. |
| `Durations.NoPrefix` | src/xml/xpath31/processor/types/XSDayTimeDuration.java:111-120 | a string starting with neither "-P" nor "P" is no duration |
| `Durations.RenderSign` | src/xml/xpath31/processor/types/XSDayTimeDuration.java:111-116 | a rendered duration starts with "-P" exactly when it is negative, and with "P" exactly when it is not |
| `Durations.DaysExample` | src/xml/xpath31/processor/types/XSDayTimeDuration.java:133-147 | "P3D" is 3 days with hours, minutes and seconds 0 |
| `Durations.AllComponentsExample` | src/xml/xpath31/processor/types/XSDayTimeDuration.java:99-191 | "-P1DT2H3M4.5S" parses to 1 day, 2 hours, 3 minutes, 4.5 seconds, negative |
| `Durations.EmptyTimeExamples` | src/xml/xpath31/processor/types/XSDayTimeDuration.java:173-181 | "PT" and "P1DT" are refused with XTTE0570 |
| `Durations.TrailingNumberExample` | src/xml/xpath31/processor/types/XSDayTimeDuration.java:173-177 | "PT1H2" is refused: text is left after the last designator |
| `Durations.OutOfOrderExample` | src/xml/xpath31/processor/types/XSDayTimeDuration.java:150-177 | "PT1S2H" is refused: the stages look up H before S |
| `DurationCasts.ReadDouble` | src/xml/xpath31/processor/types/XSDouble.java:49-62 | "INF" and "-INF" are the infinities. A finite reading is the decimal the text denotes. Text that does not read fails with FORG0006. |
| `DurationCasts.ReadDoubleOfDecimalText` | src/xml/xpath31/processor/types/XSDouble.java:56 | decimal text reads as its value, and is a negative zero exactly when it has a minus sign and the value is 0 |
| `DurationCasts.ReadIntegerItem` | src/xml/xpath31/processor/types/XSDayTimeDuration.java:272-274 | an integer operand reads as that integer, never as a negative zero |
| `DurationCasts.ReadNegativeZero` | src/xml/xpath31/processor/types/XSDouble.java:184-186 | "-0" reads as a zero that `zero()` does not recognise |
| `DurationCasts.CastOf` | src/xml/xpath31/processor/types/XSDayTimeDuration.java:325-335 | a duration item is copied field by field. Any other item's string value is scanned, and a failure is XTTE0570. |
| `DurationCasts.CastToDayTimeDuration` | src/xml/xpath31/processor/types/XSDayTimeDuration.java:326-334 | the method returns `CastOf` of its item |
| `DurationCasts.Construct` | src/xml/xpath31/processor/types/XSDayTimeDuration.java:73-87 | empty exactly for empty input; otherwise one duration, or XTTE0570 when the cast fails |
| `DurationCasts.CastOfText` | src/xml/xpath31/processor/types/XSDayTimeDuration.java:334 | an item that is not a duration casts exactly when its string value is in the grammar, and then to that lexeme's meaning |
| `DurationCasts.RenderedLexemeCasts` | src/xml/xpath31/processor/types/XSDayTimeDuration.java:82-84 | a string holding any rendered well-formed lexeme casts to the lexeme's meaning |
| `DurationCasts.Mult` | src/xml/xpath31/processor/types/XSDayTimeDuration.java:239-259 | a non-numeric operand or NaN fails with FOCA0005, and unreadable text fails with FORG0006. An infinite factor gives no finite duration. |
| `DurationCasts.MultOfFinite` | src/xml/xpath31/processor/types/XSDayTimeDuration.java:250 | a finite factor gives the seconds-only duration of `value()` times the factor |
| `DurationCasts.MultByInteger` | src/xml/xpath31/processor/types/XSDayTimeDuration.java:243-251 | multiplying by an integer item scales `value()` by that integer |
| `DurationCasts.MultScalesLength` | src/xml/xpath31/processor/types/XSDayTimeDuration.java:243-252 | with `value()` the length, the product's length is the length times the factor |
| `DurationCasts.Ratio` | src/xml/xpath31/processor/types/XSDayTimeDuration.java:286-290 | the quotient times the divisor gives back the dividend |
| `DurationCasts.Div` | src/xml/xpath31/processor/types/XSDayTimeDuration.java:268-314 | an operand that is neither numeric nor a day-time duration, or unreadable text, gives FORG0006. NaN gives FOCA0005, checked before the zero test. Positive zero gives FODT0001. An infinite divisor gives the zero duration. A duration divisor gives FODT0001 exactly when its seconds field is 0. |
| `DurationCasts.DivByNumber` | src/xml/xpath31/processor/types/XSDayTimeDuration.java:285-291 | a finite non-zero divisor gives the duration whose length times the divisor is the dividend's length |
| `DurationCasts.DivByDuration` | src/xml/xpath31/processor/types/XSDayTimeDuration.java:293-302 | a duration divisor with non-zero seconds divides by those seconds |
| `DurationCasts.DivByNegativeZero` | src/xml/xpath31/processor/types/XSDayTimeDuration.java:278-291 | dividing by the number "-0" raises ArithmeticException, not FODT0001 |
| `DurationCasts.DivByOneMinute` | src/xml/xpath31/processor/types/XSDayTimeDuration.java:294-306 | one minute, 60 seconds long, is refused as a zero divisor |
| `DurationCasts.DivCorrected` | src/xml/xpath31/processor/types/XSDayTimeDuration.java:272-306 | division that never raises ArithmeticException, and refuses a duration divisor exactly when its length is 0 |
| `DurationCasts.DivCorrectedAgrees` | src/xml/xpath31/processor/types/XSDayTimeDuration.java:272-292 | for numeric and other operands, the corrected division equals the source's wherever the source does not raise ArithmeticException. Where it does, the correction gives FODT0001. |
| `DurationCasts.DivCorrectedByDuration` | src/xml/xpath31/processor/types/XSDayTimeDuration.java:293-306 | dividing by a duration of non-zero length succeeds, and the quotient times the divisor's length is the dividend's length |
| `DurationCasts.MultThenDiv` | src/xml/xpath31/processor/types/XSDayTimeDuration.java:239-291 | multiplying by a non-zero integer and then dividing by it gives back the original length |
| `QNames.QualifiedName` | src/xml/xpath31/processor/types/XSQName.java:47-54 | the three-argument name keeps its parts and is expanded exactly when it has a namespace URI |
| `QNames.PrefixedName` | src/xml/xpath31/processor/types/XSQName.java:59-63 | the two-argument name has no namespace URI and is not expanded |
| `QNames.LocalName` | src/xml/xpath31/processor/types/XSQName.java:68-70 | the one-argument name has only a local part |
| `QNames.XSQName.Qualified` | src/xml/xpath31/processor/types/XSQName.java:47-54 | the object holds the three-argument name; `isExpanded` is true exactly when a URI was given |
| `QNames.XSQName.Prefixed` | src/xml/xpath31/processor/types/XSQName.java:59-63 | the object holds the two-argument name and is not expanded |
| `QNames.XSQName.Local` | src/xml/xpath31/processor/types/XSQName.java:68-70 | the object holds the local name and is not expanded |
| `QNames.XSQName.SetPrefix` | src/xml/xpath31/processor/types/XSQName.java:100-102 | only the prefix changes |
| `QNames.XSQName.SetLocalPart` | src/xml/xpath31/processor/types/XSQName.java:108-110 | only the local part changes |
| `QNames.XSQName.SetNamespaceUri` | src/xml/xpath31/processor/types/XSQName.java:116-118 | only the URI changes; the expanded flag stays as it was |
| `QNames.ParseQName` | src/xml/xpath31/processor/types/XSQName.java:196-223 | the colon-counting loop and the split return exactly `QNameSpec` of the text |
| `QNames.ParsedIsUnexpanded` | src/xml/xpath31/processor/types/XSQName.java:212-222 | a parsed name has no namespace URI, is not expanded, and has no colon in its local part |
| `QNames.ParseManyColons` | src/xml/xpath31/processor/types/XSQName.java:199-210 | text with more than one colon gives no name |
| `QNames.ParseLexicalForm` | src/xml/xpath31/processor/types/XSQName.java:212-220 | "p:l", or "l" with no prefix, parses back to the name it was written from |
| `QNames.ParseTrailingColon` | src/xml/xpath31/processor/types/XSQName.java:212-216 | "a:" parses to local name "a" with no prefix, and ":" gives no name, because `split` drops trailing empty tokens |
| `QNames.ParseLeadingColon` | src/xml/xpath31/processor/types/XSQName.java:218-220 | ":l" parses to local name "l" with the empty prefix |
| `QNames.Equals` | src/xml/xpath31/processor/types/XSQName.java:146-165 | true exactly when the local names agree and both URIs are present and equal. With equal local names and both URIs absent, it throws NullPointerException. |
| `QNames.EqualsAgreesWhereDefined` | src/xml/xpath31/processor/types/XSQName.java:149-162 | wherever `equals` returns, it agrees with the corrected equality |
| `QNames.EqualsThrowsOnNullUris` | src/xml/xpath31/processor/types/XSQName.java:152-153 | two equal local names without URIs make `equals` throw, although they are the same name |
| `QNames.EqualsIgnoresPrefix` | src/xml/xpath31/processor/types/XSQName.java:146-165 | neither the prefix nor the expanded flag changes the outcome of `equals` |
| `QNames.EqualsCorrectedIsEquivalence` | src/xml/xpath31/processor/types/XSQName.java:146-164 | the corrected equality is reflexive, symmetric and transitive |
| `QNames.HashKey` | src/xml/xpath31/processor/types/XSQName.java:121-130 | the key string is "{" followed by the prefix (written "null" when absent), and ends with the local part |
| `QNames.HashKeySeesPrefix` | src/xml/xpath31/processor/types/XSQName.java:125-127 | two names that `equals` calls equal can have different hash keys |
| `QNames.HashKeyCorrectedAgrees` | src/xml/xpath31/processor/types/XSQName.java:121-129 | the corrected key is the same for any two names that are equal, by `equals` or by the corrected equality |
| `QNames.StringValueDecidesEquality` | src/xml/xpath31/processor/types/XSQName.java:179-190 | "{ns}local" or "local" gives the same text for two names exactly when they are equal, as long as no URI contains "}" and no local part starts with "{" |
| `QNames.StringValueShape` | src/xml/xpath31/processor/types/XSQName.java:179-190 | the string value ends with the local part, and is longer than it exactly when a URI is set |
| `QNames.ExpandedName` | src/xml/xpath31/processor/types/XSQName.java:236-246 | the expanded name ends with the local part; with a URI it is the URI, a ':' and the local part |
| `QNames.QNameSpec` | src/xml/xpath31/processor/types/XSQName.java:196-223 | no name for more than one ':'; a parsed name has no URI and is not expanded; with a prefix, the text is the prefix, ':' and the local part |
| `QNames.EqualsCorrected` | src/xml/xpath31/processor/types/XSQName.java:146-165 | the intended equality: the names agree once the prefix and the expanded flag are set aside |
| `QNames.HashKeyCorrected` | src/xml/xpath31/processor/types/XSQName.java:121-130 | the corrected key starts with '{' and the URI text and ends with the local part |
| `QNames.ParseExpandedName` | src/xml/xpath31/processor/types/XSQName.java:236-246 | "ns:local" parses back as a name whose prefix is the URI, so the URI is not recovered as a namespace |
| `QNameCast.Construct` | src/xml/xpath31/processor/types/XSQName.java:73-94 | empty input gives empty. A string or QName item gives its parsed string value, or empty when the parse gives no name. Any other item fails with FORG0006. A result never has a namespace. |
| `QNameCast.CastText` | src/xml/xpath31/processor/types/XSQName.java:83-86 | a parse that gives no name adds nothing; otherwise one name |
| `QNameCast.StringCastRoundTrip` | src/xml/xpath31/processor/types/XSQName.java:82-86 | a string holding the lexical form of a name casts back to that name |
| `QNameCast.QNameItemLosesPrefix` | src/xml/xpath31/processor/types/XSQName.java:179-186 | casting a QName item goes through its string value, so the prefix is dropped |
| `AtomicValues.UntypedNames` | src/xml/xpath31/processor/types/XSUntyped.java:39-46 | the type names are "untypedAtomic"/"xs:untypedAtomic" and "untyped"/"xs:untyped" |
| `AtomicValues.ZeroDecimalText` | src/xml/xpath31/processor/types/XSDecimal.java:65-68 | a decimal equal to 0, at any scale, has the string value "0" |
| `Booleans.Construct` | src/xml/xpath31/processor/types/XSBoolean.java:44-65 | empty exactly for empty input. The value is false exactly when the string value is one of "0", "false", "+0", "-0", "0.0E0", "NaN". |
| `Booleans.EmptyTextIsTrue` | src/xml/xpath31/processor/types/XSBoolean.java:127-131 | the empty string casts to true |
| `Booleans.BooleanRoundTrip` | src/xml/xpath31/processor/types/XSBoolean.java:78-80 | a boolean item casts back to its own value |
| `Booleans.ComparisonsAreTotal` | src/xml/xpath31/processor/types/XSBoolean.java:91-113 | `lt(a, b)` is `gt(b, a)`, and exactly one of `lt`, `equals`, `gt` holds |
| `Booleans.IsBooleanFalse` | src/xml/xpath31/processor/types/XSBoolean.java:127-131 | true exactly for the six false texts "0", "false", "+0", "-0", "0.0E0" and "NaN" |
| `Booleans.Equals` | src/xml/xpath31/processor/types/XSBoolean.java:91-93 | true exactly when the two booleans have the same rank, false being below true |
| `Booleans.Lt` | src/xml/xpath31/processor/types/XSBoolean.java:95-103 | true exactly when the first boolean ranks below the second |
| `Booleans.Gt` | src/xml/xpath31/processor/types/XSBoolean.java:105-113 | true exactly when the first boolean ranks above the second |
| `Integers.XSInteger.constructor` | src/xml/xpath31/processor/types/XSInteger.java:44-47 | the integer and the inherited decimal hold the same number, at scale 0 |
| `Integers.XSInteger.FromText` | src/xml/xpath31/processor/types/XSInteger.java:52-55 | integer text gives the integer, and the same number read as a decimal |
| `Integers.XSInteger.SetInt` | src/xml/xpath31/processor/types/XSInteger.java:120-122 | only the integer changes; the inherited decimal is left as it was |
| `Integers.CastToInteger` | src/xml/xpath31/processor/types/XSInteger.java:148-167 | a boolean gives 1 or 0. A decimal, float or double item succeeds exactly when its text reads as a decimal. Any other item must be integer text. |
| `Integers.Construct` | src/xml/xpath31/processor/types/XSInteger.java:85-103 | empty exactly for empty input, and Java null exactly when the cast fails; never an error |
| `Integers.NumericCastTruncates` | src/xml/xpath31/processor/types/XSInteger.java:159-164 | a numeric item casts to the integer part of its decimal reading, truncated toward zero |
| `Integers.IntegerRoundTrip` | src/xml/xpath31/processor/types/XSInteger.java:71-73 | an integer item of any integer class casts back to its own value |
| `Integers.BooleanCast` | src/xml/xpath31/processor/types/XSInteger.java:150-157 | true casts to 1 and false to 0 |
| `Integers.StringFractionRejected` | src/xml/xpath31/processor/types/XSInteger.java:166 | the string "1.5" gives Java null, not a truncation |
| `Integers.ComparisonsAreTotal` | src/xml/xpath31/processor/types/XSInteger.java:124-134 | `lt(a, b)` is `gt(b, a)`, and exactly one of `lt`, `equals`, `gt` holds |
| `Integers.Equals` | src/xml/xpath31/processor/types/XSInteger.java:124-126 | true exactly when the two integers compare as 0 when read as decimals at scale 0 |
| `Integers.Lt` | src/xml/xpath31/processor/types/XSInteger.java:128-130 | true exactly when `compareTo` of the two integers, read as decimals, is -1 |
| `Integers.Gt` | src/xml/xpath31/processor/types/XSInteger.java:132-134 | true exactly when `compareTo` of the two integers, read as decimals, is 1 |
| `Integers.XSInteger.StringValue` | src/xml/xpath31/processor/types/XSInteger.java:71-73 | the text reads back, with `new BigInteger`, as the stored integer |
| `Integers.Multiply` | src/xml/xpath31/processor/types/XSInteger.java:136-138 | a new object holding the product, in both fields |
| `BoundedIntegers.ConstructInRange` | src/xml/xpath31/processor/types/XSLong.java:55-79 | empty exactly for empty input. Text that is not integer text raises NumberFormatException. Otherwise the number must lie within the inclusive bounds, or the out-of-range error names the text and the type. |
| `BoundedIntegers.LongConstruct` | src/xml/xpath31/processor/types/XSLong.java:29-31 | an accepted xs:long lies within -2^63 and 2^63-1 |
| `BoundedIntegers.IntConstruct` | src/xml/xpath31/processor/types/XSInt.java:29-31 | an accepted xs:int lies within -2^31 and 2^31-1 |
| `BoundedIntegers.IntAcceptedIsLongAccepted` | src/xml/xpath31/processor/types/XSInt.java:55-79 | what the xs:int cast accepts the xs:long cast accepts as the same number, and both refuse the same non-integer text |
| `BoundedIntegers.IntegerItemCast` | src/xml/xpath31/processor/types/XSLong.java:65-73 | an integer item is itself inside the range and the out-of-range error outside it |
| `BoundedIntegers.IntUpperBoundary` | src/xml/xpath31/processor/types/XSInt.java:65-73 | 2147483647 is accepted as an xs:int and 2147483648 is out of range |
| `BoundedIntegers.FractionRaises` | src/xml/xpath31/processor/types/XSLong.java:64-76 | a decimal with a fraction raises NumberFormatException for both casts; nothing is truncated |
| `BoundedIntegers.BooleanRaises` | src/xml/xpath31/processor/types/XSLong.java:74-76 | a boolean item raises NumberFormatException |
| `DecimalValues.XSDecimal.constructor` | src/xml/xpath31/processor/types/XSDecimal.java:44-46 | the object holds the given decimal |
| `DecimalValues.XSDecimal.FromText` | src/xml/xpath31/processor/types/XSDecimal.java:51-53 | the object holds the decimal the text reads as |
| `DecimalValues.XSDecimal.Zero` | src/xml/xpath31/processor/types/XSDecimal.java:102-104 | true exactly when the value is 0, at any scale |
| `DecimalValues.XSDecimal.StringValue` | src/xml/xpath31/processor/types/XSDecimal.java:65-73 | "0" for a zero value; otherwise the formatter's text of the value. The reassignment of the field leaves it equal to what it was. |
| `Decimals.StrippedTextRoundTrip` | src/xml/xpath31/processor/types/XSDecimal.java:70 | a non-zero decimal's text, stripped of its leading zeros, reads back as the same unscaled value and scale |
| `DecimalValues.ComparisonsOrderValues` | src/xml/xpath31/processor/types/XSDecimal.java:133-139 | `lt` and `gt` are the order of the values, `lt(a, b)` is `gt(b, a)`, and `equals` excludes both |
| `DecimalValues.Equals` | src/xml/xpath31/processor/types/XSDecimal.java:129-131 | true exactly when the two values are equal and the scales are equal, so 1.0 and 1.00 differ (see `EqualsSeesScale`) |
| `DecimalValues.Lt` | src/xml/xpath31/processor/types/XSDecimal.java:133-135 | true exactly when the first value is below the second |
| `DecimalValues.Gt` | src/xml/xpath31/processor/types/XSDecimal.java:137-139 | true exactly when the first value is above the second |
| `Decimals.CompareToIsValueOrder` | src/xml/xpath31/processor/types/XSDecimal.java:134-138 | `compareTo` is -1, 0 or 1 as the first value is below, equal to or above the second |
| `Decimals.CompareTo` | src/xml/xpath31/processor/types/XSDecimal.java:134-138 | the result is -1, 0 or 1 |
| `Decimals.Truncate` | src/xml/xpath31/processor/types/XSInteger.java:161-163 | at scale 0 the result is the unscaled value; its magnitude times 10^scale is within 10^scale below the unscaled value's magnitude; a non-zero result has the value's sign |
| `Decimals.PlainString` | src/xml/xpath31/processor/types/XSDecimal.java:70 | the text starts with '-' exactly for a negative value, and for a positive scale it has a point with exactly `scale` characters after it |
| `Decimals.ParsedDecimalIsNumeral` | src/xml/xpath31/processor/types/XSDecimal.java:52 | text that `new BigDecimal` reads holds only digits, signs and points |
| `Decimals.NonNumeralDoesNotRead` | src/xml/xpath31/processor/types/XSDecimal.java:88-91 | text holding any other character does not read |
| `Decimals.IntegerTextIsDecimalText` | src/xml/xpath31/processor/types/XSInteger.java:53-54 | text that `new BigInteger` reads is read by `new BigDecimal` as the same number at scale 0 |
| `DecimalValues.EqualsSeesScale` | src/xml/xpath31/processor/types/XSDecimal.java:129-139 | 1.0 and 1.00 are neither below nor above each other, yet `equals` is false |
| `DecimalValues.CastToDecimal` | src/xml/xpath31/processor/types/XSDecimal.java:149-160 | a boolean gives 1 or 0 at scale 0; any other item's string value is read as a decimal |
| `DecimalValues.Construct` | src/xml/xpath31/processor/types/XSDecimal.java:76-94 | empty exactly for empty input, and Java null exactly when the text does not read; never an error |
| `DecimalValues.IntegerItemCast` | src/xml/xpath31/processor/types/XSDecimal.java:159 | an integer item casts to the same number at scale 0 |
| `DecimalValues.ZeroItemCast` | src/xml/xpath31/processor/types/XSDecimal.java:66-67 | a zero decimal at any scale casts to 0 at scale 0 |
| `DecimalValues.LetterTextIsNull` | src/xml/xpath31/processor/types/XSDecimal.java:88-91 | text holding a lower-case letter other than the exponent mark 'e' gives Java null |
| `Decimals.TruncateIsIntegerPart` | src/xml/xpath31/processor/types/XSInteger.java:161-163 | `toBigInteger` gives the largest integer not above a non-negative value, and the smallest not below a negative one |
| `Lexical.IntToStringRoundTrip` | src/xml/xpath31/processor/types/XSInteger.java:72 | the base-10 text of an integer reads back as that integer |
| `Lexical.SplitAtOne` | src/xml/xpath31/processor/types/XSQName.java:212 | splitting at the one colon gives both sides, dropping an empty trailing side, and nothing when both sides are empty |
| `Lexical.IndexOf` | src/xml/xpath31/processor/types/XSDayTimeDuration.java:150 | -1 exactly when the character is absent; otherwise the position of its first occurrence |
| `Lexical.Split` | src/xml/xpath31/processor/types/XSQName.java:212 | text without the delimiter is one piece, itself; otherwise the last piece is never empty |
| `Lexical.ParseInt32` | src/xml/xpath31/processor/types/XSDayTimeDuration.java:153 | a result fits in 32 bits, and there is one exactly when `new BigInteger` reads the text as a number that fits |
| `Lexical.ParsedIntegerIsNumeral` | src/xml/xpath31/processor/types/XSInteger.java:166 | text that `new BigInteger` reads holds only digits and signs |
| `NormalizedStrings.IsSatisfiesConstraints` | src/xml/xpath31/processor/types/XSNormalizedString.java:105-119 | true exactly when no character is a carriage return, line feed or tab |
| `NormalizedStrings.Construct` | src/xml/xpath31/processor/types/XSNormalizedString.java:79-99 | empty exactly for empty input. A string value with a prohibited character fails with FORG0006. Otherwise the result is that string value, unchanged. |
| `NormalizedStrings.ConstructIdempotent` | src/xml/xpath31/processor/types/XSNormalizedString.java:88-95 | casting a cast normalized string again gives the same result |
| `NormalizedStrings.SpaceAllowedTabRefused` | src/xml/xpath31/processor/types/XSNormalizedString.java:111-112 | a space never decides acceptance; a tab is always refused |
| `Calendar.TimezoneEqualProperties` | src/xml/xpath31/processor/types/XSCalendarType.java:27-46 | the test is symmetric when the two (timezone, flag) pairs swap, and reflexive. Two present timezones are equal exactly when hours, minutes and sign agree. With exactly one absent, the result is true exactly when either flag is set. |
| `Calendar.IsTimezoneEqual` | src/xml/xpath31/processor/types/XSCalendarType.java:27-46 | two absent timezones are equal; two present ones are equal exactly when they agree once days and seconds are set aside; with exactly one absent, the result is whether either flag is set |
| `Calendar.TimezoneEqualTransitive` | src/xml/xpath31/processor/types/XSCalendarType.java:33-39 | without the fn:date flags, the test is transitive |
| `Calendar.FlagBreaksTransitivity` | src/xml/xpath31/processor/types/XSCalendarType.java:41-43 | with a flag set, two different timezones are each equal to an absent one |
| `UntypedValues.Construct` | src/xml/xpath31/processor/types/XSUntypedAtomic.java:43-55 | empty exactly for empty input. An atomic item gives its string value. Anything else fails the cast with ClassCastException. |
| `UntypedValues.ConstructKeepsText` | src/xml/xpath31/processor/types/XSUntypedAtomic.java:68-70 | the value's string value is the source's, and casting it again changes nothing |
| `UntypedValues.EqualsBetweenUntyped` | src/xml/xpath31/processor/types/XSUntypedAtomic.java:72-80 | between untypedAtomic and untyped values, `equals` is string equality of the stored text, and symmetric |
| `AtomicValues.StringValueReadsBack` | src/xml/xpath31/processor/types/XSInteger.java:71-73 | a boolean's string value is "true" or "false" as the boolean is; an integer's reads back as the integer; a zero decimal's is "0" |
| `AtomicValues.TypeName` | src/xml/xpath31/processor/types/XSUntypedAtomic.java:57-65 | an integer item is named "integer", "long" or "int"; a duration is named "dayTimeDuration" exactly when it is a day-time duration |
| `AtomicValues.BooleanNames` | src/xml/xpath31/processor/types/XSBoolean.java:67-75 | a boolean is named "boolean" and "xs:boolean" |
| `AtomicValues.DecimalNames` | src/xml/xpath31/processor/types/XSDecimal.java:55-62 | a decimal is named "decimal" and "xs:decimal" |
| `AtomicValues.IntegerNames` | src/xml/xpath31/processor/types/XSInteger.java:57-63 | the three integer kinds are named "integer"/"xs:integer", "long"/"xs:long" and "int"/"xs:int" (the latter two as in XSLong.java:81-87 and XSInt.java:81-87) |
| `AtomicValues.QNameNames` | src/xml/xpath31/processor/types/XSQName.java:168-176 | a QName item is named "QName" and "xs:QName" |
| `AtomicValues.NormalizedStringNames` | src/xml/xpath31/processor/types/XSNormalizedString.java:56-67 | a normalized string is named "normalizedString" and "xs:normalizedString" |
| `AtomicValues.DayTimeDurationNames` | src/xml/xpath31/processor/types/XSDayTimeDuration.java:199-210 | a day-time duration is named "dayTimeDuration" and "xs:dayTimeDuration" |

## Left out

- Lexical grammars are ASCII subsets.
  - `new BigInteger(String)` and `Integer.parseInt` are an optional sign followed by ASCII digits.
  - `new BigDecimal(String)`, `new Double(String)` and `Double.parseDouble` are an optional sign and digits with an optional fraction.
  - Exponents, hexadecimal, whitespace, the `d`/`f`/`D`/`F` type suffixes that `Double.parseDouble` accepts, and non-ASCII digits are not modelled. Neither are "NaN"/"Infinity" spelled other than as the item's own text.
  - So "PT1dS", which the source reads as one second, is refused here.
- `BigDecimal.toString` is modelled in its plain form only. The scientific form for large negative exponents is not modelled.
- The XPath3DecimalFormat formatter is not part of this model. The string value of a non-zero decimal, float, double or duration is the `shown` text the item carries. `XSDecimal.StringValue` takes the formatter as a parameter.
- `value()` belongs to the XSDuration parent class, which is not part of this model. `add`, `subtract`, `mult` and `div` take it as a parameter. The length facts are proved for the choice `TotalSeconds`.
- Double arithmetic is modelled with exact reals.
  - Products and quotients are exact, with no rounding and no 18-digit half-even division.
  - An infinite factor in `mult` gives `NotFinite` in place of an infinite or NaN duration.
- `XSDayTimeDuration`'s five-argument and default constructors are the `DayTimeDuration` datatype itself.
- `DayTimeDuration`: the normalization promised for the five-argument constructor (`XSDayTimeDuration.java:32-35`) is not modelled. It carries excess seconds into minutes, minutes into hours and hours into days, and it is done by the XSDuration parent class, which is not part of this model. Every field-level statement below holds for the fields as given, un-normalized.
- `Durations.FromSeconds`: keeps the whole length in the seconds field, with 0 days, hours and minutes. The parent constructor would move 3600 seconds into an hour.
- `Durations.Meaning`: the fields are the numbers read, un-normalized. "PT25H" means 0 days and 25 hours.
- `Calendar.IsTimezoneEqual`: compares the un-normalized hour and minute fields, so PT90M and PT1H30M are different timezones here.
- `DurationCasts.CastOf`, `DurationCasts.DivByDuration` and `DurationCasts.DivByOneMinute`: copy or read the un-normalized fields; the divisor's seconds field is the one it was built with.
- `Durations.WellFormed` follows the scanner, not section 3.4.27 of XML Schema Definition Language 1.1 Part 2. A component may carry a sign, and days, hours and minutes must fit in 32 bits. `Durations.ScanResultUnsigned` is the unsigned reading; the 32-bit bound is kept in both.
- The year and month of an XSDuration that is not a day-time duration are not modelled. The cast copies only the day-time fields.
- `XSInteger.FromText` and `XSDecimal.FromText` require text that reads. A NumberFormatException thrown by a Java constructor is not modelled; the casts model that failure instead.
- The fields of the QName and untyped classes are modelled non-null. The default constructors that leave them null are left out.
- `equals(XObject)` of xs:untypedAtomic and xs:untyped compares with the foreign `XObject.str()` for other objects. That text is the `otherStr` parameter.
- `XSDecimal.setDouble`, `doubleValue` and `getValue` convert to and from doubles. Floating point is not modelled.
- These are not modelled: exception message texts beyond the error kind and the text an out-of-range error names; `getType()` class ids; serialization ids; `ResultSequence` beyond zero or one item.
- The classes XSDouble, XSFloat and XSString are not part of this model. Only the way a duration operation reads a number's text, `new XSDouble(String)` with `zero()`, `nan()` and `infinite()`, is modelled, as `DurationCasts.ReadDouble`.

## Findings

| source | as written | input that shows it | evidently intended | confidence | as-written member | corrected member |
|---|---|---|---|---|---|---|
| src/xml/xpath31/processor/types/XSQName.java:121-130 | the hash key includes the prefix, which `equals` ignores | "p:l" and "q:l", both with URI "u" | equal names have equal hash codes | high, not executed | `QNames.HashKeySeesPrefix` | `QNames.HashKeyCorrectedAgrees` |
| src/xml/xpath31/processor/types/XSQName.java:152-153 | with equal local names and both URIs null, `namespaceUri.equals` is called on null | two local names "a" without URIs | two such names are equal | high, not executed | `QNames.EqualsThrowsOnNullUris` | `QNames.EqualsCorrectedIsEquivalence` |
| src/xml/xpath31/processor/types/XSDayTimeDuration.java:278-290 | `zero()` misses -0.0, so `new BigDecimal(-0.0)` is 0 and `divide` throws ArithmeticException | dividing by the xs:double whose text is "-0" | FODT0001, as for +0 | medium, not executed | `DurationCasts.DivByNegativeZero` | `DurationCasts.DivCorrectedAgrees` |
| src/xml/xpath31/processor/types/XSDayTimeDuration.java:294-306 | a duration divisor is tested and used through its seconds field only | dividing by PT1M, whose seconds field is 0 | divide by the divisor's length, `value()` | medium, not executed | `DurationCasts.DivByOneMinute` | `DurationCasts.DivCorrectedByDuration` |
| src/xml/xpath31/processor/types/XSDayTimeDuration.java:150-156 | `Integer.parseInt` reads a signed component, so a component's own sign is kept apart from the duration's sign | "PT-1H", read as an hour field of -1 under a positive sign | components are unsigned, as in section 3.4.27 of XML Schema Definition Language 1.1 Part 2, and such a string is refused with XTTE0570 | medium, not executed | `Durations.SignedHourExample` | `Durations.ScanResultUnsigned` |
