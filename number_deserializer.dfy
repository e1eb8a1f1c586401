/**
  `AbstractNumberDeserializer.deserializeFormatted`: parsing a JSON number token
  with the number format a user configured on a property or type
  (`@JsonbNumberFormat`), after bridging the French grouping separator that
  changed in JDK 13 (JDK-8225245).
*/
module NumberDeserializer {
  import opened Wrappers
  import opened JdkText

  /** The grouping separator French number formats used before JDK 13: NO-BREAK SPACE. */
  const BeforeJdk13GroupSeparator: char := '\U{00A0}'

  /** `JsonbNumberFormatter`: the configured pattern and optional locale tag. */
  datatype JsonbNumberFormatter = JsonbNumberFormatter(format: string, locale: Option<string>)

  /** The part of a `Customization` read here: its deserialize number formatter, which may be `null`. */
  datatype Customization = Customization(deserializeNumberFormatter: Option<JsonbNumberFormatter>)

  /** The part of a `JsonbContext` read here: the configuration's locale resolution. */
  datatype JsonbContext = JsonbContext(getLocale: Option<string> -> Locale)

  /**
    What `deserializeFormatted` produces: `Optional.empty()` (Absent), `Optional.of(n)`
    (Present), the `JsonbException` for an unparsable value (ParseError, carrying the
    message arguments), or the `IllegalArgumentException` that `applyPattern`
    throws for a malformed pattern (InvalidPattern).
  */
  datatype Outcome<N> =
    | Absent
    | Present(value: N)
    | ParseError(raw: string, pattern: string)
    | InvalidPattern(pattern: string)

  /** A customization exists and carries a deserialize number formatter. */
  predicate Configured(customization: Option<Customization>) {
    customization.Some? && customization.value.deserializeNumberFormatter.Some?
  }

  function FormatterOf(customization: Option<Customization>): JsonbNumberFormatter
    requires Configured(customization)
  {
    customization.value.deserializeNumberFormatter.value
  }

  /** The locale is French and the JDK's French grouping separator is not the pre-JDK 13 one. */
  predicate RewritesSeparator(locale: Locale, frenchGroupingSeparator: char) {
    locale.language == French.language && BeforeJdk13GroupSeparator != frenchGroupingSeparator
  }

  /**
    `compatibilityChanger`: in a French locale whose current grouping separator differs
    from NO-BREAK SPACE, every NO-BREAK SPACE becomes the current separator; any other
    locale or separator leaves the value unchanged.
  */
  function CompatibilityChanger(value: string, locale: Locale, frenchGroupingSeparator: char): (r: string)
    ensures !RewritesSeparator(locale, frenchGroupingSeparator) ==> r == value
    ensures |r| == |value|
    ensures RewritesSeparator(locale, frenchGroupingSeparator) ==>
      forall i :: 0 <= i < |value| ==>
        r[i] == if value[i] == BeforeJdk13GroupSeparator then frenchGroupingSeparator else value[i]
    ensures RewritesSeparator(locale, frenchGroupingSeparator) ==> BeforeJdk13GroupSeparator !in r
  {
    if RewritesSeparator(locale, frenchGroupingSeparator) then
      Replace(value, BeforeJdk13GroupSeparator, frenchGroupingSeparator)
    else
      value
  }

  /** A value without NO-BREAK SPACE is never changed, whatever the locale. */
  lemma CompatibilityChangerKeepsValueWithoutNbsp(value: string, locale: Locale, frenchGroupingSeparator: char)
    requires BeforeJdk13GroupSeparator !in value
    ensures CompatibilityChanger(value, locale, frenchGroupingSeparator) == value
  {
    if RewritesSeparator(locale, frenchGroupingSeparator) {
      ReplaceAbsentChar(value, BeforeJdk13GroupSeparator, frenchGroupingSeparator);
    }
  }

  /**
    Normalising an already normalised value changes nothing: after the rewrite no
    NO-BREAK SPACE is left to replace.
  */
  lemma CompatibilityChangerIdempotent(value: string, locale: Locale, frenchGroupingSeparator: char)
    ensures CompatibilityChanger(CompatibilityChanger(value, locale, frenchGroupingSeparator), locale, frenchGroupingSeparator)
         == CompatibilityChanger(value, locale, frenchGroupingSeparator)
  {
    var once := CompatibilityChanger(value, locale, frenchGroupingSeparator);
    if RewritesSeparator(locale, frenchGroupingSeparator) {
      CompatibilityChangerKeepsValueWithoutNbsp(once, locale, frenchGroupingSeparator);
    }
  }

  /**
    The specification of `deserializeFormatted`: absent without a formatter; otherwise
    the formatter's pattern (if the JDK accepts it), the resolved locale and the
    caller's integer-only flag parse the value as normalised for that same locale.
  */
  function FormattedOutcome<N>(customization: Option<Customization>, jsonValue: string, integerOnly: bool,
                               context: JsonbContext, platform: Platform<N>): (r: Outcome<N>)
    ensures r.Absent? <==> !Configured(customization)
    ensures r.InvalidPattern? ==>
      r.pattern == FormatterOf(customization).format && !platform.isValidPattern(r.pattern)
    ensures Configured(customization) && !platform.isValidPattern(FormatterOf(customization).format) ==>
      r == InvalidPattern(FormatterOf(customization).format)
    ensures r.ParseError? ==> r.raw == jsonValue && r.pattern == FormatterOf(customization).format
    ensures Configured(customization) && platform.isValidPattern(FormatterOf(customization).format) ==>
      var formatter := FormatterOf(customization);
      var locale := context.getLocale(formatter.locale);
      var parsed := platform.parse(formatter.format, locale, integerOnly,
                                   CompatibilityChanger(jsonValue, locale, platform.frenchGroupingSeparator));
      (r.Present? <==> parsed.Some?) && (r.Present? ==> r.value == parsed.value)
  {
    if !Configured(customization) then
      Absent
    else
      var formatter := FormatterOf(customization);
      var locale := context.getLocale(formatter.locale);
      if !platform.isValidPattern(formatter.format) then
        InvalidPattern(formatter.format)
      else
        match platform.parse(formatter.format, locale, integerOnly,
                             CompatibilityChanger(jsonValue, locale, platform.frenchGroupingSeparator))
        case Some(n) => Present(n)
        case None => ParseError(jsonValue, formatter.format)
  }

  /**
    `deserializeFormatted(jsonValue, integerOnly, jsonbContext)`: builds a fresh
    `NumberFormat` for the resolved locale, applies the formatter's pattern and the
    integer-only flag, and parses the normalised value.
  */
  method DeserializeFormatted<N>(customization: Option<Customization>, jsonValue: string, integerOnly: bool,
                                 context: JsonbContext, platform: Platform<N>) returns (r: Outcome<N>)
    ensures r == FormattedOutcome(customization, jsonValue, integerOnly, context, platform)
  {
    if customization.None? || customization.value.deserializeNumberFormatter.None? {
      return Absent;
    }
    var numberFormat := customization.value.deserializeNumberFormatter.value;
    var locale := context.getLocale(numberFormat.locale);
    var format := new NumberFormat.GetInstance(locale, platform.defaultPattern(locale));
    var applied := format.ApplyPattern(numberFormat.format, platform.isValidPattern);
    if !applied {
      return InvalidPattern(numberFormat.format);
    }
    format.SetParseIntegerOnly(integerOnly);
    var parsed := format.Parse(CompatibilityChanger(jsonValue, locale, platform.frenchGroupingSeparator), platform.parse);
    match parsed {
      case Some(n) => r := Present(n);
      case None => r := ParseError(jsonValue, numberFormat.format);
    }
  }

  /** Two outcomes are the same apart from the raw value a parse error reports. */
  ghost predicate SameExceptRaw<N>(a: Outcome<N>, b: Outcome<N>) {
    match a
    case ParseError(_, pattern) => b.ParseError? && b.pattern == pattern
    case _ => a == b
  }

  /** Values with the same normal form parse alike: the parser sees only the normal form. */
  lemma SameNormalFormSameOutcome<N>(customization: Option<Customization>, a: string, b: string, integerOnly: bool,
                                     context: JsonbContext, platform: Platform<N>)
    requires Configured(customization)
    requires var locale := context.getLocale(FormatterOf(customization).locale);
      CompatibilityChanger(a, locale, platform.frenchGroupingSeparator)
        == CompatibilityChanger(b, locale, platform.frenchGroupingSeparator)
    ensures SameExceptRaw(FormattedOutcome(customization, a, integerOnly, context, platform),
                          FormattedOutcome(customization, b, integerOnly, context, platform))
  {
  }

  /**
    A value written with the pre-JDK 13 separator parses like the same value written with
    the current one: the outcomes differ at most in the raw value of a parse error.
  */
  lemma PreJdk13SeparatorParsesAlike<N>(customization: Option<Customization>, jsonValue: string, integerOnly: bool,
                                        context: JsonbContext, platform: Platform<N>)
    requires Configured(customization)
    ensures var current := Replace(jsonValue, BeforeJdk13GroupSeparator, platform.frenchGroupingSeparator);
      var locale := context.getLocale(FormatterOf(customization).locale);
      RewritesSeparator(locale, platform.frenchGroupingSeparator) ==>
        SameExceptRaw(FormattedOutcome(customization, jsonValue, integerOnly, context, platform),
                      FormattedOutcome(customization, current, integerOnly, context, platform))
  {
    var locale := context.getLocale(FormatterOf(customization).locale);
    if RewritesSeparator(locale, platform.frenchGroupingSeparator) {
      CompatibilityChangerIdempotent(jsonValue, locale, platform.frenchGroupingSeparator);
      SameNormalFormSameOutcome(customization, jsonValue,
        Replace(jsonValue, BeforeJdk13GroupSeparator, platform.frenchGroupingSeparator),
        integerOnly, context, platform);
    }
  }
}
