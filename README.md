# Formatted number deserialization (Eclipse Yasson)

This project models, in Dafny, how Yasson's `AbstractNumberDeserializer` turns a JSON
number token into a number when the property or type carries a user-configured number
format (`@JsonbNumberFormat`):

- `deserializeFormatted` returns `Optional.empty()` when there is no customization or it has
  no deserialize number formatter. Otherwise it resolves the locale from the formatter's
  locale tag, creates a `NumberFormat` for that locale, applies the formatter's pattern,
  sets the caller's integer-only flag, and parses the value. A `ParseException` becomes a
  `JsonbException` built from the raw value and the pattern.
- `compatibilityChanger` runs before parsing. Since JDK 13 (JDK-8225245) the grouping
  separator of `Locale.FRENCH` is no longer NO-BREAK SPACE (U+00A0). So for any locale whose
  language is French (fr-FR, fr-CA, fr-CH, ...), when the `Locale.FRENCH` grouping separator
  differs from U+00A0, every U+00A0 in the value is replaced by the `Locale.FRENCH` grouping
  separator. The resolved locale's own separator is not consulted. Any other language leaves
  the value unchanged.

Files:

- `wrappers.dfy`: `Option`, for Java's `Optional` and for values that may be `null`.
- `jdk_text.dfy` (module `JdkText`): `Locale` and `Locale.FRENCH`; `String.replace(char, char)`
  as the recursive function `Replace`; the mutable `NumberFormat` as a class with
  `GetInstance`, `ApplyPattern`, `SetParseIntegerOnly` and `Parse`; and `Platform`, which
  bundles the JDK behaviour that is not visible here.
- `number_deserializer.dfy` (module `NumberDeserializer`):
  - the configuration values and the `Outcome` type;
  - `CompatibilityChanger`;
  - the specification function `FormattedOutcome` and the imperative method
    `DeserializeFormatted`, which is proved equal to it;
  - lemmas about normalisation and outcomes.

The outcome is an explicit datatype: `Absent` (`Optional.empty()`), `Present(n)`,
`ParseError(raw, pattern)` (the `JsonbException`), and `InvalidPattern(pattern)`.
`InvalidPattern` stands for the `IllegalArgumentException` that `DecimalFormat.applyPattern`
throws on a malformed pattern. That exception is not caught in the source, so the model keeps
it apart from the parse error.

The source handles one locale family, French, with a hard-coded check; the model follows it.

## Model

| member | source | states |
|---|---|---|
| `JdkText.Replace` | src/main/java/org/eclipse/yasson/internal/serializer/AbstractNumberDeserializer.java:77 | The result has the input's length. Each position holding the old character holds the new one, and every other position is unchanged. When the two characters differ, the old character no longer occurs. |
| `JdkText.ReplaceAbsentChar` | src/main/java/org/eclipse/yasson/internal/serializer/AbstractNumberDeserializer.java:77 | Replacing a character that does not occur returns the string unchanged. |
| `JdkText.NumberFormat.GetInstance` | src/main/java/org/eclipse/yasson/internal/serializer/AbstractNumberDeserializer.java:62 | A new format is bound to the given locale, holds that locale's default pattern, and has integer-only parsing off. |
| `JdkText.NumberFormat.ApplyPattern` | src/main/java/org/eclipse/yasson/internal/serializer/AbstractNumberDeserializer.java:63 | The pattern is replaced exactly when the JDK accepts it, and the failure is reported otherwise. The integer-only flag is unchanged. |
| `JdkText.NumberFormat.SetParseIntegerOnly` | src/main/java/org/eclipse/yasson/internal/serializer/AbstractNumberDeserializer.java:64 | The integer-only flag takes the given value, and the pattern is unchanged. |
| `JdkText.NumberFormat.Parse` | src/main/java/org/eclipse/yasson/internal/serializer/AbstractNumberDeserializer.java:66 | Parsing uses the format's current pattern, locale and integer-only flag, and nothing else. |
| `NumberDeserializer.CompatibilityChanger` | src/main/java/org/eclipse/yasson/internal/serializer/AbstractNumberDeserializer.java:72-80 | A non-French locale returns the value unchanged, and so does a French separator equal to U+00A0. Otherwise: the length is kept, each U+00A0 becomes the French grouping separator, every other position is unchanged, and no U+00A0 remains. |
| `NumberDeserializer.CompatibilityChangerKeepsValueWithoutNbsp` | src/main/java/org/eclipse/yasson/internal/serializer/AbstractNumberDeserializer.java:72-80 | A value containing no U+00A0 is returned unchanged, for every locale and separator. |
| `NumberDeserializer.CompatibilityChangerIdempotent` | src/main/java/org/eclipse/yasson/internal/serializer/AbstractNumberDeserializer.java:75-77 | Normalising twice gives the same result as normalising once, for every locale and separator. |
| `NumberDeserializer.FormattedOutcome` | src/main/java/org/eclipse/yasson/internal/serializer/AbstractNumberDeserializer.java:54-70 | The result is absent exactly when there is no customization or no formatter. The result is a pattern error exactly when a formatter is configured and the JDK rejects its pattern, and it carries that pattern. A parse error carries the raw, un-normalised value and the formatter's pattern. With an accepted pattern, the result is present exactly when the parser succeeds, and then holds the parser's value. The parser gets the formatter's pattern, the resolved locale, the caller's integer-only flag, and the value normalised for that same locale. |
| `NumberDeserializer.DeserializeFormatted` | src/main/java/org/eclipse/yasson/internal/serializer/AbstractNumberDeserializer.java:54-70 | Building a fresh format step by step and parsing gives exactly the outcome `FormattedOutcome` specifies. |
| `NumberDeserializer.SameNormalFormSameOutcome` | src/main/java/org/eclipse/yasson/internal/serializer/AbstractNumberDeserializer.java:61-66 | Two values with the same normal form under the resolved locale give the same outcome. They can differ only in the raw value that a parse error reports. |
| `NumberDeserializer.PreJdk13SeparatorParsesAlike` | src/main/java/org/eclipse/yasson/internal/serializer/AbstractNumberDeserializer.java:72-77 | Where the separator is rewritten, a value written with U+00A0 parses like the same value written with the current French separator. |

## Left out

- Locale resolution (`jsonbContext.getConfigProperties().getLocale(...)`, line 61) belongs to the configuration subsystem, which is not part of this model. The model takes it as the function `JsonbContext.getLocale`.
- `DecimalFormatSymbols.getInstance(Locale.FRENCH)` is JDK locale data. The French grouping separator is the field `Platform.frenchGroupingSeparator`.
- How `DecimalFormat` compiles patterns and parses digits is JDK code that is not visible here, and its `Long`/`Double` results involve floating point. The model keeps `Platform.isValidPattern`, `Platform.parse` and `Platform.defaultPattern` abstract, and the number type is a type parameter.
- `JdkText.NumberFormat.ApplyPattern`: when a pattern is rejected, the model leaves the old pattern in place. The JDK may leave a partly applied state, but the format is discarded at once, so this cannot be observed.
- `Locale.getLanguage()` normalisation (lower-casing, legacy ISO codes) is not modelled. Languages are compared as stored.
- The text of the `JsonbException` message (`Messages.getMessage`, `MessageKeys.PARSING_NUMBER`) is a message-catalog lookup. Only its arguments, the raw value and the pattern, are kept.
- The thread-safety remark (line 60) concerns concurrency. The model creates one format per call, as the source does.
- The constructor and the `AbstractValueTypeDeserializer` plumbing (lines 42-44) are left out. The customization is passed in directly.
