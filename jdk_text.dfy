/**
  The parts of the Java platform (`java.lang.String`, `java.util.Locale`,
  `java.text.NumberFormat`) that the number deserializer relies on.

  Whatever is locale data or pattern compilation inside the JDK is not modelled;
  it enters as the fields of a `Platform` value, which the caller supplies.
*/
module JdkText {
  import opened Wrappers

  /** `java.util.Locale`; `getLanguage()` returns the (already lower-cased) language code. */
  datatype Locale = Locale(language: string, country: string, variant: string)

  /** `Locale.FRENCH`: language "fr" with no country and no variant. */
  const French: Locale := Locale("fr", "", "")

  /**
    The JDK behaviour that the deserializer uses but that is not visible here,
    for a parsed number type `N` (a `Long` or a `Double` in Java):
    - `frenchGroupingSeparator`: `DecimalFormatSymbols.getInstance(Locale.FRENCH).getGroupingSeparator()`;
    - `defaultPattern`: the pattern `NumberFormat.getInstance(locale)` starts with;
    - `isValidPattern`: whether `DecimalFormat.applyPattern` accepts a pattern
      (otherwise it throws `IllegalArgumentException`);
    - `parse`: `DecimalFormat.parse(text)` for a format holding the given pattern,
      locale and parse-integer-only flag; `None` is a `ParseException`.
  */
  datatype Platform<N> = Platform(
    frenchGroupingSeparator: char,
    defaultPattern: Locale -> string,
    isValidPattern: string -> bool,
    parse: (string, Locale, bool, string) -> Option<N>)

  /** `String.replace(char oldChar, char newChar)`: every occurrence of `oldChar` becomes `newChar`. */
  function Replace(s: string, oldChar: char, newChar: char): (r: string)
    ensures |r| == |s|
    ensures forall i :: 0 <= i < |s| ==> r[i] == if s[i] == oldChar then newChar else s[i]
    ensures oldChar != newChar ==> oldChar !in r
  {
    if s == [] then []
    else [if s[0] == oldChar then newChar else s[0]] + Replace(s[1..], oldChar, newChar)
  }

  /** Replacing a character that does not occur leaves the string as it was (by `Replace`'s contract). */
  lemma ReplaceAbsentChar(s: string, oldChar: char, newChar: char)
    requires oldChar !in s
    ensures Replace(s, oldChar, newChar) == s
  {
  }

  /**
    A `java.text.NumberFormat` as returned by `NumberFormat.getInstance(locale)`
    (a `DecimalFormat`): bound to its locale's symbols at creation, then
    reconfigured in place by `applyPattern` and `setParseIntegerOnly`.
  */
  class NumberFormat {
    const locale: Locale
    var pattern: string
    var parseIntegerOnly: bool

    /** `NumberFormat.getInstance(locale)`: the locale's default pattern, integer-only parsing off. */
    constructor GetInstance(locale: Locale, defaultPattern: string)
      ensures this.locale == locale
      ensures pattern == defaultPattern && !parseIntegerOnly
    {
      this.locale := locale;
      pattern := defaultPattern;
      parseIntegerOnly := false;
    }

    /**
      `DecimalFormat.applyPattern(p)`. `ok` is false where the JDK throws
      `IllegalArgumentException`; the format is then left as it was.
    */
    method ApplyPattern(p: string, isValidPattern: string -> bool) returns (ok: bool)
      modifies this
      ensures ok == isValidPattern(p)
      ensures pattern == if ok then p else old(pattern)
      ensures parseIntegerOnly == old(parseIntegerOnly)
    {
      ok := isValidPattern(p);
      if ok {
        pattern := p;
      }
    }

    /** `NumberFormat.setParseIntegerOnly(value)`. */
    method SetParseIntegerOnly(value: bool)
      modifies this
      ensures parseIntegerOnly == value
      ensures pattern == old(pattern)
    {
      parseIntegerOnly := value;
    }

    /** `NumberFormat.parse(text)` under the current configuration; `None` stands for `ParseException`. */
    method Parse<N>(text: string, parse: (string, Locale, bool, string) -> Option<N>) returns (r: Option<N>)
      ensures r == parse(pattern, locale, parseIntegerOnly, text)
    {
      r := parse(pattern, locale, parseIntegerOnly, text);
    }
  }
}
