/** Character classes used by the protocol pattern and by the normaliser.
    Python's `str` regular expressions are Unicode-aware; this model gives
    every class its ASCII meaning (what `re.ASCII` would select), so
    non-ASCII digits, letters and spaces are not members here. Python's
    default `\s` also matches the ASCII separators U+001C to U+001F, which
    this model does not treat as whitespace. */
module Chars {

  /** `\d` */
  predicate IsDigit(c: char) { '0' <= c <= '9' }

  /** `[A-Z]` */
  predicate IsUpper(c: char) { 'A' <= c <= 'Z' }

  predicate IsLower(c: char) { 'a' <= c <= 'z' }

  /** `\s`: space, tab, line feed, vertical tab, form feed, carriage return */
  predicate IsSpace(c: char) { c == ' ' || '\t' <= c <= '\r' }

  /** `\w`: letters, digits and the underscore; `\W` is its complement */
  predicate IsWord(c: char) { IsDigit(c) || IsUpper(c) || IsLower(c) || c == '_' }

  predicate AllDigits(s: string) { forall k | 0 <= k < |s| :: IsDigit(s[k]) }

  predicate AllWord(s: string) { forall k | 0 <= k < |s| :: IsWord(s[k]) }
}
