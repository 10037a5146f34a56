/**
 * Character classes used by the response parser: the whitespace set of
 * ECMAScript (`\s` in a regular expression and the set `String.prototype.trim`
 * removes are the same set), the line terminators that `.` does not match,
 * and the ASCII case mapping.
 */
module Chars {

  /** ECMAScript LineTerminator: LF, CR, LINE SEPARATOR, PARAGRAPH SEPARATOR. */
  predicate IsLineTerminator(c: char) {
    c == '\n' || c == '\r' || c == '\U{2028}' || c == '\U{2029}'
  }

  /**
   * ECMAScript WhiteSpace (TAB, VT, FF, ZWNBSP and the Zs category) plus
   * LineTerminator. Below U+0080 these are SPACE and TAB, LF, VT, FF, CR;
   * no letter, digit, asterisk or colon is whitespace.
   */
  predicate IsSpace(c: char)
    ensures c == ' ' || c == '\t' || c == '\n' || c == '\r' ==> IsSpace(c)
    ensures IsAsciiLower(c) || IsAsciiUpper(c) || IsDigit(c) || c == '*' || c == ':' ==> !IsSpace(c)
  {
    if c < '\U{0080}' then
      c == ' ' || ('\t' <= c <= '\r')
    else
      || c == '\U{00A0}' || c == '\U{1680}'
      || ('\U{2000}' <= c <= '\U{200A}')
      || c == '\U{2028}' || c == '\U{2029}'
      || c == '\U{202F}' || c == '\U{205F}' || c == '\U{3000}' || c == '\U{FEFF}'
  }

  /** Every line terminator is whitespace. */
  lemma LineTerminatorIsSpace(c: char)
    ensures IsLineTerminator(c) ==> IsSpace(c)
  {
  }

  predicate IsDigit(c: char) {
    '0' <= c <= '9'
  }

  predicate IsAsciiLower(c: char) {
    'a' <= c <= 'z'
  }

  predicate IsAsciiUpper(c: char) {
    'A' <= c <= 'Z'
  }

  /** Upper-cases an ASCII letter and leaves every other character alone. */
  function ToUpper(c: char): (u: char)
    ensures IsAsciiLower(c) ==> IsAsciiUpper(u) && u as int == c as int - 32
    ensures !IsAsciiLower(c) ==> u == c
    ensures IsSpace(u) <==> IsSpace(c)
  {
    if IsAsciiLower(c) then (c as int - 32) as char else c
  }

  /** Lower-cases an ASCII letter and leaves every other character alone. */
  function ToLower(c: char): (l: char)
    ensures IsAsciiUpper(c) ==> IsAsciiLower(l) && l as int == c as int + 32
    ensures !IsAsciiUpper(c) ==> l == c
    ensures IsSpace(l) <==> IsSpace(c)
  {
    if IsAsciiUpper(c) then (c as int + 32) as char else c
  }

  /**
   * Two characters match under the regular-expression flag `i` (without `u`).
   * Canonicalisation upper-cases a character but never maps a non-ASCII
   * character onto an ASCII one, so against an ASCII pattern character this
   * is exactly ASCII case folding.
   */
  predicate SameIgnoringCase(c: char, d: char)
    ensures SameIgnoringCase(c, d) <==> d == ToUpper(c) || d == ToLower(c)
  {
    ToUpper(c) == ToUpper(d)
  }
}
