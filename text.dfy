/**
 * The few string primitives of Python and Java that the handlers rely on,
 * restricted to ASCII: `str.startswith`, `str.isalnum`, `String.contains`,
 * `String.toLowerCase`.
 */
module Text {

  predicate IsAsciiUpper(c: char) { 'A' <= c <= 'Z' }

  predicate IsAsciiLower(c: char) { 'a' <= c <= 'z' }

  predicate IsAsciiLetter(c: char) { IsAsciiUpper(c) || IsAsciiLower(c) }

  predicate IsAsciiDigit(c: char) { '0' <= c <= '9' }

  predicate IsAsciiAlnum(c: char) { IsAsciiLetter(c) || IsAsciiDigit(c) }

  /** Python's `str.isalnum`: at least one character, and every character alphanumeric. */
  predicate IsAlnum(s: string) {
    |s| > 0 && forall i :: 0 <= i < |s| ==> IsAsciiAlnum(s[i])
  }

  /** `str.startswith(prefix)`. */
  predicate StartsWith(s: string, prefix: string) {
    |prefix| <= |s| && s[..|prefix|] == prefix
  }

  /** `needle` occurs in `s` starting at index `i`. */
  predicate OccursAt(s: string, needle: string, i: int) {
    0 <= i && i + |needle| <= |s| && s[i..i + |needle|] == needle
  }

  /** `String.contains(needle)`: `needle` occurs somewhere in `s`. */
  predicate Contains(s: string, needle: string) {
    exists i :: 0 <= i <= |s| && OccursAt(s, needle, i)
  }

  /** Lower-casing of one character, ASCII letters only. */
  function ToLowerAscii(c: char): (d: char)
    // no capital letter is left, and letters stay letters
    ensures !IsAsciiUpper(d)
    ensures IsAsciiLetter(c) <==> IsAsciiLetter(d)
    // a character that is not a capital letter is kept
    ensures !IsAsciiUpper(c) ==> d == c
  {
    if IsAsciiUpper(c) then (c as int + 32) as char else c
  }

  /** `String.toLowerCase()` restricted to ASCII letters; every other character is kept. */
  function LowerAscii(s: string): (t: string)
    ensures |t| == |s|
    // no capital letter is left
    ensures forall i :: 0 <= i < |t| ==> !IsAsciiUpper(t[i])
  {
    seq(|s|, i requires 0 <= i < |s| => ToLowerAscii(s[i]))
  }

  /** A string without capital letters is its own lower-case form; so lower-casing twice changes nothing more. */
  lemma LowerAsciiKeepsLowerCase(s: string)
    ensures (forall i :: 0 <= i < |s| ==> !IsAsciiUpper(s[i])) ==> LowerAscii(s) == s
    ensures LowerAscii(LowerAscii(s)) == LowerAscii(s)
  {
  }
}
