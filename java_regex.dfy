/**
 * The fragment of `java.util.regex` that the log filter's pattern uses:
 * `.`, single-character literals, concatenation and `*`, with the
 * CASE_INSENSITIVE flag `(?i)` and the DOTALL flag `(?s)`, under the
 * whole-string semantics of `String.matches`.
 *
 * Without UNICODE_CASE, Java's case-insensitive matching folds US-ASCII
 * letters only, which is what `LiteralMatches` does. Without DOTALL, `.`
 * matches every character except the line terminators.
 */
module JavaRegex {
  import opened Text

  datatype Regex =
    | AnyChar                                // .
    | Literal(c: char)                       // c, or \c for a metacharacter
    | Concat(first: Regex, second: Regex)    // first second
    | Repeat(body: Regex)                    // body*

  datatype Flags = Flags(caseInsensitive: bool, dotAll: bool)

  /** The line terminators of `java.util.regex.Pattern` when UNIX_LINES is off. */
  predicate IsLineTerminator(c: char) {
    c == '\n' || c == '\r' || c == '\U{0085}' || c == '\U{2028}' || c == '\U{2029}'
  }

  predicate DotMatches(c: char, flags: Flags) {
    flags.dotAll || !IsLineTerminator(c)
  }

  /** Every character of `s` is one that `.` matches. */
  predicate AllDotMatch(s: string, flags: Flags) {
    forall i :: 0 <= i < |s| ==> DotMatches(s[i], flags)
  }

  predicate LiteralMatches(p: char, c: char, flags: Flags) {
    c == p || (flags.caseInsensitive && ToLowerAscii(c) == ToLowerAscii(p))
  }

  /** `r` matches the whole of `s`. */
  ghost predicate FullMatch(r: Regex, s: string, flags: Flags)
    decreases r, |s|
  {
    match r
    case AnyChar => |s| == 1 && DotMatches(s[0], flags)
    case Literal(p) => |s| == 1 && LiteralMatches(p, s[0], flags)
    case Concat(a, b) =>
      exists k :: 0 <= k <= |s| && FullMatch(a, s[..k], flags) && FullMatch(b, s[k..], flags)
    case Repeat(a) =>
      s == [] || exists k :: 0 < k <= |s| && FullMatch(a, s[..k], flags) && FullMatch(r, s[k..], flags)
  }

  /** `.*` matches exactly the strings made of characters `.` matches. */
  lemma {:induction false} RepeatAnyChar(s: string, flags: Flags)
    ensures FullMatch(Repeat(AnyChar), s, flags) <==> AllDotMatch(s, flags)
    decreases |s|
  {
    if s != [] {
      RepeatAnyChar(s[1..], flags);
      if FullMatch(Repeat(AnyChar), s, flags) {
        var k :| 0 < k <= |s| && FullMatch(AnyChar, s[..k], flags) && FullMatch(Repeat(AnyChar), s[k..], flags);
        assert k == 1;
        forall i | 0 <= i < |s| ensures DotMatches(s[i], flags) {
          if i > 0 { assert s[i] == s[1..][i - 1]; }
        }
      }
      if AllDotMatch(s, flags) {
        assert AllDotMatch(s[1..], flags) by {
          forall i | 0 <= i < |s[1..]| ensures DotMatches(s[1..][i], flags) {
            assert s[1..][i] == s[i + 1];
          }
        }
        assert FullMatch(AnyChar, s[..1], flags);
        assert FullMatch(Repeat(AnyChar), s[1..], flags);
      }
    }
  }

  /** A literal that is not a letter matches only itself, with or without `(?i)`. */
  lemma ConcatLiteral(p: char, r: Regex, t: string, flags: Flags)
    requires !IsAsciiLetter(p)
    ensures FullMatch(Concat(Literal(p), r), t, flags) <==> |t| >= 1 && t[0] == p && FullMatch(r, t[1..], flags)
  {
    if FullMatch(Concat(Literal(p), r), t, flags) {
      var k :| 0 <= k <= |t| && FullMatch(Literal(p), t[..k], flags) && FullMatch(r, t[k..], flags);
      assert k == 1 && LiteralMatches(p, t[0], flags);
    }
    if |t| >= 1 && t[0] == p && FullMatch(r, t[1..], flags) {
      assert FullMatch(Literal(p), t[..1], flags);
    }
  }

  /** `.*` followed by `r` matches when some prefix is made of `.`-characters and `r` matches the rest. */
  lemma ConcatAnyPrefix(r: Regex, t: string, flags: Flags)
    ensures FullMatch(Concat(Repeat(AnyChar), r), t, flags) <==>
      exists k :: 0 <= k <= |t| && AllDotMatch(t[..k], flags) && FullMatch(r, t[k..], flags)
  {
    if FullMatch(Concat(Repeat(AnyChar), r), t, flags) {
      var k :| 0 <= k <= |t| && FullMatch(Repeat(AnyChar), t[..k], flags) && FullMatch(r, t[k..], flags);
      RepeatAnyChar(t[..k], flags);
    }
    if exists k :: 0 <= k <= |t| && AllDotMatch(t[..k], flags) && FullMatch(r, t[k..], flags) {
      var k :| 0 <= k <= |t| && AllDotMatch(t[..k], flags) && FullMatch(r, t[k..], flags);
      RepeatAnyChar(t[..k], flags);
      assert FullMatch(Repeat(AnyChar), t[..k], flags);
    }
  }

  /** A concatenation is made of `.`-characters exactly when both parts are. */
  lemma AllDotConcat(a: string, b: string, flags: Flags)
    ensures AllDotMatch(a + b, flags) <==> AllDotMatch(a, flags) && AllDotMatch(b, flags)
  {
    if AllDotMatch(a + b, flags) {
      forall i | 0 <= i < |a| ensures DotMatches(a[i], flags) { assert a[i] == (a + b)[i]; }
      forall i | 0 <= i < |b| ensures DotMatches(b[i], flags) { assert b[i] == (a + b)[|a| + i]; }
    }
  }

  /** A string is made of `.`-characters exactly when the parts around one of its characters are and that character is. */
  lemma AllDotAround(t: string, k: int, flags: Flags)
    requires 0 <= k < |t|
    ensures AllDotMatch(t, flags) <==>
      AllDotMatch(t[..k], flags) && DotMatches(t[k], flags) && AllDotMatch(t[k + 1..], flags)
  {
    assert t == t[..k] + [t[k]] + t[k + 1..];
    AllDotConcat(t[..k], [t[k]], flags);
    AllDotConcat(t[..k] + [t[k]], t[k + 1..], flags);
  }

  /** `p.*` matched against the suffix of `t` that starts at `k`. */
  lemma LiteralThenDotsAt(p: char, t: string, k: int, flags: Flags)
    requires !IsAsciiLetter(p) && 0 <= k <= |t|
    ensures FullMatch(Concat(Literal(p), Repeat(AnyChar)), t[k..], flags) <==>
      k < |t| && t[k] == p && AllDotMatch(t[k + 1..], flags)
  {
    ConcatLiteral(p, Repeat(AnyChar), t[k..], flags);
    if k < |t| {
      assert t[k..][1..] == t[k + 1..];
      RepeatAnyChar(t[k + 1..], flags);
    }
  }

  lemma DotsAroundLiteralOnly(p: char, t: string, flags: Flags)
    requires !IsAsciiLetter(p) && !IsLineTerminator(p)
    requires FullMatch(Concat(Repeat(AnyChar), Concat(Literal(p), Repeat(AnyChar))), t, flags)
    ensures AllDotMatch(t, flags) && exists j :: 0 <= j < |t| && t[j] == p
  {
    var tail := Concat(Literal(p), Repeat(AnyChar));
    ConcatAnyPrefix(tail, t, flags);
    var k :| 0 <= k <= |t| && AllDotMatch(t[..k], flags) && FullMatch(tail, t[k..], flags);
    LiteralThenDotsAt(p, t, k, flags);
    AllDotAround(t, k, flags);
  }

  lemma DotsAroundLiteralAll(p: char, t: string, j: int, flags: Flags)
    requires !IsAsciiLetter(p) && !IsLineTerminator(p)
    requires AllDotMatch(t, flags) && 0 <= j < |t| && t[j] == p
    ensures FullMatch(Concat(Repeat(AnyChar), Concat(Literal(p), Repeat(AnyChar))), t, flags)
  {
    var tail := Concat(Literal(p), Repeat(AnyChar));
    AllDotAround(t, j, flags);
    LiteralThenDotsAt(p, t, j, flags);
    ConcatAnyPrefix(tail, t, flags);
    assert AllDotMatch(t[..j], flags) && FullMatch(tail, t[j..], flags);
  }

  /** `.*p.*` matches exactly the `.`-strings that contain `p`, for a non-letter `p` that `.` matches. */
  lemma DotsAroundLiteral(p: char, t: string, flags: Flags)
    requires !IsAsciiLetter(p) && !IsLineTerminator(p)
    ensures FullMatch(Concat(Repeat(AnyChar), Concat(Literal(p), Repeat(AnyChar))), t, flags) <==>
      AllDotMatch(t, flags) && exists j :: 0 <= j < |t| && t[j] == p
  {
    if FullMatch(Concat(Repeat(AnyChar), Concat(Literal(p), Repeat(AnyChar))), t, flags) {
      DotsAroundLiteralOnly(p, t, flags);
    }
    if AllDotMatch(t, flags) && exists j :: 0 <= j < |t| && t[j] == p {
      var j :| 0 <= j < |t| && t[j] == p;
      DotsAroundLiteralAll(p, t, j, flags);
    }
  }
}
