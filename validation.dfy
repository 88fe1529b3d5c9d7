/**
 * The input rule that the "Add Task" button applies to the text typed into the
 * entry field: the text is rejected when `strip()` leaves nothing of it, or when
 * it does not match the regular expression `^[A-Za-z\s]+$`.
 *
 * Python uses one predicate, `str.isspace()`, both for what `strip()` removes
 * and for what `\s` matches in a `str` pattern, so one character set serves
 * both halves of the rule here.
 */
module Validation {

  /** The characters for which Python's `str.isspace()` holds. */
  predicate IsWhitespace(c: char)
  {
    || ('\t' <= c <= '\r')            // tab, line feed, vertical tab, form feed, carriage return
    || ('\U{1C}' <= c <= ' ')         // the four information separators, then space
    || c == '\U{85}' || c == '\U{A0}' || c == '\U{1680}'
    || ('\U{2000}' <= c <= '\U{200A}')
    || c == '\U{2028}' || c == '\U{2029}' || c == '\U{202F}' || c == '\U{205F}' || c == '\U{3000}'
  }

  /** `[A-Za-z]`: the pattern is compiled without IGNORECASE, so only ASCII letters. */
  predicate IsAsciiLetter(c: char)
  {
    ('A' <= c <= 'Z') || ('a' <= c <= 'z')
  }

  /** One character of the class `[A-Za-z\s]`. */
  predicate IsPatternChar(c: char)
  {
    IsAsciiLetter(c) || IsWhitespace(c)
  }

  /** `str.lstrip()`: drops the leading whitespace and keeps the rest as it is. */
  function TrimStart(s: string): (r: string)
    ensures |r| <= |s| && r == s[|s| - |r|..]
    ensures forall k :: 0 <= k < |s| - |r| ==> IsWhitespace(s[k])
    ensures r == [] || !IsWhitespace(r[0])
  {
    if s == [] || !IsWhitespace(s[0]) then s else TrimStart(s[1..])
  }

  /** `str.rstrip()`: drops the trailing whitespace and keeps the rest as it is. */
  function TrimEnd(s: string): (r: string)
    ensures |r| <= |s| && r == s[..|r|]
    ensures forall k :: |r| <= k < |s| ==> IsWhitespace(s[k])
    ensures r == [] || !IsWhitespace(r[|r| - 1])
  {
    if s == [] || !IsWhitespace(s[|s| - 1]) then s else TrimEnd(s[..|s| - 1])
  }

  /** `str.strip()` with no argument: it leaves nothing exactly when every character is whitespace. */
  function Strip(s: string): (r: string)
    ensures r == [] <==> forall k :: 0 <= k < |s| ==> IsWhitespace(s[k])
    ensures r == [] || (!IsWhitespace(r[0]) && !IsWhitespace(r[|r| - 1]))
  {
    TrimEnd(TrimStart(s))
  }

  /**
   * What `strip()` returns is the infix of the text left once the whitespace on
   * both sides is gone: it starts at offset `i`, and everything before and
   * after it is whitespace.
   */
  lemma StripInfix(s: string) returns (i: nat)
    ensures i + |Strip(s)| <= |s| && Strip(s) == s[i..i + |Strip(s)|]
    ensures forall k :: 0 <= k < i || i + |Strip(s)| <= k < |s| ==> IsWhitespace(s[k])
  {
    var t := TrimStart(s);
    var r := TrimEnd(t);
    i := |s| - |t|;
    PrefixOfSuffix(s, i, t, r);
    WhitespaceTailShifted(s, i, t, |r|);
    assert Strip(s) == r;
  }

  /** A prefix `r` of the suffix `s[i..]` is the infix of `s` that starts at `i`. */
  lemma PrefixOfSuffix(s: string, i: nat, t: string, r: string)
    requires i <= |s| && t == s[i..] && |r| <= |t| && r == t[..|r|]
    ensures i + |r| <= |s| && r == s[i..i + |r|]
  {
  }

  /** Whitespace at the end of the suffix `s[i..]` is whitespace at the matching positions of `s`. */
  lemma WhitespaceTailShifted(s: string, i: nat, t: string, n: nat)
    requires i <= |s| && t == s[i..] && n <= |t|
    requires forall k :: n <= k < |t| ==> IsWhitespace(t[k])
    ensures forall k :: i + n <= k < |s| ==> IsWhitespace(s[k])
  {
    forall k | i + n <= k < |s| ensures IsWhitespace(s[k]) {
      assert s[k] == t[k - i];
    }
  }

  /** `re.match("^[A-Za-z\s]+$", s)` succeeds: one or more characters, all from the class. */
  predicate MatchesTaskPattern(s: string)
  {
    |s| > 0 && forall k :: 0 <= k < |s| ==> IsPatternChar(s[k])
  }

  /** The negation of the rejection test `task.strip() == '' or not re.match(...)`. */
  predicate IsValidTask(s: string)
  {
    Strip(s) != "" && MatchesTaskPattern(s)
  }

  /**
   * The rule in terms of characters: a text is accepted exactly when all its
   * characters are ASCII letters or whitespace and at least one is a letter.
   * In particular an accepted text always holds a letter.
   */
  lemma ValidTaskIff(s: string)
    ensures IsValidTask(s) <==>
              (forall k :: 0 <= k < |s| ==> IsPatternChar(s[k]))
              && (exists k :: 0 <= k < |s| && IsAsciiLetter(s[k]))
  {
    if IsValidTask(s) {
      var k :| 0 <= k < |s| && !IsWhitespace(s[k]);
      assert IsAsciiLetter(s[k]);
    }
    if exists k :: 0 <= k < |s| && IsAsciiLetter(s[k]) {
      var k :| 0 <= k < |s| && IsAsciiLetter(s[k]);
      assert !IsWhitespace(s[k]);
    }
  }

  /** A single character that is neither an ASCII letter nor whitespace makes the text invalid. */
  lemma ForeignCharRejected(s: string, k: nat)
    requires k < |s| && !IsPatternChar(s[k])
    ensures !IsValidTask(s)
  {
  }

  /** The empty text, a blank text and a text with digits and punctuation are rejected. */
  lemma RejectedExamples()
    ensures !IsValidTask("")
    ensures !IsValidTask("  ")
    ensures !IsValidTask("Task123!")
  {
    ForeignCharRejected("Task123!", 4);
  }

  /** A text of ASCII letters and plain spaces that starts with a letter is accepted. */
  lemma LettersAndSpacesAccepted(s: string)
    requires |s| > 0 && IsAsciiLetter(s[0])
    requires forall k :: 0 <= k < |s| ==> IsAsciiLetter(s[k]) || s[k] == ' '
    ensures IsValidTask(s)
  {
    ValidTaskIff(s);
  }
}
