/** Character classes and string operations the application relies on:
    Python's str.strip() and str.lower(), and the regular-expression classes
    \w and \d. */
module Text {

  /** The characters Python's str.strip() removes (str.isspace). */
  predicate IsSpace(c: char)
  {
    || ('\t' <= c <= '\r')
    || ('\U{1C}' <= c <= ' ')
    || c == '\U{85}' || c == '\U{A0}' || c == '\U{1680}'
    || ('\U{2000}' <= c <= '\U{200A}')
    || c == '\U{2028}' || c == '\U{2029}' || c == '\U{202F}' || c == '\U{205F}'
    || c == '\U{3000}'
  }

  /** The regular-expression class \w, restricted to ASCII. */
  predicate IsWordChar(c: char)
  {
    ('a' <= c <= 'z') || ('A' <= c <= 'Z') || ('0' <= c <= '9') || c == '_'
  }

  /** The regular-expression class \d, restricted to ASCII. */
  predicate IsDigitChar(c: char)
  {
    '0' <= c <= '9'
  }

  /** A non-empty run of \w characters: what the group (\w+) captures. */
  predicate IsWord(s: string)
  {
    |s| > 0 && forall k :: 0 <= k < |s| ==> IsWordChar(s[k])
  }

  /** A non-empty run of \d characters: what the group (\d+) captures. */
  predicate IsDigits(s: string)
  {
    |s| > 0 && forall k :: 0 <= k < |s| ==> IsDigitChar(s[k])
  }

  /** Drops leading whitespace. */
  function TrimStart(s: string): (r: string)
  {
    if s != [] && IsSpace(s[0]) then TrimStart(s[1..]) else s
  }

  /** Drops trailing whitespace. */
  function TrimEnd(s: string): (r: string)
  {
    if s != [] && IsSpace(s[|s| - 1]) then TrimEnd(s[..|s| - 1]) else s
  }

  /** Python's str.strip() with no argument. */
  function Strip(s: string): (r: string)
  {
    TrimEnd(TrimStart(s))
  }

  /** TrimStart removes exactly the leading whitespace: it leaves a suffix
      that is empty or starts with a non-space, after only spaces. */
  lemma {:induction false} TrimStartSpec(s: string)
    ensures |TrimStart(s)| <= |s| && TrimStart(s) == s[|s| - |TrimStart(s)|..]
    ensures forall k :: 0 <= k < |s| - |TrimStart(s)| ==> IsSpace(s[k])
    ensures TrimStart(s) == [] || !IsSpace(TrimStart(s)[0])
  {
    if s != [] && IsSpace(s[0]) {
      var t, r := s[1..], TrimStart(s);
      TrimStartSpec(t);
      assert r == TrimStart(t);
      assert t[|t| - |r|..] == s[|s| - |r|..];
      forall k | 0 <= k < |s| - |r| ensures IsSpace(s[k]) {
        if k > 0 { assert s[k] == t[k - 1]; }
      }
    }
  }

  /** TrimEnd removes exactly the trailing whitespace: it leaves a prefix
      that is empty or ends with a non-space, before only spaces. */
  lemma {:induction false} TrimEndSpec(s: string)
    ensures |TrimEnd(s)| <= |s| && TrimEnd(s) == s[..|TrimEnd(s)|]
    ensures forall k :: |TrimEnd(s)| <= k < |s| ==> IsSpace(s[k])
    ensures TrimEnd(s) == [] || !IsSpace(TrimEnd(s)[|TrimEnd(s)| - 1])
  {
    if s != [] && IsSpace(s[|s| - 1]) {
      var t, r := s[..|s| - 1], TrimEnd(s);
      TrimEndSpec(t);
      assert r == TrimEnd(t);
      assert t[..|r|] == s[..|r|];
      forall k | |r| <= k < |s| ensures IsSpace(s[k]) {
        if k < |s| - 1 { assert s[k] == t[k]; }
      }
    }
  }

  /** strip() yields the text between the first and the last non-space
      character: the slice starting after the leading spaces, followed in s
      by spaces only; it is empty exactly when every character is a space. */
  lemma StripSpec(s: string)
    ensures Strip(s) == [] <==> forall k :: 0 <= k < |s| ==> IsSpace(s[k])
    ensures Strip(s) != [] ==> !IsSpace(Strip(s)[0]) && !IsSpace(Strip(s)[|Strip(s)| - 1])
    ensures |TrimStart(s)| <= |s|
    ensures var i := |s| - |TrimStart(s)|; i + |Strip(s)| <= |s| && Strip(s) == s[i..i + |Strip(s)|]
    ensures var i := |s| - |TrimStart(s)|; forall k :: i + |Strip(s)| <= k < |s| ==> IsSpace(s[k])
  {
    var t := TrimStart(s);
    TrimStartSpec(s);
    TrimEndSpec(t);
    var i := |s| - |t|;
    assert forall k :: i <= k < |s| ==> s[k] == t[k - i];
    assert Strip(s) == s[i..i + |Strip(s)|];
    forall k | i + |Strip(s)| <= k < |s| ensures IsSpace(s[k]) {
      assert s[k] == t[k - i];
    }
  }

  /** A form field left empty, as `not field.strip()` tests it. */
  predicate IsBlank(s: string)
  {
    Strip(s) == []
  }

  /** Python's str.lower() on one character, restricted to ASCII. */
  function LowerChar(c: char): (r: char)
  {
    if 'A' <= c <= 'Z' then (c as int - 'A' as int + 'a' as int) as char else c
  }

  /** Python's str.lower(), restricted to ASCII. */
  function Lower(s: string): (r: string)
    ensures |r| == |s|
  {
    seq(|s|, k requires 0 <= k < |s| => LowerChar(s[k]))
  }

  /** Lowering leaves digits alone, so a semester survives str.lower(). */
  lemma LowerDigits(s: string)
    requires IsDigits(s)
    ensures Lower(s) == s
  {
  }

  /** The length of the longest prefix of s whose characters all satisfy p. */
  function Run(s: string, p: char -> bool): (n: nat)
    ensures n <= |s|
    ensures forall k :: 0 <= k < n ==> p(s[k])
    ensures n < |s| ==> !p(s[n])
  {
    if s != [] && p(s[0]) then 1 + Run(s[1..], p) else 0
  }

  /** A run stops exactly at the first character outside the class. */
  lemma RunAt(s: string, p: char -> bool, n: nat)
    requires n < |s| && !p(s[n])
    requires forall k :: 0 <= k < n ==> p(s[k])
    ensures Run(s, p) == n
  {
  }
}
