/** The few java.lang.String / java.lang.Character operations the core relies
    on, over Dafny strings (sequences of Unicode scalar values). */
module JavaText {

  /** `String.trim()` strips every leading and trailing code point up to U+0020. */
  predicate IsTrimmable(c: char) {
    c <= ' '
  }

  function DropLeading(s: string): (r: string)
    ensures |r| <= |s| && r == s[|s| - |r|..]
    ensures forall k :: 0 <= k < |s| - |r| ==> IsTrimmable(s[k])
    ensures |r| > 0 ==> !IsTrimmable(r[0])
  {
    if |s| > 0 && IsTrimmable(s[0]) then DropLeading(s[1..]) else s
  }

  function DropTrailing(s: string): (r: string)
    ensures |r| <= |s| && r == s[..|r|]
    ensures forall k :: |r| <= k < |s| ==> IsTrimmable(s[k])
    ensures |r| > 0 ==> !IsTrimmable(r[|r| - 1])
  {
    if |s| > 0 && IsTrimmable(s[|s| - 1]) then DropTrailing(s[..|s| - 1]) else s
  }

  /** `String.trim()`: the longest infix that neither starts nor ends with a
      trimmable code point, everything cut off around it being trimmable. */
  function Trim(s: string): (r: string)
    ensures var a := |s| - |DropLeading(s)|;
      && a + |r| <= |s| && r == s[a..a + |r|]
      && (forall k :: 0 <= k < a ==> IsTrimmable(s[k]))
      && (forall k :: a + |r| <= k < |s| ==> IsTrimmable(s[k]))
    ensures IsTrimmed(r)
  {
    var t := DropLeading(s);
    var r := DropTrailing(t);
    TrimmedInfix(s, t, r);
    r
  }

  /** Where the trimmed string sits in s, and that neither of its ends is
      trimmable. */
  lemma {:induction false} TrimmedInfix(s: string, t: string, r: string)
    requires t == DropLeading(s) && r == DropTrailing(t)
    ensures var a := |s| - |t|;
      && a + |r| <= |s| && r == s[a..a + |r|]
      && (forall k :: 0 <= k < a ==> IsTrimmable(s[k]))
      && (forall k :: a + |r| <= k < |s| ==> IsTrimmable(s[k]))
    ensures IsTrimmed(r)
  {
    var a := |s| - |t|;
    assert t == s[a..];
    assert r == t[..|r|];
    assert s[a..a + |r|] == t[..|r|];
    forall k | a + |r| <= k < |s|
      ensures IsTrimmable(s[k])
    {
      assert s[k] == t[k - a];
    }
    if |r| > 0 {
      assert r[0] == t[0];
    }
  }

  /** Neither end is trimmable: the strings `trim` returns unchanged. */
  predicate IsTrimmed(s: string) {
    |s| > 0 ==> !IsTrimmable(s[0]) && !IsTrimmable(s[|s| - 1])
  }

  lemma TrimClean(s: string)
    requires IsTrimmed(s)
    ensures Trim(s) == s
  {
  }

  lemma TrimIdempotent(s: string)
    ensures Trim(Trim(s)) == Trim(s)
  {
    TrimClean(Trim(s));
  }

  /** `Character.isWhitespace`: the Unicode space, line and paragraph
      separators other than the no-break spaces U+00A0, U+2007 and U+202F,
      plus U+0009..U+000D and U+001C..U+001F. */
  predicate IsWhitespace(c: char) {
    || ('\t' <= c <= '\r')
    || ('\U{1C}' <= c <= ' ')
    || c == '\U{1680}'
    || ('\U{2000}' <= c <= '\U{2006}')
    || ('\U{2008}' <= c <= '\U{200A}')
    || c == '\U{2028}' || c == '\U{2029}'
    || c == '\U{205F}' || c == '\U{3000}'
  }

  /** `String.isBlank()`: empty, or white space only. */
  predicate IsBlank(s: string) {
    forall k :: 0 <= k < |s| ==> IsWhitespace(s[k])
  }

  /** The regular-expression class `\s`: `[ \t\n\x0B\f\r]`. */
  predicate IsRegexSpace(c: char) {
    c == ' ' || ('\t' <= c <= '\r')
  }

  predicate IsAsciiLetter(c: char) {
    ('a' <= c <= 'z') || ('A' <= c <= 'Z')
  }

  /** Lower-casing restricted to ASCII; the only use (the first character of
      a gender answer compared with 'm' and 'f') is not affected by the other
      Unicode case mappings, none of which yields 'm' or 'f'. */
  function AsciiLower(c: char): (r: char)
    ensures IsAsciiLetter(c) ==> 'a' <= r <= 'z'
    ensures !('A' <= c <= 'Z') ==> r == c
  {
    if 'A' <= c <= 'Z' then (c as int - 'A' as int + 'a' as int) as char else c
  }

  /** A code point outside the Basic Multilingual Plane takes two UTF-16
      units. */
  predicate IsSupplementary(c: char) {
    c as int >= 0x1_0000
  }

  /** `String.length()`: the number of UTF-16 code units. */
  function Utf16Length(s: string): (n: nat)
    ensures n >= |s|
    ensures n == |s| <==> forall k :: 0 <= k < |s| ==> !IsSupplementary(s[k])
  {
    if |s| == 0 then 0
    else
      var p := s[..|s| - 1];
      assert forall k :: 0 <= k < |p| ==> p[k] == s[k];
      Utf16Length(p) + if IsSupplementary(s[|s| - 1]) then 2 else 1
  }

  predicate StartsWith(s: string, prefix: string) {
    |prefix| <= |s| && s[..|prefix|] == prefix
  }
}
