/** The few Python `str` methods the program relies on, over `seq<char>`. */
module Strings {

  /** Python's `str.isspace` for one character: the characters `str.strip()` removes. */
  predicate IsSpace(c: char) {
    || ('\t' <= c <= '\r')
    || ('\U{1C}' <= c <= ' ')
    || c == '\U{85}' || c == '\U{A0}' || c == '\U{1680}'
    || ('\U{2000}' <= c <= '\U{200A}')
    || c == '\U{2028}' || c == '\U{2029}' || c == '\U{202F}' || c == '\U{205F}' || c == '\U{3000}'
  }

  predicate AllSpace(s: string) {
    forall i :: 0 <= i < |s| ==> IsSpace(s[i])
  }

  /** `r` is the slice of `s` from `i` that has only blanks before and after it. */
  predicate StrippedAt(s: string, r: string, i: int) {
    0 <= i <= |s| - |r| && r == s[i..i + |r|] && AllSpace(s[..i]) && AllSpace(s[i + |r|..])
  }

  /**
   * Python's `str.strip()`: the slice of `s` left after removing leading and
   * trailing whitespace, one blank at a time from either end.
   */
  function Strip(s: string): (r: string)
    ensures exists i :: StrippedAt(s, r, i)
    ensures r != [] ==> !IsSpace(r[0]) && !IsSpace(r[|r| - 1])
    ensures r == [] <==> AllSpace(s)
    decreases |s|
  {
    if s != [] && IsSpace(s[0]) then
      var r := Strip(s[1..]);
      LeadingBlank(s, s[1..], r);
      r
    else if s != [] && IsSpace(s[|s| - 1]) then
      var r := Strip(s[..|s| - 1]);
      TrailingBlank(s, s[..|s| - 1], r);
      r
    else
      assert StrippedAt(s, s, 0);
      s
  }

  /** A slice stripped from `t`, which is `s` without its leading blank, is stripped from `s` too. */
  lemma LeadingBlank(s: string, t: string, r: string)
    requires s != [] && IsSpace(s[0]) && t == s[1..]
    requires exists i :: StrippedAt(t, r, i)
    ensures exists i :: StrippedAt(s, r, i)
    ensures AllSpace(t) <==> AllSpace(s)
  {
    var i :| StrippedAt(t, r, i);
    assert forall k :: 0 <= k < |t| ==> s[k + 1] == t[k];
    assert s[..i + 1] == [s[0]] + t[..i];
    assert s[i + 1..i + 1 + |r|] == t[i..i + |r|];
    assert s[i + 1 + |r|..] == t[i + |r|..];
    assert StrippedAt(s, r, i + 1);
  }

  /** A slice stripped from `t`, which is `s` without its trailing blank, is stripped from `s` too. */
  lemma TrailingBlank(s: string, t: string, r: string)
    requires s != [] && IsSpace(s[|s| - 1]) && t == s[..|s| - 1]
    requires exists i :: StrippedAt(t, r, i)
    ensures exists i :: StrippedAt(s, r, i)
    ensures AllSpace(t) <==> AllSpace(s)
  {
    var i :| StrippedAt(t, r, i);
    assert s[..i] == t[..i];
    assert s[i..i + |r|] == t[i..i + |r|];
    assert s[i + |r|..] == t[i + |r|..] + [s[|s| - 1]];
    assert StrippedAt(s, r, i);
    assert forall k :: 0 <= k < |t| ==> s[k] == t[k];
  }

  /** ASCII case folding of one character. */
  function LowerChar(c: char): char {
    if 'A' <= c <= 'Z' then (c as int + 32) as char else c
  }

  /** Python's `str.lower()` restricted to ASCII letters. */
  function Lower(s: string): (r: string)
    ensures |r| == |s|
    ensures forall i :: 0 <= i < |s| ==> r[i] == LowerChar(s[i])
  {
    seq(|s|, i requires 0 <= i < |s| => LowerChar(s[i]))
  }

  lemma LowerConcat(a: string, b: string)
    ensures Lower(a + b) == Lower(a) + Lower(b)
  {
  }

  lemma LowerIdempotent(s: string)
    ensures Lower(Lower(s)) == Lower(s)
  {
  }

  /** Python's `s.endswith(suffix)`; every string ends with the empty string. */
  predicate EndsWith(s: string, suffix: string) {
    |suffix| <= |s| && s[|s| - |suffix|..] == suffix
  }

  predicate StartsWith(s: string, prefix: string) {
    |prefix| <= |s| && s[..|prefix|] == prefix
  }

  /** Python's `sep.join(parts)`. */
  function Join(parts: seq<string>, sep: string): string
  {
    if |parts| == 0 then ""
    else if |parts| == 1 then parts[0]
    else parts[0] + sep + Join(parts[1..], sep)
  }
}
