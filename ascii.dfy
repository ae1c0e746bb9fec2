/** The character classes and case mapping the Python programs use, on the
    ASCII letters. */
module Ascii {
  /** `str.isalpha` on ASCII characters. */
  predicate IsAlpha(c: char) {
    'A' <= c <= 'Z' || 'a' <= c <= 'z'
  }

  /** `str.upper` on one ASCII character. */
  function UpperChar(c: char): (u: char)
    ensures 'a' <= c <= 'z' ==> u as int == c as int - 32
    ensures !('a' <= c <= 'z') ==> u == c
  {
    if 'a' <= c <= 'z' then (c as int - 32) as char else c
  }

  /** `str.upper` on an ASCII string. */
  function Upper(s: string): (u: string)
    ensures |u| == |s|
    ensures forall i :: 0 <= i < |s| ==> u[i] == UpperChar(s[i])
  {
    seq(|s|, i requires 0 <= i < |s| => UpperChar(s[i]))
  }

  /** Upper-casing a string with one more character at the end. */
  lemma UpperSnoc(s: string, c: char)
    ensures Upper(s + [c]) == Upper(s) + [UpperChar(c)]
  {
    assert forall i :: 0 <= i < |s| ==> (s + [c])[i] == s[i];
  }
}
