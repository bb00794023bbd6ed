/** Character-level helpers shared by URL validation and tokenizing.
    Python's `c.isalnum() and c.isascii()` holds exactly for the 62 ASCII
    letters and digits, and `str.lower()` on those characters maps `A`..`Z`
    to `a`..`z` and leaves everything else alone. */
module Text {

  /** `c.isalnum() and c.isascii()`: in code points, the digits 48..57 and
      the letters 65..90 and 97..122, all below 128. */
  predicate IsAsciiAlnum(c: char): (r: bool)
    ensures r ==> c as int < 128
    ensures r <==> (48 <= c as int <= 57) || (65 <= c as int <= 90) || (97 <= c as int <= 122)
  {
    ('0' <= c <= '9') || ('a' <= c <= 'z') || ('A' <= c <= 'Z')
  }

  /** A character that can appear in a normalized token. */
  predicate IsLowerAlnum(c: char) {
    ('0' <= c <= '9') || ('a' <= c <= 'z')
  }

  /** `c.lower()` restricted to ASCII upper-case letters. */
  function LowerChar(c: char): (r: char)
    ensures IsAsciiAlnum(c) ==> IsLowerAlnum(r)
    ensures IsAsciiAlnum(c) <==> IsAsciiAlnum(r)
    ensures IsLowerAlnum(c) ==> r == c
    ensures 'A' <= c <= 'Z' ==> r as int == c as int + 32
    ensures !('A' <= c <= 'Z') ==> r == c
  {
    if 'A' <= c <= 'Z' then (c as int + 32) as char else c
  }

  /** `s.lower()`, character by character: the same length, no upper-case
      ASCII letter left, the same letters and digits, and every character
      that is not an upper-case ASCII letter kept as it is. */
  function Lower(s: string): (r: string)
    ensures |r| == |s|
    ensures forall i :: 0 <= i < |r| ==> !('A' <= r[i] <= 'Z')
    ensures forall i :: 0 <= i < |s| ==> (IsAsciiAlnum(s[i]) <==> IsAsciiAlnum(r[i]))
    ensures forall i :: 0 <= i < |s| && !('A' <= s[i] <= 'Z') ==> r[i] == s[i]
  {
    seq(|s|, i requires 0 <= i < |s| => LowerChar(s[i]))
  }

  predicate EndsWith(s: string, suffix: string) {
    |suffix| <= |s| && s[|s| - |suffix|..] == suffix
  }

  /** Lower-casing twice is lower-casing once. */
  lemma LowerIdempotent(s: string)
    ensures Lower(Lower(s)) == Lower(s)
  {
  }
}
