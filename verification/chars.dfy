/** The small `Option` datatype used for "pattern did not match here". */
module Options {

  datatype Option<+T> = None | Some(value: T)
}

/**
 * Character classes of the three PCRE patterns in TwitterFeedBlock, stated
 * on Unicode characters. PCRE runs these patterns without the `u` flag, so
 * `\s`, `\w` and `\b` only recognise ASCII characters; a non-ASCII character
 * is never a space and never a word character.
 */
module Chars {

  /** PCRE `\s`: space, tab, line feed, vertical tab, form feed, carriage return. */
  predicate IsSpace(c: char) {
    c == ' ' || c == '\t' || c == '\n' || c == '\U{0B}' || c == '\U{0C}' || c == '\r'
  }

  predicate IsAsciiLetter(c: char) {
    ('a' <= c <= 'z') || ('A' <= c <= 'Z')
  }

  predicate IsDigit(c: char) {
    '0' <= c <= '9'
  }

  /** PCRE `\w`: `[A-Za-z0-9_]`. */
  predicate IsWord(c: char) {
    IsAsciiLetter(c) || IsDigit(c) || c == '_'
  }

  /** The umlauts that the hashtag pattern lists beside `a-zA-Z_`. */
  predicate IsUmlaut(c: char) {
    c == 'ü' || c == 'ö' || c == 'ä' || c == 'ß' || c == 'Ü' || c == 'Ä' || c == 'Ö'
  }

  /** ASCII lower-casing, which is all that the `(?i)` flag does to ASCII patterns. */
  function Lower(c: char): (r: char)
    ensures IsAsciiLetter(c) <==> IsAsciiLetter(r) && 'a' <= r
    ensures !IsAsciiLetter(c) ==> r == c
  {
    if 'A' <= c <= 'Z' then (c as int + 32) as char else c
  }

  /** PHP `strpos($s, $w) !== false`: the case-sensitive substring test. */
  predicate HasSubstring(s: string, w: string) {
    exists i | 0 <= i <= |s| :: OccursAt(s, w, i)
  }

  predicate OccursAt(s: string, w: string, i: int) {
    0 <= i <= |s| - |w| && s[i..i + |w|] == w
  }

  predicate NoSpace(s: string) {
    forall i :: 0 <= i < |s| ==> !IsSpace(s[i])
  }

  /** Length of the maximal run of characters in class `P` that starts at `j`. */
  function Run(P: char -> bool, s: string, j: nat): (n: nat)
    requires j <= |s|
    ensures j + n <= |s|
    ensures forall x :: j <= x < j + n ==> P(s[x])
    ensures j + n == |s| || !P(s[j + n])
    decreases |s| - j
  {
    if j < |s| && P(s[j]) then 1 + Run(P, s, j + 1) else 0
  }

  /** Any run of `P` characters that `P` cannot extend is the maximal one. */
  lemma {:induction false} RunIsMaximal(P: char -> bool, s: string, j: nat, n: nat)
    requires j + n <= |s|
    requires forall x :: j <= x < j + n ==> P(s[x])
    requires j + n == |s| || !P(s[j + n])
    ensures Run(P, s, j) == n
    decreases n
  {
    if n > 0 {
      RunIsMaximal(P, s, j + 1, n - 1);
    }
  }
}
