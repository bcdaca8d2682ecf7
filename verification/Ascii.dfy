/** Letters and their case, by character codes. */
module Ascii {

  /** The same character, or the same letter of the alphabet in its two cases: 'A' to 'Z' are 65 to 90. */
  predicate SameLetter(c: char, d: char) {
    var m, n := c as int, d as int;
    m == n || (65 <= m <= 90 && n == m + 32) || (65 <= n <= 90 && m == n + 32)
  }

  predicate SameLetters(s: string, t: string) {
    |s| == |t| && forall i | 0 <= i < |s| :: SameLetter(s[i], t[i])
  }
}
