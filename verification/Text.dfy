/** String operations the program takes from Go's strings package. */
module Text {
  /** What is used of unicode.ToLower: it is stable, on ASCII it only changes A to Z, and nothing
      but itself becomes an ASCII character that is not a letter. */
  ghost predicate LowerCase(lower: char -> char) {
    forall c :: LowersOne(lower, c)
  }

  predicate LowersOne(lower: char -> char, c: char) {
    var l := lower(c);
    && lower(l) == l
    && ('A' <= c <= 'Z' ==> l == (c as int + 32) as char)
    && (c as int < 128 && !('A' <= c <= 'Z') ==> l == c)
    && (l as int < 128 && !('a' <= l <= 'z') ==> l == c)
  }

  function ToLower(lower: char -> char, s: string): (r: string)
    ensures |r| == |s| && forall i :: 0 <= i < |s| ==> r[i] == lower(s[i])
  {
    seq(|s|, i requires 0 <= i < |s| => lower(s[i]))
  }

  predicate OccursAt(s: string, t: string, i: nat) {
    i + |t| <= |s| && s[i..i + |t|] == t
  }

  predicate Contains(s: string, t: string) {
    exists i :: 0 <= i <= |s| && OccursAt(s, t, i)
  }
}
