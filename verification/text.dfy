/** Character-level helpers shared by the date resolver, the card extractor
    and the search filter: ASCII case folding, substring containment and
    Python's `str.strip()`. */
module Text {

  predicate IsAsciiUpper(c: char) {
    'A' <= c <= 'Z'
  }

  /** Lower-cases one character; only the ASCII letters are affected. */
  function LowerChar(c: char): char {
    if IsAsciiUpper(c) then (c as int + 32) as char else c
  }

  /** ASCII lower-casing of a whole string, character by character. */
  function Lower(s: string): string {
    seq(|s|, i requires 0 <= i < |s| => LowerChar(s[i]))
  }

  /** `p` occurs in `s` as a contiguous piece (Python's `p in s`). */
  predicate Contains(s: string, p: string) {
    exists i | 0 <= i <= |s| - |p| :: OccursAt(s, p, i)
  }

  /** `p` occurs in `s` starting at index `i`. */
  predicate OccursAt(s: string, p: string, i: int) {
    0 <= i <= |s| - |p| && s[i..i + |p|] == p
  }

  lemma LowerConcat(a: string, b: string)
    ensures Lower(a + b) == Lower(a) + Lower(b)
  {
  }

  lemma LowerSlice(s: string, i: int, j: int)
    requires 0 <= i <= j <= |s|
    ensures Lower(s)[i..j] == Lower(s[i..j])
  {
  }

  /** A string without ASCII capitals is its own lower-case form. */
  lemma LowerOfLower(s: string)
    requires forall i | 0 <= i < |s| :: !IsAsciiUpper(s[i])
    ensures Lower(s) == s
  {
  }

  /** A pattern holding a character that `s` lacks does not occur in `s`. */
  lemma NotContainsMissingChar(s: string, p: string, k: int)
    requires 0 <= k < |p|
    requires p[k] !in s
    ensures !Contains(s, p)
  {
  }

  /** A pattern whose first two characters never appear side by side in `s`
      does not occur in `s`. */
  lemma NotContainsMissingPair(s: string, p: string)
    requires |p| >= 2
    requires forall i | 0 <= i < |s| - 1 :: !(s[i] == p[0] && s[i + 1] == p[1])
    ensures !Contains(s, p)
  {
    forall i | 0 <= i <= |s| - |p|
      ensures !OccursAt(s, p, i)
    {
      assert s[i..i + |p|][0] == s[i] && s[i..i + |p|][1] == s[i + 1];
      assert !(s[i] == p[0] && s[i + 1] == p[1]);
    }
  }

  /** The whitespace characters of Python's `str.isspace()`. */
  predicate IsSpace(c: char) {
    || c == ' '
    || ('\t' <= c <= '\r')
    || ('\U{1C}' <= c <= '\U{1F}')
    || c == '\U{85}'
    || c == '\U{A0}'
    || c == '\U{1680}'
    || ('\U{2000}' <= c <= '\U{200A}')
    || c == '\U{2028}'
    || c == '\U{2029}'
    || c == '\U{202F}'
    || c == '\U{205F}'
    || c == '\U{3000}'
  }

  predicate AllSpace(s: string) {
    forall i | 0 <= i < |s| :: IsSpace(s[i])
  }

  /** `s` is `r` placed at index `i` between two runs of whitespace. */
  predicate Frames(s: string, r: string, i: int) {
    0 <= i <= |s| - |r| && s[i..i + |r|] == r && AllSpace(s[..i]) && AllSpace(s[i + |r|..])
  }

  /** Length of the longest all-whitespace prefix. */
  function LeadingSpaces(s: string): (n: nat)
    ensures n <= |s|
    ensures AllSpace(s[..n])
    ensures n < |s| ==> !IsSpace(s[n])
  {
    if |s| > 0 && IsSpace(s[0]) then 1 + LeadingSpaces(s[1..]) else 0
  }

  /** Length of the longest all-whitespace suffix. */
  function TrailingSpaces(s: string): (n: nat)
    ensures n <= |s|
    ensures AllSpace(s[|s| - n..])
    ensures n < |s| ==> !IsSpace(s[|s| - n - 1])
  {
    if |s| > 0 && IsSpace(s[|s| - 1]) then 1 + TrailingSpaces(s[..|s| - 1]) else 0
  }

  /** Python's `str.strip()`: `s` is the result framed by whitespace, and
      the result neither starts nor ends with whitespace. */
  function Strip(s: string): (r: string)
    ensures exists i | 0 <= i <= |s| - |r| :: Frames(s, r, i)
    ensures r == [] || (!IsSpace(r[0]) && !IsSpace(r[|r| - 1]))
  {
    var i := LeadingSpaces(s);
    var rest := s[i..];
    var n := TrailingSpaces(rest);
    var r := rest[..|rest| - n];
    assert s[i..i + |r|] == r;
    assert s[..i] == s[..LeadingSpaces(s)];
    assert s[i + |r|..] == rest[|rest| - n..];
    assert Frames(s, r, i);
    assert r == [] || (i < |s| && n < |rest| && r[0] == s[i] && r[|r| - 1] == rest[|rest| - n - 1]);
    r
  }
}
