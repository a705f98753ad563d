/** Characters and strings as the password evaluator sees them.

    Both implementations test character classes with ASCII ranges
    (`[A-Z]`, `[a-z]`, `[0-9]` and a bracketed set of punctuation), lower-case
    with the runtime's `ToLower`, and look for substrings with
    `strings.Contains` / `String.prototype.includes`. This module gives those
    operations their ASCII meaning. */
module Text {

  predicate IsUpper(c: char) { 'A' <= c <= 'Z' }
  predicate IsLower(c: char) { 'a' <= c <= 'z' }
  predicate IsDigit(c: char) { '0' <= c <= '9' }

  /** The characters of the bracket expression used by both implementations
      for "special character". */
  const SpecialChars: string := "!@#$%^&*()_+-=[]{};':\"\\|,.<>/?~`"

  predicate IsSpecial(c: char) { c in SpecialChars }

  /** The special set is exactly ASCII punctuation: every printable,
      non-space ASCII character that is neither a letter nor a digit. */
  lemma SpecialCharsArePunctuation(c: char)
    ensures IsSpecial(c) <==> ('!' <= c <= '~' && !IsUpper(c) && !IsLower(c) && !IsDigit(c))
  {
  }

  /** The four character classes a policy can require. */
  datatype CharClass = Uppercase | Lowercase | Digit | Special {
    predicate Matches(c: char) {
      match this
      case Uppercase => IsUpper(c)
      case Lowercase => IsLower(c)
      case Digit => IsDigit(c)
      case Special => IsSpecial(c)
    }
  }

  /** Some character of `s` belongs to `cls` (what a regex test `[...]` or a
      scan with early `break` decides). */
  predicate Present(cls: CharClass, s: string)
    ensures Present(cls, s) ==> s != []
  {
    exists i :: 0 <= i < |s| && cls.Matches(s[i])
  }

  /** ASCII lower-casing of one character. */
  function ToLower(c: char): (r: char)
    ensures IsUpper(c) || IsLower(c) <==> IsLower(r)
    ensures !IsUpper(c) ==> r == c
    ensures IsUpper(c) ==> r as int - 'a' as int == c as int - 'A' as int
  {
    if IsUpper(c) then (c as int - 'A' as int + 'a' as int) as char else c
  }

  /** Lower-casing of a string, character by character. The contract only
      spells out this map; what lower-casing does to a character is stated
      by `ToLower`, and `LowerIdempotent` is the property of the whole. */
  function Lower(s: string): (r: string)
    ensures |r| == |s|
    ensures forall i :: 0 <= i < |s| ==> r[i] == ToLower(s[i])
  {
    seq(|s|, i requires 0 <= i < |s| => ToLower(s[i]))
  }

  /** Lower-casing twice is lower-casing once. */
  lemma LowerIdempotent(s: string)
    ensures Lower(Lower(s)) == Lower(s)
  {
  }

  /** `w` occurs in `s` starting at index `i`. */
  predicate OccursAt(s: string, w: string, i: int) {
    0 <= i <= |s| - |w| && s[i..i + |w|] == w
  }

  /** `w` occurs in `s` as a contiguous substring. */
  predicate Contains(s: string, w: string)
    ensures |w| > |s| ==> !Contains(s, w)
  {
    exists i :: 0 <= i <= |s| - |w| && OccursAt(s, w, i)
  }

  /** The empty word occurs in every string, so an empty forbidden word
      rejects every password. */
  lemma ContainsEmpty(s: string)
    ensures Contains(s, [])
  {
    assert OccursAt(s, [], 0);
  }

  /** A word with a character that `s` lacks does not occur in `s`. */
  lemma AbsentCharacterExcludes(s: string, w: string, c: char)
    requires c in w && c !in s
    ensures !Contains(s, w)
  {
    var j :| 0 <= j < |w| && w[j] == c;
    forall i | 0 <= i <= |s| - |w| ensures !OccursAt(s, w, i) {
      assert s[i..i + |w|][j] == s[i + j] != c;
    }
  }
}
