/**
  Lower-casing of characters, the part of JavaScript's `String.prototype.toLowerCase`
  that maps one character to exactly one character.

  The model covers the upper-case letters of Basic Latin (`A`..`Z`) and of the Latin-1
  Supplement (U+00C0..U+00DE, except the multiplication sign U+00D7); each maps to the
  character 0x20 above it. Every other character is left unchanged, so lowering never
  changes the length of a string and positions in the lowered text are positions in the
  original text.
 */
module CaseFold {

  /** True for the characters that `Lower` changes. */
  predicate IsUpper(ch: char) {
    ('A' <= ch <= 'Z') || ('À' <= ch <= 'Þ' && ch != '×')
  }

  /** Lower-case one character. */
  function Lower(ch: char): (r: char)
    ensures !IsUpper(r)
    ensures !IsUpper(ch) ==> r == ch
    ensures IsUpper(ch) ==> r as int == ch as int + 0x20
  {
    if IsUpper(ch) then (ch as int + 0x20) as char else ch
  }

  /** Lower-case a string character by character (the model of `toLowerCase`). */
  function LowerS(s: string): (r: string)
    ensures |r| == |s|
    ensures forall i :: 0 <= i < |s| ==> r[i] == Lower(s[i])
  {
    if s == [] then [] else [Lower(s[0])] + LowerS(s[1..])
  }

  /** Case-insensitive equality: both strings lower-case to the same text. */
  predicate EqualsCI(a: string, b: string) {
    LowerS(a) == LowerS(b)
  }

  /** Lowering commutes with taking a slice. */
  lemma LowerSSlice(s: string, i: nat, j: nat)
    requires i <= j <= |s|
    ensures LowerS(s[i..j]) == LowerS(s)[i..j]
  {
    var a, b := LowerS(s[i..j]), LowerS(s)[i..j];
    assert |a| == |b|;
    forall k | 0 <= k < |a|
      ensures a[k] == b[k]
    {
      assert a[k] == Lower(s[i..j][k]) == Lower(s[i + k]);
    }
  }
}
