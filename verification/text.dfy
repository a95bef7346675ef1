/** Lower-casing text, as str.lower does for the letters a Spanish-language
    survey uses: the basic Latin capitals and the accented Latin-1 capitals. */
module Text {

  /** 'A'..'Z', and the Latin-1 capitals U+00C0..U+00DE other than the
      multiplication sign U+00D7. */
  predicate IsUpper(c: char) {
    ('A' <= c <= 'Z') || (0xC0 <= c as int <= 0xDE && c as int != 0xD7)
  }

  /** The lower-case letter of an upper-case one; any other character is kept. */
  function LowerChar(c: char): (d: char)
    ensures !IsUpper(d)
    ensures IsUpper(c) ==> d as int == c as int + 32
    ensures !IsUpper(c) ==> d == c
  {
    if IsUpper(c) then (c as int + 32) as char else c
  }

  predicate IsLower(s: string) {
    forall i | 0 <= i < |s| :: !IsUpper(s[i])
  }

  /** The text with every upper-case letter replaced by its lower-case one. */
  function Lower(s: string): (t: string)
    ensures |t| == |s|
    ensures IsLower(t)
    ensures forall i | 0 <= i < |s| :: t[i] == LowerChar(s[i])
  {
    if s == [] then [] else [LowerChar(s[0])] + Lower(s[1..])
  }

  /** Text with no upper-case letter is left as it is. */
  lemma LowerKeepsLower(s: string)
    requires IsLower(s)
    ensures Lower(s) == s
  {
  }

  /** Lower-casing twice is lower-casing once. */
  lemma LowerIdempotent(s: string)
    ensures Lower(Lower(s)) == Lower(s)
  {
    LowerKeepsLower(Lower(s));
  }

  /** The sentinel category used for a missing sector, once lower-cased.
      The text comes in as a parameter pinned by the precondition: with the
      literal written into the postcondition the verifier unfolds Lower on it
      at far greater cost. */
  lemma LowerDesconocido(s: string)
    requires s == "Desconocido"
    ensures Lower(s) == "desconocido"
  {
  }
}
