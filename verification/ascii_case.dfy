/**
 * Case mapping for format names. Only the letters 'A'..'Z' and 'a'..'z' change
 * case; every other character is left as it is.
 */
module AsciiCase {

  function LowerChar(c: char): char {
    if 'A' <= c <= 'Z' then (c as int + 32) as char else c
  }

  function UpperChar(c: char): char {
    if 'a' <= c <= 'z' then (c as int - 32) as char else c
  }

  /** `s` with every upper-case letter replaced by its lower-case letter. */
  function Lowercase(s: string): (r: string)
    ensures |r| == |s|
    ensures forall i :: 0 <= i < |s| ==> r[i] == LowerChar(s[i])
  {
    if s == [] then [] else [LowerChar(s[0])] + Lowercase(s[1..])
  }

  /** `s` with every lower-case letter replaced by its upper-case letter. */
  function Uppercase(s: string): (r: string)
    ensures |r| == |s|
    ensures forall i :: 0 <= i < |s| ==> r[i] == UpperChar(s[i])
  {
    if s == [] then [] else [UpperChar(s[0])] + Uppercase(s[1..])
  }

  /** A word made of lower-case letters only, such as "png". */
  predicate IsLowerWord(w: string) {
    forall i :: 0 <= i < |w| ==> 'a' <= w[i] <= 'z'
  }

  /**
   * `s` spells the lower-case word `w` with each letter in either case:
   * "Png", "PNG" and "png" all spell "png".
   */
  predicate SpellsIgnoringCase(s: string, w: string) {
    |s| == |w| && forall i :: 0 <= i < |s| ==> s[i] == w[i] || s[i] == UpperChar(w[i])
  }

  /** Lower-casing a name yields a lower-case word exactly when the name spells it. */
  lemma LowercaseEqualsIff(s: string, w: string)
    requires IsLowerWord(w)
    ensures Lowercase(s) == w <==> SpellsIgnoringCase(s, w)
  {
    if Lowercase(s) == w {
      forall i | 0 <= i < |s|
        ensures s[i] == w[i] || s[i] == UpperChar(w[i])
      {
        assert LowerChar(s[i]) == w[i];
      }
    }
    if SpellsIgnoringCase(s, w) {
      forall i | 0 <= i < |s|
        ensures Lowercase(s)[i] == w[i]
      {
        assert s[i] == w[i] || s[i] == UpperChar(w[i]);
      }
    }
  }

  lemma LowercaseIdempotent(s: string)
    ensures Lowercase(Lowercase(s)) == Lowercase(s)
  {
    forall i | 0 <= i < |s|
      ensures Lowercase(Lowercase(s))[i] == Lowercase(s)[i]
    {
      assert LowerChar(LowerChar(s[i])) == LowerChar(s[i]);
    }
  }

  /** Lower-casing forgets an earlier upper-casing. */
  lemma LowercaseOfUppercase(s: string)
    ensures Lowercase(Uppercase(s)) == Lowercase(s)
  {
    forall i | 0 <= i < |s|
      ensures Lowercase(Uppercase(s))[i] == Lowercase(s)[i]
    {
      assert LowerChar(UpperChar(s[i])) == LowerChar(s[i]);
    }
  }
}
