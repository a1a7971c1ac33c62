/** ASCII case folding, standing in for the culture-sensitive String.ToLower
    that CommanderCLI uses to compare tokens with "null" and "exit". */
module Ascii {

  /** The lower-case form of an ASCII capital letter; every other character is unchanged. */
  function LowerChar(c: char): (r: char)
    ensures 'A' <= c <= 'Z' ==> r as int == c as int + 32
    ensures !('A' <= c <= 'Z') ==> r == c
    ensures !('A' <= r <= 'Z')
  {
    if 'A' <= c <= 'Z' then (c as int + 32) as char else c
  }

  /** The string with every character folded by LowerChar. */
  function Lower(s: string): (r: string)
    ensures |r| == |s|
    ensures forall i :: 0 <= i < |s| ==> r[i] == LowerChar(s[i])
  {
    if s == [] then [] else [LowerChar(s[0])] + Lower(s[1..])
  }

  /** Two strings fold to the same lower-case word exactly when they agree on
      every position up to the case of ASCII letters. */
  lemma {:induction false} SameLowerIff(s: string, w: string)
    requires Lower(w) == w
    ensures Lower(s) == w <==> |s| == |w| && forall i :: 0 <= i < |s| ==> LowerChar(s[i]) == w[i]
  {
    if Lower(s) == w {
      assert |s| == |w|;
    }
    if |s| == |w| && forall i :: 0 <= i < |s| ==> LowerChar(s[i]) == w[i] {
      assert forall i :: 0 <= i < |s| ==> Lower(s)[i] == w[i];
      assert Lower(s) == w;
    }
  }
}
