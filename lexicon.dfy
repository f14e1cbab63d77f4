/** Character classes shared by the argument grammar and the numeral parser.
    Only ASCII digits and ASCII letters are recognised. */
module Lexicon {

  /** An ASCII decimal digit `0`-`9`. */
  predicate IsDigit(c: char) {
    '0' <= c <= '9'
  }

  /** An ASCII letter, the class `[a-zA-Z]`. */
  predicate IsLetter(c: char) {
    'a' <= c <= 'z' || 'A' <= c <= 'Z'
  }

  predicate AllDigits(s: string) {
    forall i :: 0 <= i < |s| ==> IsDigit(s[i])
  }

  predicate AllLetters(s: string) {
    forall i :: 0 <= i < |s| ==> IsLetter(s[i])
  }

  /** The length of the longest prefix of `s` made of digits. */
  function LeadingDigits(s: string): (k: nat)
    ensures k <= |s| && AllDigits(s[..k])
    ensures k < |s| ==> !IsDigit(s[k])
  {
    if s == [] || !IsDigit(s[0]) then 0
    else
      var k := 1 + LeadingDigits(s[1..]);
      assert forall i :: 1 <= i < k ==> s[..k][i] == s[1..][..k - 1][i - 1];
      k
  }

  /** The digit prefix is the only way to cut `s` into digits followed by letters. */
  lemma DigitsLettersSplit(s: string, k: nat)
    requires k <= |s| && AllDigits(s[..k]) && AllLetters(s[k..])
    ensures k == LeadingDigits(s)
  {
    var n := LeadingDigits(s);
    assert forall i :: 0 <= i < k ==> s[..k][i] == s[i];
    assert forall i :: 0 <= i < n ==> s[..n][i] == s[i];
    forall i | k <= i < |s|
      ensures IsLetter(s[i])
    {
      assert s[k..][i - k] == s[i];
    }
    assert k < |s| ==> IsLetter(s[k]);
  }
}
