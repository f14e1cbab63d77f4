/** The filter of the first crate's parser (src/parser.rs): `parse` keeps the
    tokens that match `^(\d+)([a-zA-Z]*)$` in full, in their order, and splits
    nothing. */
module SrcParser {
  import opened Lexicon
  import opened Iterators
  import TimaParser

  /** One or more digits, then zero or more letters, and nothing else. */
  predicate Matches(token: string) {
    LeadingDigits(token) > 0 && AllLetters(token[LeadingDigits(token)..])
  }

  /** `parse`. */
  function Parse(text: seq<string>): seq<string> {
    Filter(Matches, text)
  }

  /** The match is exactly "at least one digit, then letters". */
  lemma MatchesIff(token: string)
    ensures Matches(token) <==>
      exists k :: 1 <= k <= |token| && AllDigits(token[..k]) && AllLetters(token[k..])
  {
    if exists k :: 1 <= k <= |token| && AllDigits(token[..k]) && AllLetters(token[k..]) {
      var k :| 1 <= k <= |token| && AllDigits(token[..k]) && AllLetters(token[k..]);
      DigitsLettersSplit(token, k);
    }
  }

  /** This pattern is the current parser's pattern with a digit required first. */
  lemma MatchesNeedsDigit(token: string)
    ensures Matches(token) <==> TimaParser.Matches(token) && token != [] && IsDigit(token[0])
  {
  }

  /** A token of letters only is rejected, and so is the empty token. */
  lemma LettersOnlyRejected(token: string)
    requires AllLetters(token)
    ensures !Matches(token)
  {
    assert token != [] ==> IsLetter(token[0]) && !IsDigit(token[0]);
  }

  /** A token is kept exactly when it occurs in the input and matches. */
  lemma ParseKeepsMatching(text: seq<string>, token: string)
    ensures token in Parse(text) <==> token in text && Matches(token)
  {
    FilterMembers(Matches, text);
    if token in text && Matches(token) {
      var i :| 0 <= i < |text| && text[i] == token;
    }
  }

  /** The output is the input with some tokens left out and the rest in order. */
  lemma ParseSubsequence(text: seq<string>)
    ensures Subsequence(Parse(text), text)
    ensures |Parse(text)| <= |text|
  {
    FilterIsSubsequence(Matches, text);
  }

  /** Parsing the output again changes nothing. */
  lemma ParseIdempotent(text: seq<string>)
    ensures Parse(Parse(text)) == Parse(text)
  {
    FilterIdempotent(Matches, text);
  }

  /** Digits followed by letters match. */
  lemma DigitsThenLetters(d: string, u: string)
    requires d != [] && AllDigits(d) && AllLetters(u)
    ensures Matches(d + u)
  {
    var token := d + u;
    assert token[..|d|] == d && token[|d|..] == u;
    DigitsLettersSplit(token, |d|);
  }

  /** What the test tokens do. */
  lemma TestTokens()
    ensures Matches("1s") && Matches("10sec") && Matches("101milli") && Matches("0h")
  {
    DigitsThenLetters("1", "s");
    assert "1" + "s" == "1s";
    DigitsThenLetters("10", "sec");
    assert "10" + "sec" == "10sec";
    DigitsThenLetters("101", "milli");
    assert "101" + "milli" == "101milli";
    DigitsThenLetters("0", "h");
    assert "0" + "h" == "0h";
  }

  lemma ParseDropsLast(a: string, b: string, c: string, d: string, e: string)
    requires Matches(a) && Matches(b) && Matches(c) && Matches(d) && !Matches(e)
    ensures Parse([a, b, c, d, e]) == [a, b, c, d]
  {
    FilterAll(Matches, [a, b, c, d]);
    FilterAppend(Matches, [a, b, c, d], [e]);
    assert [a, b, c, d] + [e] == [a, b, c, d, e];
    assert [e][1..] == [];
  }

  /** The unit tests of `parse`. */
  lemma ParseExamples()
    ensures Parse(["1s", "10sec", "101milli", "0h", "1s1"]) == ["1s", "10sec", "101milli", "0h"]
    ensures Parse([""]) == []
  {
    TestTokens();
    TimaParser.DigitAfterLetterRejected();
    ParseDropsLast("1s", "10sec", "101milli", "0h", "1s1");
    assert [""][1..] == [];
  }
}
