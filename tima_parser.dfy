/** The token splitter and unit table of the current engine
    (tima-engine/src/parser.rs).  `parse` matches every token against
    `^(?P<time>\d*)(?P<unit>[a-zA-Z]*)$` and pushes the non-empty captures,
    digits first; a token that does not match is reported and skipped.
    `normalise_units` maps unit spellings to the codes `s`, `m`, `h`, `l` and
    drops everything else. */
module TimaParser {
  import opened Lexicon
  import opened Iterators

  /** The whole token is zero or more digits followed by zero or more letters. */
  predicate Matches(token: string) {
    AllLetters(token[LeadingDigits(token)..])
  }

  /** The `time` capture: the (greedy) run of leading digits. */
  function Time(token: string): string {
    token[..LeadingDigits(token)]
  }

  /** The `unit` capture: what follows the digits. */
  function Unit(token: string): string {
    token[LeadingDigits(token)..]
  }

  /** What one token pushes onto the output. */
  function Pieces(token: string): seq<string> {
    if !Matches(token) then []
    else (if Time(token) != [] then [Time(token)] else []) + (if Unit(token) != [] then [Unit(token)] else [])
  }

  /** The output of `parse` for the tokens in `text`. */
  function Split(text: seq<string>): seq<string> {
    FlatMap(Pieces, text)
  }

  /** `parse`: the loop that pushes each matching token's pieces onto `vecInput`. */
  method Parse(text: seq<string>) returns (vecInput: seq<string>)
    ensures vecInput == Split(text)
  {
    vecInput := [];
    for i := 0 to |text|
      invariant vecInput == Split(text[..i])
    {
      var item := text[i];
      if Matches(item) {
        var time := Time(item);
        if time != [] {
          vecInput := vecInput + [time];
        }
        var unit := Unit(item);
        if unit != [] {
          vecInput := vecInput + [unit];
        }
      }
      assert text[..i + 1][..i] == text[..i];
    }
    assert text[..|text|] == text;
  }

  /** The match is exactly "some digits, then some letters, nothing else". */
  lemma MatchesIff(token: string)
    ensures Matches(token) <==>
      exists k :: 0 <= k <= |token| && AllDigits(token[..k]) && AllLetters(token[k..])
  {
    if exists k :: 0 <= k <= |token| && AllDigits(token[..k]) && AllLetters(token[k..]) {
      var k :| 0 <= k <= |token| && AllDigits(token[..k]) && AllLetters(token[k..]);
      DigitsLettersSplit(token, k);
    }
  }

  /** The pieces of a matching token join back to the token. */
  lemma PiecesRoundTrip(token: string)
    requires Matches(token)
    ensures Concat(Pieces(token)) == token
  {
    var t, u := Time(token), Unit(token);
    assert token == t + u;
    var ps := Pieces(token);
    if t != [] && u != [] {
      assert ps == [t, u];
      assert Concat([u]) == u + Concat([]);
    } else if t != [] {
      assert ps == [t];
    } else if u != [] {
      assert ps == [u];
    } else {
      assert ps == [];
    }
  }

  /** A token yields at most two pieces, none empty; a first piece of two is
      the digits and the second the letters, and a single piece is one or the other. */
  lemma PiecesShape(token: string)
    ensures |Pieces(token)| <= 2
    ensures forall p :: p in Pieces(token) ==> p != [] && (AllDigits(p) || AllLetters(p))
    ensures |Pieces(token)| == 2 ==> AllDigits(Pieces(token)[0]) && AllLetters(Pieces(token)[1])
  {
  }

  /** Tokens are processed in order, each contributing its pieces contiguously. */
  lemma SplitAppend(a: seq<string>, b: seq<string>)
    ensures Split(a + b) == Split(a) + Split(b)
  {
    FlatMapAppend(Pieces, a, b);
  }

  /** Every piece is non-empty and all digits or all letters, and there are at
      most two per token. */
  lemma {:induction false} SplitShape(text: seq<string>)
    ensures |Split(text)| <= 2 * |text|
    ensures forall p :: p in Split(text) ==> p != [] && (AllDigits(p) || AllLetters(p))
  {
    if text != [] {
      SplitShape(text[..|text| - 1]);
      PiecesShape(text[|text| - 1]);
    }
  }

  /** Joining the output gives back the matching tokens joined, in order. */
  lemma {:induction false} SplitRoundTrip(text: seq<string>)
    ensures Concat(Split(text)) == Concat(Filter(Matches, text))
  {
    if text != [] {
      var a, x := text[..|text| - 1], text[|text| - 1];
      assert text == a + [x];
      SplitRoundTrip(a);
      ConcatAppend(Split(a), Pieces(x));
      FilterAppend(Matches, a, [x]);
      assert [x][1..] == [];
      ConcatAppend(Filter(Matches, a), Filter(Matches, [x]));
      if Matches(x) {
        PiecesRoundTrip(x);
        assert Filter(Matches, [x]) == [x];
        assert Concat([x]) == x + Concat([]);
      } else {
        assert Pieces(x) == [] && Filter(Matches, [x]) == [];
      }
    }
  }

  /** The empty token yields nothing; a token of letters only, or of digits only,
      yields itself. */
  lemma EdgeTokens(token: string)
    ensures Pieces("") == []
    ensures token != [] && AllLetters(token) ==> Pieces(token) == [token]
    ensures token != [] && AllDigits(token) ==> Pieces(token) == [token]
  {
    if token != [] && AllLetters(token) {
      DigitsLettersSplit(token, 0);
      assert Unit(token) == token;
    }
    if token != [] && AllDigits(token) {
      PiecesOfDigitsLetters(token, "");
      assert token + "" == token;
    }
  }

  /** The unit codes `normalise_units` produces: seconds, minutes, hours and milliseconds. */
  const CANONICAL_UNITS: set<string> := {"s", "m", "h", "l"}

  /** The spellings `normalise_units` recognises, with the code of each. */
  const UNIT_TABLE: map<string, string> := map[
    "sec" := "s", "seconds" := "s", "second" := "s", "s" := "s",
    "min" := "m", "minute" := "m", "minutes" := "m", "m" := "m",
    "hour" := "h", "hours" := "h", "h" := "h",
    "milli" := "l", "millis" := "l", "millisecond" := "l", "milliseconds" := "l", "l" := "l"
  ]

  predicate Recognised(entry: string) {
    entry in UNIT_TABLE
  }

  /** The `map` step of `normalise_units`: the code of a spelling, or the empty
      string for anything the table does not list (matching is exact and
      case-sensitive). */
  function UnitCode(entry: string): (code: string)
    ensures Recognised(entry) ==> code == UNIT_TABLE[entry] && code in CANONICAL_UNITS
    ensures !Recognised(entry) ==> code == ""
  {
    match entry
    case "sec" | "seconds" | "second" | "s" => "s"
    case "min" | "minute" | "minutes" | "m" => "m"
    case "hour" | "hours" | "h" => "h"
    case "milli" | "millis" | "millisecond" | "milliseconds" | "l" => "l"
    case _ => ""
  }

  /** `normalise_units`: the code of every entry, the empty ones filtered out. */
  function NormaliseUnits(entries: seq<string>): (r: seq<string>)
    ensures forall i :: 0 <= i < |r| ==> r[i] in CANONICAL_UNITS
  {
    FilterMembers(NonEmpty, Map(UnitCode, entries));
    Filter(NonEmpty, Map(UnitCode, entries))
  }

  predicate NonEmpty(code: string) {
    code != ""
  }

  /** `normalise_units` keeps exactly the recognised entries, in their order,
      each replaced by its code. */
  lemma NormaliseKeepsRecognised(entries: seq<string>)
    ensures NormaliseUnits(entries) == Map(UnitCode, Filter(Recognised, entries))
  {
    forall e: string ensures NonEmpty(UnitCode(e)) <==> Recognised(e) {
    }
    FilterMap(NonEmpty, UnitCode, Recognised, entries);
  }

  /** Entries are normalised one at a time, so the result of a concatenation is
      the concatenation of the results. */
  lemma NormaliseAppend(a: seq<string>, b: seq<string>)
    ensures NormaliseUnits(a + b) == NormaliseUnits(a) + NormaliseUnits(b)
  {
    MapAppend(UnitCode, a, b);
    FilterAppend(NonEmpty, Map(UnitCode, a), Map(UnitCode, b));
  }

  /** Each code is its own spelling. */
  lemma CodesAreFixed(code: string)
    requires code in CANONICAL_UNITS
    ensures UnitCode(code) == code
  {
  }

  /** Normalising an already normalised list changes nothing. */
  lemma NormaliseIdempotent(entries: seq<string>)
    ensures NormaliseUnits(NormaliseUnits(entries)) == NormaliseUnits(entries)
  {
    var r := NormaliseUnits(entries);
    forall i | 0 <= i < |r| ensures UnitCode(r[i]) == r[i] {
      CodesAreFixed(r[i]);
    }
    assert Map(UnitCode, r) == r;
    FilterAll(NonEmpty, r);
  }

  /** No spelling in the table contains a digit, so numerals are dropped. */
  lemma NumeralsDropped(entry: string)
    requires AllDigits(entry)
    ensures UnitCode(entry) == ""
  {
    assert entry != [] ==> IsDigit(entry[0]) && !IsLetter(entry[0]);
  }

  /** A token made of digits `d` then letters `u` pushes `d`, then `u`, skipping an empty one. */
  lemma PiecesOfDigitsLetters(d: string, u: string)
    requires AllDigits(d) && AllLetters(u)
    ensures Pieces(d + u) == (if d != [] then [d] else []) + (if u != [] then [u] else [])
  {
    var token := d + u;
    assert token[..|d|] == d && token[|d|..] == u;
    DigitsLettersSplit(token, |d|);
  }

  /** A letter between two digits spoils the match. */
  lemma DigitAfterLetterRejected()
    ensures !Matches("1s1") && Pieces("1s1") == []
  {
    var token := "1s1";
    var k := LeadingDigits(token);
    assert IsDigit(token[..k][0]) || k == 0;
    assert k == 1;
    assert token[k..][1] == '1';
  }

  /** A token of a non-empty digit run `d` and a non-empty letter run `u` pushes both. */
  lemma PiecesOfCompound(token: string, d: string, u: string)
    requires token == d + u && d != [] && u != [] && AllDigits(d) && AllLetters(u)
    ensures Pieces(token) == [d, u]
  {
    PiecesOfDigitsLetters(d, u);
  }

  /** What the compound tokens of the unit tests contribute, one token at a time. */
  lemma PiecesOf1s()
    ensures Pieces("1s") == ["1", "s"]
  {
    PiecesOfCompound("1s", "1", "s");
  }

  lemma PiecesOf10sec()
    ensures Pieces("10sec") == ["10", "sec"]
  {
    PiecesOfCompound("10sec", "10", "sec");
  }

  lemma PiecesOf101milli()
    ensures Pieces("101milli") == ["101", "milli"]
  {
    PiecesOfCompound("101milli", "101", "milli");
  }

  lemma PiecesOf0h()
    ensures Pieces("0h") == ["0", "h"]
  {
    PiecesOfCompound("0h", "0", "h");
  }

  /** What the one-part tokens of the unit tests contribute. */
  lemma SimpleTestTokens()
    ensures Pieces("") == [] && Pieces("1") == ["1"] && Pieces("milli") == ["milli"]
  {
    PiecesOfDigitsLetters("1", "");
    assert "1" + "" == "1";
    PiecesOfDigitsLetters("", "milli");
    assert "" + "milli" == "milli";
    PiecesOfDigitsLetters("", "");
  }

  /** `parse` of a single token is that token's pieces. */
  lemma SplitSingle(x: string)
    ensures Split([x]) == Pieces(x)
  {
    assert [x][..0] == [];
    assert FlatMap(Pieces, [x]) == FlatMap(Pieces, []) + Pieces(x);
  }

  lemma SplitFive(a: string, b: string, c: string, d: string, e: string)
    ensures Split([a, b, c, d, e]) == Pieces(a) + Pieces(b) + Pieces(c) + Pieces(d) + Pieces(e)
  {
    SplitSingle(a);
    SplitSingle(b);
    SplitSingle(c);
    SplitSingle(d);
    SplitSingle(e);
    SplitAppend([a], [b]);
    SplitAppend([a, b], [c]);
    SplitAppend([a, b, c], [d]);
    SplitAppend([a, b, c, d], [e]);
    assert [a] + [b] == [a, b] && [a, b] + [c] == [a, b, c];
    assert [a, b, c] + [d] == [a, b, c, d] && [a, b, c, d] + [e] == [a, b, c, d, e];
  }

  /** The unit tests of `parse`. */
  lemma ParseExamples()
    ensures Split(["1s", "10sec", "101milli", "0h", "1s1"]) ==
      ["1", "s", "10", "sec", "101", "milli", "0", "h"]
  {
    PiecesOf1s();
    PiecesOf10sec();
    PiecesOf101milli();
    PiecesOf0h();
    DigitAfterLetterRejected();
    SplitFive("1s", "10sec", "101milli", "0h", "1s1");
  }

  /** The single-token unit tests of `parse`. */
  lemma ParseSingleExamples()
    ensures Split([""]) == [] && Split(["1s"]) == ["1", "s"]
    ensures Split(["1"]) == ["1"] && Split(["milli"]) == ["milli"]
  {
    PiecesOf1s();
    SimpleTestTokens();
    SplitSingle("");
    SplitSingle("1s");
    SplitSingle("1");
    SplitSingle("milli");
  }

  /** A numeral followed by a unit spelling normalises to the unit's code alone. */
  lemma NormaliseNumberAndUnit(n: string, u: string)
    requires AllDigits(n) && NonEmpty(UnitCode(u))
    ensures NormaliseUnits([n, u]) == [UnitCode(u)]
  {
    NumeralsDropped(n);
    var codes := Map(UnitCode, [n, u]);
    assert codes == ["", UnitCode(u)];
    assert codes[1..] == [UnitCode(u)] && codes[1..][1..] == [];
    assert Filter(NonEmpty, codes[1..]) == [UnitCode(u)] + Filter(NonEmpty, []);
  }

  lemma NormaliseTwoPairs(n1: string, u1: string, n2: string, u2: string)
    requires AllDigits(n1) && NonEmpty(UnitCode(u1)) && AllDigits(n2) && NonEmpty(UnitCode(u2))
    ensures NormaliseUnits([n1, u1, n2, u2]) == [UnitCode(u1), UnitCode(u2)]
  {
    NormaliseNumberAndUnit(n1, u1);
    NormaliseNumberAndUnit(n2, u2);
    NormaliseAppend([n1, u1], [n2, u2]);
    assert [n1, u1] + [n2, u2] == [n1, u1, n2, u2];
  }

  /** The spellings and numerals in the unit tests of `normalise_units`. */
  lemma TestEntries()
    ensures UnitCode("s") == "s" && UnitCode("sec") == "s" && UnitCode("milli") == "l"
    ensures UnitCode("h") == "h" && UnitCode("minute") == "m"
    ensures AllDigits("1") && AllDigits("10") && AllDigits("101") && AllDigits("0")
  {
  }

  /** The unit tests of `normalise_units`. */
  lemma NormaliseExamples()
    ensures NormaliseUnits([]) == []
    ensures NormaliseUnits(["1", "s", "10", "sec", "101", "milli", "0", "h", "1", "minute"]) ==
      ["s", "s", "l", "h", "m"]
  {
    var front, middle, back := ["1", "s", "10", "sec"], ["101", "milli", "0", "h"], ["1", "minute"];
    TestEntries();
    NormaliseTwoPairs("1", "s", "10", "sec");
    NormaliseTwoPairs("101", "milli", "0", "h");
    NormaliseNumberAndUnit("1", "minute");
    NormaliseAppend(front, middle);
    NormaliseAppend(front + middle, back);
    assert front + middle + back == ["1", "s", "10", "sec", "101", "milli", "0", "h", "1", "minute"];
  }
}
