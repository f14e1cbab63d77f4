# tima — a countdown timer, modelled in Dafny

`tima` is a command-line countdown timer. Its arguments are a duration (a
non-negative decimal count), the flag `-m` (the count is in minutes rather
than seconds) and, in the engine crate, the flag `-q` (quiet mode); anything
else is ignored. After reading its arguments the program sleeps for the
resulting number of seconds.

The repository holds several generations of the same logic, and they do not
agree on which count wins when several are given. Each generation is modelled
on its own, in the form its source takes:

- `tima_engine.dfy` — the engine crate (`tima-engine/src/engine.rs`): a
  `Tima` object that a mutating closure updates argument by argument. The
  model is a class whose `Init` runs a loop over the arguments and calls
  `Absorb` on each; the **last** positive count wins.
- `src_engine.dfy` — the first crate's engine (`src/engine.rs`): a pure
  map / filter / map / reduce pipeline over a value type. The **largest**
  positive count wins and `-q` passes the filter but has no effect.
- `src_timer.dfy`, `src_tima.dfy` — the older `Timer` (`src/timer.rs`) and
  `Tima` (`src/tima.rs`): a filter followed by a loop that updates the object;
  the **first** positive count wins and `-q` is not recognised.
- `tima_parser.dfy` — the engine crate's parser (`tima-engine/src/parser.rs`):
  `parse` splits tokens such as `10m` into a count and a unit (an imperative
  loop pushing onto a vector), `normalise_units` maps unit spellings onto the
  canonical codes `s`, `m`, `h`, `l` and drops everything else.
- `src_parser.dfy` — the first crate's parser (`src/parser.rs`): a filter
  keeping the tokens of the form digits-then-letters.

Shared vocabulary lives in small modules: `Numerals` (Rust's `u64` parsing,
`ParseU64`, and checked multiplication), `Arguments` (`convert_arguments`,
identical in both engines), `MergePolicy` (the three merge rules as reference
definitions on argument lists: `LastPositive`, `MaxPositive`, `FirstPositive`),
`Iterators` (the iterator adapters `map`, `filter`, `reduce` as functions),
`Lexicon` (ASCII digits and letters) and `Wrappers` (`Option`).

Each class's `Init` is proved against the matching reference definition, and
the properties of the rule (what the count is, which arguments cannot change
it, order independence or its absence) are proved once about that definition.
Neither `init` calls a parser: both parsers are stand-alone in the code, and
the model keeps them so.

## Model

| member | source | states |
|---|---|---|
| Numerals.ParseU64 | tima-engine/src/engine.rs:52 | `u64` parsing succeeds only on an optional `+` followed by ASCII digits; a success starts with a digit or `+`, has only digits after it, and a lone `+` fails |
| Numerals.ParseDecimal | tima-engine/src/engine.rs:52-56 | every decimal numeral of a value up to 2^64-1 parses back to that value |
| Numerals.ParseDecimalOverflow | tima-engine/src/engine.rs:52-60 | a numeral above 2^64-1 does not parse, so it is kept as an unrecognised string |
| Numerals.ParsePlusSign | tima-engine/src/engine.rs:52-56 | a numeral with a leading `+` parses to the same value |
| Numerals.FlagsAreNotNumerals | tima-engine/src/engine.rs:57-60 | `-m`, `-q`, `c`, `+` and the empty argument are not numbers |
| Numerals.PositiveValue | tima-engine/src/engine.rs:52-61 | the count an argument supplies is positive exactly when it is a positive numeral, and then it is the parsed value |
| Numerals.CheckedMul | tima-engine/src/engine.rs:81 | the product is absent exactly when it exceeds 2^64-1, and otherwise is the product |
| Arguments.ConvertArguments | tima-engine/src/engine.rs:51-62 | the flag text is `-m` (or `-q`) exactly when the argument is; the number is positive exactly for positive numerals and then is their value; a kept string carries number 0 |
| MergePolicy.LastPositiveIsLast | tima-engine/src/engine.rs:71-73 | the last-wins count is 0 iff no argument is a positive numeral, and otherwise is the value of a positive numeral after which none follows |
| MergePolicy.LastPositiveAppend | tima-engine/src/engine.rs:71-73 | a later positive count replaces the earlier one; a later empty contribution keeps it |
| MergePolicy.MaxPositiveIsMaximum | src/engine.rs:75-78 | the max-wins count bounds every argument's count and is 0 or attained by some argument |
| MergePolicy.MaxPositivePermutation | src/engine.rs:75-83 | the max-wins count depends only on the multiset of arguments |
| MergePolicy.MaxPositiveAppend | src/engine.rs:75-78 | appending arguments gives the larger of the two counts |
| MergePolicy.FirstPositiveIsFirst | src/timer.rs:42-44 | the first-wins count is 0 iff no argument is a positive numeral, and otherwise is the value of a positive numeral with none before it |
| MergePolicy.FirstPositiveAppend | src/timer.rs:42-44 | once a positive count is set, later arguments do not change it |
| MergePolicy.NonPositiveIgnored | tima-engine/src/engine.rs:66-74 | inserting an argument that is not a positive numeral changes none of the three counts |
| MergePolicy.PoliciesAgreeOnOneCount | src/engine.rs:75-78 | with at most one distinct positive count the three rules agree |
| MergePolicy.PoliciesDiffer | src/timer.rs:42-44 | for `12 24` and `24 12` the three rules disagree: first wins, largest wins, last wins |
| TimaEngine.Tima.constructor | tima-engine/src/engine.rs:33-39 | count 0, minutes and quiet mode off |
| TimaEngine.Tima.Absorb | tima-engine/src/engine.rs:65-75 | `-m` sets minutes, `-q` sets quiet mode, a positive count replaces the count, anything else changes nothing |
| TimaEngine.Tima.Init | tima-engine/src/engine.rs:43-49 | the count is the last positive numeral (`LastPositive`), minutes iff `-m` occurs, quiet mode iff `-q` occurs |
| TimaEngine.Tima.WaitSeconds | tima-engine/src/engine.rs:79-87 | the wait is the count in seconds, or 60 times it in minutes mode; absent exactly when that product overflows `u64` |
| TimaEngine.TestInit | tima-engine/src/engine.rs:126-164 | the `init` tests, `init_quiet_mode` included: no arguments give count 0; `-m 12 c` gives 12 in minutes; `-m 12 24 -q` gives 24 in minutes with quiet mode on |
| TimaEngine.UnrecognisedArgumentIgnored | tima-engine/src/engine.rs:66-74 | inserting an argument that is neither flag nor positive numeral leaves the count and flags unchanged |
| TimaEngine.OverflowingNumeralIgnored | tima-engine/src/engine.rs:52-61 | a numeral above 2^64-1 is ignored rather than clamped |
| SrcEngine.New | src/engine.rs:31-36 | the given count, minutes off |
| SrcEngine.CreateFinalTima | src/engine.rs:75-83 | the merged count is the larger of the two counts and the minutes flag is their disjunction |
| SrcEngine.ValidArguments | src/engine.rs:62-64 | the filter keeps `-m`, `-q` and positive numerals and drops `c`, `0` and the empty argument |
| SrcEngine.Contribution | src/engine.rs:66-73 | a kept argument contributes its count, and minutes only if it is `-m` |
| SrcEngine.InitIsLargestCount | src/engine.rs:40-47 | `init` yields the largest positive numeral (`MaxPositive`), minutes iff `-m` occurs |
| SrcEngine.InitOrderIndependent | src/engine.rs:40-47 | permuting the arguments does not change the result |
| SrcEngine.QuietIgnored | src/engine.rs:62-73 | `-q` anywhere in the arguments has no effect |
| SrcEngine.InitNoValues | src/engine.rs:131-135 | no arguments give count 0 without minutes |
| SrcEngine.InitMixed | src/engine.rs:138-143 | `-m 12 c` gives count 12 in minutes |
| SrcEngine.InitRepeatedValues | src/engine.rs:146-157 | `-m 12 24 -q` gives count 24 in minutes |
| SrcEngine.ValidValues | src/engine.rs:62-64 | the filter of the pipeline; `SrcEngine.ValidArguments` states which arguments it keeps |
| SrcEngine.SetValues | src/engine.rs:66-73 | the `Tima` one kept argument contributes; `SrcEngine.Contribution` states it |
| SrcEngine.Default | src/engine.rs:17 | the derived default `Tima(0, false)` that `unwrap_or_default` falls back on; `SrcEngine.InitNoValues` shows it is the result for no arguments |
| SrcEngine.Init | src/engine.rs:40-47 | the map / filter / map / reduce / `unwrap_or_default` pipeline; `SrcEngine.InitIsLargestCount` gives its result and `SrcEngine.InitOrderIndependent` and `SrcEngine.QuietIgnored` its invariances |
| SrcEngine.WaitSeconds | src/engine.rs:87-95 | the wait is the count, or 60 times it in minutes mode, absent exactly on overflow |
| SrcTimer.Timer.constructor | src/timer.rs:26-31 | the given count, minutes off |
| SrcTimer.Timer.Init | src/timer.rs:35-47 | the count is the first positive numeral (`FirstPositive`), minutes iff `-m` occurs |
| SrcTimer.Timer.WaitSeconds | src/timer.rs:51-58 | the wait is the count, or 60 times it in minutes mode, absent exactly on overflow |
| SrcTimer.TestInit | src/timer.rs:103-121 | the `init` tests: no arguments give count 0; an empty argument, `-m`, `12` and `c` give 12 in minutes |
| SrcTimer.UnrecognisedArgumentIgnored | src/timer.rs:38 | inserting an argument that is neither `-m` nor a positive numeral leaves the result unchanged |
| SrcTimer.LaterCountsIgnored | src/timer.rs:42-44 | once a positive numeral occurs, the arguments after it cannot change the count |
| SrcTima.Tima.constructor | src/tima.rs:26-31 | the given count, minutes off |
| SrcTima.Tima.Init | src/tima.rs:35-47 | the count is the first positive numeral, minutes iff `-m` occurs |
| SrcTima.Tima.WaitSeconds | src/tima.rs:51-58 | the wait is the count, or 60 times it in minutes mode, absent exactly on overflow |
| SrcTima.TestInit | src/tima.rs:95-113 | the `init` tests: no arguments give count 0; an empty argument, `-m`, `12` and `c` give 12 in minutes |
| TimaParser.Matches | tima-engine/src/parser.rs:8 | the pattern `^\d*[a-zA-Z]*$` as a predicate; `TimaParser.MatchesIff` characterises it |
| TimaParser.Pieces | tima-engine/src/parser.rs:19-30 | the entries one token pushes; `TimaParser.PiecesRoundTrip`, `TimaParser.PiecesShape` and `TimaParser.EdgeTokens` state them |
| TimaParser.Split | tima-engine/src/parser.rs:16-35 | the output of `parse` as a function, each token's pieces in order; `TimaParser.SplitAppend`, `TimaParser.SplitShape` and `TimaParser.SplitRoundTrip` state its properties |
| TimaParser.Parse | tima-engine/src/parser.rs:16-35 | the pushed entries are exactly the non-empty time and unit captures of the matching tokens, in order |
| TimaParser.MatchesIff | tima-engine/src/parser.rs:8 | a token matches iff it is a (possibly empty) run of digits followed by a (possibly empty) run of letters |
| TimaParser.PiecesRoundTrip | tima-engine/src/parser.rs:22-29 | the pieces of a matching token concatenate back to the token |
| TimaParser.PiecesShape | tima-engine/src/parser.rs:22-29 | a token's pieces are at most a non-empty digit run then a non-empty letter run |
| TimaParser.SplitAppend | tima-engine/src/parser.rs:18-33 | parsing a concatenation of token lists concatenates the results |
| TimaParser.SplitShape | tima-engine/src/parser.rs:22-29 | every entry of the result is non-empty and either all digits or all letters |
| TimaParser.SplitRoundTrip | tima-engine/src/parser.rs:16-35 | joining the result gives back the joined matching tokens: nothing is lost or invented |
| TimaParser.EdgeTokens | tima-engine/src/parser.rs:23-28 | the empty token yields nothing, a non-empty digits-only token yields only itself as its time, a non-empty letters-only token only itself as its unit |
| TimaParser.DigitAfterLetterRejected | tima-engine/src/parser.rs:8 | `1s1` does not match and contributes nothing |
| TimaParser.ParseExamples | tima-engine/src/parser.rs:69-80 | the compound tokens of the test give their digit and letter pieces, in order, and `1s1` is dropped |
| TimaParser.ParseSingleExamples | tima-engine/src/parser.rs:90-108 | the single-token tests: the empty token gives nothing, `1s` gives `1` and `s`, `1` and `milli` give themselves |
| TimaParser.UnitCode | tima-engine/src/parser.rs:40-46 | each of the sixteen spellings maps to its canonical code and every other entry to the empty string |
| TimaParser.NormaliseUnits | tima-engine/src/parser.rs:37-49 | every entry of the result is a canonical unit code |
| TimaParser.NormaliseKeepsRecognised | tima-engine/src/parser.rs:40-47 | the result is the codes of exactly the recognised entries, in order |
| TimaParser.NormaliseAppend | tima-engine/src/parser.rs:37-49 | normalising a concatenation concatenates the results |
| TimaParser.CodesAreFixed | tima-engine/src/parser.rs:41-44 | each canonical code maps to itself |
| TimaParser.NormaliseIdempotent | tima-engine/src/parser.rs:37-49 | normalising twice is normalising once |
| TimaParser.NumeralsDropped | tima-engine/src/parser.rs:45 | a numeral is not a unit spelling and is dropped |
| TimaParser.NormaliseExamples | tima-engine/src/parser.rs:111-125 | the normalisation tests: an empty list stays empty; numbers vanish and spellings become codes |
| SrcParser.Matches | src/parser.rs:8 | the pattern `^(\d+)([a-zA-Z]*)$` as a predicate; `SrcParser.MatchesIff` characterises it |
| SrcParser.Parse | src/parser.rs:16-18 | the filter `parse` applies; `SrcParser.ParseKeepsMatching`, `SrcParser.ParseSubsequence` and `SrcParser.ParseIdempotent` state its properties |
| SrcParser.MatchesIff | src/parser.rs:8 | a token matches iff it is one or more digits followed by letters only |
| SrcParser.MatchesNeedsDigit | src/parser.rs:8 | this pattern is the engine crate's pattern restricted to tokens starting with a digit |
| SrcParser.LettersOnlyRejected | src/parser.rs:8 | a token of letters only, including the empty token, is rejected |
| SrcParser.ParseKeepsMatching | src/parser.rs:16-18 | a token occurs in the result iff it occurs in the input and matches |
| SrcParser.ParseSubsequence | src/parser.rs:16-18 | the result is an order-preserving subsequence of the input, no longer than it |
| SrcParser.ParseIdempotent | src/parser.rs:16-18 | parsing twice is parsing once |
| SrcParser.ParseExamples | src/parser.rs:24-49 | the tests: of `1s 10sec 101milli 0h 1s1` the first four are kept, and the empty token is dropped |

## Left out

- Sleeping (`thread::sleep` in every `start`) is not modelled; `WaitSeconds` gives the number of seconds `start` would sleep.
- The `main.rs` files (reading the process arguments, wiring `init` to `start`) are not part of this model.
- The `eprintln!` for a token that does not match in `tima-engine/src/parser.rs` is not modelled: the token simply contributes nothing.
- The `regex` and `lazy_static` machinery is replaced by hand-written predicates over ASCII digits and letters; Rust's `\d` also accepts non-ASCII Unicode digits, which the model does not.
- The parsers' `Components` struct and the `vec_string!` test macro are not part of this model.
- The tests that read process arguments from the environment, and the ignored test of `src/parser.rs`, are not stated.
- TimaEngine.Tima.WaitSeconds: an overflowing `max_count * 60` is modelled as the debug build's panic (`None`); a release build wraps modulo 2^64 instead.
- SrcEngine.WaitSeconds: same overflow treatment as above.
- SrcTimer.Timer.WaitSeconds: same overflow treatment as above.
- SrcTima.Tima.WaitSeconds: same overflow treatment as above.
- No policy reconciling the three merge rules is modelled; the code has none, and `MergePolicy.PoliciesDiffer` shows that they disagree.
