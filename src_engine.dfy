/** The engine of the first crate (src/engine.rs), written as an iterator
    pipeline: convert every argument, keep `-m`, `-q` and positive numerals,
    turn each into a one-argument `Tima`, and reduce these with
    `create_final_tima`, which keeps the larger count and ORs the minutes flag.
    The count is therefore the largest positive numeral; `-q` is accepted but
    has no effect, since this `Tima` has no quiet flag. */
module SrcEngine {
  import opened Wrappers
  import opened Numerals
  import opened Arguments
  import opened Iterators
  import opened MergePolicy

  datatype Tima = Tima(maxCount: U64, minutes: bool)

  /** `Tima::new`: the given count, minutes off. */
  function New(maxCount: U64): (t: Tima)
    ensures t.maxCount == maxCount && !t.minutes
  {
    Tima(maxCount, false)
  }

  /** The derived `Default`, which `unwrap_or_default` falls back on. */
  const Default: Tima := Tima(0, false)

  /** The filter of the pipeline. */
  predicate ValidValues(value: Value) {
    value.aStr == "-m" || value.aStr == "-q" || value.aNum > 0
  }

  /** The `Tima` one kept argument contributes. */
  function SetValues(value: Value): Tima {
    var tmr := New(0);
    var tmr := if value.aStr == "-m" then tmr.(minutes := true) else tmr;
    tmr.(maxCount := value.aNum)
  }

  /** The reducer: the larger of the two counts and either minutes flag. */
  function CreateFinalTima(tmr1: Tima, tmr2: Tima): (t: Tima)
    ensures t.maxCount >= tmr1.maxCount && t.maxCount >= tmr2.maxCount
    ensures t.maxCount == tmr1.maxCount || t.maxCount == tmr2.maxCount
    ensures t.minutes <==> tmr1.minutes || tmr2.minutes
  {
    var tmr2 := if tmr1.maxCount > tmr2.maxCount then tmr2.(maxCount := tmr1.maxCount) else tmr2;
    if tmr1.minutes then tmr2.(minutes := true) else tmr2
  }

  /** The stages of `init` before the final `reduce`. */
  function Contributions(args: seq<string>): seq<Tima> {
    Map(SetValues, Filter(ValidValues, Map(ConvertArguments, args)))
  }

  /** `Tima::init`. */
  function Init(args: seq<string>): Tima {
    Reduce(CreateFinalTima, Contributions(args)).GetOr(Default)
  }

  /** The filter keeps exactly the two flags and the positive numerals; `c`, `0`
      and the empty argument are dropped. */
  lemma ValidArguments(arg: string)
    ensures ValidValues(ConvertArguments(arg)) <==> arg == "-m" || arg == "-q" || PositiveNumeral(arg)
  {
  }

  /** What a kept argument contributes: `-m` gives minutes and a zero count, `-q`
      gives the default, and a numeral its value. */
  lemma Contribution(arg: string)
    requires ValidValues(ConvertArguments(arg))
    ensures SetValues(ConvertArguments(arg)) == Tima(PositiveValue(arg), arg == "-m")
  {
  }

  lemma ContributionsSnoc(a: seq<string>, x: string)
    ensures Contributions(a + [x]) ==
      Contributions(a) + if ValidValues(ConvertArguments(x)) then [SetValues(ConvertArguments(x))] else []
  {
    MapAppend(ConvertArguments, a, [x]);
    var converted := Map(ConvertArguments, a);
    assert Map(ConvertArguments, [x]) == [ConvertArguments(x)];
    FilterAppend(ValidValues, converted, [ConvertArguments(x)]);
    assert [ConvertArguments(x)][1..] == [];
    MapAppend(SetValues, Filter(ValidValues, converted), Filter(ValidValues, [ConvertArguments(x)]));
  }

  /** The count of `init` is the largest positive numeral (0 if there is none),
      and minutes is on exactly when some argument is `-m`. */
  lemma {:induction false} InitIsLargestCount(args: seq<string>)
    ensures Init(args) == Tima(MaxPositive(args), "-m" in args)
  {
    if args == [] {
    } else {
      var a, x := args[..|args| - 1], args[|args| - 1];
      assert args == a + [x];
      InitIsLargestCount(a);
      ContributionsSnoc(a, x);
      MaxPositiveAppend(a, [x]);
      assert [x][1..] == [];
      assert MaxPositive([x]) == PositiveValue(x);
      var c := ConvertArguments(x);
      if ValidValues(c) {
        Contribution(x);
        ReduceSnoc(CreateFinalTima, Contributions(a), SetValues(c));
        if Contributions(a) == [] {
          assert Init(a) == Default;
        }
      } else {
        assert Contributions(args) == Contributions(a);
      }
    }
  }

  /** The order of the arguments does not matter. */
  lemma InitOrderIndependent(a: seq<string>, b: seq<string>)
    requires multiset(a) == multiset(b)
    ensures Init(a) == Init(b)
  {
    InitIsLargestCount(a);
    InitIsLargestCount(b);
    MaxPositivePermutation(a, b);
    assert "-m" in a <==> "-m" in multiset(a);
    assert "-m" in b <==> "-m" in multiset(b);
  }

  /** `-q` passes the filter but changes nothing. */
  lemma QuietIgnored(a: seq<string>, b: seq<string>)
    ensures Init(a + ["-q"] + b) == Init(a + b)
  {
    InitIsLargestCount(a + ["-q"] + b);
    InitIsLargestCount(a + b);
    FlagsAreNotNumerals();
    NonPositiveIgnored(a, "-q", b);
  }

  /** The unit tests of src/engine.rs: no arguments give the default. */
  lemma InitNoValues()
    ensures Init([]) == Tima(0, false)
  {
    InitIsLargestCount([]);
  }

  /** Three arguments: the larger count and whether any of them is `-m`. */
  lemma InitOfThree(x: string, y: string, z: string)
    ensures Init([x, y, z]) ==
      Tima(Max(PositiveValue(x), Max(PositiveValue(y), PositiveValue(z))), x == "-m" || y == "-m" || z == "-m")
  {
    var args := [x, y, z];
    InitIsLargestCount(args);
    assert [z][1..] == [] && [y, z][1..] == [z] && args[1..] == [y, z];
    assert MaxPositive([z]) == PositiveValue(z);
    assert MaxPositive([y, z]) == Max(PositiveValue(y), MaxPositive([z]));
    assert MaxPositive(args) == Max(PositiveValue(x), MaxPositive([y, z]));
  }

  /** Four arguments: the largest count and whether any of them is `-m`. */
  lemma InitOfFour(w: string, x: string, y: string, z: string)
    ensures Init([w, x, y, z]) ==
      Tima(Max(PositiveValue(w), Max(PositiveValue(x), Max(PositiveValue(y), PositiveValue(z)))),
           w == "-m" || x == "-m" || y == "-m" || z == "-m")
  {
    var args := [w, x, y, z];
    InitIsLargestCount(args);
    assert [z][1..] == [] && [y, z][1..] == [z] && [x, y, z][1..] == [y, z] && args[1..] == [x, y, z];
    assert MaxPositive([z]) == PositiveValue(z);
    assert MaxPositive([y, z]) == Max(PositiveValue(y), MaxPositive([z]));
    assert MaxPositive([x, y, z]) == Max(PositiveValue(x), MaxPositive([y, z]));
    assert MaxPositive(args) == Max(PositiveValue(w), MaxPositive([x, y, z]));
  }

  /** The unit tests of src/engine.rs: the count is taken and `c` is dropped. */
  lemma InitMixed()
    ensures Init(["-m", "12", "c"]) == Tima(12, true)
  {
    InitOfThree("-m", "12", "c");
    TestCounts();
  }

  /** The unit tests of src/engine.rs: of two counts the larger one is kept. */
  lemma InitRepeatedValues()
    ensures Init(["-m", "12", "24", "-q"]) == Tima(24, true)
  {
    InitOfFour("-m", "12", "24", "-q");
    TestCounts();
  }

  /** The wait of `start`, in src/engine.rs: `None` is the panic
      of `max_count * 60` overflowing. */
  function WaitSeconds(t: Tima): (r: Option<U64>)
    ensures r.None? <==> t.minutes && t.maxCount > MAX_MINUTES
    ensures r.Some? && t.minutes ==> r.value % 60 == 0 && r.value / 60 == t.maxCount
    ensures r.Some? && !t.minutes ==> r.value == t.maxCount
  {
    if t.minutes then CheckedMul(t.maxCount, 60) else Some(t.maxCount)
  }
}
