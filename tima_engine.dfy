/** The current engine (tima-engine/src/engine.rs).  `init` starts from a fresh
    `Tima` and lets a closure update its fields once per converted argument:
    `-m` and `-q` set sticky flags, and every positive numeral overwrites the
    count, so the last one wins. */
module TimaEngine {
  import opened Wrappers
  import opened Lexicon
  import opened Numerals
  import opened Arguments
  import opened MergePolicy

  class Tima {
    var maxCount: U64
    var minutes: bool
    var quietMode: bool

    /** `Tima::new`: a zero count and both flags off. */
    constructor ()
      ensures maxCount == 0 && !minutes && !quietMode
    {
      maxCount := 0;
      minutes := false;
      quietMode := false;
    }

    /** The closure built by `create_tima`, applied to one converted argument:
        `-m` sets `minutes`, `-q` sets `quietMode`, a positive value replaces the
        count, and anything else (an unrecognised text, the value 0) changes nothing. */
    method Absorb(value: Value)
      modifies this
      ensures minutes == (old(minutes) || value.aStr == "-m")
      ensures quietMode == (old(quietMode) || value.aStr == "-q")
      ensures maxCount ==
        if value.aStr != "-m" && value.aStr != "-q" && value.aNum > 0 then value.aNum else old(maxCount)
    {
      if value.aStr == "-m" {
        minutes := true;
      } else if value.aStr == "-q" {
        quietMode := true;
      } else if value.aNum > 0 {
        maxCount := value.aNum;
      }
    }

    /** `Tima::init`: the count is the last positive numeral among the arguments
        (0 if there is none), and each flag is on exactly when its token occurs. */
    static method Init(args: seq<string>) returns (t: Tima)
      ensures t.maxCount == LastPositive(args)
      ensures t.minutes <==> "-m" in args
      ensures t.quietMode <==> "-q" in args
    {
      t := new Tima();
      for i := 0 to |args|
        invariant t.maxCount == LastPositive(args[..i])
        invariant t.minutes <==> "-m" in args[..i]
        invariant t.quietMode <==> "-q" in args[..i]
      {
        t.Absorb(ConvertArguments(args[i]));
        assert args[..i + 1][..i] == args[..i];
        assert args[..i + 1] == args[..i] + [args[i]];
      }
      assert args[..|args|] == args;
    }

    /** The length of the wait `start` sleeps for, in seconds: the count, read as
        minutes when `minutes` is set.  `None` is the overflow panic of
        `max_count * 60`, which happens exactly for counts above `MAX_MINUTES`. */
    function WaitSeconds(): (r: Option<U64>)
      reads this
      ensures r.None? <==> minutes && maxCount > MAX_MINUTES
      ensures r.Some? && minutes ==> r.value % 60 == 0 && r.value / 60 == maxCount
      ensures r.Some? && !minutes ==> r.value == maxCount
    {
      if minutes then CheckedMul(maxCount, 60) else Some(maxCount)
    }
  }

  /** An argument that is neither flag nor positive numeral (`c`, `0`, `+0`, the
      empty text, an overflowing numeral) leaves the whole configuration as it was. */
  lemma UnrecognisedArgumentIgnored(a: seq<string>, x: string, b: seq<string>)
    requires x != "-m" && x != "-q" && !PositiveNumeral(x)
    ensures LastPositive(a + [x] + b) == LastPositive(a + b)
    ensures "-m" in a + [x] + b <==> "-m" in a + b
    ensures "-q" in a + [x] + b <==> "-q" in a + b
  {
    NonPositiveIgnored(a, x, b);
  }

  /** A numeral too large for a `u64` fails to parse and so has no effect. */
  lemma OverflowingNumeralIgnored(a: seq<string>, n: nat, b: seq<string>)
    requires n > U64_MAX
    ensures LastPositive(a + [Decimal(n)] + b) == LastPositive(a + b)
    ensures "-m" in a + [Decimal(n)] + b <==> "-m" in a + b
    ensures "-q" in a + [Decimal(n)] + b <==> "-q" in a + b
  {
    ParseDecimalOverflow(n);
    var s := Decimal(n);
    assert s != "-m" && s != "-q" by {
      assert IsDigit(s[0]);
    }
    UnrecognisedArgumentIgnored(a, s, b);
  }

  /** The unit tests of tima-engine/src/engine.rs, stated on the model. */
  method TestInit() {
    var empty := Tima.Init([]);
    assert empty.maxCount == 0 && !empty.minutes && !empty.quietMode;

    TestCounts();
    var t := Tima.Init(["-m", "12", "c"]);
    assert ["-m", "12", "c"][..2] == ["-m", "12"];
    assert t.maxCount == 12 && t.minutes && !t.quietMode;

    var r := Tima.Init(["-m", "12", "24", "-q"]);
    assert r.maxCount == 24 && r.minutes && r.quietMode;
  }
}
