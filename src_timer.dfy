/** The `Timer` of the first crate (src/timer.rs).  `init` filters the
    arguments down to `-m` and those that parse as a `u64`, then updates a
    mutable timer: `-m` sets the sticky minutes flag, and a numeral is stored
    only while the count is still 0, so the first positive numeral wins. */
module SrcTimer {
  import opened Wrappers
  import opened Numerals
  import opened MergePolicy

  class Timer {
    var maxCount: U64
    var minutes: bool

    /** `Timer::new`: the given count, minutes off. */
    constructor (maxCount: U64)
      ensures this.maxCount == maxCount && !minutes
    {
      this.maxCount := maxCount;
      minutes := false;
    }

    /** `Timer::init`: the count is the first positive numeral among the
        arguments (0 if there is none), and minutes is on exactly when some
        argument is `-m`.  The `unwrap` of the parse cannot fail: the filter only
        lets through `-m` and arguments that parse. */
    static method Init(args: seq<string>) returns (t: Timer)
      ensures t.maxCount == FirstPositive(args)
      ensures t.minutes <==> "-m" in args
    {
      t := new Timer(0);
      for i := 0 to |args|
        invariant t.maxCount == FirstPositive(args[..i])
        invariant t.minutes <==> "-m" in args[..i]
      {
        var arg := args[i];
        if arg == "-m" || ParseU64(arg).Some? {
          if arg == "-m" {
            t.minutes := true;
          } else if t.maxCount == 0 {
            t.maxCount := ParseU64(arg).value;
          }
        }
        FirstPositiveAppend(args[..i], [arg]);
        assert FirstPositive([arg]) == PositiveValue(arg) by {
          assert [arg][1..] == [];
        }
        assert args[..i + 1] == args[..i] + [arg];
      }
      assert args[..|args|] == args;
    }

    /** The wait of `start`, in src/timer.rs: `None` is the panic
        of `max_count * 60` overflowing. */
    function WaitSeconds(): (r: Option<U64>)
      reads this
      ensures r.None? <==> minutes && maxCount > MAX_MINUTES
      ensures r.Some? && minutes ==> r.value % 60 == 0 && r.value / 60 == maxCount
      ensures r.Some? && !minutes ==> r.value == maxCount
    {
      if minutes then CheckedMul(maxCount, 60) else Some(maxCount)
    }
  }

  /** An argument that is neither `-m` nor a positive numeral (`-q`, `c`, `0`,
      the empty argument, an overflowing numeral) leaves the timer as it was. */
  lemma UnrecognisedArgumentIgnored(a: seq<string>, x: string, b: seq<string>)
    requires x != "-m" && !PositiveNumeral(x)
    ensures FirstPositive(a + [x] + b) == FirstPositive(a + b)
    ensures "-m" in a + [x] + b <==> "-m" in a + b
  {
    NonPositiveIgnored(a, x, b);
  }

  /** Once a positive count is set, no later argument changes it. */
  lemma LaterCountsIgnored(a: seq<string>, b: seq<string>)
    requires FirstPositive(a) > 0
    ensures FirstPositive(a + b) == FirstPositive(a)
  {
    FirstPositiveAppend(a, b);
  }

  /** The unit tests of src/timer.rs, stated on the model. */
  method TestInit() {
    var empty := Timer.Init([]);
    assert empty.maxCount == 0 && !empty.minutes;

    TestCounts();
    var t := Timer.Init(["", "-m", "12", "c"]);
    assert ["", "-m", "12", "c"][1..][1..] == ["12", "c"];
    assert t.maxCount == 12 && t.minutes;
  }
}
