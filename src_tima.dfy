/** The `Tima` of the first crate's second copy of the timer (src/tima.rs),
    line for line the same logic as src/timer.rs.  `init` filters the
    arguments down to `-m` and those that parse as a `u64`, then updates a
    mutable timer: `-m` sets the sticky minutes flag, and a numeral is stored
    only while the count is still 0, so the first positive numeral wins. */
module SrcTima {
  import opened Wrappers
  import opened Numerals
  import opened MergePolicy

  class Tima {
    var maxCount: U64
    var minutes: bool

    /** `Tima::new`: the given count, minutes off. */
    constructor (maxCount: U64)
      ensures this.maxCount == maxCount && !minutes
    {
      this.maxCount := maxCount;
      minutes := false;
    }

    /** `Tima::init`: the count is the first positive numeral among the
        arguments (0 if there is none), and minutes is on exactly when some
        argument is `-m`.  The `unwrap` of the parse cannot fail: the filter only
        lets through `-m` and arguments that parse. */
    static method Init(args: seq<string>) returns (t: Tima)
      ensures t.maxCount == FirstPositive(args)
      ensures t.minutes <==> "-m" in args
    {
      t := new Tima(0);
      for i := 0 to |args|
        invariant t.maxCount == FirstPositive(args[..i])
        invariant t.minutes <==> "-m" in args[..i]
      {
        var arg := args[i];
        if arg == "-m" || ParseU64(arg).Some? {
          if arg == "-m" {
            t.minutes := true;
          } else if t.maxCount == 0 {
            t.maxCount := ParseU64(arg).value;
          }
        }
        FirstPositiveAppend(args[..i], [arg]);
        assert FirstPositive([arg]) == PositiveValue(arg) by {
          assert [arg][1..] == [];
        }
        assert args[..i + 1] == args[..i] + [arg];
      }
      assert args[..|args|] == args;
    }

    /** The wait of `start`, in src/tima.rs: `None` is the panic
        of `max_count * 60` overflowing. */
    function WaitSeconds(): (r: Option<U64>)
      reads this
      ensures r.None? <==> minutes && maxCount > MAX_MINUTES
      ensures r.Some? && minutes ==> r.value % 60 == 0 && r.value / 60 == maxCount
      ensures r.Some? && !minutes ==> r.value == maxCount
    {
      if minutes then CheckedMul(maxCount, 60) else Some(maxCount)
    }
  }

  /** The unit tests of src/tima.rs, stated on the model. */
  method TestInit() {
    var empty := Tima.Init([]);
    assert empty.maxCount == 0 && !empty.minutes;

    TestCounts();
    var t := Tima.Init(["", "-m", "12", "c"]);
    assert ["", "-m", "12", "c"][1..][1..] == ["12", "c"];
    assert t.maxCount == 12 && t.minutes;
  }
}
