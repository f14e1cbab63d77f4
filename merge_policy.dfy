/** The three rules by which the historical variants of the timer merge several
    count arguments into one.  They are reference definitions over the raw
    arguments: each variant's `init` is proved equal to its own rule, and the
    rules are kept apart because the variants really do disagree.

    - last positive numeral wins: tima-engine/src/engine.rs
    - the largest positive numeral wins: src/engine.rs
    - the first positive numeral wins: src/timer.rs and src/tima.rs  */
module MergePolicy {
  import opened Wrappers
  import opened Numerals

  function Max(a: U64, b: U64): U64 {
    if a < b then b else a
  }

  /** The value of the last argument that is a positive numeral, 0 if none is. */
  function LastPositive(args: seq<string>): U64 {
    if args == [] then 0
    else if PositiveNumeral(args[|args| - 1]) then PositiveValue(args[|args| - 1])
    else LastPositive(args[..|args| - 1])
  }

  /** The largest value of a positive numeral among the arguments, 0 if none is. */
  function MaxPositive(args: seq<string>): U64 {
    if args == [] then 0 else Max(PositiveValue(args[0]), MaxPositive(args[1..]))
  }

  /** The value of the first argument that is a positive numeral, 0 if none is. */
  function FirstPositive(args: seq<string>): U64 {
    if args == [] then 0
    else if PositiveNumeral(args[0]) then PositiveValue(args[0])
    else FirstPositive(args[1..])
  }

  /** Argument `i` is a numeral of value `n` and no positive numeral comes after it. */
  ghost predicate LastAt(args: seq<string>, i: int, n: U64) {
    0 <= i < |args| && ParseU64(args[i]) == Some(n) &&
    forall j :: i < j < |args| ==> !PositiveNumeral(args[j])
  }

  /** The result of the last-wins rule is 0 exactly when no argument is a positive
      numeral, and otherwise the value of one that no later positive numeral follows. */
  lemma {:induction false} LastPositiveIsLast(args: seq<string>)
    ensures LastPositive(args) == 0 <==> forall i :: 0 <= i < |args| ==> !PositiveNumeral(args[i])
    ensures LastPositive(args) > 0 ==> exists i :: LastAt(args, i, LastPositive(args))
  {
    if args != [] {
      var init, x := args[..|args| - 1], args[|args| - 1];
      LastPositiveIsLast(init);
      assert forall i :: 0 <= i < |init| ==> init[i] == args[i];
      if PositiveNumeral(x) {
        assert LastAt(args, |args| - 1, LastPositive(args));
      } else if LastPositive(init) > 0 {
        var i :| LastAt(init, i, LastPositive(init));
        assert LastAt(args, i, LastPositive(args));
      }
    }
  }

  /** Later arguments override earlier ones: a positive numeral in `b` hides every count in `a`. */
  lemma {:induction false} LastPositiveAppend(a: seq<string>, b: seq<string>)
    ensures LastPositive(a + b) == if LastPositive(b) > 0 then LastPositive(b) else LastPositive(a)
  {
    if b == [] {
      assert a + b == a;
    } else {
      assert (a + b)[..|a + b| - 1] == a + b[..|b| - 1];
      LastPositiveAppend(a, b[..|b| - 1]);
    }
  }

  /** The largest-wins rule yields an upper bound of every positive numeral that is
      itself the value of one of them, or 0 when there is none. */
  lemma {:induction false} MaxPositiveIsMaximum(args: seq<string>)
    ensures forall i :: 0 <= i < |args| ==> PositiveValue(args[i]) <= MaxPositive(args)
    ensures MaxPositive(args) == 0 <==> forall i :: 0 <= i < |args| ==> !PositiveNumeral(args[i])
    ensures MaxPositive(args) > 0 ==>
      exists i :: 0 <= i < |args| && ParseU64(args[i]) == Some(MaxPositive(args))
  {
    if args != [] {
      var tail := args[1..];
      MaxPositiveIsMaximum(tail);
      assert forall i :: 0 < i < |args| ==> args[i] == tail[i - 1];
      if MaxPositive(args) > 0 && MaxPositive(args) != PositiveValue(args[0]) {
        var i :| 0 <= i < |tail| && ParseU64(tail[i]) == Some(MaxPositive(tail));
        assert ParseU64(args[i + 1]) == Some(MaxPositive(args));
      }
    }
  }

  /** The largest-wins rule does not depend on the order of the arguments. */
  lemma MaxPositivePermutation(a: seq<string>, b: seq<string>)
    requires multiset(a) == multiset(b)
    ensures MaxPositive(a) == MaxPositive(b)
  {
    MaxPositiveIsMaximum(a);
    MaxPositiveIsMaximum(b);
    forall i | 0 <= i < |a| ensures PositiveValue(a[i]) <= MaxPositive(b) {
      assert a[i] in multiset(b);
      var j :| 0 <= j < |b| && b[j] == a[i];
    }
    forall i | 0 <= i < |b| ensures PositiveValue(b[i]) <= MaxPositive(a) {
      assert b[i] in multiset(a);
      var j :| 0 <= j < |a| && a[j] == b[i];
    }
    if MaxPositive(a) > 0 {
      var i :| 0 <= i < |a| && ParseU64(a[i]) == Some(MaxPositive(a));
      assert PositiveValue(a[i]) == MaxPositive(a);
    }
    if MaxPositive(b) > 0 {
      var i :| 0 <= i < |b| && ParseU64(b[i]) == Some(MaxPositive(b));
      assert PositiveValue(b[i]) == MaxPositive(b);
    }
  }

  lemma {:induction false} MaxPositiveAppend(a: seq<string>, b: seq<string>)
    ensures MaxPositive(a + b) == Max(MaxPositive(a), MaxPositive(b))
  {
    if a == [] {
      assert a + b == b;
    } else {
      assert (a + b)[0] == a[0] && (a + b)[1..] == a[1..] + b;
      MaxPositiveAppend(a[1..], b);
    }
  }

  /** The result of the first-wins rule is 0 exactly when no argument is a positive
      numeral, and otherwise the value of one that no earlier positive numeral precedes. */
  lemma {:induction false} FirstPositiveIsFirst(args: seq<string>)
    ensures FirstPositive(args) == 0 <==> forall i :: 0 <= i < |args| ==> !PositiveNumeral(args[i])
    ensures FirstPositive(args) > 0 ==>
      exists i :: 0 <= i < |args| && ParseU64(args[i]) == Some(FirstPositive(args)) &&
        forall j :: 0 <= j < i ==> !PositiveNumeral(args[j])
  {
    if args != [] {
      var tail := args[1..];
      FirstPositiveIsFirst(tail);
      assert forall i :: 0 < i < |args| ==> args[i] == tail[i - 1];
      if !PositiveNumeral(args[0]) && FirstPositive(args) > 0 {
        var i :| 0 <= i < |tail| && ParseU64(tail[i]) == Some(FirstPositive(tail)) &&
          forall j :: 0 <= j < i ==> !PositiveNumeral(tail[j]);
        assert ParseU64(args[i + 1]) == Some(FirstPositive(args));
      }
    }
  }

  /** Once a positive count has been seen, later arguments cannot change it. */
  lemma {:induction false} FirstPositiveAppend(a: seq<string>, b: seq<string>)
    ensures FirstPositive(a + b) == if FirstPositive(a) > 0 then FirstPositive(a) else FirstPositive(b)
  {
    if a == [] {
      assert a + b == b;
    } else {
      assert (a + b)[0] == a[0] && (a + b)[1..] == a[1..] + b;
      FirstPositiveAppend(a[1..], b);
    }
  }

  /** An argument that is not a positive numeral (a flag, `0`, an overflowing
      numeral, any other text) changes none of the three results. */
  lemma NonPositiveIgnored(a: seq<string>, x: string, b: seq<string>)
    requires !PositiveNumeral(x)
    ensures LastPositive(a + [x] + b) == LastPositive(a + b)
    ensures MaxPositive(a + [x] + b) == MaxPositive(a + b)
    ensures FirstPositive(a + [x] + b) == FirstPositive(a + b)
  {
    assert [x][..0] == [] && [x][1..] == [];
    assert FirstPositive([x]) == FirstPositive([]);
    assert LastPositive([x]) == 0 && MaxPositive([x]) == 0 && FirstPositive([x]) == 0;
    LastPositiveAppend(a, [x]);
    LastPositiveAppend(a + [x], b);
    LastPositiveAppend(a, b);
    MaxPositiveAppend(a, [x]);
    MaxPositiveAppend(a + [x], b);
    MaxPositiveAppend(a, b);
    FirstPositiveAppend(a, [x]);
    FirstPositiveAppend(a + [x], b);
    FirstPositiveAppend(a, b);
  }

  /** When every positive numeral among the arguments has the same value, the
      three rules agree. */
  lemma PoliciesAgreeOnOneCount(args: seq<string>)
    requires forall i, j ::
      (0 <= i < |args| && 0 <= j < |args| && PositiveNumeral(args[i]) && PositiveNumeral(args[j]))
      ==> ParseU64(args[i]) == ParseU64(args[j])
    ensures FirstPositive(args) == LastPositive(args) == MaxPositive(args)
  {
    FirstPositiveIsFirst(args);
    LastPositiveIsLast(args);
    MaxPositiveIsMaximum(args);
    if FirstPositive(args) > 0 {
      var i :| 0 <= i < |args| && ParseU64(args[i]) == Some(FirstPositive(args)) &&
        forall j :: 0 <= j < i ==> !PositiveNumeral(args[j]);
      var k :| LastAt(args, k, LastPositive(args));
      var m :| 0 <= m < |args| && ParseU64(args[m]) == Some(MaxPositive(args));
      assert PositiveNumeral(args[i]) && PositiveNumeral(args[k]) && PositiveNumeral(args[m]);
    }
  }

  /** Two counts in either order tell the rules apart. */
  lemma PoliciesDiffer()
    ensures FirstPositive(["12", "24"]) == 12 && LastPositive(["12", "24"]) == 24
    ensures MaxPositive(["12", "24"]) == 24
    ensures FirstPositive(["24", "12"]) == 24 && LastPositive(["24", "12"]) == 12
    ensures MaxPositive(["24", "12"]) == 24
  {
    TestCounts();
    assert ["12", "24"][1..] == ["24"] && ["24", "12"][1..] == ["12"];
    assert ["12", "24"][..1] == ["12"] && ["24", "12"][..1] == ["24"];
  }
}
