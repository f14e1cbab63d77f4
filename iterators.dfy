/** The iterator adapters the source chains together (`map`, `filter`, `reduce`,
    and flattening a vector of strings), as functions on finite sequences. */
module Iterators {
  import opened Wrappers

  /** `Iterator::map` collected into a vector. */
  function Map<A, B>(f: A -> B, s: seq<A>): (r: seq<B>)
    ensures |r| == |s|
    ensures forall i :: 0 <= i < |s| ==> r[i] == f(s[i])
  {
    seq(|s|, i requires 0 <= i < |s| => f(s[i]))
  }

  /** `Iterator::filter` collected into a vector: the elements satisfying `p`, in order. */
  function Filter<A>(p: A -> bool, s: seq<A>): (r: seq<A>)
    ensures |r| <= |s|
  {
    if s == [] then []
    else (if p(s[0]) then [s[0]] else []) + Filter(p, s[1..])
  }

  /** Every kept element comes from `s` and passes `p`, and every element of
      `s` that passes `p` is kept. */
  lemma {:induction false} FilterMembers<A>(p: A -> bool, s: seq<A>)
    ensures forall i :: 0 <= i < |Filter(p, s)| ==> Filter(p, s)[i] in s && p(Filter(p, s)[i])
    ensures forall i :: 0 <= i < |s| && p(s[i]) ==> s[i] in Filter(p, s)
  {
    if s != [] {
      FilterMembers(p, s[1..]);
      var head := if p(s[0]) then [s[0]] else [];
      var r := Filter(p, s);
      assert r == head + Filter(p, s[1..]);
      assert forall i :: 0 < i < |s| ==> s[i] == s[1..][i - 1];
      forall i | 0 <= i < |r| ensures r[i] in s && p(r[i]) {
        if i >= |head| {
          assert r[i] == Filter(p, s[1..])[i - |head|];
        }
      }
    }
  }

  /** Left fold, the order in which `reduce` combines the elements. */
  function FoldLeft<A>(f: (A, A) -> A, acc: A, s: seq<A>): A {
    if s == [] then acc else FoldLeft(f, f(acc, s[0]), s[1..])
  }

  /** `Iterator::reduce`: `None` on an empty sequence, otherwise the first
      element folded with the rest from left to right. */
  function Reduce<A>(f: (A, A) -> A, s: seq<A>): (r: Option<A>)
    ensures r.None? <==> s == []
  {
    if s == [] then None else Some(FoldLeft(f, s[0], s[1..]))
  }

  /** The sequences `f` gives for the elements of `s`, joined in order (what a
      loop pushing each element's outputs onto one vector builds). */
  function FlatMap<A, B>(f: A -> seq<B>, s: seq<A>): seq<B> {
    if s == [] then [] else FlatMap(f, s[..|s| - 1]) + f(s[|s| - 1])
  }

  /** All strings of `s` joined end to end. */
  function Concat(s: seq<string>): string {
    if s == [] then [] else s[0] + Concat(s[1..])
  }

  /** `a` is `b` with some elements left out and the rest kept in order. */
  ghost predicate Subsequence<A>(a: seq<A>, b: seq<A>) {
    if b == [] then a == []
    else (a != [] && a[0] == b[0] && Subsequence(a[1..], b[1..])) || Subsequence(a, b[1..])
  }

  lemma {:induction false} FilterAppend<A>(p: A -> bool, a: seq<A>, b: seq<A>)
    ensures Filter(p, a + b) == Filter(p, a) + Filter(p, b)
  {
    if a != [] {
      var head := if p(a[0]) then [a[0]] else [];
      assert (a + b)[0] == a[0] && (a + b)[1..] == a[1..] + b;
      FilterAppend(p, a[1..], b);
      calc {
        Filter(p, a + b);
        head + Filter(p, a[1..] + b);
        head + (Filter(p, a[1..]) + Filter(p, b));
        (head + Filter(p, a[1..])) + Filter(p, b);
      }
    } else {
      assert a + b == b;
    }
  }

  lemma {:induction false} FilterIsSubsequence<A>(p: A -> bool, s: seq<A>)
    ensures Subsequence(Filter(p, s), s)
  {
    if s != [] {
      var r := Filter(p, s[1..]);
      FilterIsSubsequence(p, s[1..]);
      if p(s[0]) {
        assert Filter(p, s) == [s[0]] + r;
        assert ([s[0]] + r)[1..] == r;
      } else {
        assert Filter(p, s) == r;
      }
    }
  }

  lemma {:induction false} FilterIdempotent<A>(p: A -> bool, s: seq<A>)
    ensures Filter(p, Filter(p, s)) == Filter(p, s)
  {
    if s != [] {
      var r := Filter(p, s[1..]);
      FilterIdempotent(p, s[1..]);
      if p(s[0]) {
        assert Filter(p, s) == [s[0]] + r;
        assert ([s[0]] + r)[1..] == r;
      } else {
        assert Filter(p, s) == r;
      }
    }
  }

  lemma {:induction false} FoldLeftSnoc<A>(f: (A, A) -> A, acc: A, s: seq<A>, x: A)
    ensures FoldLeft(f, acc, s + [x]) == f(FoldLeft(f, acc, s), x)
  {
    if s != [] {
      assert (s + [x])[1..] == s[1..] + [x];
      FoldLeftSnoc(f, f(acc, s[0]), s[1..], x);
    }
  }

  lemma {:induction false} ConcatAppend(a: seq<string>, b: seq<string>)
    ensures Concat(a + b) == Concat(a) + Concat(b)
  {
    if a != [] {
      assert (a + b)[0] == a[0] && (a + b)[1..] == a[1..] + b;
      ConcatAppend(a[1..], b);
      calc {
        Concat(a + b);
        a[0] + Concat(a[1..] + b);
        a[0] + (Concat(a[1..]) + Concat(b));
        (a[0] + Concat(a[1..])) + Concat(b);
      }
    } else {
      assert a + b == b;
    }
  }

  lemma {:induction false} FlatMapAppend<A, B>(f: A -> seq<B>, a: seq<A>, b: seq<A>)
    ensures FlatMap(f, a + b) == FlatMap(f, a) + FlatMap(f, b)
  {
    if b == [] {
      assert a + b == a;
    } else {
      var init, last := b[..|b| - 1], b[|b| - 1];
      assert (a + b)[..|a + b| - 1] == a + init && (a + b)[|a + b| - 1] == last;
      FlatMapAppend(f, a, init);
      calc {
        FlatMap(f, a + b);
        FlatMap(f, a + init) + f(last);
        (FlatMap(f, a) + FlatMap(f, init)) + f(last);
        FlatMap(f, a) + (FlatMap(f, init) + f(last));
      }
    }
  }

  /** Filtering mapped values is mapping the elements that pass the matching test. */
  lemma {:induction false} FilterMap<A, B>(p: B -> bool, f: A -> B, q: A -> bool, s: seq<A>)
    requires forall x :: p(f(x)) <==> q(x)
    ensures Filter(p, Map(f, s)) == Map(f, Filter(q, s))
  {
    if s != [] {
      var m := Map(f, s);
      assert m[0] == f(s[0]) && m[1..] == Map(f, s[1..]);
      FilterMap(p, f, q, s[1..]);
      var kept := if q(s[0]) then [s[0]] else [];
      MapAppend(f, kept, Filter(q, s[1..]));
    }
  }

  lemma MapAppend<A, B>(f: A -> B, a: seq<A>, b: seq<A>)
    ensures Map(f, a + b) == Map(f, a) + Map(f, b)
  {
  }

  /** Reducing one more element combines it with the reduction of the others. */
  lemma ReduceSnoc<A>(f: (A, A) -> A, s: seq<A>, x: A)
    ensures Reduce(f, s + [x]) == if s == [] then Some(x) else Some(f(Reduce(f, s).value, x))
  {
    if s != [] {
      assert (s + [x])[0] == s[0] && (s + [x])[1..] == s[1..] + [x];
      FoldLeftSnoc(f, s[0], s[1..], x);
    }
  }

  /** Filtering by a condition every element meets keeps the sequence as it is. */
  lemma {:induction false} FilterAll<A>(p: A -> bool, s: seq<A>)
    requires forall i :: 0 <= i < |s| ==> p(s[i])
    ensures Filter(p, s) == s
  {
    if s != [] {
      FilterAll(p, s[1..]);
    }
  }
}
