/**
 * The bounded moving-average filter over raw classifier scores
 * (audio/ConfidenceSmoother.kt): an ArrayDeque of at most `windowSize`
 * scores, oldest first, whose `add` evicts the oldest score when the deque
 * is full and returns the arithmetic mean of what it holds.
 */
module Smoother {
  import opened Wrappers

  /** Sum of the held scores, accumulated oldest first. */
  function Sum(s: seq<real>): real
  {
    if s == [] then 0.0 else Sum(s[..|s| - 1]) + s[|s| - 1]
  }

  /** `values.average()`: the arithmetic mean of a non-empty deque. */
  function Mean(s: seq<real>): real
    requires |s| > 0
  {
    Sum(s) / (|s| as real)
  }

  /** The last `n` elements of `s` (all of `s` when it is shorter). */
  function LastN(s: seq<real>, n: nat): (r: seq<real>)
    ensures |r| == if |s| <= n then |s| else n
    ensures r == s[|s| - |r|..]
  {
    if |s| <= n then s else s[|s| - n..]
  }

  /**
   * Lines 10-13 of `add` on the deque's contents: remove the first element
   * when the deque holds `windowSize` or more, then append `v`. `None`
   * stands for the NoSuchElementException that `removeFirst` throws on an
   * empty deque, which is what happens when `windowSize <= 0`.
   */
  function Evict(values: seq<real>, windowSize: int, v: real): Option<seq<real>>
  {
    if |values| >= windowSize then
      if values == [] then None else Some(values[1..] + [v])
    else
      Some(values + [v])
  }

  /** With a non-positive window the very first `add` throws. */
  lemma NonPositiveWindowThrows(windowSize: int, v: real)
    requires windowSize <= 0
    ensures Evict([], windowSize, v) == None
  {
  }

  /**
   * The deque holds the last `windowSize` values added since the last reset:
   * if it did before an `add(v)`, it does afterwards, with `v` appended and
   * only the oldest value evicted.
   */
  lemma {:induction false} EvictKeepsLatest(added: seq<real>, windowSize: int, v: real)
    requires windowSize >= 1
    ensures Evict(LastN(added, windowSize), windowSize, v) == Some(LastN(added + [v], windowSize))
  {
    var held := LastN(added, windowSize);
    var all := added + [v];
    if |added| < windowSize {
      assert LastN(all, windowSize) == all;
    } else {
      assert |held| == windowSize;
      assert held != [];
      assert LastN(all, windowSize) == all[|all| - windowSize..];
      assert held[1..] + [v] == all[|all| - windowSize..];
    }
  }

  /** Bounds on the elements bound the sum. */
  lemma {:induction false} SumBounds(s: seq<real>, lo: real, hi: real)
    requires forall i :: 0 <= i < |s| ==> lo <= s[i] <= hi
    ensures (|s| as real) * lo <= Sum(s) <= (|s| as real) * hi
  {
    if s != [] {
      SumBounds(s[..|s| - 1], lo, hi);
    }
  }

  /** The smoothed score lies between the least and the greatest held score. */
  lemma MeanWithin(s: seq<real>, lo: real, hi: real)
    requires |s| > 0
    requires forall i :: 0 <= i < |s| ==> lo <= s[i] <= hi
    ensures lo <= Mean(s) <= hi
  {
    SumBounds(s, lo, hi);
    var n := |s| as real;
    assert n * lo <= Sum(s) <= n * hi;
    assert Sum(s) / n >= lo by {
      assert Sum(s) >= n * lo;
    }
    assert Sum(s) / n <= hi by {
      assert Sum(s) <= n * hi;
    }
  }

  /** A deque holding one score averages to that score. */
  lemma MeanOfOne(v: real)
    ensures Mean([v]) == v
  {
    assert [v][..0] == [];
    assert Sum([v]) == v;
  }

  /** The smoothed scores `add` returns for `inputs` fed one by one to a deque holding `held`. */
  function Smoothed(held: seq<real>, windowSize: int, inputs: seq<real>): seq<real>
    requires windowSize >= 1
    requires |held| <= windowSize
    decreases |inputs|
  {
    if inputs == [] then []
    else
      var next := Evict(held, windowSize, inputs[0]).value;
      [Mean(next)] + Smoothed(next, windowSize, inputs[1..])
  }

  /** Sums of the prefixes of 0, 0, 0, 0, 1. */
  lemma ExampleSums()
    ensures Sum([0.0]) == 0.0 && Sum([0.0, 0.0]) == 0.0 && Sum([0.0, 0.0, 0.0]) == 0.0
    ensures Sum([0.0, 0.0, 0.0, 0.0]) == 0.0 && Sum([0.0, 0.0, 0.0, 0.0, 1.0]) == 1.0
  {
    assert [0.0][..0] == [];
    assert [0.0, 0.0][..1] == [0.0];
    assert [0.0, 0.0, 0.0][..2] == [0.0, 0.0];
    assert [0.0, 0.0, 0.0, 0.0][..3] == [0.0, 0.0, 0.0];
    assert [0.0, 0.0, 0.0, 0.0, 1.0][..4] == [0.0, 0.0, 0.0, 0.0];
  }

  lemma ExampleLastTwo()
    ensures Smoothed([0.0, 0.0, 0.0], 5, [0.0, 1.0]) == [0.0, 0.2]
  {
    ExampleSums();
    var z4, full := [0.0, 0.0, 0.0, 0.0], [0.0, 0.0, 0.0, 0.0, 1.0];
    assert Evict([0.0, 0.0, 0.0], 5, 0.0).value == z4;
    assert Evict(z4, 5, 1.0).value == full;
    assert [0.0, 1.0][1..] == [1.0] && [1.0][1..] == [];
    assert Smoothed(full, 5, []) == [];
    assert Smoothed(z4, 5, [1.0]) == [Mean(full)];
  }

  /**
   * With a window of 5, feeding 0, 0, 0, 0, 1 returns 0.2 on the last call,
   * and a sixth score evicts the first 0.
   */
  lemma WindowOfFiveExample()
    ensures Smoothed([], 5, [0.0, 0.0, 0.0, 0.0, 1.0]) == [0.0, 0.0, 0.0, 0.0, 0.2]
    ensures Evict([0.0, 0.0, 0.0, 0.0, 1.0], 5, 0.5) == Some([0.0, 0.0, 0.0, 1.0, 0.5])
  {
    ExampleSums();
    ExampleLastTwo();
    var z1, z2, z3 := [0.0], [0.0, 0.0], [0.0, 0.0, 0.0];
    assert Evict([], 5, 0.0).value == z1;
    assert Evict(z1, 5, 0.0).value == z2;
    assert Evict(z2, 5, 0.0).value == z3;
    assert [0.0, 0.0, 1.0][1..] == [0.0, 1.0];
    assert Smoothed(z2, 5, [0.0, 0.0, 1.0]) == [0.0, 0.0, 0.2];
    assert [0.0, 0.0, 0.0, 1.0][1..] == [0.0, 0.0, 1.0];
    assert Smoothed(z1, 5, [0.0, 0.0, 0.0, 1.0]) == [0.0, 0.0, 0.0, 0.2];
    assert [0.0, 0.0, 0.0, 0.0, 1.0][1..] == [0.0, 0.0, 0.0, 1.0];
    assert [0.0, 0.0, 0.0, 0.0, 1.0][1..] + [0.5] == [0.0, 0.0, 0.0, 1.0, 0.5];
  }

  class ConfidenceSmoother {
    const windowSize: int
    /** The ArrayDeque, oldest first. */
    var values: seq<real>
    /** Every value added since construction or the last reset. */
    ghost var added: seq<real>

    ghost predicate Valid()
      reads this
    {
      windowSize >= 1 && values == LastN(added, windowSize)
    }

    constructor (windowSize: int)
      requires windowSize >= 1
      ensures Valid()
      ensures this.windowSize == windowSize && values == [] && added == []
    {
      this.windowSize := windowSize;
      values := [];
      added := [];
    }

    method Add(value: real) returns (r: real)
      requires Valid()
      modifies this
      ensures Valid()
      ensures added == old(added) + [value]
      ensures Evict(old(values), windowSize, value) == Some(values)
      ensures |values| <= windowSize && values[|values| - 1] == value
      ensures r == Mean(values)
      ensures old(values) == [] ==> r == value
    {
      ghost var before := values;
      EvictKeepsLatest(added, windowSize, value);
      if |values| >= windowSize {
        values := values[1..];
      }
      values := values + [value];
      assert Some(values) == Evict(before, windowSize, value);
      added := added + [value];
      r := Mean(values);
      if before == [] {
        MeanOfOne(value);
      }
    }

    method Reset()
      requires Valid()
      modifies this
      ensures Valid()
      ensures values == [] && added == []
    {
      values := [];
      added := [];
    }
  }
}
