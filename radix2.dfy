/**
 * The integer skeleton of MFCC.fftMagnitude (audio/MFCC.kt): the bit count,
 * the bit-reversal index and the index pairs each radix-2 butterfly stage
 * touches. Indices are non-negative, so `shr` is halving, and the reversed
 * index stays below the array length, so `shl` never overflows.
 */
module Radix2 {

  function Pow2(k: nat): nat
    ensures Pow2(k) >= 1
  {
    if k == 0 then 1 else 2 * Pow2(k - 1)
  }

  /** Lines 42-47: halve `n` until at most one is left, counting the halvings. */
  function FloorLog2(n: nat): (r: nat)
    ensures n >= 1 ==> Pow2(r) <= n < 2 * Pow2(r)
  {
    if n <= 1 then 0 else 1 + FloorLog2(n / 2)
  }

  predicate IsPow2(n: nat)
  {
    n >= 1 && Pow2(FloorLog2(n)) == n
  }

  /** The lengths for which the butterfly loop stays in bounds. */
  predicate Supported(n: nat)
  {
    n == 0 || IsPow2(n)
  }

  lemma {:induction false} Pow2Monotone(a: nat, b: nat)
    requires a < b
    ensures 2 * Pow2(a) <= Pow2(b)
    decreases b
  {
    if a + 1 < b {
      Pow2Monotone(a, b - 1);
    }
  }

  lemma {:induction false} Pow2Add(a: nat, b: nat)
    ensures Pow2(a + b) == Pow2(b) * Pow2(a)
    decreases b
  {
    if b > 0 {
      Pow2Add(a, b - 1);
      assert Pow2(a + b) == 2 * Pow2(a + b - 1);
    }
  }

  lemma {:induction false} FloorLog2OfPow2(k: nat)
    ensures FloorLog2(Pow2(k)) == k
  {
    if k > 0 {
      FloorLog2OfPow2(k - 1);
      assert Pow2(k) / 2 == Pow2(k - 1);
    }
  }

  /** 2^k is what the predicate calls a power of two, and so is nothing else. */
  lemma Pow2IsPow2(k: nat)
    ensures IsPow2(Pow2(k))
  {
    FloorLog2OfPow2(k);
  }

  /** 400, the frame size of computeMFCC, is not a power of two; 512 is. */
  lemma FrameSizes()
    ensures FloorLog2(400) == 8 && Pow2(8) == 256 && !IsPow2(400)
    ensures FloorLog2(512) == 9 && IsPow2(512)
  {
    assert Pow2(8) == 256;
    assert FloorLog2(400) == 1 + FloorLog2(200) == 2 + FloorLog2(100) == 3 + FloorLog2(50);
    assert FloorLog2(50) == 1 + FloorLog2(25) == 2 + FloorLog2(12) == 3 + FloorLog2(6) == 4 + FloorLog2(3);
    assert FloorLog2(3) == 1;
    assert Pow2(9) == 512;
    FloorLog2OfPow2(9);
  }

  // ---------------------------------------------------------------- bit reversal

  /** `i shr b` for a non-negative `i`. */
  function Shr(i: nat, b: nat): nat
  {
    if b == 0 then i else Shr(i, b - 1) / 2
  }

  /**
   * The value of `j` after `b` rounds of `j = (j shl 1) or ((i shr r) and 1)`:
   * shifting left leaves the low bit clear, so the `or` adds the bit.
   */
  function Rev(i: nat, b: nat): nat
  {
    if b == 0 then 0 else 2 * Rev(i, b - 1) + Shr(i, b - 1) % 2
  }

  /** The reversal has `b` bits. */
  lemma {:induction false} RevBelow(i: nat, b: nat)
    ensures Rev(i, b) < Pow2(b)
  {
    if b > 0 {
      RevBelow(i, b - 1);
    }
  }

  lemma {:induction false} ShrHalf(i: nat, b: nat)
    ensures Shr(i, b + 1) == Shr(i / 2, b)
  {
    if b > 0 {
      ShrHalf(i, b - 1);
    }
  }

  /** Reversal read from the low end: the lowest bit of `i` becomes the highest of the result. */
  lemma {:induction false} RevLowestBit(i: nat, b: nat)
    ensures Rev(i, b + 1) == Rev(i / 2, b) + (if i % 2 == 1 then Pow2(b) else 0)
  {
    if b > 0 {
      var low := Shr(i / 2, b - 1) % 2;
      assert Rev(i, b + 1) == 2 * Rev(i, b) + low by {
        ShrHalf(i, b - 1);
      }
      assert Rev(i / 2, b) == 2 * Rev(i / 2, b - 1) + low;
      assert Rev(i, b) == Rev(i / 2, b - 1) + (if i % 2 == 1 then Pow2(b - 1) else 0) by {
        RevLowestBit(i, b - 1);
      }
      assert Pow2(b) == 2 * Pow2(b - 1);
    }
  }

  /** Halving 2h + x: parity and quotient, with h an opaque quantity. */
  lemma HalveTwicePlus(h: nat, x: nat)
    ensures (2 * h + x) % 2 == x % 2 && (2 * h + x) / 2 == h + x / 2
  {
  }

  lemma TimesDouble(c: nat, p: nat)
    ensures c * (2 * p) == 2 * (c * p)
  {
  }

  lemma {:induction false} ShrHigh(c: nat, x: nat, b: nat)
    requires x < Pow2(b)
    ensures Shr(c * Pow2(b) + x, b) == c
  {
    if b > 0 {
      var h := c * Pow2(b - 1);
      assert c * Pow2(b) + x == 2 * h + x by { TimesDouble(c, Pow2(b - 1)); }
      ShrHalf(2 * h + x, b - 1);
      HalveTwicePlus(h, x);
      ShrHigh(c, x / 2, b - 1);
    }
  }

  /** Reversal over `b` bits ignores bit `b`. */
  lemma {:induction false} RevLow(x: nat, b: nat)
    ensures Rev(Pow2(b) + x, b) == Rev(x, b)
  {
    if b > 0 {
      var h := Pow2(b - 1);
      var bit := if x % 2 == 1 then Pow2(b - 1) else 0;
      RevOfTwicePlus(Pow2(b) + x, h, x, b);
      assert Rev(x, b) == Rev(x / 2, b - 1) + bit by { RevLowestBit(x, b - 1); }
      RevLow(x / 2, b - 1);
    }
  }

  lemma RevOfTwicePlus(y: nat, h: nat, x: nat, b: nat)
    requires b > 0 && y == 2 * h + x
    ensures Rev(y, b) == Rev(h + x / 2, b - 1) + (if x % 2 == 1 then Pow2(b - 1) else 0)
  {
    HalveTwicePlus(h, x);
    RevLowestBit(y, b - 1);
  }

  lemma RevLowestBitTimes(i: nat, b: nat)
    ensures Rev(i, b + 1) == (i % 2) * Pow2(b) + Rev(i / 2, b)
  {
    RevLowestBit(i, b);
    if i % 2 == 1 {
      assert (i % 2) * Pow2(b) == Pow2(b);
    } else {
      assert (i % 2) * Pow2(b) == 0;
    }
  }

  /** The top bit of a (b+1)-bit reversal is the lowest bit of `i`; below it lies the reversal of `i / 2`. */
  lemma RevTopBit(i: nat, c: nat)
    ensures Shr(Rev(i, c + 1), c) == i % 2
    ensures Rev(Rev(i, c + 1), c) == Rev(Rev(i / 2, c), c)
  {
    RevLowestBit(i, c);
    var x := Rev(i / 2, c);
    RevBelow(i / 2, c);
    if i % 2 == 0 {
      assert Rev(i, c + 1) == 0 * Pow2(c) + x;
      ShrHigh(0, x, c);
    } else {
      assert Rev(i, c + 1) == 1 * Pow2(c) + x;
      ShrHigh(1, x, c);
      RevLow(x, c);
    }
  }

  /** Reversing twice gives back every index below 2^b, so the swaps form a permutation. */
  lemma {:induction false} RevInvolution(i: nat, b: nat)
    requires i < Pow2(b)
    ensures Rev(Rev(i, b), b) == i
  {
    if b > 0 {
      var c := b - 1;
      RevTopBit(i, c);
      RevInvolution(i / 2, c);
      var r := Rev(i, b);
      assert Rev(r, b) == 2 * Rev(r, c) + Shr(r, c) % 2;
    }
  }

  // ---------------------------------------------------------------- butterfly bounds

  lemma {:induction false} MulMonotone(a: nat, b: nat, m: nat)
    requires a <= b
    ensures a * m <= b * m
    decreases b - a
  {
    if a < b {
      MulMonotone(a, b - 1, m);
      assert b * m == (b - 1) * m + m;
    }
  }

  lemma DivMod(n: nat, m: nat)
    requires m > 0
    ensures n == (n / m) * m + n % m && 0 <= n % m < m
  {
  }

  /**
   * In a stage of size m that divides the length, the pair (j, j + m/2)
   * with j = k + q*m < c*m and k < m/2 stays below c*m.
   */
  lemma DividedStageInBounds(m: nat, c: nat, k: nat, q: nat)
    requires m >= 2 && k < m / 2 && k + q * m < c * m
    ensures k + q * m + m / 2 < c * m
  {
    if q >= c {
      MulMonotone(c, q, m);
    }
    MulMonotone(q + 1, c, m);
    assert (q + 1) * m == q * m + m;
  }

  /** Every stage size that fits in a power of two divides it. */
  lemma Pow2Divides(n: nat, s: nat)
    requires IsPow2(n) && Pow2(s) <= n
    ensures s <= FloorLog2(n) && n == Pow2(FloorLog2(n) - s) * Pow2(s)
  {
    var l := FloorLog2(n);
    if s > l {
      Pow2Monotone(l, s);
    }
    Pow2Add(s, l - s);
  }

  /** A positive multiple of m is at least m. */
  lemma DividesAtLeast(n: nat, m: nat)
    requires n >= 1 && m >= 1 && n % m == 0
    ensures m <= n
  {
    DivMod(n, m);
    assert n / m >= 1;
    MulMonotone(1, n / m, m);
  }

  /** The first stage exponent, from `s` on, whose stage size does not divide `n`. */
  function FirstOddStage(n: nat, s: nat): (r: nat)
    requires n >= 1
    ensures r >= s && n % Pow2(r) != 0
    decreases n - Pow2(s)
  {
    if n % Pow2(s) != 0 then s else FirstOddStage(n, s + 1)
  }

  lemma {:induction false} FirstOddStageDividesBefore(n: nat, s: nat, t: nat)
    requires n >= 1 && s <= t < FirstOddStage(n, s)
    ensures n % Pow2(t) == 0
    decreases n - Pow2(s)
  {
    if t > s {
      assert n % Pow2(s) == 0;
      DividesAtLeast(n, Pow2(s));
      FirstOddStageDividesBefore(n, s + 1, t);
    }
  }

  lemma {:induction false} FirstOddStageAtMost(n: nat, s: nat, l: nat)
    requires n >= 1 && s <= l && n % Pow2(l) != 0
    ensures FirstOddStage(n, s) <= l
    decreases n - Pow2(s)
  {
    if n % Pow2(s) == 0 {
      FirstOddStageAtMost(n, s + 1, l);
    }
  }

  /** The exponent of the stage whose butterflies first leave the array. */
  function OverrunStage(n: nat): nat
    requires n >= 1
  {
    FirstOddStage(n, 1)
  }

  /** The offset k, within that stage, of the first butterfly that leaves the array. */
  function OverrunOffset(n: nat): nat
    requires n >= 1
  {
    var m := Pow2(OverrunStage(n));
    var t := n % m;
    if t > m / 2 then t - m / 2 else 0
  }

  /** The number of whole steps of size m before the first butterfly that leaves the array. */
  function OverrunStep(n: nat): nat
    requires n >= 1
  {
    var m := Pow2(OverrunStage(n));
    DivMod(n, m);
    n / m
  }

  /** The index `j + half` that the first out-of-bounds butterfly reads. */
  function OverrunIndex(n: nat): nat
    requires n >= 1
  {
    var m := Pow2(OverrunStage(n));
    OverrunOffset(n) + OverrunStep(n) * m + m / 2
  }

  /** Whether stage `s`, offset `k`, step `q` comes before the first overrun in the loop order. */
  predicate Before(n: nat, s: nat, k: nat, q: nat)
    requires n >= 1
  {
    s < OverrunStage(n)
    || (s == OverrunStage(n) && (k < OverrunOffset(n) || (k == OverrunOffset(n) && q < OverrunStep(n))))
  }

  lemma NotDivisibleBetween(n: nat, m: nat)
    requires 0 < m < n < 2 * m
    ensures n % m != 0
  {
    DivMod(n, m);
    var q := n / m;
    if q == 1 {
      assert q * m == m;
    } else if q >= 2 {
      MulMonotone(2, q, m);
    }
  }

  /**
   * For a length that is not a power of two the loop does reach a butterfly
   * that leaves the array: its stage runs (2 <= m <= n), its offset is below
   * m/2, its j is below n, and the index it reads is at least n.
   */
  lemma OverrunReached(n: nat)
    requires !Supported(n)
    ensures var s, k, q := OverrunStage(n), OverrunOffset(n), OverrunStep(n);
      var m := Pow2(s);
      && s >= 1 && 2 <= m <= n && k < m / 2 && k + q * m < n
      && OverrunIndex(n) >= n
  {
    var l := FloorLog2(n);
    assert l >= 1;
    NotDivisibleBetween(n, Pow2(l));
    FirstOddStageAtMost(n, 1, l);
    var s := OverrunStage(n);
    if s < l {
      Pow2Monotone(s, l);
    }
    var m := Pow2(s);
    var h := Pow2(s - 1);
    assert m == 2 * h && m / 2 == h;
    DivMod(n, m);
    var t, q := n % m, n / m;
    assert OverrunStep(n) == q && OverrunOffset(n) == if t > h then t - h else 0;
    OverrunArith(n, h, t, q * m);
  }

  /** The offset arithmetic of OverrunReached, with the whole steps `qm` as one quantity. */
  lemma OverrunArith(n: nat, h: nat, t: nat, qm: nat)
    requires h >= 1 && n == qm + t && 0 < t < 2 * h
    ensures var k := if t > h then t - h else 0;
      k < h && k + qm < n && k + qm + h >= n
  {
  }

  /** A stage of size m over c*m + t elements: steps below c, and the offsets below t - m/2 in step c, read in bounds. */
  lemma StageTailInBounds(m: nat, c: nat, t: nat, k: nat, q: nat)
    requires m >= 2 && t < m && k < m / 2 && k + q * m < c * m + t
    requires q < c || k + m / 2 < t
    ensures k + q * m + m / 2 < c * m + t
  {
    if q < c {
      MulMonotone(q + 1, c, m);
      assert (q + 1) * m == q * m + m;
    } else if q > c {
      MulMonotone(c + 1, q, m);
    }
  }

  /** In the overrun stage, a butterfly with a smaller offset, or the same offset and a smaller step, reads in bounds. */
  lemma OverrunStageBefore(n: nat, s: nat, k: nat, q: nat)
    requires n >= 1 && s == OverrunStage(n) && 2 <= Pow2(s) <= n
    requires k < Pow2(s) / 2 && k + q * Pow2(s) < n
    requires k < OverrunOffset(n) || (k == OverrunOffset(n) && q < OverrunStep(n))
    ensures k + q * Pow2(s) + Pow2(s) / 2 < n
  {
    var m := Pow2(s);
    var c, t := n / m, n % m;
    DivMod(n, m);
    assert OverrunStep(n) == c;
    assert OverrunOffset(n) == if t > m / 2 then t - m / 2 else 0;
    StageTailInBounds(m, c, t, k, q);
  }

  /**
   * Every butterfly of a stage that runs reads in bounds when the length is
   * a power of two, and otherwise every one that comes before the first
   * overrun in the loop order does.
   */
  lemma AccessInBounds(n: nat, s: nat, k: nat, q: nat)
    requires s >= 1 && Pow2(s) <= n && k < Pow2(s) / 2 && k + q * Pow2(s) < n
    ensures Supported(n) || Before(n, s, k, q) ==> k + q * Pow2(s) + Pow2(s) / 2 < n
  {
    var m := Pow2(s);
    assert m == 2 * Pow2(s - 1);
    if !(Supported(n) || Before(n, s, k, q)) {
    } else if Supported(n) {
      Pow2Divides(n, s);
      DividedStageInBounds(m, Pow2(FloorLog2(n) - s), k, q);
    } else if s < OverrunStage(n) {
      DivMod(n, m);
      FirstOddStageDividesBefore(n, 1, s);
      DividedStageInBounds(m, n / m, k, q);
    } else {
      OverrunStageBefore(n, s, k, q);
    }
  }

  /** With 400-sample frames, stage m = 32, k = 0, j = 384 reads index 400. */
  lemma Frame400Overrun()
    ensures !Supported(400)
    ensures Pow2(OverrunStage(400)) == 32 && OverrunOffset(400) == 0
    ensures OverrunStep(400) * 32 == 384 && OverrunIndex(400) == 400
  {
    FrameSizes();
    assert Pow2(1) == 2 && Pow2(2) == 4 && Pow2(3) == 8 && Pow2(4) == 16 && Pow2(5) == 32;
    assert FirstOddStage(400, 1) == FirstOddStage(400, 2) == FirstOddStage(400, 3);
    assert FirstOddStage(400, 3) == FirstOddStage(400, 4) == FirstOddStage(400, 5) == 5;
  }
}
