/**
 * MFCC.fftMagnitude (audio/MFCC.kt:35-86): an in-place iterative radix-2
 * FFT over a `real` and an `imag` array, followed by the magnitudes of the
 * first half of the bins. The model keeps the arrays, the bit-reversal
 * swaps and the butterfly loop nest with its index arithmetic; the twiddle
 * factors and the square root come from the uninterpreted `MathOps`.
 */
module Fft {
  import opened Wrappers
  import opened Radix2
  import opened Maths

  /** Lines 42-47: the number of halvings that bring `n` down to at most one. */
  method CountBits(n: nat) returns (bits: nat)
    ensures bits == FloorLog2(n)
    ensures n >= 1 ==> Pow2(bits) <= n < 2 * Pow2(bits)
  {
    bits := 0;
    var temp := n;
    while temp > 1
      invariant bits + FloorLog2(temp) == FloorLog2(n)
    {
      bits := bits + 1;
      temp := temp / 2;
    }
  }

  /** Lines 50-53: the `bits`-bit reversal of `i`, built one bit at a time. */
  method ReverseBits(i: nat, bits: nat) returns (j: nat)
    ensures j == Rev(i, bits) && j < Pow2(bits)
  {
    j := 0;
    for b := 0 to bits
      invariant j == Rev(i, b)
    {
      j := 2 * j + Shr(i, b) % 2;
    }
    RevBelow(i, bits);
  }

  /** Where the element at `p` comes from once the swaps for indices below `i` are done. */
  function Source(p: nat, i: nat, bits: nat): (r: nat)
    ensures r == p || r < Pow2(bits)
  {
    RevBelow(p, bits);
    if p < Pow2(bits) && (p < i || Rev(p, bits) < i) then Rev(p, bits) else p
  }

  /**
   * Lines 49-62: swap each index with its reversal when the reversal is the
   * larger one. Indices below 2^bits end up holding the element at their
   * reversal; indices from 2^bits up are never touched.
   */
  method BitReversePermute(re: array<real>, im: array<real>, bits: nat)
    requires re != im && re.Length == im.Length
    requires bits == FloorLog2(re.Length)
    modifies re, im
    ensures forall p :: 0 <= p < re.Length ==>
      re[p] == old(re[Source(p, re.Length, bits)]) && im[p] == old(im[Source(p, re.Length, bits)])
  {
    var n := re.Length;
    ghost var re0, im0 := re[..], im[..];
    for i := 0 to n
      invariant forall p :: 0 <= p < n ==> re[p] == re0[Source(p, i, bits)]
      invariant forall p :: 0 <= p < n ==> im[p] == im0[Source(p, i, bits)]
    {
      var j := ReverseBits(i, bits);
      SwapIfLarger(re, re0, i, j, bits);
      SwapIfLarger(im, im0, i, j, bits);
    }
  }

  /** Lines 53-60 on one array: swap `i` with its reversal `j` when `j > i`. */
  method SwapIfLarger(a: array<real>, ghost a0: seq<real>, i: nat, j: nat, bits: nat)
    requires i < a.Length == |a0| && Pow2(bits) <= a.Length && j == Rev(i, bits)
    requires forall p :: 0 <= p < a.Length ==> a[p] == a0[Source(p, i, bits)]
    modifies a
    ensures forall p :: 0 <= p < a.Length ==> a[p] == a0[Source(p, i + 1, bits)]
  {
    SwapStep(a.Length, i, bits);
    if j > i {
      a[i], a[j] := a[j], a[i];
    }
  }

  /**
   * Advancing past index `i`: a larger reversal `j` swaps sources with `i`;
   * otherwise no source changes.
   */
  lemma SwapStep(n: nat, i: nat, bits: nat)
    requires i < n && Pow2(bits) <= n
    ensures var j := Rev(i, bits);
      && (forall p :: 0 <= p < n && p != i && p != j ==> Source(p, i + 1, bits) == Source(p, i, bits))
      && (j > i ==>
            && Source(i, i + 1, bits) == j && Source(i, i, bits) == i
            && Source(j, i + 1, bits) == i && Source(j, i, bits) == j)
      && (j <= i ==> Source(i, i + 1, bits) == Source(i, i, bits) && Source(j, i + 1, bits) == Source(j, i, bits))
  {
    var j := Rev(i, bits);
    RevBelow(i, bits);
    if j > i {
      RevInvolution(i, bits);
    }
    forall p | 0 <= p < n && p != i && p != j
      ensures Source(p, i + 1, bits) == Source(p, i, bits)
    {
      if p < Pow2(bits) && Rev(p, bits) == i {
        RevInvolution(p, bits);
      }
    }
    if j < i && i < Pow2(bits) {
      RevInvolution(i, bits);
    }
  }

  /**
   * Lines 72-77: one butterfly with twiddle factor wr + i*wi on the pair
   * (a, b): the twiddled element at `b` is subtracted there and added at `a`.
   */
  method Butterfly(re: array<real>, im: array<real>, a: nat, b: nat, wr: real, wi: real)
    requires re != im && re.Length == im.Length && a < b < re.Length
    modifies re, im
    ensures var tReal, tImag := wr * old(re[b]) - wi * old(im[b]), wr * old(im[b]) + wi * old(re[b]);
      && re[b] == old(re[a]) - tReal && im[b] == old(im[a]) - tImag
      && re[a] == old(re[a]) + tReal && im[a] == old(im[a]) + tImag
    ensures forall p :: 0 <= p < re.Length && p != a && p != b ==> re[p] == old(re[p]) && im[p] == old(im[p])
  {
    var tReal := wr * re[b] - wi * im[b];
    var tImag := wr * im[b] + wi * re[b];
    re[b] := re[a] - tReal;
    im[b] := im[a] - tImag;
    re[a] := re[a] + tReal;
    im[a] := im[a] + tImag;
  }

  /**
   * Lines 64-81: the stages m = 2, 4, ... up to the length, each running,
   * for every offset k below m/2, the butterflies on (j, j + m/2) for
   * j = k, k + m, ... below the length. The first access at or beyond the
   * length throws; `overrun` is that index. It is absent exactly when the
   * length is zero or a power of two, and otherwise it is the read that
   * OverrunIndex locates, since every butterfly before it reads in bounds.
   */
  method Butterflies(re: array<real>, im: array<real>, ops: MathOps) returns (overrun: Option<nat>)
    requires re != im && re.Length == im.Length
    modifies re, im
    ensures overrun.None? <==> Supported(re.Length)
    ensures overrun.Some? ==> re.Length >= 1 && overrun.value == OverrunIndex(re.Length)
  {
    var n := re.Length;
    if !Supported(n) {
      OverrunReached(n);
    }
    var m := 2;
    ghost var s := 1;
    while m <= n
      invariant s >= 1 && m == Pow2(s)
      invariant !Supported(n) ==> s <= OverrunStage(n)
      decreases n - m
    {
      var half := m / 2;
      var theta := -2.0 * ops.pi / m as real;
      for k := 0 to half
        invariant !Supported(n) && s == OverrunStage(n) ==> k <= OverrunOffset(n)
      {
        var wr := ops.cos(theta * k as real);
        var wi := ops.sin(theta * k as real);
        var j := k;
        ghost var q := 0;
        while j < n
          invariant j == k + q * m
          invariant !Supported(n) && s == OverrunStage(n) && k == OverrunOffset(n) ==> q <= OverrunStep(n)
          decreases n - j
        {
          AccessInBounds(n, s, k, q);
          if j + half >= n {
            return Some(j + half);
          }
          Butterfly(re, im, j, j + half, wr, wi);
          if !Supported(n) && s == OverrunStage(n) && k == OverrunOffset(n) && q == OverrunStep(n) {
            assert false;
          }
          assert (q + 1) * m == q * m + m;
          j, q := j + m, q + 1;
        }
        if !Supported(n) && s == OverrunStage(n) && k == OverrunOffset(n) {
          MulMonotone(q, OverrunStep(n), m);
          assert false;
        }
      }
      m, s := m * 2, s + 1;
    }
    if !Supported(n) && s < OverrunStage(n) {
      Pow2Monotone(s, OverrunStage(n));
    }
    return None;
  }

  /**
   * MFCC.fftMagnitude: copy the frame into zeroed `real`/`imag` arrays,
   * permute, run the butterflies and return the first n/2 magnitudes. It
   * succeeds exactly when the frame length is zero or a power of two, and
   * otherwise fails with the first index it reads out of bounds.
   */
  method FftMagnitude(frame: seq<real>, ops: MathOps) returns (r: Result<seq<real>, nat>)
    ensures r.Success? <==> Supported(|frame|)
    ensures r.Success? ==> |r.value| == |frame| / 2
    ensures r.Failure? ==> |frame| >= 1 && r.error == OverrunIndex(|frame|)
  {
    var n := |frame|;
    var re := new real[n](_ => 0.0);
    var im := new real[n](_ => 0.0);
    for i := 0 to n
      invariant forall p :: 0 <= p < i ==> re[p] == frame[p]
    {
      re[i] := frame[i];
    }
    var bits := CountBits(n);
    BitReversePermute(re, im, bits);
    var overrun := Butterflies(re, im, ops);
    if overrun.Some? {
      return Failure(overrun.value);
    }
    var magnitudes := seq(n / 2, i requires 0 <= i < n / 2 reads re, im => ops.sqrt(re[i] * re[i] + im[i] * im[i]));
    return Success(magnitudes);
  }
}
