/**
 * The MFCC object of audio/MFCC.kt: pre-emphasis, framing, the Hamming
 * window, the mel filter bank and computeMFCC's per-frame pipeline
 * (window, FFT magnitude, mel energies, log, DCT) and averaging.
 *
 * Floats are reals and kotlin.math is the uninterpreted `MathOps`, so the
 * contracts speak about shapes, indices, exceptions and how the results
 * are assembled, not about the numbers the library calls produce. A JVM
 * exception becomes a `Failure`; a result the source computes as NaN
 * (a floating 0/0) becomes `Failure(NotANumber)`.
 */
module Mfcc {
  import opened Wrappers
  import opened Maths
  import Radix2
  import Fft

  const SampleRate: int := 16000
  const FrameSize: int := 400
  const FrameStep: int := 160
  const NMfcc: int := 13
  const NMels: int := 26
  const Alpha: real := 0.97

  datatype MfccError =
    | EmptySignal                  // preEmphasis reads signal[0]
    | DivisionByZero               // framing divides by frameStep
    | NegativeFrameCount(count: int)  // Array(numFrames) with numFrames < 0
    | FrameOutOfRange(frame: nat)  // copyOfRange past the end of the signal
    | FftOutOfBounds(index: nat)   // the butterfly reads real[index]
    | NotANumber                   // the returned coefficients are NaN

  // ---------------------------------------------------------------- preEmphasis

  /** out[0] = x[0], out[i] = x[i] - alpha * x[i - 1]. */
  function Emphasized(x: seq<real>, alpha: real): (e: seq<real>)
    ensures |e| == |x|
  {
    seq(|x|, i requires 0 <= i < |x| => if i == 0 then x[0] else x[i] - alpha * x[i - 1])
  }

  /** One step of the inverse filter: the emphasized sample plus alpha times the previous output. */
  function Restored(v: real, alpha: real, prev: real): real
  {
    v + alpha * prev
  }

  /** The inverse filter y[0] = e[0], y[i] = e[i] + alpha * y[i - 1]. */
  function DeEmphasized(e: seq<real>, alpha: real): (y: seq<real>)
    ensures |y| == |e|
  {
    if e == [] then []
    else
      var p := DeEmphasized(e[..|e| - 1], alpha);
      p + [if p == [] then e[0] else Restored(e[|e| - 1], alpha, p[|p| - 1])]
  }

  /** The filter loses nothing: the inverse filter gives back the signal. */
  lemma {:induction false} DeEmphasisRoundTrip(x: seq<real>, alpha: real)
    ensures DeEmphasized(Emphasized(x, alpha), alpha) == x
  {
    if x != [] {
      var n := |x|;
      var pre := x[..n - 1];
      var e := Emphasized(x, alpha);
      assert e[..n - 1] == Emphasized(pre, alpha) by {
        forall i | 0 <= i < n - 1
          ensures e[..n - 1][i] == Emphasized(pre, alpha)[i]
        {
          if i > 0 {
            assert pre[i - 1] == x[i - 1];
          }
        }
      }
      DeEmphasisRoundTrip(pre, alpha);
      assert e[..|e| - 1] == e[..n - 1];
      if n > 1 {
        assert e[n - 1] == x[n - 1] - alpha * x[n - 2];
        assert Restored(e[n - 1], alpha, pre[n - 2]) == x[n - 1];
      }
      DeEmphasizedSnoc(e, alpha, pre, x[n - 1]);
      assert x == pre + [x[n - 1]];
    }
  }

  /** The inverse filter's output grows by one sample per input sample. */
  lemma DeEmphasizedSnoc(e: seq<real>, alpha: real, pre: seq<real>, v: real)
    requires e != [] && DeEmphasized(e[..|e| - 1], alpha) == pre
    requires v == if pre == [] then e[|e| - 1] else Restored(e[|e| - 1], alpha, pre[|pre| - 1])
    ensures DeEmphasized(e, alpha) == pre + [v]
  {
  }

  /** Lines 13-20: fill `out` from index 1 on; an empty signal throws at `signal[0]`. */
  method PreEmphasis(signal: seq<real>, alpha: real) returns (r: Result<seq<real>, MfccError>)
    ensures r.Failure? <==> signal == []
    ensures r.Failure? ==> r.error == EmptySignal
    ensures r.Success? ==> r.value == Emphasized(signal, alpha)
  {
    var out := new real[|signal|];
    if |signal| == 0 {
      return Failure(EmptySignal);
    }
    ghost var e := Emphasized(signal, alpha);
    out[0] := signal[0];
    for i := 1 to |signal|
      invariant forall p :: 0 <= p < i ==> out[p] == e[p]
    {
      out[i] := signal[i] - alpha * signal[i - 1];
    }
    assert out[..] == e;
    return Success(out[..]);
  }

  // ---------------------------------------------------------------- framing

  function Abs(x: int): nat
  {
    if x < 0 then -x else x
  }

  /** Kotlin's Int `/`, which rounds toward zero. */
  function TruncDiv(a: int, b: int): int
    requires b != 0
  {
    var q := Abs(a) / Abs(b);
    if (a < 0) == (b < 0) then q else -q
  }

  /** Rounding toward zero agrees with Dafny's `/` on non-negative operands and is odd in the dividend. */
  lemma TruncDivProperties(a: int, b: int)
    requires b > 0
    ensures a >= 0 ==> TruncDiv(a, b) == a / b
    ensures TruncDiv(-a, b) == -TruncDiv(a, b)
    ensures -b < a < b ==> TruncDiv(a, b) == 0
  {
  }

  /** Line 29. */
  function NumFrames(len: int, frameSize: int, frameStep: int): int
    requires frameStep != 0
  {
    1 + TruncDiv(len - frameSize, frameStep)
  }

  predicate SliceInBounds(len: int, from: int, to: int)
  {
    0 <= from <= to <= len
  }

  /** Frame `g`: signal[g * step .. g * step + size], when that range is in bounds. */
  function FrameSlice(signal: seq<real>, frameSize: int, frameStep: int, g: nat): seq<real>
  {
    var from := g * frameStep;
    if SliceInBounds(|signal|, from, from + frameSize) then signal[from..from + frameSize] else []
  }

  /** `Array(count) { i -> signal.copyOfRange(i * step, i * step + size) }` from index `i` on. */
  function Frames(signal: seq<real>, frameSize: int, frameStep: int, i: nat, count: nat): Result<seq<seq<real>>, MfccError>
    decreases count - i
  {
    if i >= count then Success([])
    else
      var from := i * frameStep;
      var to := from + frameSize;
      if !SliceInBounds(|signal|, from, to) then Failure(FrameOutOfRange(i))
      else
        match Frames(signal, frameSize, frameStep, i + 1, count)
        case Failure(e) => Failure(e)
        case Success(rest) => Success([signal[from..to]] + rest)
  }

  /** Lines 28-33. */
  function Framing(signal: seq<real>, frameSize: int, frameStep: int): Result<seq<seq<real>>, MfccError>
  {
    if frameStep == 0 then Failure(DivisionByZero)
    else
      var count := NumFrames(|signal|, frameSize, frameStep);
      if count < 0 then Failure(NegativeFrameCount(count)) else Frames(signal, frameSize, frameStep, 0, count)
  }

  /** Frame `g` of `count` lies inside a signal that holds the last one. */
  lemma FrameInBounds(n: nat, frameSize: nat, frameStep: nat, g: nat, count: nat)
    requires g < count && (count - 1) * frameStep + frameSize <= n
    ensures SliceInBounds(n, g * frameStep, g * frameStep + frameSize)
  {
    Radix2.MulMonotone(g, count - 1, frameStep);
  }

  lemma {:induction false} FramesInBounds(signal: seq<real>, frameSize: nat, frameStep: nat, i: nat, count: nat)
    requires frameSize >= 1 && frameStep >= 1
    requires i < count ==> (count - 1) * frameStep + frameSize <= |signal|
    ensures var r := Frames(signal, frameSize, frameStep, i, count);
      && r.Success?
      && |r.value| == (if i < count then count - i else 0)
      && forall g :: 0 <= g < |r.value| ==> r.value[g] == FrameSlice(signal, frameSize, frameStep, i + g)
    decreases count - i
  {
    if i < count {
      FrameInBounds(|signal|, frameSize, frameStep, i, count);
      FramesInBounds(signal, frameSize, frameStep, i + 1, count);
      var rest := Frames(signal, frameSize, frameStep, i + 1, count).value;
      var r := Frames(signal, frameSize, frameStep, i, count).value;
      assert r == [FrameSlice(signal, frameSize, frameStep, i)] + rest;
      forall g | 0 < g < |r|
        ensures r[g] == FrameSlice(signal, frameSize, frameStep, i + g)
      {
        assert r[g] == rest[g - 1];
        assert i + 1 + (g - 1) == i + g;
      }
    }
  }

  /** A signal holding at least one frame is cut into 1 + (len - size) / step frames, frame g at g * step. */
  lemma FramingWhole(signal: seq<real>, frameSize: nat, frameStep: nat)
    requires frameSize >= 1 && frameStep >= 1 && |signal| >= frameSize
    ensures var n, r := |signal|, Framing(signal, frameSize, frameStep);
      && r.Success?
      && |r.value| == 1 + (n - frameSize) / frameStep >= 1
      && |r.value| == NumFrames(n, frameSize, frameStep)
      && forall g :: 0 <= g < |r.value| ==>
           && SliceInBounds(n, g * frameStep, g * frameStep + frameSize)
           && r.value[g] == FrameSlice(signal, frameSize, frameStep, g)
  {
    var d := |signal| - frameSize;
    var count := 1 + d / frameStep;
    assert NumFrames(|signal|, frameSize, frameStep) == count;
    assert (count - 1) * frameStep <= d by { Radix2.DivMod(d, frameStep); }
    FramesInBounds(signal, frameSize, frameStep, 0, count);
    var r := Framing(signal, frameSize, frameStep).value;
    forall g | 0 <= g < |r|
      ensures SliceInBounds(|signal|, g * frameStep, g * frameStep + frameSize)
      ensures r[g] == FrameSlice(signal, frameSize, frameStep, g)
    {
      FrameInBounds(|signal|, frameSize, frameStep, g, count);
      assert 0 + g == g;
    }
  }

  /**
   * A signal shorter than one frame: an overrun of frame 0 when it is short
   * by less than one step; no frames when short by one step up to two; a
   * negative array size beyond that.
   */
  lemma FramingShort(signal: seq<real>, frameSize: nat, frameStep: nat)
    requires frameSize >= 1 && frameStep >= 1 && |signal| < frameSize
    ensures var n, r := |signal|, Framing(signal, frameSize, frameStep);
      && (frameSize - frameStep < n ==> r == Failure(FrameOutOfRange(0)))
      && (frameSize - 2 * frameStep < n <= frameSize - frameStep ==> r == Success([]))
      && (n <= frameSize - 2 * frameStep ==>
            && NumFrames(n, frameSize, frameStep) < 0
            && r == Failure(NegativeFrameCount(NumFrames(n, frameSize, frameStep))))
  {
    var n := |signal|;
    var d := n - frameSize;
    if frameSize - frameStep < n {
      assert NumFrames(n, frameSize, frameStep) == 1;
    } else if frameSize - 2 * frameStep < n {
      assert Abs(d) / frameStep == 1;
      assert NumFrames(n, frameSize, frameStep) == 0;
    } else {
      Radix2.DivMod(Abs(d), frameStep);
    }
  }

  /** computeMFCC's frames: 400 samples every 160, so consecutive frames share 240 samples. */
  lemma FramesOverlap(signal: seq<real>, g: nat)
    requires |signal| >= FrameSize
    ensures var r := Framing(signal, FrameSize, FrameStep);
      && r.Success?
      && (forall h :: 0 <= h < |r.value| ==> |r.value[h]| == FrameSize)
      && (g + 1 < |r.value| ==> r.value[g + 1][..FrameSize - FrameStep] == r.value[g][FrameStep..])
  {
    FramingWhole(signal, FrameSize, FrameStep);
    var r := Framing(signal, FrameSize, FrameStep).value;
    if g + 1 < |r| {
      var a := g * FrameStep;
      assert (g + 1) * FrameStep == a + FrameStep;
      assert r[g + 1] == FrameSlice(signal, FrameSize, FrameStep, g + 1) == signal[a + FrameStep..a + FrameStep + FrameSize];
      assert r[g] == FrameSlice(signal, FrameSize, FrameStep, g) == signal[a..a + FrameSize];
    }
  }

  // ---------------------------------------------------------------- hammingWindow

  /** Lines 22-26; a size of 1 divides 0 by 0. */
  function HammingWindow(size: nat, ops: MathOps): (w: seq<real>)
    requires size >= 2
    ensures |w| == size
  {
    seq(size, i requires 0 <= i < size => 0.54 - 0.46 * ops.cos(2.0 * ops.pi * i as real / (size - 1) as real))
  }

  /** With a cosine bounded by one, every coefficient lies in [0.08, 1]. */
  lemma HammingRange(size: nat, ops: MathOps)
    requires size >= 2
    requires forall x :: -1.0 <= ops.cos(x) <= 1.0
    ensures forall i :: 0 <= i < size ==> 0.08 <= HammingWindow(size, ops)[i] <= 1.0
  {
  }

  // ---------------------------------------------------------------- melFilterBank

  function HzToMel(hz: real, ops: MathOps): real
  {
    2595.0 * ops.log10(1.0 + hz / 700.0)
  }

  function MelToHz(mel: real, ops: MathOps): real
  {
    700.0 * (ops.pow(10.0, mel / 2595.0) - 1.0)
  }

  const IntMin: int := -0x8000_0000
  const IntMax: int := 0x7fff_ffff

  /** Double.toInt() of an integral value: saturated to the Int range. */
  function ToInt(x: int): int
  {
    if x < IntMin then IntMin else if x > IntMax then IntMax else x
  }

  /** Lines 98-105: numFilters + 2 points evenly spaced in mel, converted to FFT bin numbers. */
  function MelBins(fftSize: int, sampleRate: int, numFilters: nat, ops: MathOps): (b: seq<int>)
    requires sampleRate != 0
    ensures |b| == numFilters + 2
  {
    var lowMel := HzToMel(0.0, ops);
    var highMel := HzToMel(sampleRate as real / 2.0, ops);
    seq(numFilters + 2, it requires 0 <= it < numFilters + 2 =>
      var mel := lowMel + it as real * (highMel - lowMel) / (numFilters + 1) as real;
      ToInt(((fftSize + 1) as real * MelToHz(mel, ops) / sampleRate as real).Floor))
  }

  /**
   * Lines 109-116: the weight of bin `j` in filter `i`. Where the rising
   * edge has zero width the source divides 0 by 0; NaNWeight flags that
   * case and the model puts 0 there.
   */
  function FilterWeight(b: seq<int>, i: nat, j: int): real
    requires i + 2 < |b|
  {
    if j < b[i] then 0.0
    else if j <= b[i + 1] then
      if b[i + 1] == b[i] then 0.0 else (j - b[i]) as real / (b[i + 1] - b[i]) as real
    else if j <= b[i + 2] then (b[i + 2] - j) as real / (b[i + 2] - b[i + 1]) as real
    else 0.0
  }

  /** Filter `i`, over bins 0 until `width`, computes 0/0 at bin b[i]. */
  predicate NaNWeight(b: seq<int>, i: nat, width: int)
    requires i + 2 < |b|
  {
    b[i] == b[i + 1] && 0 <= b[i] < width
  }

  /** Lines 107-118: numFilters rows of fftSize/2 weights. */
  function FilterBank(fftSize: nat, sampleRate: int, numFilters: nat, ops: MathOps): (bank: seq<seq<real>>)
    requires sampleRate != 0
    ensures |bank| == numFilters && forall i :: 0 <= i < numFilters ==> |bank[i]| == fftSize / 2
  {
    var b := MelBins(fftSize, sampleRate, numFilters, ops);
    seq(numFilters, i requires 0 <= i < numFilters =>
      seq(fftSize / 2, j requires 0 <= j < fftSize / 2 => FilterWeight(b, i, j)))
  }

  /** Whether some weight of the bank is NaN. */
  predicate BankHasNaN(fftSize: nat, sampleRate: int, numFilters: nat, ops: MathOps)
    requires sampleRate != 0
  {
    var b := MelBins(fftSize, sampleRate, numFilters, ops);
    exists i :: 0 <= i < numFilters && NaNWeight(b, i, fftSize / 2)
  }

  /** Every defined weight lies in [0, 1], whatever the bins. */
  lemma WeightInUnit(b: seq<int>, i: nat, j: int)
    requires i + 2 < |b|
    ensures 0.0 <= FilterWeight(b, i, j) <= 1.0
  {
    if b[i] <= j <= b[i + 1] && b[i + 1] != b[i] {
      UnitRatio(j - b[i], b[i + 1] - b[i]);
    } else if b[i + 1] < j <= b[i + 2] {
      UnitRatio(b[i + 2] - j, b[i + 2] - b[i + 1]);
    }
  }

  lemma UnitRatio(x: int, d: int)
    requires 0 <= x <= d && d > 0
    ensures 0.0 <= x as real / d as real <= 1.0
  {
    var q := x as real / d as real;
    assert q * d as real == x as real;
  }

  /**
   * For strictly increasing bins b[i] < b[i+1] < b[i+2] filter `i` is a
   * triangle: zero outside [b[i], b[i+2]], rising linearly from 0 at b[i]
   * to 1 at b[i+1], then falling linearly to 0 at b[i+2]; and it has no NaN.
   */
  lemma TriangleShape(b: seq<int>, i: nat, j: int)
    requires i + 2 < |b| && b[i] < b[i + 1] < b[i + 2]
    ensures !NaNWeight(b, i, j + 1)
    ensures j < b[i] || j > b[i + 2] ==> FilterWeight(b, i, j) == 0.0
    ensures b[i] <= j <= b[i + 1] ==> FilterWeight(b, i, j) * (b[i + 1] - b[i]) as real == (j - b[i]) as real
    ensures b[i + 1] <= j <= b[i + 2] ==> FilterWeight(b, i, j) * (b[i + 2] - b[i + 1]) as real == (b[i + 2] - j) as real
    ensures FilterWeight(b, i, b[i]) == 0.0 && FilterWeight(b, i, b[i + 1]) == 1.0 && FilterWeight(b, i, b[i + 2]) == 0.0
  {
    var lo, mid, hi := b[i], b[i + 1], b[i + 2];
    assert FilterWeight(b, i, mid) == 1.0 by { SelfRatio(mid - lo); }
    if lo <= j <= mid {
      RatioTimes(j - lo, mid - lo);
    }
    if mid < j <= hi {
      RatioTimes(hi - j, hi - mid);
    }
  }

  lemma RatioTimes(x: int, d: int)
    requires d > 0
    ensures (x as real / d as real) * d as real == x as real
  {
  }

  lemma SelfRatio(d: int)
    requires d > 0
    ensures d as real / d as real == 1.0
  {
  }

  // ---------------------------------------------------------------- computeMFCC

  /** Line 134 as a value: each sample times its window coefficient. */
  function Windowed(frame: seq<real>, window: seq<real>): (w: seq<real>)
    requires |window| >= |frame|
    ensures |w| == |frame|
  {
    seq(|frame|, i requires 0 <= i < |frame| => frame[i] * window[i])
  }

  /** Line 134: `frame[i] *= window[i]` over the frame's indices. */
  method ApplyWindow(frame: array<real>, window: seq<real>)
    requires |window| >= frame.Length
    modifies frame
    ensures frame[..] == Windowed(old(frame[..]), window)
  {
    for i := 0 to frame.Length
      invariant forall p :: 0 <= p < i ==> frame[p] == old(frame[p]) * window[p]
      invariant forall p :: i <= p < frame.Length ==> frame[p] == old(frame[p])
    {
      frame[i] := frame[i] * window[i];
    }
    assert forall p :: 0 <= p < frame.Length ==> frame[..][p] == Windowed(old(frame[..]), window)[p];
  }

  /** `row.mapIndexed { idx, w -> w * spectrum[idx] }.sum()`, summed from the left. */
  function Dot(row: seq<real>, spectrum: seq<real>): real
    requires |row| <= |spectrum|
  {
    if row == [] then 0.0
    else Dot(row[..|row| - 1], spectrum) + row[|row| - 1] * spectrum[|row| - 1]
  }

  /** Each filter row fits in the spectrum, so `spectrum[idx]` is in bounds. */
  predicate RowsFit(filters: seq<seq<real>>, spectrum: seq<real>)
  {
    forall i :: 0 <= i < |filters| ==> |filters[i]| <= |spectrum|
  }

  function MelEnergies(filters: seq<seq<real>>, spectrum: seq<real>): (e: seq<real>)
    requires RowsFit(filters, spectrum)
    ensures |e| == |filters|
  {
    seq(|filters|, i requires 0 <= i < |filters| => Dot(filters[i], spectrum))
  }

  /** Lines 137-141: one mel energy per filter. */
  method ComputeMelEnergies(filters: seq<seq<real>>, spectrum: seq<real>) returns (energies: seq<real>)
    requires |filters| == NMels && RowsFit(filters, spectrum)
    ensures energies == MelEnergies(filters, spectrum)
  {
    var melEnergies := new real[NMels](_ => 0.0);
    for i := 0 to |filters|
      invariant forall p :: 0 <= p < i ==> melEnergies[p] == Dot(filters[p], spectrum)
    {
      melEnergies[i] := Dot(filters[i], spectrum);
    }
    energies := melEnergies[..];
  }

  /** Line 143: `ln(it + 1e-9)`. */
  function LogMel(energies: seq<real>, ops: MathOps): (l: seq<real>)
    ensures |l| == |energies|
  {
    seq(|energies|, i requires 0 <= i < |energies| => ops.ln(energies[i] + 0.000000001))
  }

  /** Term `n` of the line-148 sum for coefficient `k`. */
  function DctTerm(logMel: seq<real>, k: nat, n: nat, ops: MathOps): real
    requires n < |logMel|
  {
    logMel[n] * ops.cos(ops.pi * k as real * (n as real + 0.5) / |logMel| as real)
  }

  /** The first `n` terms of the line-148 sum for coefficient `k`. */
  function DctPartial(logMel: seq<real>, k: nat, n: nat, ops: MathOps): real
    requires n <= |logMel|
  {
    if n == 0 then 0.0 else DctPartial(logMel, k, n - 1, ops) + DctTerm(logMel, k, n - 1, ops)
  }

  /** The 13 DCT-II sums of one frame's log mel energies. */
  function Cepstrum(logMel: seq<real>, ops: MathOps): (c: seq<real>)
    ensures |c| == NMfcc
  {
    seq(NMfcc, k requires 0 <= k < NMfcc => DctPartial(logMel, k, |logMel|, ops))
  }

  /** Lines 145-151: add this frame's DCT sums into `mfccSum`. */
  method AccumulateDct(mfccSum: array<real>, logMel: seq<real>, ops: MathOps)
    requires mfccSum.Length == NMfcc
    modifies mfccSum
    ensures forall k :: 0 <= k < NMfcc ==> mfccSum[k] == old(mfccSum[k]) + Cepstrum(logMel, ops)[k]
  {
    for k := 0 to NMfcc
      invariant forall p :: 0 <= p < k ==> mfccSum[p] == old(mfccSum[p]) + Cepstrum(logMel, ops)[p]
      invariant forall p :: k <= p < NMfcc ==> mfccSum[p] == old(mfccSum[p])
    {
      var sum := 0.0;
      for n := 0 to |logMel|
        invariant sum == DctPartial(logMel, k, n, ops)
      {
        sum := sum + DctTerm(logMel, k, n, ops);
      }
      mfccSum[k] := mfccSum[k] + sum;
    }
  }

  predicate SpectraFit(filters: seq<seq<real>>, spectra: seq<seq<real>>)
  {
    forall g :: 0 <= g < |spectra| ==> RowsFit(filters, spectra[g])
  }

  /** The per-frame DCT sums, given each frame's spectrum. */
  function Cepstra(filters: seq<seq<real>>, spectra: seq<seq<real>>, ops: MathOps): (cs: seq<seq<real>>)
    requires SpectraFit(filters, spectra)
    ensures |cs| == |spectra| && forall g :: 0 <= g < |cs| ==> |cs[g]| == NMfcc
  {
    seq(|spectra|, g requires 0 <= g < |spectra| => Cepstrum(LogMel(MelEnergies(filters, spectra[g]), ops), ops))
  }

  /** The sum over frames of coefficient `k`. */
  function ColumnSum(cs: seq<seq<real>>, k: nat): real
    requires forall g :: 0 <= g < |cs| ==> k < |cs[g]|
  {
    if cs == [] then 0.0 else ColumnSum(cs[..|cs| - 1], k) + cs[|cs| - 1][k]
  }

  /** Averaging frames that all have the same coefficients gives those coefficients. */
  lemma {:induction false} ColumnSumOfEqual(cs: seq<seq<real>>, c: seq<real>, k: nat)
    requires k < |c| && forall g :: 0 <= g < |cs| ==> cs[g] == c
    ensures ColumnSum(cs, k) == |cs| as real * c[k]
  {
    if cs != [] {
      ColumnSumOfEqual(cs[..|cs| - 1], c, k);
    }
  }

  /**
   * Line 154: when every frame has the same spectrum, the average over the
   * frames is that one frame's coefficients.
   */
  lemma AverageOfEqualFrames(filters: seq<seq<real>>, spectra: seq<seq<real>>, s: seq<real>, ops: MathOps, k: nat)
    requires SpectraFit(filters, spectra) && RowsFit(filters, s) && |spectra| >= 1 && k < NMfcc
    requires forall g :: 0 <= g < |spectra| ==> spectra[g] == s
    ensures ColumnSum(Cepstra(filters, spectra, ops), k) / |spectra| as real
      == Cepstrum(LogMel(MelEnergies(filters, s), ops), ops)[k]
  {
    var cs := Cepstra(filters, spectra, ops);
    ColumnSumOfEqual(cs, cs[0], k);
  }

  lemma CepstraSnoc(filters: seq<seq<real>>, spectra: seq<seq<real>>, s: seq<real>, ops: MathOps)
    requires SpectraFit(filters, spectra) && RowsFit(filters, s)
    ensures SpectraFit(filters, spectra + [s])
    ensures Cepstra(filters, spectra + [s], ops)
      == Cepstra(filters, spectra, ops) + [Cepstrum(LogMel(MelEnergies(filters, s), ops), ops)]
  {
    assert forall g :: 0 <= g < |spectra| ==> (spectra + [s])[g] == spectra[g];
  }

  /**
   * Lines 137-151 for one frame: its mel energies, their logarithms and
   * their DCT sums, added into `mfccSum`, which then holds the column sums
   * over the frames so far and this one.
   */
  method AddFrame(mfccSum: array<real>, filters: seq<seq<real>>, ghost spectra: seq<seq<real>>, spectrum: seq<real>,
                  ops: MathOps)
    requires mfccSum.Length == NMfcc && |filters| == NMels
    requires SpectraFit(filters, spectra) && RowsFit(filters, spectrum)
    requires forall k :: 0 <= k < NMfcc ==> mfccSum[k] == ColumnSum(Cepstra(filters, spectra, ops), k)
    modifies mfccSum
    ensures SpectraFit(filters, spectra + [spectrum])
    ensures forall k :: 0 <= k < NMfcc ==> mfccSum[k] == ColumnSum(Cepstra(filters, spectra + [spectrum], ops), k)
  {
    var melEnergies := ComputeMelEnergies(filters, spectrum);
    var logMel := LogMel(melEnergies, ops);
    ghost var before := Cepstra(filters, spectra, ops);
    AccumulateDct(mfccSum, logMel, ops);
    CepstraSnoc(filters, spectra, spectrum, ops);
    assert Cepstra(filters, spectra + [spectrum], ops)[..|spectra|] == before;
  }

  /** A frame followed by zeros up to `fftSize` points. */
  function Padded(frame: seq<real>, fftSize: nat): (p: seq<real>)
    requires |frame| <= fftSize
    ensures |p| == fftSize
  {
    frame + seq(fftSize - |frame|, _ => 0.0)
  }

  /**
   * Lines 134-135 for one frame: window it in place, zero-pad it to
   * `fftSize` points and take the FFT magnitudes. `input` is what the
   * transform receives.
   */
  method FrameSpectrum(frame: seq<real>, window: seq<real>, fftSize: nat, ops: MathOps)
    returns (spectrum: Result<seq<real>, nat>, ghost input: seq<real>)
    requires |frame| == FrameSize && |window| >= FrameSize && fftSize >= FrameSize
    ensures input == Padded(Windowed(frame, window), fftSize)
    ensures spectrum.Success? <==> Radix2.Supported(fftSize)
    ensures spectrum.Success? ==> |spectrum.value| == fftSize / 2
    ensures spectrum.Failure? ==> fftSize >= 1 && spectrum.error == Radix2.OverrunIndex(fftSize)
  {
    var buffer := new real[|frame|](i requires 0 <= i < |frame| => frame[i]);
    assert buffer[..] == frame;
    ApplyWindow(buffer, window);
    var padded := buffer[..] + seq(fftSize - FrameSize, _ => 0.0);
    input := padded;
    spectrum := Fft.FftMagnitude(padded, ops);
  }

  /**
   * computeMFCC, over an FFT of `fftSize` points: each 400-sample windowed
   * frame is zero-padded to `fftSize` before the transform, and the filter
   * bank is built for `fftSize`. With fftSize = 400 nothing is padded and
   * this is computeMFCC exactly as written (lines 121-155).
   *
   * The outcome by signal length: empty throws in pre-emphasis; up to 80
   * samples is a negative frame count; 81 to 240 gives no frames and 0/0;
   * 241 to 399 overruns frame 0; from 400 on the first frame's transform
   * throws unless fftSize is a power of two, and otherwise the coefficients
   * are the per-frame DCT sums averaged over the frames (NaN if a filter
   * weight is). `spectra` are the frames' FFT magnitudes, and `inputs`
   * what each transform received: frame g of the pre-emphasized signal,
   * windowed and zero-padded.
   */
  method Extract(audio: seq<real>, sampleRate: int, fftSize: nat, ops: MathOps)
    returns (r: Result<seq<real>, MfccError>, ghost spectra: seq<seq<real>>, ghost inputs: seq<seq<real>>)
    requires sampleRate != 0 && fftSize >= FrameSize
    ensures var n := |audio|;
      && (n == 0 ==> r == Failure(EmptySignal))
      && (0 < n <= FrameSize - 2 * FrameStep ==>
            r == Failure(NegativeFrameCount(NumFrames(n, FrameSize, FrameStep))) && NumFrames(n, FrameSize, FrameStep) < 0)
      && (FrameSize - 2 * FrameStep < n <= FrameSize - FrameStep ==> r == Failure(NotANumber))
      && (FrameSize - FrameStep < n < FrameSize ==> r == Failure(FrameOutOfRange(0)))
      && (n >= FrameSize && !Radix2.Supported(fftSize) ==> r == Failure(FftOutOfBounds(Radix2.OverrunIndex(fftSize))))
    ensures var n, bank := |audio|, FilterBank(fftSize, sampleRate, NMels, ops);
      n >= FrameSize && Radix2.Supported(fftSize) ==>
        && |spectra| == NumFrames(n, FrameSize, FrameStep) >= 1
        && |inputs| == |spectra|
        && (forall g :: 0 <= g < |inputs| ==>
              inputs[g] == Padded(Windowed(FrameSlice(Emphasized(audio, Alpha), FrameSize, FrameStep, g),
                                           HammingWindow(FrameSize, ops)), fftSize))
        && (forall g :: 0 <= g < |spectra| ==> |spectra[g]| == fftSize / 2)
        && SpectraFit(bank, spectra)
        && (BankHasNaN(fftSize, sampleRate, NMels, ops) ==> r == Failure(NotANumber))
        && (!BankHasNaN(fftSize, sampleRate, NMels, ops) ==>
              && r.Success? && |r.value| == NMfcc
              && forall k :: 0 <= k < NMfcc ==>
                   r.value[k] == ColumnSum(Cepstra(bank, spectra, ops), k) / |spectra| as real)
  {
    spectra, inputs := [], [];
    var emphasized := PreEmphasis(audio, Alpha);
    if emphasized.Failure? {
      return Failure(emphasized.error), spectra, inputs;
    }
    if |audio| >= FrameSize {
      FramingWhole(emphasized.value, FrameSize, FrameStep);
    } else {
      FramingShort(emphasized.value, FrameSize, FrameStep);
    }
    var framed := Framing(emphasized.value, FrameSize, FrameStep);
    if framed.Failure? {
      return Failure(framed.error), spectra, inputs;
    }
    var frames := framed.value;
    assert forall g :: 0 <= g < |frames| ==> |frames[g]| == FrameSize;
    var window := HammingWindow(FrameSize, ops);
    var melFilters := FilterBank(fftSize, sampleRate, NMels, ops);
    var mfccSum := new real[NMfcc](_ => 0.0);

    for f := 0 to |frames|
      invariant |spectra| == f && |inputs| == f
      invariant forall g :: 0 <= g < f ==> inputs[g] == Padded(Windowed(frames[g], window), fftSize)
      invariant !Radix2.Supported(fftSize) ==> f == 0
      invariant forall g :: 0 <= g < f ==> |spectra[g]| == fftSize / 2
      invariant SpectraFit(melFilters, spectra)
      invariant forall k :: 0 <= k < NMfcc ==> mfccSum[k] == ColumnSum(Cepstra(melFilters, spectra, ops), k)
    {
      var spectrum, input := FrameSpectrum(frames[f], window, fftSize, ops);
      if spectrum.Failure? {
        return Failure(FftOutOfBounds(spectrum.error)), spectra, inputs;
      }
      AddFrame(mfccSum, melFilters, spectra, spectrum.value, ops);
      spectra := spectra + [spectrum.value];
      inputs := inputs + [input];
    }
    if |frames| == 0 || BankHasNaN(fftSize, sampleRate, NMels, ops) {
      return Failure(NotANumber), spectra, inputs;
    }
    r := Success(seq(NMfcc, i requires 0 <= i < NMfcc reads mfccSum => mfccSum[i] / |frames| as real));
  }

  /**
   * computeMFCC as written: the frames are 400 samples and the transform
   * has 400 points, so it never returns coefficients. A signal of at least
   * 400 samples throws reading index 400 in the butterfly stage m = 32;
   * shorter ones throw in pre-emphasis or framing, or average over no
   * frames (0/0, an array of NaN).
   */
  method ComputeMfcc(audio: seq<real>, sampleRate: int, ops: MathOps) returns (r: Result<seq<real>, MfccError>)
    requires sampleRate != 0
    ensures r.Failure?
    ensures |audio| >= FrameSize ==> r == Failure(FftOutOfBounds(400))
    ensures |audio| == 0 ==> r == Failure(EmptySignal)
    ensures 0 < |audio| <= FrameSize - 2 * FrameStep ==> r.error.NegativeFrameCount?
    ensures FrameSize - 2 * FrameStep < |audio| <= FrameSize - FrameStep ==> r == Failure(NotANumber)
    ensures FrameSize - FrameStep < |audio| < FrameSize ==> r == Failure(FrameOutOfRange(0))
  {
    Radix2.Frame400Overrun();
    ghost var spectra, inputs;
    r, spectra, inputs := Extract(audio, sampleRate, FrameSize, ops);
  }

  /**
   * computeMFCC with each 400-sample frame zero-padded to a 512-point
   * transform and the filter bank built for 512 points: from 400 samples
   * on it returns 13 averaged coefficients unless a filter weight is NaN.
   */
  method CorrectedComputeMfcc(audio: seq<real>, sampleRate: int, ops: MathOps) returns (r: Result<seq<real>, MfccError>)
    requires sampleRate != 0
    ensures |audio| == 0 ==> r == Failure(EmptySignal)
    ensures |audio| >= FrameSize && !BankHasNaN(512, sampleRate, NMels, ops) ==> r.Success? && |r.value| == NMfcc
    ensures |audio| >= FrameSize && BankHasNaN(512, sampleRate, NMels, ops) ==> r == Failure(NotANumber)
  {
    Radix2.FrameSizes();
    ghost var spectra, inputs;
    r, spectra, inputs := Extract(audio, sampleRate, 512, ops);
  }
}
