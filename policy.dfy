/**
 * The detection policy shared by the UI callback (MainActivity.kt) and the
 * background service (WakeWordService.kt): a counter of consecutive scores
 * above a threshold, and a cooldown measured from the last detection.
 * Hits keep counting while the cooldown runs; only the trigger waits for it.
 */
module Policy {

  datatype Config = Config(threshold: real, requiredHits: nat, cooldownMs: int)

  /** `consecutiveHits` and `lastDetectionTime`. */
  datatype State = State(hits: nat, lastDetection: int)

  /** One callback: the score the policy sees and `System.currentTimeMillis()`. */
  datatype Tick = Tick(score: real, now: int)

  datatype Outcome = Outcome(next: State, detected: bool)

  /** The state after a run, and the indices of the ticks that detected. */
  datatype Trace = Trace(final: State, detections: seq<nat>)

  /** THRESHOLD, REQUIRED_HITS and cooldownMs of the UI screen. */
  const Ui: Config := Config(0.45, 3, 2000)

  /** Both screens start with no hits and `lastDetectionTime = 0`. */
  const Start: State := State(0, 0)

  /** The counter after one score: one more above the threshold, else back to zero. */
  function CountHit(c: Config, hits: nat, score: real): nat
  {
    if score > c.threshold then hits + 1 else 0
  }

  /** One callback: count the score, then fire if enough hits and the cooldown is over. */
  function Step(c: Config, s: State, t: Tick): Outcome
  {
    var hits := CountHit(c, s.hits, t.score);
    if hits >= c.requiredHits && t.now - s.lastDetection > c.cooldownMs then
      Outcome(State(0, t.now), true)
    else
      Outcome(State(hits, s.lastDetection), false)
  }

  /** The callbacks `ticks`, in order, from state `s`. */
  function Run(c: Config, s: State, ticks: seq<Tick>): Trace
    decreases |ticks|
  {
    if ticks == [] then Trace(s, [])
    else
      var r := Run(c, s, ticks[..|ticks| - 1]);
      var o := Step(c, r.final, ticks[|ticks| - 1]);
      Trace(o.next, r.detections + if o.detected then [|ticks| - 1] else [])
  }

  function LastIndex(ds: seq<nat>): int
  {
    if ds == [] then -1 else ds[|ds| - 1]
  }

  /**
   * Detection `i` came at least `requiredHits` callbacks after the previous
   * one (or the start), and the last `requiredHits` scores up to and
   * including it were all above the threshold.
   */
  ghost predicate Preceded(c: Config, ticks: seq<Tick>, ds: seq<nat>, i: nat)
    requires i < |ds| && ds[i] < |ticks|
  {
    var prev := if i == 0 then -1 else ds[i - 1];
    && ds[i] - prev >= c.requiredHits
    && forall k :: 0 <= k && ds[i] - c.requiredHits < k <= ds[i] ==> ticks[k].score > c.threshold
  }

  ghost predicate Nondecreasing(ticks: seq<Tick>)
  {
    forall a, b :: 0 <= a <= b < |ticks| ==> ticks[a].now <= ticks[b].now
  }

  /** Detection indices are ticks of the run, in increasing order. */
  ghost predicate Ordered(ds: seq<nat>, n: nat)
  {
    && (forall i :: 0 <= i < |ds| ==> ds[i] < n)
    && (forall i, j :: 0 <= i < j < |ds| ==> ds[i] < ds[j])
  }

  /** Every detection is preceded by its hits. */
  ghost predicate AllPreceded(c: Config, ticks: seq<Tick>, ds: seq<nat>)
    requires Ordered(ds, |ticks|)
  {
    forall i :: 0 <= i < |ds| ==> Preceded(c, ticks, ds, i)
  }

  /** Each detection is more than the cooldown after the previous one (or the initial time). */
  ghost predicate Spaced(c: Config, s0: State, ticks: seq<Tick>, ds: seq<nat>)
    requires Ordered(ds, |ticks|)
  {
    && (forall i :: 0 < i < |ds| ==> ticks[ds[i]].now - ticks[ds[i - 1]].now > c.cooldownMs)
    && (|ds| > 0 ==> ticks[ds[0]].now - s0.lastDetection > c.cooldownMs)
  }

  /** The counter and the recorded time agree with the ticks since the last detection. */
  ghost predicate Current(c: Config, s0: State, ticks: seq<Tick>, r: Trace)
    requires Ordered(r.detections, |ticks|)
  {
    var last := LastIndex(r.detections);
    && r.final.lastDetection == (if r.detections == [] then s0.lastDetection else ticks[last].now)
    && r.final.hits <= |ticks| - 1 - last
    && (forall k :: |ticks| - r.final.hits <= k < |ticks| ==> ticks[k].score > c.threshold)
  }

  /** What a run from a state without hits guarantees about its trace. */
  ghost predicate RunInvariant(c: Config, s0: State, ticks: seq<Tick>, r: Trace)
  {
    && Ordered(r.detections, |ticks|)
    && Current(c, s0, ticks, r)
    && AllPreceded(c, ticks, r.detections)
    && Spaced(c, s0, ticks, r.detections)
  }

  /** The trace after one more callback `t`, the `index`-th. */
  function Extend(c: Config, r: Trace, t: Tick, index: nat): Trace
  {
    var o := Step(c, r.final, t);
    Trace(o.next, r.detections + if o.detected then [index] else [])
  }

  lemma ExtendOrdered(c: Config, pre: seq<Tick>, t: Tick, r: Trace)
    requires Ordered(r.detections, |pre|)
    ensures Ordered(Extend(c, r, t, |pre|).detections, |pre| + 1)
  {
    var ds := Extend(c, r, t, |pre|).detections;
    forall i, j | 0 <= i < j < |ds| ensures ds[i] < ds[j] {
      if j < |r.detections| { assert ds[i] == r.detections[i] && ds[j] == r.detections[j]; }
    }
  }

  /** Earlier detections keep their hits and spacing when the run grows. */
  lemma ExtendKeepsHistory(c: Config, s0: State, pre: seq<Tick>, t: Tick, r: Trace)
    requires Ordered(r.detections, |pre|)
    requires AllPreceded(c, pre, r.detections) && Spaced(c, s0, pre, r.detections)
    ensures Ordered(r.detections, |pre| + 1)
    ensures AllPreceded(c, pre + [t], r.detections)
    ensures forall i :: 0 < i < |r.detections| ==>
      (pre + [t])[r.detections[i]].now - (pre + [t])[r.detections[i - 1]].now > c.cooldownMs
    ensures |r.detections| > 0 ==> (pre + [t])[r.detections[0]].now - s0.lastDetection > c.cooldownMs
  {
    var ticks := pre + [t];
    var ds := r.detections;
    forall i | 0 <= i < |ds|
      ensures Preceded(c, ticks, ds, i)
    {
      assert Preceded(c, pre, ds, i);
      forall k | 0 <= k && ds[i] - c.requiredHits < k <= ds[i]
        ensures ticks[k].score > c.threshold
      {
        assert ticks[k] == pre[k];
      }
    }
    forall i | 0 <= i < |ds| ensures ticks[ds[i]] == pre[ds[i]] {}
  }

  /** A callback that detects keeps the invariant. */
  lemma DetectingStepKeepsInvariant(c: Config, s0: State, pre: seq<Tick>, t: Tick, r: Trace)
    requires RunInvariant(c, s0, pre, r)
    requires Step(c, r.final, t).detected
    ensures RunInvariant(c, s0, pre + [t], Extend(c, r, t, |pre|))
  {
    ExtendOrdered(c, pre, t, r);
    var ds := Extend(c, r, t, |pre|).detections;
    assert ds == r.detections + [|pre|];
    assert LastIndex(ds) == |pre| && (pre + [t])[|pre|] == t;
    DetectingKeepsSpaced(c, s0, pre, t, r);
    DetectingKeepsPreceded(c, s0, pre, t, r);
  }

  /** The new detection is more than the cooldown after the previous one. */
  lemma DetectingKeepsSpaced(c: Config, s0: State, pre: seq<Tick>, t: Tick, r: Trace)
    requires RunInvariant(c, s0, pre, r)
    requires Step(c, r.final, t).detected
    ensures Ordered(r.detections + [|pre|], |pre| + 1)
    ensures Spaced(c, s0, pre + [t], r.detections + [|pre|])
  {
    var ticks := pre + [t];
    var n := |ticks|;
    var old_ := r.detections;
    var ds := old_ + [n - 1];
    ExtendOrdered(c, pre, t, r);
    assert Extend(c, r, t, |pre|).detections == ds;
    ExtendKeepsHistory(c, s0, pre, t, r);
    forall i | 0 < i < |ds| ensures ticks[ds[i]].now - ticks[ds[i - 1]].now > c.cooldownMs {
      if i < |old_| {
        assert ds[i] == old_[i] && ds[i - 1] == old_[i - 1];
      } else {
        assert ticks[ds[i - 1]] == pre[LastIndex(old_)];
      }
    }
  }

  /** The new detection follows its required hits; the earlier ones keep theirs. */
  lemma DetectingKeepsPreceded(c: Config, s0: State, pre: seq<Tick>, t: Tick, r: Trace)
    requires RunInvariant(c, s0, pre, r)
    requires Step(c, r.final, t).detected
    ensures Ordered(r.detections + [|pre|], |pre| + 1)
    ensures AllPreceded(c, pre + [t], r.detections + [|pre|])
  {
    var ticks := pre + [t];
    var n := |ticks|;
    var old_ := r.detections;
    var ds := old_ + [n - 1];
    ExtendOrdered(c, pre, t, r);
    assert Extend(c, r, t, |pre|).detections == ds;
    ExtendKeepsHistory(c, s0, pre, t, r);
    var hits := CountHit(c, r.final.hits, t.score);
    assert hits <= n - 1 - LastIndex(old_);
    forall k | 0 <= k && n - 1 - c.requiredHits < k <= n - 1
      ensures ticks[k].score > c.threshold
    {
      if k < n - 1 {
        assert ticks[k] == pre[k];
      }
    }
    assert Preceded(c, ticks, ds, |old_|);
    forall i | 0 <= i < |ds| ensures Preceded(c, ticks, ds, i) {
      if i < |old_| {
        assert Preceded(c, ticks, old_, i);
        assert ds[i] == old_[i] && (i > 0 ==> ds[i - 1] == old_[i - 1]);
      }
    }
  }

  /** A callback that does not detect keeps the invariant. */
  lemma QuietStepKeepsInvariant(c: Config, s0: State, pre: seq<Tick>, t: Tick, r: Trace)
    requires RunInvariant(c, s0, pre, r)
    requires !Step(c, r.final, t).detected
    ensures RunInvariant(c, s0, pre + [t], Extend(c, r, t, |pre|))
  {
    var ticks := pre + [t];
    var n := |ticks|;
    var r' := Extend(c, r, t, |pre|);
    assert r'.detections == r.detections;
    ExtendKeepsHistory(c, s0, pre, t, r);
    assert r.detections != [] ==> ticks[LastIndex(r.detections)] == pre[LastIndex(r.detections)];
    forall k | n - r'.final.hits <= k < n
      ensures ticks[k].score > c.threshold
    {
      if k < n - 1 {
        assert ticks[k] == pre[k];
      }
    }
  }

  lemma {:induction false} RunKeepsInvariant(c: Config, s0: State, ticks: seq<Tick>)
    requires s0.hits == 0
    ensures RunInvariant(c, s0, ticks, Run(c, s0, ticks))
    decreases |ticks|
  {
    if ticks != [] {
      var n := |ticks|;
      var pre := ticks[..n - 1];
      RunKeepsInvariant(c, s0, pre);
      var r := Run(c, s0, pre);
      assert pre + [ticks[n - 1]] == ticks;
      assert Run(c, s0, ticks) == Extend(c, r, ticks[n - 1], |pre|);
      if Step(c, r.final, ticks[n - 1]).detected {
        DetectingStepKeepsInvariant(c, s0, pre, ticks[n - 1], r);
      } else {
        QuietStepKeepsInvariant(c, s0, pre, ticks[n - 1], r);
      }
    }
  }

  /**
   * With a clock that never goes backwards, any two detections are more than
   * the cooldown apart.
   */
  lemma DetectionsSpaced(c: Config, s0: State, ticks: seq<Tick>)
    requires s0.hits == 0
    requires Nondecreasing(ticks)
    ensures var ds := Run(c, s0, ticks).detections;
      && (forall i :: 0 <= i < |ds| ==> ds[i] < |ticks|)
      && (forall i, j :: 0 <= i < j < |ds| ==> ticks[ds[j]].now - ticks[ds[i]].now > c.cooldownMs)
  {
    RunKeepsInvariant(c, s0, ticks);
    var ds := Run(c, s0, ticks).detections;
    forall i, j | 0 <= i < j < |ds|
      ensures ticks[ds[j]].now - ticks[ds[i]].now > c.cooldownMs
    {
      if i < j - 1 {
        assert ds[i] < ds[j - 1];
      }
      assert ticks[ds[i]].now <= ticks[ds[j - 1]].now;
    }
  }

  /**
   * Every detection is preceded by at least `requiredHits` callbacks since the
   * previous detection (or the start), the last `requiredHits` of them above
   * the threshold.
   */
  lemma DetectionsPreceded(c: Config, s0: State, ticks: seq<Tick>)
    requires s0.hits == 0
    ensures var ds := Run(c, s0, ticks).detections;
      forall i :: 0 <= i < |ds| ==> ds[i] < |ticks| && Preceded(c, ticks, ds, i)
  {
    RunKeepsInvariant(c, s0, ticks);
  }

  /**
   * `lastDetectionTime` starts at 0: on a clock that reads 0 or more, no
   * detection happens until the clock has passed the cooldown.
   */
  lemma NoDetectionWithinFirstCooldown(c: Config, ticks: seq<Tick>)
    requires forall k :: 0 <= k < |ticks| ==> ticks[k].now >= 0
    ensures var ds := Run(c, Start, ticks).detections;
      forall i :: 0 <= i < |ds| ==> ds[i] < |ticks| && ticks[ds[i]].now > c.cooldownMs
  {
    RunKeepsInvariant(c, Start, ticks);
    var ds := Run(c, Start, ticks).detections;
    forall i | 0 <= i < |ds|
      ensures ticks[ds[i]].now > c.cooldownMs
    {
      if i > 0 {
        assert ticks[ds[i - 1]].now >= 0;
      }
    }
  }

  /** During the cooldown a score above the threshold still counts as a hit. */
  lemma HitsAccumulateDuringCooldown(c: Config, s: State, t: Tick)
    requires t.score > c.threshold
    requires t.now - s.lastDetection <= c.cooldownMs
    ensures Step(c, s, t) == Outcome(State(s.hits + 1, s.lastDetection), false)
  {
  }
}
