/**
 * The capture side of audio/AudioProcessor.kt: the read loop's sample
 * accumulator, which gathers 16-bit PCM samples until one second (16000
 * samples) is held, hands the first 16000 on as an analysis window and then
 * clears the whole buffer; the PCM-to-float conversion; and normalizeAudio.
 */
module Audio {
  import opened Wrappers
  import opened Maths
  import Mfcc

  /** A Kotlin `Short`: a signed 16-bit PCM sample. */
  newtype Short = x: int | -32768 <= x <= 32767

  const SampleRate: int := 16000
  const RecordingDurationMs: int := 1000
  /** `sampleRate * recordingDurationMs / 1000`; 16,000,000 fits in a 32-bit Int. */
  const RequiredSamples: int := SampleRate * RecordingDurationMs / 1000
  /** `Short.MAX_VALUE`. */
  const ShortMax: int := 32767

  lemma RequiredSamplesIsOneSecond()
    ensures RequiredSamples == 16000 == SampleRate
  {
  }

  // ---------------------------------------------------------------- conversion

  /** `audioData[i].toFloat() / Short.MAX_VALUE` for every sample, in order. */
  function ToFloatAudio(samples: seq<Short>): (f: seq<real>)
    ensures |f| == |samples|
  {
    seq(|samples|, i requires 0 <= i < |samples| => samples[i] as real / ShortMax as real)
  }

  /** The conversion keeps length and order and lands in [-32768/32767, 1]. */
  lemma ConversionRange(samples: seq<Short>)
    ensures var r := ToFloatAudio(samples);
      && |r| == |samples|
      && forall i :: 0 <= i < |r| ==> -32768.0 / 32767.0 <= r[i] <= 1.0
  {
  }

  /** Scaling back by `Short.MAX_VALUE` gives back every sample at its position. */
  lemma ConversionRoundTrip(samples: seq<Short>)
    ensures var r := ToFloatAudio(samples);
      |r| == |samples| && forall i :: 0 <= i < |r| ==> r[i] * 32767.0 == samples[i] as real
  {
  }

  function ToFloatWindows(ws: seq<seq<Short>>): seq<seq<real>>
  {
    seq(|ws|, k requires 0 <= k < |ws| => ToFloatAudio(ws[k]))
  }

  // ---------------------------------------------------------------- normalizeAudio

  function Abs(x: real): real
  {
    if x < 0.0 then -x else x
  }

  /** `audio.maxOfOrNull { abs(it) } ?: 1f`. */
  function MaxAbs(audio: seq<real>): real
  {
    if audio == [] then 1.0
    else if |audio| == 1 then Abs(audio[0])
    else
      var m := MaxAbs(audio[..|audio| - 1]);
      var x := Abs(audio[|audio| - 1]);
      if m >= x then m else x
  }

  function Scale(audio: seq<real>, m: real): seq<real>
    requires m > 0.0
  {
    seq(|audio|, i requires 0 <= i < |audio| => audio[i] / m)
  }

  /** Divide every sample by the largest magnitude, unless that is zero. */
  function NormalizeAudio(audio: seq<real>): seq<real>
  {
    var m := MaxAbs(audio);
    if m > 0.0 then Scale(audio, m) else audio
  }

  /** MaxAbs of a non-empty signal is the magnitude of one of its samples, and no sample exceeds it. */
  lemma {:induction false} MaxAbsIsMaximum(audio: seq<real>)
    requires audio != []
    ensures forall i :: 0 <= i < |audio| ==> Abs(audio[i]) <= MaxAbs(audio)
    ensures exists i :: 0 <= i < |audio| && Abs(audio[i]) == MaxAbs(audio)
  {
    if |audio| == 1 {
      assert Abs(audio[0]) == MaxAbs(audio);
    } else {
      var pre := audio[..|audio| - 1];
      MaxAbsIsMaximum(pre);
      var i :| 0 <= i < |pre| && Abs(pre[i]) == MaxAbs(pre);
      assert audio[i] == pre[i];
      if MaxAbs(pre) >= Abs(audio[|audio| - 1]) {
        assert Abs(audio[i]) == MaxAbs(audio);
      } else {
        assert Abs(audio[|audio| - 1]) == MaxAbs(audio);
      }
      forall j | 0 <= j < |audio| ensures Abs(audio[j]) <= MaxAbs(audio) {
        if j < |audio| - 1 { assert audio[j] == pre[j]; }
      }
    }
  }

  lemma DivWithinUnit(x: real, m: real)
    requires m > 0.0 && -m <= x <= m
    ensures -1.0 <= x / m <= 1.0
  {
    var q := x / m;
    assert q * m == x;
  }

  lemma DivideByPeak(x: real, m: real)
    requires m > 0.0
    ensures (x / m) * m == x
    ensures Abs(x) == m ==> x / m == 1.0 || x / m == -1.0
  {
  }

  /** Every normalized sample lies in [-1, 1], whatever the input. */
  lemma NormalizeBounded(audio: seq<real>)
    ensures var out := NormalizeAudio(audio);
      |out| == |audio| && forall i :: 0 <= i < |out| ==> -1.0 <= out[i] <= 1.0
  {
    var m := MaxAbs(audio);
    if audio != [] {
      MaxAbsIsMaximum(audio);
      if m > 0.0 {
        forall i | 0 <= i < |audio| ensures -1.0 <= audio[i] / m <= 1.0 {
          assert Abs(audio[i]) <= m;
          DivWithinUnit(audio[i], m);
        }
      } else {
        forall i | 0 <= i < |audio| ensures audio[i] == 0.0 {
          assert Abs(audio[i]) <= m;
        }
      }
    }
  }

  /** With a non-zero peak the output is the input scaled by 1/peak, and the peaks become exactly ±1. */
  lemma NormalizePeaks(audio: seq<real>, m: real)
    requires m == MaxAbs(audio) && m > 0.0
    ensures var out := NormalizeAudio(audio);
      && |out| == |audio|
      && (forall i :: 0 <= i < |out| ==> out[i] * m == audio[i])
      && (forall i :: 0 <= i < |out| && Abs(audio[i]) == m ==> out[i] == 1.0 || out[i] == -1.0)
  {
    ScaleByPeak(audio, m);
    assert NormalizeAudio(audio) == Scale(audio, m);
  }

  lemma ScaleByPeak(audio: seq<real>, m: real)
    requires m > 0.0
    ensures var out := Scale(audio, m);
      && |out| == |audio|
      && (forall i :: 0 <= i < |out| ==> out[i] * m == audio[i])
      && (forall i :: 0 <= i < |out| && Abs(audio[i]) == m ==> out[i] == 1.0 || out[i] == -1.0)
  {
    var out := Scale(audio, m);
    forall i | 0 <= i < |out|
      ensures out[i] * m == audio[i]
      ensures Abs(audio[i]) == m ==> out[i] == 1.0 || out[i] == -1.0
    {
      DivideByPeak(audio[i], m);
    }
  }

  /** An all-zero signal comes back as the same array. */
  lemma NormalizeKeepsSilence(audio: seq<real>)
    requires forall i :: 0 <= i < |audio| ==> audio[i] == 0.0
    ensures NormalizeAudio(audio) == audio
  {
    if audio != [] {
      MaxAbsIsMaximum(audio);
      var i :| 0 <= i < |audio| && Abs(audio[i]) == MaxAbs(audio);
      assert MaxAbs(audio) == 0.0;
    }
  }

  // ---------------------------------------------------------------- the read loop, as values

  /** Lines 48-53: a read of `read > 0` samples appends `tempBuffer[0 until read]`. */
  function Appended(buffer: seq<Short>, tempBuffer: seq<Short>, read: int): seq<Short>
    requires read <= |tempBuffer|
  {
    if read > 0 then buffer + tempBuffer[..read] else buffer
  }

  /** Feed either emits a full window followed by the surplus, or keeps everything it has. */
  lemma FeedSplits(buffer: seq<Short>, tempBuffer: seq<Short>, read: int)
    requires |buffer| < RequiredSamples && read <= |tempBuffer|
    ensures var f := Feed(buffer, tempBuffer, read);
      var all := Appended(buffer, tempBuffer, read);
      && |f.buffer| < RequiredSamples
      && (f.window.Some? ==> f.buffer == [] && |f.window.value| == RequiredSamples && all == f.window.value + f.dropped)
      && (f.window.None? ==> f.buffer == all)
  {
  }

  /** The buffer after one read, the window it emitted, and the samples the clear threw away. */
  datatype Fed = Fed(buffer: seq<Short>, window: Option<seq<Short>>, dropped: seq<Short>)

  /** Lines 48-62: append, then take the first 16000 samples and clear everything once 16000 are held. */
  function Feed(buffer: seq<Short>, tempBuffer: seq<Short>, read: int): Fed
    requires read <= |tempBuffer|
  {
    var all := Appended(buffer, tempBuffer, read);
    if |all| >= RequiredSamples then Fed([], Some(all[..RequiredSamples]), all[RequiredSamples..])
    else Fed(all, None, [])
  }

  /** What the loop observes at the top of an iteration: a completed read, or `isRecording` cleared. */
  datatype Event = Read(samples: seq<Short>, count: int) | StopRequest

  /** `AudioRecord.read` never reports more samples than the buffer it was given. */
  predicate Fits(e: Event)
  {
    e.Read? ==> e.count <= |e.samples|
  }

  datatype Session = Session(buffer: seq<Short>, windows: seq<seq<Short>>, drops: seq<seq<Short>>, recording: bool)

  /** The loop over `events` from a buffer holding `buffer`, up to the first stop request. */
  function Run(buffer: seq<Short>, events: seq<Event>): Session
    requires forall i :: 0 <= i < |events| ==> Fits(events[i])
    decreases |events|
  {
    if events == [] then Session(buffer, [], [], true)
    else
      match events[0]
      case StopRequest => Session(buffer, [], [], false)
      case Read(samples, count) =>
        assert Fits(events[0]);
        var f := Feed(buffer, samples, count);
        var rest := Run(f.buffer, events[1..]);
        if f.window.Some? then
          Session(rest.buffer, [f.window.value] + rest.windows, [f.dropped] + rest.drops, rest.recording)
        else rest
  }

  /** The samples one event appends. */
  function Chunk(e: Event): seq<Short>
    requires Fits(e)
  {
    if e.Read? && e.count > 0 then e.samples[..e.count] else []
  }

  /** Every sample read before the first stop request, in order. */
  function Stream(events: seq<Event>): seq<Short>
    requires forall i :: 0 <= i < |events| ==> Fits(events[i])
    decreases |events|
  {
    if events == [] || events[0].StopRequest? then [] else Chunk(events[0]) + Stream(events[1..])
  }

  /** window0 + dropped0 + window1 + dropped1 + ... */
  function Interleave(ws: seq<seq<Short>>, ds: seq<seq<Short>>): seq<Short>
    requires |ws| == |ds|
    decreases |ws|
  {
    if ws == [] then [] else ws[0] + ds[0] + Interleave(ws[1..], ds[1..])
  }

  /**
   * The windowing does not overlap and drops surplus: what was held plus
   * everything read is exactly the emitted windows, each followed by the
   * samples the clear discarded, and then what is still held, which is
   * under one window; every window has exactly 16000 samples.
   */
  lemma InterleaveCons(w: seq<Short>, d: seq<Short>, ws: seq<seq<Short>>, ds: seq<seq<Short>>)
    requires |ws| == |ds|
    ensures Interleave([w] + ws, [d] + ds) == w + d + Interleave(ws, ds)
  {
    assert ([w] + ws)[1..] == ws && ([d] + ds)[1..] == ds;
  }

  /** One read event, unfolded: the session after it is the session of the rest from the fed buffer. */
  lemma RunRead(buffer: seq<Short>, events: seq<Event>)
    requires events != [] && events[0].Read?
    requires forall i :: 0 <= i < |events| ==> Fits(events[i])
    ensures Fits(events[0])
    ensures var f := Feed(buffer, events[0].samples, events[0].count);
      var r := Run(f.buffer, events[1..]);
      Run(buffer, events) ==
        if f.window.Some? then Session(r.buffer, [f.window.value] + r.windows, [f.dropped] + r.drops, r.recording)
        else r
    ensures Stream(events) == Chunk(events[0]) + Stream(events[1..])
  {
    assert Fits(events[0]);
  }

  /**
   * The windowing does not overlap and drops surplus: what was held plus
   * everything read is exactly the emitted windows, each followed by the
   * samples the clear discarded, and then what is still held, which is
   * under one window; every window has exactly 16000 samples.
   */
  lemma {:induction false} RunShape(buffer: seq<Short>, events: seq<Event>)
    requires |buffer| < RequiredSamples
    requires forall i :: 0 <= i < |events| ==> Fits(events[i])
    ensures var r := Run(buffer, events);
      && |r.windows| == |r.drops|
      && |r.buffer| < RequiredSamples
      && (forall k :: 0 <= k < |r.windows| ==> |r.windows[k]| == RequiredSamples)
    decreases |events|
  {
    if events != [] && events[0].Read? {
      RunRead(buffer, events);
      var e := events[0];
      FeedSplits(buffer, e.samples, e.count);
      RunShape(Feed(buffer, e.samples, e.count).buffer, events[1..]);
    }
  }

  lemma {:induction false} RunDecomposesStream(buffer: seq<Short>, events: seq<Event>)
    requires |buffer| < RequiredSamples
    requires forall i :: 0 <= i < |events| ==> Fits(events[i])
    ensures var r := Run(buffer, events);
      && |r.windows| == |r.drops|
      && |r.buffer| < RequiredSamples
      && (forall k :: 0 <= k < |r.windows| ==> |r.windows[k]| == RequiredSamples)
      && buffer + Stream(events) == Interleave(r.windows, r.drops) + r.buffer
    decreases |events|
  {
    RunShape(buffer, events);
    if events != [] && events[0].Read? {
      assert Fits(events[0]);
      var f := Feed(buffer, events[0].samples, events[0].count);
      RunShape(f.buffer, events[1..]);
      RunDecomposesStream(f.buffer, events[1..]);
      DecomposeRead(buffer, events);
    }
  }

  /** The inductive step of RunDecomposesStream, for a read event. */
  lemma DecomposeRead(buffer: seq<Short>, events: seq<Event>)
    requires |buffer| < RequiredSamples
    requires events != [] && events[0].Read?
    requires forall i :: 0 <= i < |events| ==> Fits(events[i])
    requires Fits(events[0])
    requires var f := Feed(buffer, events[0].samples, events[0].count);
      var r := Run(f.buffer, events[1..]);
      && |r.windows| == |r.drops|
      && f.buffer + Stream(events[1..]) == Interleave(r.windows, r.drops) + r.buffer
    ensures var r := Run(buffer, events);
      && |r.windows| == |r.drops|
      && buffer + Stream(events) == Interleave(r.windows, r.drops) + r.buffer
  {
    var e := events[0];
    var f := Feed(buffer, e.samples, e.count);
    var rest := events[1..];
    var r := Run(f.buffer, rest);
    var whole := Run(buffer, events);
    assert Stream(events) == Chunk(e) + Stream(rest) && whole == (if f.window.Some? then
      Session(r.buffer, [f.window.value] + r.windows, [f.dropped] + r.drops, r.recording) else r) by {
      RunRead(buffer, events);
    }
    assert buffer + Chunk(e) == Appended(buffer, e.samples, e.count);
    FeedSplits(buffer, e.samples, e.count);
    if f.window.Some? {
      WindowThenRest(buffer, Chunk(e), Stream(rest), f.window.value, f.dropped, r.windows, r.drops, r.buffer);
    } else {
      ConcatAssoc(buffer, Chunk(e), Stream(rest));
    }
  }

  /** Sequence bookkeeping of a read that completed a window. */
  lemma WindowThenRest(buffer: seq<Short>, chunk: seq<Short>, later: seq<Short>, w: seq<Short>, d: seq<Short>,
                       ws: seq<seq<Short>>, ds: seq<seq<Short>>, held: seq<Short>)
    requires |ws| == |ds|
    requires buffer + chunk == w + d && later == Interleave(ws, ds) + held
    ensures buffer + (chunk + later) == Interleave([w] + ws, [d] + ds) + held
  {
    InterleaveCons(w, d, ws, ds);
    var ileave := Interleave(ws, ds);
    calc {
      buffer + (chunk + later);
      { ConcatAssoc(buffer, chunk, later); }
      (w + d) + (ileave + held);
      { ConcatAssoc(w + d, ileave, held); }
      (w + d + ileave) + held;
    }
  }

  lemma ConcatAssoc<T>(a: seq<T>, b: seq<T>, c: seq<T>)
    ensures a + (b + c) == (a + b) + c
  {
  }

  /** The discarded surplus is always less than the read that completed the window. */
  lemma {:induction false} DropsShorterThanRead(buffer: seq<Short>, events: seq<Event>, cap: nat)
    requires |buffer| < RequiredSamples
    requires forall i :: 0 <= i < |events| ==> Fits(events[i])
    requires forall i :: 0 <= i < |events| ==> events[i].Read? ==> events[i].count <= cap
    ensures var r := Run(buffer, events);
      forall k :: 0 <= k < |r.drops| ==> |r.drops[k]| < cap
    decreases |events|
  {
    if events != [] && events[0].Read? {
      var e := events[0];
      assert Fits(e);
      var f := Feed(buffer, e.samples, e.count);
      RunDecomposesStream(f.buffer, events[1..]);
      DropsShorterThanRead(f.buffer, events[1..], cap);
      if f.window.Some? {
        assert |f.dropped| == |buffer| + e.count - RequiredSamples;
        var r := Run(f.buffer, events[1..]);
        assert Run(buffer, events).drops == [f.dropped] + r.drops;
      }
    }
  }

  /** Two reads of one second each give two disjoint windows, one per read. */
  lemma TwoSecondsTwoWindows(a: seq<Short>, b: seq<Short>)
    requires |a| == RequiredSamples && |b| == RequiredSamples
    ensures Run([], [Read(a, |a|), Read(b, |b|)]).windows == [a, b]
  {
    var events := [Read(a, |a|), Read(b, |b|)];
    assert a[..|a|] == a && b[..|b|] == b;
    assert ([] + a)[..RequiredSamples] == a;
    assert ([] + b)[..RequiredSamples] == b;
    assert Feed([], a, |a|) == Fed([], Some(a), a[RequiredSamples..]);
    assert Feed([], b, |b|) == Fed([], Some(b), b[RequiredSamples..]);
    assert events[1..] == [Read(b, |b|)];
    assert events[1..][1..] == [];
    RunRead([], events[1..]);
    assert Run([], events[1..]).windows == [b];
    RunRead([], events);
  }

  /** A session preceded by the windows `ws` and drops `ds` emitted before it. */
  function After(ws: seq<seq<Short>>, ds: seq<seq<Short>>, r: Session): Session
  {
    Session(r.buffer, ws + r.windows, ds + r.drops, r.recording)
  }

  /** Consuming one read moves the window it emits, if any, into the prefix. */
  lemma AfterRead(ws: seq<seq<Short>>, ds: seq<seq<Short>>, buffer: seq<Short>, events: seq<Event>)
    requires events != [] && events[0].Read?
    requires forall i :: 0 <= i < |events| ==> Fits(events[i])
    ensures Fits(events[0])
    ensures var f := Feed(buffer, events[0].samples, events[0].count);
      var r := Run(f.buffer, events[1..]);
      After(ws, ds, Run(buffer, events)) ==
        if f.window.Some? then After(ws + [f.window.value], ds + [f.dropped], r) else After(ws, ds, r)
  {
    var f := Feed(buffer, events[0].samples, events[0].count);
    var r := Run(f.buffer, events[1..]);
    var whole := Run(buffer, events);
    assert whole == if f.window.Some? then Session(r.buffer, [f.window.value] + r.windows, [f.dropped] + r.drops, r.recording)
      else r by { RunRead(buffer, events); }
    if f.window.Some? {
      var w, d := f.window.value, f.dropped;
      assert ws + ([w] + r.windows) == ws + [w] + r.windows;
      assert ds + ([d] + r.drops) == ds + [d] + r.drops;
    }
  }

  lemma ToFloatWindowsSnoc(ws: seq<seq<Short>>, w: seq<Short>)
    ensures ToFloatWindows(ws + [w]) == ToFloatWindows(ws) + [ToFloatAudio(w)]
  {
    assert (ws + [w])[|ws|] == w;
  }

  // ---------------------------------------------------------------- the processor object

  class AudioProcessor {
    var isRecording: bool
    /** `audioBuffer`, the samples not yet handed on. */
    var audioBuffer: seq<Short>

    /** At the top of every loop iteration the buffer holds less than one window. */
    ghost predicate Valid()
      reads this
    {
      |audioBuffer| < RequiredSamples
    }

    constructor ()
      ensures Valid() && !isRecording && audioBuffer == []
    {
      isRecording := false;
      audioBuffer := [];
    }

    /** Lines 26-40: a no-op while recording; otherwise set the flag and clear the buffer. */
    method StartRecording()
      requires Valid()
      modifies this
      ensures Valid() && isRecording
      ensures audioBuffer == if old(isRecording) then old(audioBuffer) else []
    {
      if isRecording {
        return;
      }
      isRecording := true;
      audioBuffer := [];
    }

    /** Line 83: clear the flag the loop tests; the buffer is left as it is. */
    method StopRecording()
      requires Valid()
      modifies this
      ensures Valid() && !isRecording && audioBuffer == old(audioBuffer)
    {
      isRecording := false;
    }

    /**
     * One pass of the loop body after `read` returned (lines 48-66): the
     * float window handed to `computeMFCC`, if one was completed.
     */
    method OnRead(tempBuffer: seq<Short>, read: int) returns (window: Option<seq<real>>)
      requires Valid()
      requires read <= |tempBuffer|
      modifies this
      ensures Valid() && isRecording == old(isRecording)
      ensures var f := Feed(old(audioBuffer), tempBuffer, read);
        && audioBuffer == f.buffer
        && window == if f.window.Some? then Some(ToFloatAudio(f.window.value)) else None
    {
      if read > 0 {
        var i := 0;
        while i < read
          invariant 0 <= i <= read
          invariant isRecording == old(isRecording)
          invariant audioBuffer == old(audioBuffer) + tempBuffer[..i]
        {
          audioBuffer := audioBuffer + [tempBuffer[i]];
          i := i + 1;
        }
      }
      if |audioBuffer| >= RequiredSamples {
        var audioData := audioBuffer[..RequiredSamples];
        audioBuffer := [];
        window := Some(ToFloatAudio(audioData));
      } else {
        window := None;
      }
    }

    /**
     * Lines 90-95: convert the samples and extract their coefficients at
     * the processor's 16 kHz rate, through the corrected 512-point
     * extraction (see Mfcc.ComputeMfcc for what the 400-point one does).
     */
    method ProcessAudioFile(audioData: seq<Short>, ops: MathOps) returns (r: Result<seq<real>, Mfcc.MfccError>)
      ensures |audioData| == 0 ==> r == Failure(Mfcc.EmptySignal)
      ensures |audioData| >= Mfcc.FrameSize && !Mfcc.BankHasNaN(512, SampleRate, Mfcc.NMels, ops) ==>
        r.Success? && |r.value| == Mfcc.NMfcc
      ensures |audioData| >= Mfcc.FrameSize && Mfcc.BankHasNaN(512, SampleRate, Mfcc.NMels, ops) ==>
        r == Failure(Mfcc.NotANumber)
    {
      var floatAudio := ToFloatAudio(audioData);
      r := Mfcc.CorrectedComputeMfcc(floatAudio, SampleRate, ops);
    }

    /**
     * The loop `while (isRecording && isActive)` over the events it observes:
     * every window it hands on, in order, and the buffer and flag it leaves.
     */
    method Capture(events: seq<Event>) returns (windows: seq<seq<real>>)
      requires Valid() && isRecording
      requires forall i :: 0 <= i < |events| ==> Fits(events[i])
      modifies this
      ensures Valid()
      ensures var r := Run(old(audioBuffer), events);
        && audioBuffer == r.buffer
        && isRecording == r.recording
        && windows == ToFloatWindows(r.windows)
    {
      var i := 0;
      windows := [];
      ghost var raw: seq<seq<Short>> := [];
      ghost var drops: seq<seq<Short>> := [];
      ghost var whole := Run(audioBuffer, events);
      while isRecording && i < |events|
        invariant 0 <= i <= |events|
        invariant Valid()
        invariant windows == ToFloatWindows(raw)
        invariant isRecording ==> whole == After(raw, drops, Run(audioBuffer, events[i..]))
        invariant !isRecording ==> whole == Session(audioBuffer, raw, drops, false)
        decreases |events| - i
      {
        assert Fits(events[i]);
        match events[i] {
          case StopRequest =>
            StopRecording();
          case Read(samples, count) =>
            ghost var before := audioBuffer;
            var w := OnRead(samples, count);
            ghost var f := Feed(before, samples, count);
            AfterRead(raw, drops, before, events[i..]);
            assert events[i..][1..] == events[i + 1..];
            if w.Some? {
              ToFloatWindowsSnoc(raw, f.window.value);
              windows := windows + [w.value];
              raw := raw + [f.window.value];
              drops := drops + [f.dropped];
            }
        }
        i := i + 1;
      }
      if isRecording {
        assert events[i..] == [];
      }
    }
  }
}
