/**
 * The detection state of MainActivity.kt's WakeWordScreen: what the
 * recording callback does with each coefficient vector (smooth the
 * classifier's score over five callbacks, count consecutive hits, trigger
 * after three hits once the cooldown has passed) and what the start/stop
 * button does to it. The composable layout around it is not modelled.
 */
module Screen {
  import opened Wrappers
  import Policy
  import Smoother
  import Audio

  const Ready: string := "Ready"
  const Listening: string := "Listening..."
  const Stopped: string := "Stopped"
  const Detected: string := "HEY NIRMAN DETECTED!"

  /** `ConfidenceSmoother(5)`. */
  const WindowSize: int := 5

  class WakeWordScreen {
    const smoother: Smoother.ConfidenceSmoother
    const audioProcessor: Audio.AudioProcessor
    var consecutiveHits: nat
    var isListening: bool
    var mfccValues: Option<seq<real>>
    var detectionStatus: string
    var confidenceScore: real
    var lastDetectionTime: int
    /** The smoothed score and clock reading of every callback so far. */
    ghost var ticks: seq<Policy.Tick>

    /** The policy's view of the screen: the counter and the last detection time. */
    function PolicyState(): Policy.State
      reads this
    {
      Policy.State(consecutiveHits, lastDetectionTime)
    }

    /** The counter and the time are what the UI policy leaves after the callbacks so far. */
    ghost predicate Valid()
      reads this, smoother, audioProcessor
    {
      && smoother.Valid() && smoother.windowSize == WindowSize
      && audioProcessor.Valid()
      && Policy.Run(Policy.Ui, Policy.Start, ticks).final == PolicyState()
    }

    /** Lines 117-123: the remembered state of a freshly composed screen. */
    constructor (audioProcessor: Audio.AudioProcessor)
      requires audioProcessor.Valid()
      ensures Valid()
      ensures this.audioProcessor == audioProcessor && fresh(smoother)
      ensures smoother.values == [] && ticks == []
      ensures PolicyState() == Policy.Start
      ensures !isListening && mfccValues == None && detectionStatus == Ready && confidenceScore == 0.0
    {
      smoother := new Smoother.ConfidenceSmoother(WindowSize);
      this.audioProcessor := audioProcessor;
      consecutiveHits := 0;
      isListening := false;
      mfccValues := None;
      detectionStatus := Ready;
      confidenceScore := 0.0;
      lastDetectionTime := 0;
      ticks := [];
    }

    /**
     * Lines 203-230: one recording callback with coefficients `mfcc`, the
     * classifier's score `rawConfidence` for them and the clock reading
     * `now`. The raw score goes into the smoother, and the smoothed score
     * is one step of the UI policy (see Score).
     */
    method OnFeatures(mfcc: seq<real>, rawConfidence: real, now: int)
      requires Valid()
      modifies this, smoother
      ensures Valid()
      ensures mfccValues == Some(mfcc) && isListening == old(isListening)
      ensures var held := Smoother.Evict(old(smoother.values), WindowSize, rawConfidence);
        held.Some? && confidenceScore == Smoother.Mean(held.value)
      ensures ticks == old(ticks) + [Policy.Tick(confidenceScore, now)]
      ensures var o := Policy.Step(Policy.Ui, old(PolicyState()), Policy.Tick(confidenceScore, now));
        && PolicyState() == o.next
        && (o.detected ==> smoother.values == [] && detectionStatus == Detected)
        && (!o.detected ==>
              Some(smoother.values) == Smoother.Evict(old(smoother.values), WindowSize, rawConfidence))
        && (!o.detected && confidenceScore <= Policy.Ui.threshold ==> detectionStatus == Listening)
        && (!o.detected && confidenceScore > Policy.Ui.threshold ==> detectionStatus == old(detectionStatus))
    {
      mfccValues := Some(mfcc);
      var confidence := smoother.Add(rawConfidence);
      confidenceScore := confidence;
      var currentTime := now;
      assert mfccValues == Some(mfcc) && isListening == old(isListening);
      assert ticks == old(ticks) && detectionStatus == old(detectionStatus) && PolicyState() == old(PolicyState());
      Score(confidence, currentTime);
    }

    /**
     * Lines 212-229: count the smoothed score as a hit or reset the counter,
     * and trigger once enough hits are in and the cooldown is over: one step
     * of the UI policy. A trigger empties the smoother and shows the detected
     * status; a score at or below the threshold shows "Listening...".
     */
    method Score(confidence: real, currentTime: int)
      requires Valid()
      modifies this, smoother
      ensures Valid()
      ensures ticks == old(ticks) + [Policy.Tick(confidence, currentTime)]
      ensures mfccValues == old(mfccValues) && isListening == old(isListening)
      ensures confidenceScore == old(confidenceScore)
      ensures var o := Policy.Step(Policy.Ui, old(PolicyState()), Policy.Tick(confidence, currentTime));
        && PolicyState() == o.next
        && (o.detected ==> smoother.values == [] && detectionStatus == Detected)
        && (!o.detected ==> smoother.values == old(smoother.values))
        && (!o.detected && confidence <= Policy.Ui.threshold ==> detectionStatus == Listening)
        && (!o.detected && confidence > Policy.Ui.threshold ==> detectionStatus == old(detectionStatus))
    {
      ghost var before := ticks;
      ticks := ticks + [Policy.Tick(confidence, currentTime)];
      assert ticks[..|ticks| - 1] == before;
      if confidence > Policy.Ui.threshold {
        consecutiveHits := consecutiveHits + 1;
      } else {
        consecutiveHits := 0;
      }
      if consecutiveHits >= Policy.Ui.requiredHits && currentTime - lastDetectionTime > Policy.Ui.cooldownMs {
        lastDetectionTime := currentTime;
        consecutiveHits := 0;
        smoother.Reset();
        detectionStatus := Detected;
      } else if confidence <= Policy.Ui.threshold {
        detectionStatus := Listening;
      }
    }

    /**
     * Lines 193-201 and 231-232, the start/stop button. While listening it
     * stops the recorder and shows "Stopped", keeping the counter, the last
     * detection time and the smoother. Otherwise, without the microphone
     * permission it changes nothing (the permission request is not
     * modelled); with it, it starts the recorder and shows "Listening...".
     */
    method OnClick(permissionGranted: bool)
      requires Valid()
      modifies this, audioProcessor
      ensures Valid()
      ensures PolicyState() == old(PolicyState()) && ticks == old(ticks)
      ensures mfccValues == old(mfccValues) && confidenceScore == old(confidenceScore)
      ensures old(isListening) ==>
        && !isListening && detectionStatus == Stopped
        && !audioProcessor.isRecording && audioProcessor.audioBuffer == old(audioProcessor.audioBuffer)
      ensures !old(isListening) && !permissionGranted ==>
        && !isListening && detectionStatus == old(detectionStatus)
        && unchanged(audioProcessor)
      ensures !old(isListening) && permissionGranted ==>
        && isListening && detectionStatus == Listening
        && audioProcessor.isRecording
        && audioProcessor.audioBuffer
           == (if old(audioProcessor.isRecording) then old(audioProcessor.audioBuffer) else [])
    {
      if isListening {
        audioProcessor.StopRecording();
        isListening := false;
        detectionStatus := Stopped;
      } else {
        if !permissionGranted {
          return;
        }
        audioProcessor.StartRecording();
        isListening := true;
        detectionStatus := Listening;
      }
    }
  }

  /**
   * Everything the policy proves about a run holds for the screen's own
   * history: with a clock that never goes backwards, its detections are
   * more than 2000 ms apart, each follows three smoothed scores above 0.45,
   * and none comes at or before 2000 ms on a clock starting at 0.
   */
  lemma {:induction false} ScreenHistory(ticks: seq<Policy.Tick>)
    requires Policy.Nondecreasing(ticks)
    requires forall k :: 0 <= k < |ticks| ==> ticks[k].now >= 0
    ensures var ds := Policy.Run(Policy.Ui, Policy.Start, ticks).detections;
      && (forall i :: 0 <= i < |ds| ==> ds[i] < |ticks| && ticks[ds[i]].now > 2000)
      && (forall i, j :: 0 <= i < j < |ds| ==> ticks[ds[j]].now - ticks[ds[i]].now > 2000)
      && (forall i :: 0 <= i < |ds| ==> ds[i] >= 2 && forall k: int :: ds[i] - 3 < k <= ds[i] ==> ticks[k].score > 0.45)
  {
    Policy.DetectionsSpaced(Policy.Ui, Policy.Start, ticks);
    Policy.DetectionsPreceded(Policy.Ui, Policy.Start, ticks);
    Policy.NoDetectionWithinFirstCooldown(Policy.Ui, ticks);
    var ds := Policy.Run(Policy.Ui, Policy.Start, ticks).detections;
    forall i | 0 <= i < |ds|
      ensures ds[i] >= 2
    {
      assert Policy.Preceded(Policy.Ui, ticks, ds, i);
    }
  }
}
