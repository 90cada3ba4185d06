/**
 * WakeWordService.kt: the background detector's callback, a threshold of
 * 0.6 on the raw score and a 2000 ms cooldown with no smoothing and no hit
 * counter, and the action dispatch of onStartCommand. The foreground
 * notification, the broadcast and the delayed notification update are not
 * modelled; a detection is reported as the confidence it would announce.
 */
module Service {
  import opened Wrappers
  import Policy
  import Audio

  /** Lines 22-23. */
  const CooldownMs: int := 2000
  const Threshold: real := 0.6

  const ActionStart: string := "START"
  const ActionStop: string := "STOP"
  /** `Service.START_STICKY` in the Android platform. */
  const StartSticky: int := 1

  /** The service policy as an instance of the shared one: a single hit suffices. */
  const Config: Policy.Config := Policy.Config(Threshold, 1, CooldownMs)

  /** Lines 85-86: the new `lastDetectionTime` and whether the callback detected. */
  datatype Decision = Decision(lastDetection: int, detected: bool)

  function Decide(last: int, confidence: real, now: int): Decision
  {
    if confidence > Threshold && now - last > CooldownMs then Decision(now, true)
    else Decision(last, false)
  }

  /**
   * The service policy is the UI policy with one required hit, a threshold
   * of 0.6 and the raw score in place of the smoothed one, whatever the
   * (ignored) hit counter holds.
   */
  lemma DecideIsPolicyStep(hits: nat, last: int, t: Policy.Tick)
    ensures var o := Policy.Step(Config, Policy.State(hits, last), t);
      Decide(last, t.score, t.now) == Decision(o.next.lastDetection, o.detected)
  {
  }

  /** The callbacks `ticks` from `lastDetectionTime = last`: the final time and the detecting indices. */
  function Decisions(last: int, ticks: seq<Policy.Tick>): (int, seq<nat>)
    decreases |ticks|
  {
    if ticks == [] then (last, [])
    else
      var r := Decisions(last, ticks[..|ticks| - 1]);
      var d := Decide(r.0, ticks[|ticks| - 1].score, ticks[|ticks| - 1].now);
      (d.lastDetection, r.1 + if d.detected then [|ticks| - 1] else [])
  }

  lemma {:induction false} DecisionsArePolicyRun(hits: nat, last: int, ticks: seq<Policy.Tick>)
    ensures var r := Policy.Run(Config, Policy.State(hits, last), ticks);
      Decisions(last, ticks) == (r.final.lastDetection, r.detections)
    decreases |ticks|
  {
    if ticks != [] {
      var pre := ticks[..|ticks| - 1];
      DecisionsArePolicyRun(hits, last, pre);
      var r := Policy.Run(Config, Policy.State(hits, last), pre);
      DecideIsPolicyStep(r.final.hits, r.final.lastDetection, ticks[|ticks| - 1]);
    }
  }

  /**
   * Lines 85-88 over a run from start-up: with a clock that never goes
   * backwards, successive detections are more than 2000 ms apart, and each
   * detecting callback had a confidence above 0.6.
   */
  lemma ServiceDetections(ticks: seq<Policy.Tick>)
    requires Policy.Nondecreasing(ticks)
    ensures var ds := Decisions(0, ticks).1;
      && (forall i :: 0 <= i < |ds| ==> ds[i] < |ticks| && ticks[ds[i]].score > Threshold)
      && (forall i, j :: 0 <= i < j < |ds| ==> ticks[ds[j]].now - ticks[ds[i]].now > CooldownMs)
  {
    DecisionsArePolicyRun(0, 0, ticks);
    Policy.DetectionsSpaced(Config, Policy.Start, ticks);
    Policy.DetectionsPreceded(Config, Policy.Start, ticks);
    var ds := Decisions(0, ticks).1;
    forall i | 0 <= i < |ds|
      ensures ticks[ds[i]].score > Threshold
    {
      assert Policy.Preceded(Config, ticks, ds, i);
    }
  }

  /** What onStartCommand does for an intent action (a null intent has no action). */
  datatype Command = StartDetection | StopDetection | NoCommand

  function Dispatch(action: Option<string>): (c: Command)
    ensures c == StartDetection <==> action == Some(ActionStart)
    ensures c == StopDetection <==> action == Some(ActionStop)
    ensures c == NoCommand <==> action != Some(ActionStart) && action != Some(ActionStop)
  {
    match action
    case Some(a) => if a == ActionStart then StartDetection else if a == ActionStop then StopDetection else NoCommand
    case None => NoCommand
  }

  class WakeWordService {
    const audioProcessor: Audio.AudioProcessor
    var lastDetectionTime: int
    /** The score and clock reading of every callback so far. */
    ghost var ticks: seq<Policy.Tick>

    ghost predicate Valid()
      reads this, audioProcessor
    {
      audioProcessor.Valid() && Decisions(0, ticks).0 == lastDetectionTime
    }

    /** Lines 19-23. */
    constructor ()
      ensures Valid() && fresh(audioProcessor)
      ensures lastDetectionTime == 0 && ticks == []
      ensures !audioProcessor.isRecording && audioProcessor.audioBuffer == []
    {
      audioProcessor := new Audio.AudioProcessor();
      lastDetectionTime := 0;
      ticks := [];
    }

    /**
     * Lines 81-90: one recording callback, with the classifier's score
     * `rawConfidence` for its coefficients. It detects exactly when the raw
     * score is above 0.6 and more than 2000 ms have passed since the last
     * detection; it then records the time and returns the confidence it
     * announces. Otherwise nothing changes but the history.
     */
    method OnFeatures(rawConfidence: real, now: int) returns (announced: Option<real>)
      requires Valid()
      modifies this
      ensures Valid()
      ensures ticks == old(ticks) + [Policy.Tick(rawConfidence, now)]
      ensures announced.Some? <==> rawConfidence > Threshold && now - old(lastDetectionTime) > CooldownMs
      ensures announced.Some? ==> announced.value == rawConfidence && lastDetectionTime == now
      ensures announced.None? ==> lastDetectionTime == old(lastDetectionTime)
    {
      var confidence := rawConfidence;
      var currentTime := now;
      ghost var before := ticks;
      ticks := ticks + [Policy.Tick(confidence, currentTime)];
      assert ticks[..|ticks| - 1] == before;
      if confidence > Threshold && currentTime - lastDetectionTime > CooldownMs {
        lastDetectionTime := currentTime;
        announced := Some(confidence);
      } else {
        announced := None;
      }
    }

    /**
     * Lines 59-65 with startWakeWordDetection's permission check (68-76)
     * and stopWakeWordDetection's recorder stop (94): start or stop the
     * recorder as the action says, and always return START_STICKY. A start
     * from idle clears the audio buffer; a stop leaves it as it was.
     */
    method OnStartCommand(action: Option<string>, permissionGranted: bool) returns (r: int)
      requires Valid()
      modifies audioProcessor
      ensures Valid() && r == StartSticky
      ensures Dispatch(action) == StartDetection && permissionGranted ==>
        && audioProcessor.isRecording
        && audioProcessor.audioBuffer == if old(audioProcessor.isRecording) then old(audioProcessor.audioBuffer) else []
      ensures Dispatch(action) == StopDetection ==>
        !audioProcessor.isRecording && audioProcessor.audioBuffer == old(audioProcessor.audioBuffer)
      ensures Dispatch(action) == NoCommand || (Dispatch(action) == StartDetection && !permissionGranted) ==>
        unchanged(audioProcessor)
    {
      match Dispatch(action) {
        case StartDetection =>
          if permissionGranted {
            audioProcessor.StartRecording();
          }
        case StopDetection =>
          audioProcessor.StopRecording();
        case NoCommand =>
      }
      r := StartSticky;
    }
  }
}
