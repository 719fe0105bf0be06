/** The feedback the counter asks of its platform drivers, as abstract
    effect values the surrounding shell carries out. */
module Feedback {
  import opened Common
  import opened Text
  import opened Validation

  /** Length of the vibration pulse on each counted tap, in milliseconds. */
  const VibrationMs: nat := 150

  /** Delay before a scheduled count announcement is spoken, in milliseconds. */
  const SpeechDelayMs: nat := 200

  /** What the immediate completion announcement says. */
  const CompletedPhrase: string := "Target completed"

  /** The messages the app shows in an alert box. */
  datatype Notice =
    | TargetCompleted
    | Saved(key: string, count: nat, target: Option<nat>)
    | TargetSet(newTarget: nat)
    | InvalidTarget(reason: ValidationError)
    | InvalidName
    | NameSaved
    | MissingCustomName

  /** One request to a driver. `CancelScheduledSpeech` drops the pending
      delayed announcement, `StopSpeech` silences what is being spoken. */
  datatype Effect =
    | PlayClick
    | Vibrate(ms: nat)
    | CancelScheduledSpeech
    | StopSpeech
    | ScheduleSpeech(delayMs: nat, text: string)
    | Speak(text: string)
    | Alert(notice: Notice)

  /** The delayed announcement after a tap reaching `newCount`: the count
      itself, or "<target> completed!" on the tap that reaches the target. */
  function Utterance(newCount: nat, target: Option<nat>): (r: string)
    ensures |r| >= |NatToString(newCount)| && r[..|NatToString(newCount)|] == NatToString(newCount)
    ensures r[|NatToString(newCount)|..] == (if target == Some(newCount) then " completed!" else "")
  {
    if target == Some(newCount) then NatToString(target.value) + " completed!" else NatToString(newCount)
  }

  /** The number an announcement starts with reads back as the count it was
      scheduled for, and two announcements are equal only for equal counts. */
  lemma UtteranceNamesCount(n: nat, m: nat, target: Option<nat>)
    ensures DigitsValue(Utterance(n, target)[..|NatToString(n)|]) == n
    ensures Utterance(n, target) == Utterance(m, target) ==> n == m
  {
    DigitsRoundTrip(n);
    DigitsRoundTrip(m);
    if Utterance(n, target) == Utterance(m, target) {
      var u := Utterance(n, target);
      UtteranceShape(n, target);
      UtteranceShape(m, target);
      if AllDigits(u) {
        assert u == NatToString(n) == NatToString(m);
      }
    }
  }

  /** An announcement is all digits exactly when it is the plain count. */
  lemma UtteranceShape(n: nat, target: Option<nat>)
    ensures AllDigits(Utterance(n, target)) <==> target != Some(n)
  {
    var u := Utterance(n, target);
    var d := NatToString(n);
    if target == Some(n) {
      assert u[|d|] == ' ';
    }
  }
}
