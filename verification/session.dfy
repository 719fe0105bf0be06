/** The counting session: the counter screen's state and one pure transition
    per user intent, each returning the next state and the effects to carry out. */
module Counter {
  import opened Common
  import opened Text
  import opened Validation
  import opened Catalog
  import opened Lists
  import opened Favorites
  import opened Feedback
  import opened Theme

  /** The switches of the settings screen and the theme preference. */
  datatype Settings = Settings(
    soundOn: bool,
    vibrationOn: bool,
    stopOnTarget: bool,
    textToSpeech: bool,
    showCounterName: bool,
    theme: ThemePreference)

  /** The undo slot's content. A tap records only `count`, so the other two
      fields then read as absent (None). */
  datatype Snapshot = Snapshot(count: nat, target: Option<nat>, text: Option<string>)

  /** Everything the counter's intents read or change. `target` and `text` are
      None while JavaScript holds `undefined` there; target `Some(0)` means no
      target is set. `pendingSpeech` is the one scheduled, not yet spoken,
      announcement. */
  datatype Session = Session(
    count: nat,
    target: Option<nat>,
    text: Option<string>,
    undoSlot: Option<Snapshot>,
    favorites: seq<Favorite>,
    customDhikrs: seq<string>,
    settings: Settings,
    pendingSpeech: Option<string>,
    namePromptOpen: bool)

  /** The result of one intent: the next state and the driver requests, in order. */
  datatype Step = Step(next: Session, effects: seq<Effect>)

  /** The state at app start. */
  const Initial: Session :=
    Session(0, Some(0), None, None, [], [],
            Settings(true, false, false, false, true, Dark), None, false)

  /** The app starts at count 0 with no target, no text, an empty undo slot
      and empty lists; the click sound and the counter name are on, vibration,
      stop-on-target and speech are off, and the theme is dark. */
  lemma InitialState()
    ensures Initial.count == 0 && Initial.target == Some(0) && Initial.text.None?
    ensures Initial.undoSlot.None? && Initial.pendingSpeech.None? && !Initial.namePromptOpen
    ensures Initial.favorites == [] && Initial.customDhikrs == []
    ensures Initial.settings.soundOn && !Initial.settings.vibrationOn
    ensures !Initial.settings.stopOnTarget && !Initial.settings.textToSpeech
    ensures Initial.settings.showCounterName && Initial.settings.theme == Dark
    ensures DarkMode(Initial.settings.theme, SchemeLight)
    ensures Valid(Initial)
  {
  }

  /** The state stays within the counter's bounds and the favorites' keys are unique. */
  predicate Valid(s: Session) {
    && s.count <= MaxCount
    && (s.target.Some? ==> s.target.value <= MaxCount)
    && (s.undoSlot.Some? ==>
          s.undoSlot.value.count <= MaxCount
          && (s.undoSlot.value.target.Some? ==> s.undoSlot.value.target.value <= MaxCount))
    && FavoritesInBounds(s.favorites)
    && UniqueKeys(s.favorites)
  }

  /** Every favorite's count and target lie within the counter's bounds. */
  predicate FavoritesInBounds(favs: seq<Favorite>) {
    forall i :: 0 <= i < |favs| ==>
      favs[i].count <= MaxCount && (favs[i].target.Some? ==> favs[i].target.value <= MaxCount)
  }

  /** Stop-on-target refuses the tap: the policy is on, a target is set and
      the count has reached it. */
  predicate TargetAlreadyReached(s: Session) {
    s.settings.stopOnTarget && s.target.Some? && s.target.value > 0 && s.count >= s.target.value
  }

  /** A tap is counted when neither guard refuses it. */
  predicate Counts(s: Session) {
    !TargetAlreadyReached(s) && s.count < MaxCount
  }

  /** The undo slot after a tap: the previous snapshot with only its count
      replaced, or a count-only snapshot when the slot was empty. */
  function MergeCount(slot: Option<Snapshot>, count: nat): (r: Snapshot)
    ensures r.count == count
    ensures slot.Some? ==> r.target == slot.value.target && r.text == slot.value.text
    ensures slot.None? ==> r.target.None? && r.text.None?
  {
    match slot
    case None => Snapshot(count, None, None)
    case Some(prev) => prev.(count := count)
  }

  /** The immediate completion announcement, spoken only with text-to-speech on. */
  function CompletionSpeech(s: Session): seq<Effect> {
    if s.settings.textToSpeech then [StopSpeech, Speak(CompletedPhrase)] else []
  }

  /** The announcement of a counted tap reaching `newCount`: cancel the
      pending one, stop current speech, schedule the new one. */
  function RescheduleSpeech(s: Session, newCount: nat): seq<Effect> {
    if s.settings.textToSpeech then
      (if s.pendingSpeech.Some? then [CancelScheduledSpeech] else [])
      + [StopSpeech, ScheduleSpeech(SpeechDelayMs, Utterance(newCount, s.target))]
    else []
  }

  /** The completion alert and speech of a tap landing on the target. */
  function CompletionEffects(s: Session, newCount: nat): seq<Effect> {
    if s.target == Some(newCount) then [Alert(TargetCompleted)] + CompletionSpeech(s) else []
  }

  /** The feedback of a counted tap reaching `newCount`: click, vibration, the
      rescheduled announcement, then the completion alert and speech. */
  function CountedTapEffects(s: Session, newCount: nat): seq<Effect> {
    (if s.settings.soundOn then [PlayClick] else [])
    + (if s.settings.vibrationOn then [Vibrate(VibrationMs)] else [])
    + RescheduleSpeech(s, newCount)
    + CompletionEffects(s, newCount)
  }

  predicate IsSpeechEffect(e: Effect) {
    e.StopSpeech? || e.Speak? || e.ScheduleSpeech? || e.CancelScheduledSpeech?
  }

  /** `handleTap`: the stop-on-target guard, then the maximum-count guard, then
      the increment with its feedback. */
  function Tap(s: Session): (r: Step)
    // a refused tap changes nothing; only the stop-on-target refusal says so
    ensures TargetAlreadyReached(s) ==> r.next == s && Alert(TargetCompleted) in r.effects
    ensures !TargetAlreadyReached(s) && s.count >= MaxCount ==> r.next == s && r.effects == []
    // a counted tap adds one and records the old count in the undo slot
    ensures Counts(s) ==>
              && r.next.count == s.count + 1
              && r.next.undoSlot == Some(MergeCount(s.undoSlot, s.count))
    // nothing but the count, the undo slot and the pending announcement changes
    ensures r.next == s.(count := r.next.count, undoSlot := r.next.undoSlot,
                         pendingSpeech := r.next.pendingSpeech)
    ensures s.count <= MaxCount ==> r.next.count <= MaxCount
    // with text-to-speech on, a counted tap replaces the pending announcement
    ensures s.settings.textToSpeech && Counts(s) ==>
              r.next.pendingSpeech == Some(Utterance(s.count + 1, s.target))
    ensures !Counts(s) ==> r.next.pendingSpeech == s.pendingSpeech
    ensures !s.settings.textToSpeech ==> r.next.pendingSpeech == s.pendingSpeech
  {
    if TargetAlreadyReached(s) then
      Step(s, [Alert(TargetCompleted)] + CompletionSpeech(s))
    else if s.count >= MaxCount then
      Step(s, [])
    else
      var newCount := s.count + 1;
      var next := s.(count := newCount,
                     undoSlot := Some(MergeCount(s.undoSlot, s.count)),
                     pendingSpeech := if s.settings.textToSpeech
                                      then Some(Utterance(newCount, s.target))
                                      else s.pendingSpeech);
      Step(next, CountedTapEffects(s, newCount))
  }

  /** The feedback of `handleTap`: the completion alert fires on the
      stop-on-target refusal and on the tap that lands on the target; click and
      vibration accompany exactly the counted taps with those switches on; with
      text-to-speech off nothing is said. */
  lemma TapFeedback(s: Session)
    ensures Alert(TargetCompleted) in Tap(s).effects <==>
              TargetAlreadyReached(s) || (Counts(s) && s.target == Some(s.count + 1))
    ensures PlayClick in Tap(s).effects <==> Counts(s) && s.settings.soundOn
    ensures Vibrate(VibrationMs) in Tap(s).effects <==> Counts(s) && s.settings.vibrationOn
    ensures !s.settings.textToSpeech ==>
              forall i :: 0 <= i < |Tap(s).effects| ==> !IsSpeechEffect(Tap(s).effects[i])
  {
    if TargetAlreadyReached(s) {
      assert Tap(s).effects == [Alert(TargetCompleted)] + CompletionSpeech(s);
    } else if Counts(s) {
      assert Tap(s).effects == CountedTapEffects(s, s.count + 1);
      CountedTapFeedback(s, s.count + 1);
    } else {
      assert Tap(s).effects == [];
    }
  }

  /** The speech requests of `handleTap`, all made only with text-to-speech
      on: a counted tap cancels the pending announcement, stops current speech
      and schedules the new count; the completion phrase is spoken at once on
      the refusal and on the tap that lands on the target. */
  lemma TapSpeech(s: Session)
    ensures CancelScheduledSpeech in Tap(s).effects <==>
              s.settings.textToSpeech && Counts(s) && s.pendingSpeech.Some?
    ensures StopSpeech in Tap(s).effects <==>
              s.settings.textToSpeech && (TargetAlreadyReached(s) || Counts(s))
    ensures ScheduleSpeech(SpeechDelayMs, Utterance(s.count + 1, s.target)) in Tap(s).effects <==>
              s.settings.textToSpeech && Counts(s)
    ensures Speak(CompletedPhrase) in Tap(s).effects <==>
              s.settings.textToSpeech
              && (TargetAlreadyReached(s) || (Counts(s) && s.target == Some(s.count + 1)))
    // the refusal alerts first; a completing tap ends with the completion speech
    ensures TargetAlreadyReached(s) ==> Tap(s).effects[0] == Alert(TargetCompleted)
    ensures TargetAlreadyReached(s) && s.settings.textToSpeech ==>
              Tap(s).effects == [Alert(TargetCompleted), StopSpeech, Speak(CompletedPhrase)]
    ensures s.settings.textToSpeech && Counts(s) && s.target == Some(s.count + 1) ==>
              Tap(s).effects[|Tap(s).effects| - 1] == Speak(CompletedPhrase)
  {
    if TargetAlreadyReached(s) {
      assert Tap(s).effects == [Alert(TargetCompleted)] + CompletionSpeech(s);
    } else if Counts(s) {
      assert Tap(s).effects == CountedTapEffects(s, s.count + 1);
      CountedTapSpeech(s, s.count + 1);
    } else {
      assert Tap(s).effects == [];
    }
  }

  lemma CountedTapFeedback(s: Session, newCount: nat)
    ensures PlayClick in CountedTapEffects(s, newCount) <==> s.settings.soundOn
    ensures Vibrate(VibrationMs) in CountedTapEffects(s, newCount) <==> s.settings.vibrationOn
    ensures Alert(TargetCompleted) in CountedTapEffects(s, newCount) <==> s.target == Some(newCount)
    ensures !s.settings.textToSpeech ==>
              forall e | e in CountedTapEffects(s, newCount) :: !IsSpeechEffect(e)
  {
    var click := if s.settings.soundOn then [PlayClick] else [];
    var buzz := if s.settings.vibrationOn then [Vibrate(VibrationMs)] else [];
    var speech := RescheduleSpeech(s, newCount);
    var done := CompletionEffects(s, newCount);
    assert CountedTapEffects(s, newCount) == click + buzz + speech + done;
    assert PlayClick !in buzz + speech + done;
    assert Vibrate(VibrationMs) !in click + speech + done;
    assert Alert(TargetCompleted) !in click + buzz + speech;
    assert s.target == Some(newCount) ==> Alert(TargetCompleted) in done;
    assert !s.settings.textToSpeech ==> forall e | e in speech + done :: !IsSpeechEffect(e);
  }

  lemma CountedTapSpeech(s: Session, newCount: nat)
    ensures CancelScheduledSpeech in CountedTapEffects(s, newCount) <==>
              s.settings.textToSpeech && s.pendingSpeech.Some?
    ensures StopSpeech in CountedTapEffects(s, newCount) <==> s.settings.textToSpeech
    ensures (ScheduleSpeech(SpeechDelayMs, Utterance(newCount, s.target)) in CountedTapEffects(s, newCount))
              <==> s.settings.textToSpeech
    ensures Speak(CompletedPhrase) in CountedTapEffects(s, newCount) <==>
              s.settings.textToSpeech && s.target == Some(newCount)
    ensures s.settings.textToSpeech && s.target == Some(newCount) ==>
              CountedTapEffects(s, newCount)[|CountedTapEffects(s, newCount)| - 1] == Speak(CompletedPhrase)
  {
    var head := HeadEffects(s);
    var speech := RescheduleSpeech(s, newCount);
    var done := CompletionEffects(s, newCount);
    assert CountedTapEffects(s, newCount) == head + speech + done;
    assert forall e | e in head :: !IsSpeechEffect(e);
    RescheduleSpeechContents(s, newCount);
    CompletionContents(s, newCount);
  }

  lemma RescheduleSpeechContents(s: Session, newCount: nat)
    ensures CancelScheduledSpeech in RescheduleSpeech(s, newCount) <==>
              s.settings.textToSpeech && s.pendingSpeech.Some?
    ensures StopSpeech in RescheduleSpeech(s, newCount) <==> s.settings.textToSpeech
    ensures (ScheduleSpeech(SpeechDelayMs, Utterance(newCount, s.target)) in RescheduleSpeech(s, newCount))
              <==> s.settings.textToSpeech
    ensures Speak(CompletedPhrase) !in RescheduleSpeech(s, newCount)
  {
  }

  lemma CompletionContents(s: Session, newCount: nat)
    ensures CancelScheduledSpeech !in CompletionEffects(s, newCount)
    ensures ScheduleSpeech(SpeechDelayMs, Utterance(newCount, s.target)) !in CompletionEffects(s, newCount)
    ensures StopSpeech in CompletionEffects(s, newCount) ==> s.settings.textToSpeech
    ensures Speak(CompletedPhrase) in CompletionEffects(s, newCount) <==>
              s.settings.textToSpeech && s.target == Some(newCount)
    ensures s.settings.textToSpeech && s.target == Some(newCount) ==>
              CompletionEffects(s, newCount)[|CompletionEffects(s, newCount)| - 1] == Speak(CompletedPhrase)
  {
  }

  /** The requests a tap may make: the click, the vibration, the speech
      requests for the next count, and the completion alert and phrase. */
  predicate TapRequest(s: Session, e: Effect) {
    e in [PlayClick, Vibrate(VibrationMs), CancelScheduledSpeech, StopSpeech,
          ScheduleSpeech(SpeechDelayMs, Utterance(s.count + 1, s.target)),
          Speak(CompletedPhrase), Alert(TargetCompleted)]
  }

  /** No two requests in `effects` schedule an announcement. */
  predicate AtMostOneSchedule(effects: seq<Effect>) {
    forall i, j :: 0 <= i < j < |effects| && effects[i].ScheduleSpeech? ==> !effects[j].ScheduleSpeech?
  }

  /** A tap requests nothing beyond `TapRequest`, makes no request twice
      except stopping current speech (before the new announcement and again
      before the completion phrase), and schedules at most one announcement:
      there is never a backlog of stale counts. */
  lemma TapRequestsNothingElse(s: Session)
    ensures forall e | e in Tap(s).effects :: TapRequest(s, e)
    ensures RepeatsOnlyStop(Tap(s).effects)
    ensures AtMostOneSchedule(Tap(s).effects)
  {
    TapKinds(s);
    TapRepeats(s);
    TapSchedules(s);
  }

  lemma TapKinds(s: Session)
    ensures forall e | e in Tap(s).effects :: TapRequest(s, e)
  {
    if TargetAlreadyReached(s) {
      assert Tap(s).effects == [Alert(TargetCompleted)] + CompletionSpeech(s);
    } else if Counts(s) {
      assert Tap(s).effects == CountedTapEffects(s, s.count + 1);
      CountedTapRequests(s, s.count + 1);
    } else {
      assert Tap(s).effects == [];
    }
  }

  lemma TapRepeats(s: Session)
    ensures RepeatsOnlyStop(Tap(s).effects)
  {
    if TargetAlreadyReached(s) {
      assert Tap(s).effects == [Alert(TargetCompleted)] + CompletionSpeech(s);
    } else if Counts(s) {
      assert Tap(s).effects == CountedTapEffects(s, s.count + 1);
      CountedTapRequests(s, s.count + 1);
    } else {
      assert Tap(s).effects == [];
    }
  }

  lemma TapSchedules(s: Session)
    ensures AtMostOneSchedule(Tap(s).effects)
  {
    if TargetAlreadyReached(s) {
      assert Tap(s).effects == [Alert(TargetCompleted)] + CompletionSpeech(s);
    } else if Counts(s) {
      assert Tap(s).effects == CountedTapEffects(s, s.count + 1);
      CountedTapRequests(s, s.count + 1);
    } else {
      assert Tap(s).effects == [];
    }
  }

  /** The one announcement a tap schedules is the one left pending for the timer. */
  lemma ScheduledIsPending(s: Session)
    ensures forall e | e in Tap(s).effects && e.ScheduleSpeech? ::
              Tap(s).next.pendingSpeech == Some(e.text)
  {
    if TargetAlreadyReached(s) {
      assert Tap(s).effects == [Alert(TargetCompleted)] + CompletionSpeech(s);
    } else if Counts(s) {
      var n := s.count + 1;
      assert Tap(s).effects == CountedTapEffects(s, n);
      CountedScheduleIsUtterance(s, n);
    } else {
      assert Tap(s).effects == [];
    }
  }

  lemma CountedScheduleIsUtterance(s: Session, newCount: nat)
    ensures forall e | e in CountedTapEffects(s, newCount) && e.ScheduleSpeech? ::
              s.settings.textToSpeech && e.text == Utterance(newCount, s.target)
  {
    CountedTapParts(s, newCount);
    ScheduleIsUtterance(s, newCount);
    assert forall e | e in HeadEffects(s) + CompletionEffects(s, newCount) :: !e.ScheduleSpeech?;
  }

  lemma ScheduleIsUtterance(s: Session, newCount: nat)
    ensures forall e | e in RescheduleSpeech(s, newCount) && e.ScheduleSpeech? ::
              s.settings.textToSpeech && e.text == Utterance(newCount, s.target)
  {
  }

  lemma CountedTapRequests(s: Session, newCount: nat)
    requires newCount == s.count + 1
    ensures forall e | e in CountedTapEffects(s, newCount) :: TapRequest(s, e)
    ensures RepeatsOnlyStop(CountedTapEffects(s, newCount))
    ensures AtMostOneSchedule(CountedTapEffects(s, newCount))
  {
    CountedTapParts(s, newCount);
    CountedTapKinds(s, newCount);
    CountedTapOnce(s, newCount);
    CountedTapOneSchedule(s, newCount);
  }

  lemma CountedTapParts(s: Session, newCount: nat)
    ensures CountedTapEffects(s, newCount)
            == HeadEffects(s) + RescheduleSpeech(s, newCount) + CompletionEffects(s, newCount)
  {
  }

  lemma CountedTapKinds(s: Session, newCount: nat)
    requires newCount == s.count + 1
    ensures forall e | e in HeadEffects(s) + RescheduleSpeech(s, newCount) + CompletionEffects(s, newCount) ::
              TapRequest(s, e)
  {
    HeadRequests(s);
    RescheduleRequests(s, newCount);
    CompletionRequests(s, newCount);
  }

  lemma CountedTapOnce(s: Session, newCount: nat)
    requires newCount == s.count + 1
    ensures RepeatsOnlyStop(HeadEffects(s) + RescheduleSpeech(s, newCount) + CompletionEffects(s, newCount))
  {
    HeadRequests(s);
    RescheduleRequests(s, newCount);
    CompletionRequests(s, newCount);
    RepeatsAcrossParts(HeadEffects(s), RescheduleSpeech(s, newCount), CompletionEffects(s, newCount));
  }

  lemma CountedTapOneSchedule(s: Session, newCount: nat)
    requires newCount == s.count + 1
    ensures AtMostOneSchedule(HeadEffects(s) + RescheduleSpeech(s, newCount) + CompletionEffects(s, newCount))
  {
    HeadRequests(s);
    RescheduleRequests(s, newCount);
    CompletionRequests(s, newCount);
    OneScheduleInMiddle(HeadEffects(s), RescheduleSpeech(s, newCount), CompletionEffects(s, newCount));
  }

  /** The only request that may occur twice in `effects` is stopping speech. */
  predicate RepeatsOnlyStop(effects: seq<Effect>) {
    forall i, j :: 0 <= i < j < |effects| && effects[i] == effects[j] ==> effects[i] == StopSpeech
  }

  /** The click and vibration that open a counted tap's requests. */
  function HeadEffects(s: Session): seq<Effect> {
    (if s.settings.soundOn then [PlayClick] else [])
    + (if s.settings.vibrationOn then [Vibrate(VibrationMs)] else [])
  }

  lemma HeadRequests(s: Session)
    ensures forall e | e in HeadEffects(s) ::
              TapRequest(s, e) && (e == PlayClick || e == Vibrate(VibrationMs))
    ensures NoDuplicates(HeadEffects(s))
  {
  }

  /** Three parts that repeat nothing, and whose kinds of request are apart
      except for stopping speech, repeat nothing but that stop together. */
  lemma RepeatsAcrossParts(a: seq<Effect>, b: seq<Effect>, c: seq<Effect>)
    requires forall e | e in a :: e.PlayClick? || e.Vibrate?
    requires forall e | e in b :: e.CancelScheduledSpeech? || e.StopSpeech? || e.ScheduleSpeech?
    requires forall e | e in c :: e.Alert? || e.StopSpeech? || e.Speak?
    requires NoDuplicates(a) && NoDuplicates(b) && NoDuplicates(c)
    ensures RepeatsOnlyStop(a + b + c)
  {
    var t := a + b + c;
    forall i, j | 0 <= i < j < |t| && t[i] == t[j]
      ensures t[i] == StopSpeech
    {
      if i < |a| <= j {
        assert t[i] in a;
        assert t[j] in b || t[j] in c by {
          if j < |a| + |b| { assert t[j] == b[j - |a|]; } else { assert t[j] == c[j - |a| - |b|]; }
        }
      } else if |a| <= i < |a| + |b| <= j {
        assert t[i] == b[i - |a|] && t[j] == c[j - |a| - |b|];
        assert t[i] in b && t[j] in c;
      }
    }
  }

  lemma RescheduleRequests(s: Session, newCount: nat)
    requires newCount == s.count + 1
    ensures forall e | e in RescheduleSpeech(s, newCount) ::
              TapRequest(s, e) && (e == CancelScheduledSpeech || e == StopSpeech || e.ScheduleSpeech?)
    ensures NoDuplicates(RescheduleSpeech(s, newCount))
    ensures AtMostOneSchedule(RescheduleSpeech(s, newCount))
  {
    var announce := ScheduleSpeech(SpeechDelayMs, Utterance(newCount, s.target));
    assert TapRequest(s, announce);
    if s.settings.textToSpeech {
      AnnouncementRequests(s.pendingSpeech.Some?, announce);
    } else {
      assert RescheduleSpeech(s, newCount) == [];
    }
  }

  /** The cancel, stop and schedule of one announcement repeat nothing and
      schedule once. */
  lemma AnnouncementRequests(pending: bool, announce: Effect)
    requires announce.ScheduleSpeech?
    ensures var r := (if pending then [CancelScheduledSpeech] else []) + [StopSpeech, announce];
            && (forall e | e in r :: e == CancelScheduledSpeech || e == StopSpeech || e == announce)
            && NoDuplicates(r)
            && AtMostOneSchedule(r)
  {
    if pending {
      assert [CancelScheduledSpeech] + [StopSpeech, announce] == [CancelScheduledSpeech, StopSpeech, announce];
      ThreeDistinct(CancelScheduledSpeech, StopSpeech, announce);
    } else {
      assert [] + [StopSpeech, announce] == [StopSpeech, announce];
      TwoDistinct(StopSpeech, announce);
    }
  }

  /** Two different requests, the last the only schedule, repeat nothing
      and schedule once. */
  lemma TwoDistinct(a: Effect, b: Effect)
    requires a != b && !a.ScheduleSpeech?
    ensures NoDuplicates([a, b]) && AtMostOneSchedule([a, b])
  {
    var r := [a, b];
    forall i, j | 0 <= i < j < 2
      ensures r[i] != r[j] && !r[i].ScheduleSpeech?
    {
    }
  }

  /** Three different requests, the last the only schedule, repeat nothing
      and schedule once. */
  lemma ThreeDistinct(a: Effect, b: Effect, c: Effect)
    requires a != b && b != c && a != c
    requires !a.ScheduleSpeech? && !b.ScheduleSpeech?
    ensures NoDuplicates([a, b, c]) && AtMostOneSchedule([a, b, c])
  {
    var r := [a, b, c];
    forall i, j | 0 <= i < j < 3
      ensures r[i] != r[j] && !r[i].ScheduleSpeech?
    {
    }
  }

  lemma CompletionRequests(s: Session, newCount: nat)
    ensures forall e | e in CompletionEffects(s, newCount) ::
              TapRequest(s, e)
              && (e == Alert(TargetCompleted) || e == StopSpeech || e == Speak(CompletedPhrase))
    ensures NoDuplicates(CompletionEffects(s, newCount))
  {
  }

  /** Requests around a part with at most one schedule, none of them a
      schedule, leave at most one schedule in the whole. */
  lemma OneScheduleInMiddle(a: seq<Effect>, b: seq<Effect>, c: seq<Effect>)
    requires forall e | e in a :: !e.ScheduleSpeech?
    requires forall e | e in c :: !e.ScheduleSpeech?
    requires AtMostOneSchedule(b)
    ensures AtMostOneSchedule(a + b + c)
  {
    var t := a + b + c;
    forall i, j | 0 <= i < j < |t| && t[i].ScheduleSpeech?
      ensures !t[j].ScheduleSpeech?
    {
      if |a| <= i && j < |a| + |b| {
        assert t[i] == b[i - |a|] && t[j] == b[j - |a|];
      }
    }
  }

  /** The 200 ms timer firing: the pending announcement is spoken and the slot empties. */
  function FireSpeech(s: Session): (r: Step)
    ensures s.pendingSpeech.Some? ==> r.effects == [Speak(s.pendingSpeech.value)]
    ensures s.pendingSpeech.None? ==> r.effects == []
    ensures r.next == s.(pendingSpeech := None)
  {
    match s.pendingSpeech
    case None => Step(s, [])
    case Some(text) => Step(s.(pendingSpeech := None), [Speak(text)])
  }

  /** `handleRefresh`: record the whole session in the undo slot, then clear
      count, target and text. */
  function Reset(s: Session): (r: Step)
    ensures r.next.count == 0 && r.next.target == Some(0) && r.next.text.None?
    ensures r.next.undoSlot == Some(Snapshot(s.count, s.target, s.text))
    ensures r.next == s.(count := 0, target := Some(0), text := None, undoSlot := r.next.undoSlot)
    ensures r.effects == []
  {
    Step(s.(count := 0, target := Some(0), text := None,
            undoSlot := Some(Snapshot(s.count, s.target, s.text))), [])
  }

  /** `handleUndo`: with a snapshot, assign all three of its fields (absent ones
      as None) and empty the slot; without one, do nothing. */
  function Undo(s: Session): (r: Step)
    ensures s.undoSlot.None? ==> r.next == s
    ensures s.undoSlot.Some? ==>
              var snap := s.undoSlot.value;
              r.next == s.(count := snap.count, target := snap.target, text := snap.text,
                           undoSlot := None)
    ensures r.next.undoSlot.None?
    ensures r.effects == []
  {
    match s.undoSlot
    case None => Step(s, [])
    case Some(snap) =>
      Step(s.(count := snap.count, target := snap.target, text := snap.text, undoSlot := None), [])
  }

  /** `handleStartDhikr`: start counting `d` from zero, taking its suggested
      count as target only when the target is exactly 0. */
  function StartDhikr(s: Session, d: Dhikr): (r: Step)
    ensures r.next.text == Some(d.arabic) && r.next.count == 0
    ensures s.target == Some(0) ==> r.next.target == Some(d.count)
    ensures s.target != Some(0) ==> r.next.target == s.target
    ensures r.next == s.(count := 0, target := r.next.target, text := r.next.text)
    ensures r.effects == []
  {
    Step(s.(text := Some(d.arabic),
            target := if s.target == Some(0) then Some(d.count) else s.target,
            count := 0), [])
  }

  /** The "Set" button of the target dialog: commit the validated target or
      report the first failing stage, leaving the session as it was. */
  function SetTarget(s: Session, input: string): (r: Step)
    ensures r.next.target != s.target ==>
              r.next.target.Some? && s.count < r.next.target.value <= MaxCount
    ensures r.next == s.(target := r.next.target)
    ensures match ValidateTarget(input, s.count)
              case Ok(n) => r.next.target == Some(n) && r.effects == [Alert(TargetSet(n))]
              case Err(e) => r.next == s && r.effects == [Alert(InvalidTarget(e))]
  {
    match ValidateTarget(input, s.count)
    case Ok(n) => Step(s.(target := Some(n)), [Alert(TargetSet(n))])
    case Err(e) => Step(s, [Alert(InvalidTarget(e))])
  }

  /** The favorite recorded for the current text, count and target. */
  function CurrentFavorite(s: Session, key: string): Favorite {
    Favorite(key, s.count, s.target)
  }

  /** `handleSaveFavorite`: with no usable text and names shown, open the
      naming prompt; with usable text, upsert it under that text; otherwise
      do nothing. */
  function SaveFavorite(s: Session): (r: Step)
    ensures s.settings.showCounterName && IsBlank(s.text) ==>
              r.next == s.(namePromptOpen := true) && r.effects == []
    ensures !s.settings.showCounterName && IsBlank(s.text) ==> r.next == s && r.effects == []
    ensures !IsBlank(s.text) ==>
              && r.next == s.(favorites := Upsert(s.favorites, CurrentFavorite(s, s.text.value)))
              && r.effects == [Alert(Saved(s.text.value, s.count, s.target))]
    ensures UniqueKeys(s.favorites) ==> UniqueKeys(r.next.favorites)
  {
    if s.settings.showCounterName && IsBlank(s.text) then
      Step(s.(namePromptOpen := true), [])
    else if !IsBlank(s.text) then
      var key := s.text.value;
      UpsertKeepsKeysUnique(s.favorites, CurrentFavorite(s, key));
      Step(s.(favorites := Upsert(s.favorites, CurrentFavorite(s, key))),
           [Alert(Saved(key, s.count, s.target))])
    else
      Step(s, [])
  }

  /** The naming prompt's "Save": a name shorter than two UTF-16 code units
      after trimming is refused; otherwise the favorite is upserted under the
      name as typed, the name becomes the dhikr text and the prompt closes. */
  function SaveNamedFavorite(s: Session, name: string): (r: Step)
    ensures Utf16Length(Trim(name)) < 2 ==> r.next == s && r.effects == [Alert(InvalidName)]
    ensures Utf16Length(Trim(name)) >= 2 ==>
              && r.next == s.(favorites := Upsert(s.favorites, CurrentFavorite(s, name)),
                              text := Some(name), namePromptOpen := false)
              && r.effects == [Alert(NameSaved)]
    ensures UniqueKeys(s.favorites) ==> UniqueKeys(r.next.favorites)
  {
    if Utf16Length(Trim(name)) < 2 then
      Step(s, [Alert(InvalidName)])
    else
      UpsertKeepsKeysUnique(s.favorites, CurrentFavorite(s, name));
      Step(s.(favorites := Upsert(s.favorites, CurrentFavorite(s, name)),
              text := Some(name), namePromptOpen := false),
           [Alert(NameSaved)])
  }

  /** The naming prompt's "Cancel". */
  function CancelNamePrompt(s: Session): (r: Step)
    ensures r.next == s.(namePromptOpen := false) && r.effects == []
  {
    Step(s.(namePromptOpen := false), [])
  }

  /** The trash icon of favorite `i`. */
  function DeleteFavorite(s: Session, i: int): (r: Step)
    ensures 0 <= i < |s.favorites| ==> |r.next.favorites| == |s.favorites| - 1
    ensures !(0 <= i < |s.favorites|) ==> r.next.favorites == s.favorites
    ensures forall k :: 0 <= k < |r.next.favorites| ==>
              r.next.favorites[k] == s.favorites[if 0 <= i <= k then k + 1 else k]
    ensures r.next == s.(favorites := r.next.favorites) && r.effects == []
    ensures UniqueKeys(s.favorites) ==> UniqueKeys(r.next.favorites)
  {
    RemoveKeepsKeysUnique(s.favorites, i);
    Step(s.(favorites := RemoveAt(s.favorites, i)), [])
  }

  /** Tapping favorite `i`: its text, count and target are loaded verbatim. */
  function SelectFavorite(s: Session, i: nat): (r: Step)
    requires i < |s.favorites|
    ensures r.next.text == Some(s.favorites[i].key)
    ensures r.next.count == s.favorites[i].count && r.next.target == s.favorites[i].target
    ensures r.next == s.(count := r.next.count, target := r.next.target, text := r.next.text)
    ensures r.effects == []
  {
    var fav := s.favorites[i];
    Step(s.(text := Some(fav.key), count := fav.count, target := fav.target), [])
  }

  /** The custom-list dialog's "Add": a name that is blank after trimming is
      refused; any other is appended as typed, duplicates allowed. */
  function AddCustomDhikr(s: Session, name: string): (r: Step)
    ensures AllSpace(name) ==> r.next == s && r.effects == [Alert(MissingCustomName)]
    ensures !AllSpace(name) ==>
              r.next == s.(customDhikrs := s.customDhikrs + [name]) && r.effects == []
  {
    if Trim(name) == [] then Step(s, [Alert(MissingCustomName)])
    else Step(s.(customDhikrs := s.customDhikrs + [name]), [])
  }

  /** The trash icon of custom entry `i`. */
  function RemoveCustomDhikr(s: Session, i: int): (r: Step)
    ensures 0 <= i < |s.customDhikrs| ==> |r.next.customDhikrs| == |s.customDhikrs| - 1
    ensures !(0 <= i < |s.customDhikrs|) ==> r.next.customDhikrs == s.customDhikrs
    ensures forall k :: 0 <= k < |r.next.customDhikrs| ==>
              r.next.customDhikrs[k] == s.customDhikrs[if 0 <= i <= k then k + 1 else k]
    ensures r.next == s.(customDhikrs := r.next.customDhikrs) && r.effects == []
  {
    Step(s.(customDhikrs := RemoveAt(s.customDhikrs, i)), [])
  }

  /** Tapping custom entry `i`: count it from zero under that name; the target
      and the undo slot are kept. */
  function SelectCustomDhikr(s: Session, i: nat): (r: Step)
    requires i < |s.customDhikrs|
    ensures r.next.text == Some(s.customDhikrs[i]) && r.next.count == 0
    ensures r.next == s.(count := 0, text := r.next.text) && r.effects == []
  {
    Step(s.(text := Some(s.customDhikrs[i]), count := 0), [])
  }

  /** The on/off switches of the settings screen. No screen offers one for
      `showCounterName`, so that setting keeps its initial value. */
  datatype Switch = SoundSwitch | VibrationSwitch | StopOnTargetSwitch | SpeechSwitch

  /** Flipping one switch changes that setting alone. */
  function ToggleSwitch(s: Session, which: Switch): (r: Step)
    ensures r.next == s.(settings := r.next.settings) && r.effects == []
    ensures r.next.settings.theme == s.settings.theme
    ensures which == SoundSwitch <==> r.next.settings.soundOn != s.settings.soundOn
    ensures which == VibrationSwitch <==> r.next.settings.vibrationOn != s.settings.vibrationOn
    ensures which == StopOnTargetSwitch <==> r.next.settings.stopOnTarget != s.settings.stopOnTarget
    ensures which == SpeechSwitch <==> r.next.settings.textToSpeech != s.settings.textToSpeech
    ensures r.next.settings.showCounterName == s.settings.showCounterName
  {
    var st := s.settings;
    var st' := match which
      case SoundSwitch => st.(soundOn := !st.soundOn)
      case VibrationSwitch => st.(vibrationOn := !st.vibrationOn)
      case StopOnTargetSwitch => st.(stopOnTarget := !st.stopOnTarget)
      case SpeechSwitch => st.(textToSpeech := !st.textToSpeech);
    Step(s.(settings := st'), [])
  }

  /** The theme picker of the settings screen. */
  function ChooseTheme(s: Session, theme: ThemePreference): (r: Step)
    ensures r.next == s.(settings := s.settings.(theme := theme)) && r.effects == []
  {
    Step(s.(settings := s.settings.(theme := theme)), [])
  }

  /** The sun/moon icon of the counter screen, as written: `Dark` becomes
      `Light` and anything else `Dark`. It flips the shown appearance for an
      explicit preference; from `System` it always leaves the app dark. */
  function PressThemeIcon(s: Session, scheme: ColorScheme): (r: Step)
    ensures r.next.settings.theme != System
    ensures r.next.settings.theme == Light <==> s.settings.theme == Dark
    ensures s.settings.theme != System ==>
              DarkMode(r.next.settings.theme, scheme) == !DarkMode(s.settings.theme, scheme)
    ensures s.settings.theme == System ==> DarkMode(r.next.settings.theme, scheme)
    ensures r.next == s.(settings := r.next.settings)
    ensures r.next.settings == s.settings.(theme := r.next.settings.theme)
    ensures r.effects == []
  {
    Step(s.(settings := s.settings.(theme := ToggleThemeAsWritten(s.settings.theme))), [])
  }
}
