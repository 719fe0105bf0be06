/** Properties of the counting session that relate several intents: undo
    round trips, runs of taps, and the invariant every intent keeps. */
module CounterProperties {
  import opened Common
  import opened Text
  import opened Validation
  import opened Catalog
  import opened Lists
  import opened Favorites
  import opened Feedback
  import opened Theme
  import opened Counter

  // ---------------------------------------------------------------- undo

  /** Reset followed by undo gives back count, target and text exactly, and
      leaves the undo slot empty. */
  lemma ResetThenUndoRestores(s: Session)
    ensures Undo(Reset(s).next).next == s.(undoSlot := None)
  {
  }

  /** A second undo does nothing: undo is neither stacked nor redoable. */
  lemma UndoTwiceIsUndoOnce(s: Session)
    ensures Undo(Undo(s).next) == Step(Undo(s).next, [])
  {
  }

  /** Undo after a counted tap restores the count, but target and text come from
      the slot the tap merged into: with no earlier snapshot they become absent. */
  lemma TapThenUndo(s: Session)
    requires Counts(s)
    ensures Undo(Tap(s).next).next.count == s.count
    ensures s.undoSlot.None? ==>
              Undo(Tap(s).next).next.target.None? && Undo(Tap(s).next).next.text.None?
    ensures s.undoSlot.Some? ==>
              Undo(Tap(s).next).next.target == s.undoSlot.value.target
              && Undo(Tap(s).next).next.text == s.undoSlot.value.text
  {
  }

  /** From app start, start a catalog dhikr, tap once and undo: the target is
      lost (absent), and starting a catalog dhikr afterwards no longer sets one,
      because only a target of exactly 0 is replaced. */
  lemma TapUndoLosesTarget()
    ensures var d := DhikrData[0].items[0];
            var started := StartDhikr(Initial, d).next;
            var undone := Undo(Tap(started).next).next;
            && started.target == Some(100)
            && undone.count == 0 && undone.target.None?
            && StartDhikr(undone, d).next.target.None?
  {
    var d := DhikrData[0].items[0];
    var started := StartDhikr(Initial, d).next;
    assert Counts(started);
  }

  // ------------------------------------------------------- catalog start

  /** Starting a catalog dhikr while no target is set gives a positive target
      within the maximum; the undo slot is untouched. */
  lemma StartFromCatalogSetsPositiveTarget(s: Session, d: Dhikr)
    requires InCatalog(d) && s.target == Some(0)
    ensures var r := StartDhikr(s, d).next;
            r.target.Some? && 0 < r.target.value <= MaxCount && r.undoSlot == s.undoSlot
  {
    CatalogCountsPositive(d);
  }

  // ----------------------------------------------------------- favorites

  /** Saving a favorite and then selecting it gives back the text, count and
      target that were saved. */
  lemma SaveThenSelectRestores(s: Session)
    requires !IsBlank(s.text)
    ensures var saved := SaveFavorite(s).next;
            var k := FindIndex(saved.favorites, s.text.value);
            && k.Some?
            && var loaded := SelectFavorite(saved, k.value).next;
            loaded.count == s.count && loaded.target == s.target && loaded.text == s.text
  {
  }

  /** The name length is JavaScript's: one emoji outside the Basic
      Multilingual Plane is two UTF-16 code units and so a long enough name. */
  lemma EmojiNameAccepted(s: Session)
    ensures SaveNamedFavorite(s, "\U{1F600}").effects == [Alert(NameSaved)]
  {
    EmojiTrimmedLength();
  }

  /** A single letter inside white space is too short a name. */
  lemma LetterNameRefused(s: Session)
    ensures SaveNamedFavorite(s, " a ").effects == [Alert(InvalidName)]
  {
    LetterTrimmedLength();
  }

  lemma EmojiTrimmedLength()
    ensures Utf16Length(Trim("\U{1F600}")) == 2
  {
    var c := '\U{1F600}';
    assert !IsSpace(c) && (c as int) >= 0x10000;
    SingleCharacterName(c);
    assert [c] == "\U{1F600}";
  }

  /** A single character that is not white space is its own trim, one or two
      UTF-16 code units long. */
  lemma SingleCharacterName(c: char)
    requires !IsSpace(c)
    ensures Trim([c]) == [c]
    ensures Utf16Length([c]) == if (c as int) < 0x10000 then 1 else 2
  {
    TrimUnpadded([c]);
    assert [c][1..] == [];
  }

  lemma LetterTrimmedLength()
    ensures Utf16Length(Trim(" a ")) == 1
  {
    TrimPadded(" ", "a", " ");
    assert " " + "a" + " " == " a ";
  }

  // ---------------------------------------------------------- custom list

  /** Removing the entry just added gives the session back. */
  lemma AddThenRemoveCustom(s: Session, name: string)
    requires !AllSpace(name)
    ensures RemoveCustomDhikr(AddCustomDhikr(s, name).next, |s.customDhikrs|).next == s
  {
    var added := AddCustomDhikr(s, name).next;
    assert RemoveAt(added.customDhikrs, |s.customDhikrs|) == s.customDhikrs;
  }

  // -------------------------------------------------------- runs of taps

  /** The state after `k` taps in a row. */
  function Taps(s: Session, k: nat): Session
    decreases k
  {
    if k == 0 then s else Taps(Tap(s).next, k - 1)
  }

  /** How many of `k` taps in a row raise the "Target completed" alert. */
  function CompletionAlerts(s: Session, k: nat): nat
    decreases k
  {
    if k == 0 then 0
    else (if Alert(TargetCompleted) in Tap(s).effects then 1 else 0) + CompletionAlerts(Tap(s).next, k - 1)
  }

  function Min(a: int, b: int): int {
    if a <= b then a else b
  }

  /** Taps never change the settings, the target or the text. */
  lemma {:induction false} TapsKeepTarget(s: Session, k: nat)
    ensures Taps(s, k).settings == s.settings
    ensures Taps(s, k).target == s.target && Taps(s, k).text == s.text
    decreases k
  {
    if k > 0 {
      var next := Tap(s).next;
      assert Taps(s, k) == Taps(next, k - 1);
      TapsKeepTarget(next, k - 1);
    }
  }

  /** Without stop-on-target, `k` taps add `k` to the count until it stops at
      the maximum. */
  lemma {:induction false} TapsCountUpToMax(s: Session, k: nat)
    requires !s.settings.stopOnTarget && s.count <= MaxCount
    ensures Taps(s, k).count == Min(s.count + k, MaxCount)
    decreases k
  {
    if k > 0 {
      var next := Tap(s).next;
      assert Taps(s, k) == Taps(next, k - 1);
      TapsCountUpToMax(next, k - 1);
    }
  }

  /** With stop-on-target and a target `t`, `k` taps from at most `t` add `k`
      to the count until it stops at `t`. */
  lemma {:induction false} TapsCountUpToTarget(s: Session, k: nat, t: nat)
    requires s.settings.stopOnTarget && s.target == Some(t) && 0 < t <= MaxCount
    requires s.count <= t
    ensures Taps(s, k).count == Min(s.count + k, t)
    decreases k
  {
    if k > 0 {
      var next := Tap(s).next;
      assert Taps(s, k) == Taps(next, k - 1);
      TapsCountUpToTarget(next, k - 1, t);
    }
  }

  /** Once the count is at or past the target, further taps never raise the
      completion alert when stop-on-target is off. */
  lemma {:induction false} NoCompletionPastTarget(s: Session, k: nat, t: nat)
    requires !s.settings.stopOnTarget && s.target == Some(t) && t <= s.count
    ensures CompletionAlerts(s, k) == 0
    decreases k
  {
    if k > 0 {
      TapFeedback(s);
      NoCompletionPastTarget(Tap(s).next, k - 1, t);
    }
  }

  /** With a target `t` above the count and stop-on-target off, a run of taps
      raises the completion alert once if it reaches `t`, on that tap, and
      never otherwise. */
  lemma {:induction false} CompletionFiresOnce(s: Session, k: nat, t: nat)
    requires !s.settings.stopOnTarget && s.target == Some(t)
    requires s.count < t <= MaxCount
    ensures CompletionAlerts(s, k) == (if s.count + k >= t then 1 else 0)
    decreases k
  {
    if k > 0 {
      var next := Tap(s).next;
      TapFeedback(s);
      assert Counts(s) && next.count == s.count + 1;
      assert next.settings == s.settings && next.target == s.target;
      assert CompletionAlerts(s, k)
             == (if Alert(TargetCompleted) in Tap(s).effects then 1 else 0) + CompletionAlerts(next, k - 1);
      if next.count == t {
        NoCompletionPastTarget(next, k - 1, t);
      } else {
        CompletionFiresOnce(next, k - 1, t);
      }
    }
  }

  /** The pending announcement stays the one for the current count as long as
      text-to-speech is on. */
  lemma {:induction false} PendingSpeechTracksCount(s: Session, k: nat)
    requires s.settings.textToSpeech
    requires s.pendingSpeech == Some(Utterance(s.count, s.target))
    ensures Taps(s, k).pendingSpeech == Some(Utterance(Taps(s, k).count, s.target))
    decreases k
  {
    if k > 0 {
      var next := Tap(s).next;
      TapKeepsSpeechInvariant(s);
      assert Taps(s, k) == Taps(next, k - 1);
      PendingSpeechTracksCount(next, k - 1);
    }
  }

  lemma TapKeepsSpeechInvariant(s: Session)
    requires s.settings.textToSpeech
    requires s.pendingSpeech == Some(Utterance(s.count, s.target))
    ensures Tap(s).next.settings == s.settings && Tap(s).next.target == s.target
    ensures Tap(s).next.pendingSpeech == Some(Utterance(Tap(s).next.count, s.target))
  {
  }

  /** However quickly taps follow one another, the single pending announcement
      after a run that began with a counted tap is for the count finally reached,
      and when the timer fires that is what is spoken. */
  lemma RapidTapsAnnounceFinalCount(s: Session, k: nat)
    requires s.settings.textToSpeech && Counts(s) && k >= 1
    ensures Taps(s, k).pendingSpeech == Some(Utterance(Taps(s, k).count, s.target))
    ensures FireSpeech(Taps(s, k)).effects == [Speak(Utterance(Taps(s, k).count, s.target))]
  {
    var next := Tap(s).next;
    assert next.settings == s.settings && next.target == s.target;
    assert Taps(s, k) == Taps(next, k - 1);
    PendingSpeechTracksCount(next, k - 1);
  }

  // ------------------------------------------------------------ invariant

  /** The intents the screens offer. */
  datatype Intent =
    | TapIntent
    | ResetIntent
    | UndoIntent
    | SpeechTimerIntent
    | SetTargetIntent(input: string)
    | StartDhikrIntent(dhikr: Dhikr)
    | SaveFavoriteIntent
    | SaveNamedIntent(name: string)
    | CancelNameIntent
    | DeleteFavoriteIntent(favIndex: int)
    | SelectFavoriteIntent(selected: nat)
    | AddCustomIntent(customName: string)
    | RemoveCustomIntent(customIndex: int)
    | SelectCustomIntent(chosen: nat)
    | ToggleSwitchIntent(switch: Switch)
    | ChooseThemeIntent(theme: ThemePreference)
    | ThemeIconIntent(scheme: ColorScheme)

  /** The screens offer only catalog entries to start and only listed entries
      to select. The naming prompt's "Save" and "Cancel" are admitted even
      while the prompt is closed: the app offers them only while it is open,
      so this admits more runs than the app has, and the invariant proved
      over all of them holds for the app's runs too. */
  predicate Offered(s: Session, intent: Intent) {
    match intent
    case StartDhikrIntent(d) => InCatalog(d)
    case SelectFavoriteIntent(i) => i < |s.favorites|
    case SelectCustomIntent(i) => i < |s.customDhikrs|
    case _ => true
  }

  function Apply(s: Session, intent: Intent): Step
    requires Offered(s, intent)
  {
    match intent
    case TapIntent => Tap(s)
    case ResetIntent => Reset(s)
    case UndoIntent => Undo(s)
    case SpeechTimerIntent => FireSpeech(s)
    case SetTargetIntent(input) => SetTarget(s, input)
    case StartDhikrIntent(d) => StartDhikr(s, d)
    case SaveFavoriteIntent => SaveFavorite(s)
    case SaveNamedIntent(name) => SaveNamedFavorite(s, name)
    case CancelNameIntent => CancelNamePrompt(s)
    case DeleteFavoriteIntent(i) => DeleteFavorite(s, i)
    case SelectFavoriteIntent(i) => SelectFavorite(s, i)
    case AddCustomIntent(name) => AddCustomDhikr(s, name)
    case RemoveCustomIntent(i) => RemoveCustomDhikr(s, i)
    case SelectCustomIntent(i) => SelectCustomDhikr(s, i)
    case ToggleSwitchIntent(w) => ToggleSwitch(s, w)
    case ChooseThemeIntent(t) => ChooseTheme(s, t)
    case ThemeIconIntent(scheme) => PressThemeIcon(s, scheme)
  }

  lemma UpsertInBounds(favs: seq<Favorite>, entry: Favorite)
    requires FavoritesInBounds(favs)
    requires entry.count <= MaxCount && (entry.target.Some? ==> entry.target.value <= MaxCount)
    ensures FavoritesInBounds(Upsert(favs, entry))
  {
    var r := Upsert(favs, entry);
    match FindIndex(favs, entry.key)
    case Some(k) =>
      assert forall j :: 0 <= j < |r| ==> r[j] == entry || r[j] == favs[j];
    case None =>
      assert forall j :: 0 <= j < |r| ==> r[j] == entry || r[j] == favs[j];
  }

  /** The counting intents keep the state valid. */
  lemma CountingKeepsValid(s: Session, input: string)
    requires Valid(s)
    ensures Valid(Tap(s).next) && Valid(Reset(s).next) && Valid(Undo(s).next)
    ensures Valid(FireSpeech(s).next) && Valid(SetTarget(s, input).next)
  {
  }

  /** Saving the current text as a favorite keeps the state valid. */
  lemma SaveKeepsValid(s: Session)
    requires Valid(s)
    ensures Valid(SaveFavorite(s).next) && Valid(CancelNamePrompt(s).next)
  {
    if !IsBlank(s.text) {
      UpsertInBounds(s.favorites, CurrentFavorite(s, s.text.value));
    }
  }

  /** Saving under a typed name keeps the state valid. */
  lemma SaveNamedKeepsValid(s: Session, name: string)
    requires Valid(s)
    ensures Valid(SaveNamedFavorite(s, name).next)
  {
    UpsertInBounds(s.favorites, CurrentFavorite(s, name));
  }

  /** Deleting or selecting a favorite keeps the state valid. */
  lemma DeleteSelectKeepValid(s: Session, i: int)
    requires Valid(s)
    ensures Valid(DeleteFavorite(s, i).next)
    ensures 0 <= i < |s.favorites| ==> Valid(SelectFavorite(s, i).next)
  {
    var r := DeleteFavorite(s, i).next;
    assert FavoritesInBounds(r.favorites) by {
      forall k | 0 <= k < |r.favorites|
        ensures r.favorites[k].count <= MaxCount
        ensures r.favorites[k].target.Some? ==> r.favorites[k].target.value <= MaxCount
      {
        var src := if 0 <= i <= k then k + 1 else k;
        assert r.favorites[k] == s.favorites[src];
      }
    }
  }

  /** Editing and choosing from the custom list keep the state valid. */
  lemma CustomListKeepsValid(s: Session, name: string, i: int)
    requires Valid(s)
    ensures Valid(AddCustomDhikr(s, name).next) && Valid(RemoveCustomDhikr(s, i).next)
    ensures 0 <= i < |s.customDhikrs| ==> Valid(SelectCustomDhikr(s, i).next)
  {
  }

  /** Changing settings keeps the state valid. */
  lemma SettingsKeepValid(s: Session, which: Switch, theme: ThemePreference, scheme: ColorScheme)
    requires Valid(s)
    ensures Valid(ToggleSwitch(s, which).next) && Valid(ChooseTheme(s, theme).next)
    ensures Valid(PressThemeIcon(s, scheme).next)
  {
  }

  /** Every offered intent keeps the state valid: the count stays within
      [0, MaxCount], so do targets and snapshots, and favorite keys stay unique. */
  lemma ApplyKeepsValid(s: Session, intent: Intent)
    requires Valid(s) && Offered(s, intent)
    ensures Valid(Apply(s, intent).next)
  {
    match intent
    case TapIntent => CountingKeepsValid(s, "");
    case ResetIntent => CountingKeepsValid(s, "");
    case UndoIntent => CountingKeepsValid(s, "");
    case SpeechTimerIntent => CountingKeepsValid(s, "");
    case SetTargetIntent(input) => CountingKeepsValid(s, input);
    case StartDhikrIntent(d) => CatalogCountsPositive(d);
    case SaveFavoriteIntent => SaveKeepsValid(s);
    case SaveNamedIntent(name) => SaveNamedKeepsValid(s, name);
    case CancelNameIntent => SaveKeepsValid(s);
    case DeleteFavoriteIntent(i) => DeleteSelectKeepValid(s, i);
    case SelectFavoriteIntent(i) => DeleteSelectKeepValid(s, i);
    case AddCustomIntent(name) => CustomListKeepsValid(s, name, 0);
    case RemoveCustomIntent(i) => CustomListKeepsValid(s, "", i);
    case SelectCustomIntent(i) => CustomListKeepsValid(s, "", i);
    case ToggleSwitchIntent(w) => SettingsKeepValid(s, w, Dark, Unknown);
    case ChooseThemeIntent(theme) => SettingsKeepValid(s, SoundSwitch, theme, Unknown);
    case ThemeIconIntent(scheme) => SettingsKeepValid(s, SoundSwitch, Dark, scheme);
  }

  /** Carry out `intents` in order; an intent the screen would not offer is skipped. */
  function Run(s: Session, intents: seq<Intent>): Session
    decreases |intents|
  {
    if |intents| == 0 then s
    else if Offered(s, intents[0]) then Run(Apply(s, intents[0]).next, intents[1..])
    else Run(s, intents[1..])
  }

  /** Every state reached from app start is valid. */
  lemma {:induction false} RunKeepsValid(s: Session, intents: seq<Intent>)
    requires Valid(s)
    ensures Valid(Run(s, intents))
    decreases |intents|
  {
    if |intents| > 0 {
      if Offered(s, intents[0]) {
        ApplyKeepsValid(s, intents[0]);
        RunKeepsValid(Apply(s, intents[0]).next, intents[1..]);
      } else {
        RunKeepsValid(s, intents[1..]);
      }
    }
  }

  lemma ReachableStatesValid(intents: seq<Intent>)
    ensures Valid(Run(Initial, intents))
    ensures Run(Initial, intents).count <= MaxCount
  {
    RunKeepsValid(Initial, intents);
  }

  /** No intent changes whether counter names are shown. */
  lemma ApplyKeepsCounterName(s: Session, intent: Intent)
    requires Offered(s, intent)
    ensures Apply(s, intent).next.settings.showCounterName == s.settings.showCounterName
  {
  }

  lemma {:induction false} RunKeepsCounterName(s: Session, intents: seq<Intent>)
    ensures Run(s, intents).settings.showCounterName == s.settings.showCounterName
    decreases |intents|
  {
    if |intents| > 0 {
      if Offered(s, intents[0]) {
        ApplyKeepsCounterName(s, intents[0]);
        RunKeepsCounterName(Apply(s, intents[0]).next, intents[1..]);
      } else {
        RunKeepsCounterName(s, intents[1..]);
      }
    }
  }

  /** Counter names are shown in every reachable state, so saving with blank
      text always opens the naming prompt. */
  lemma CounterNameAlwaysShown(intents: seq<Intent>)
    ensures Run(Initial, intents).settings.showCounterName
    ensures var s := Run(Initial, intents);
            IsBlank(s.text) ==> SaveFavorite(s).next.namePromptOpen
  {
    RunKeepsCounterName(Initial, intents);
  }
}
