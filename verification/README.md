# Tasbeh counter: the counting session as a verified transition system

This project models the core of a tally-counter app for repeating short
phrases ("dhikr"). The app is a React Native program. Its logic lives in the
event handlers of `App.js` and in the expand/collapse state of
`DhikrListScreen.js`. Here that logic becomes one pure transition system.

- A `Counter.Session` record holds:
  - the count and the target, where target 0 means unset;
  - the dhikr text;
  - the single undo slot;
  - the favorites list and the custom list;
  - the switches and the theme preference;
  - the one pending delayed speech announcement;
  - whether the naming prompt is open.
- Each user intent is a function. It returns a `Counter.Step`: the next
  session plus the list of driver requests, in order. A request is a
  `Feedback.Effect`: click sound, vibration, cancel or schedule or stop
  speech, speak, or show an alert.
- `targetCount` and `dhikrText` are `Option` values. `None` stands for
  JavaScript's `undefined`. The text starts out `undefined`. An undo after a
  tap-made snapshot sets both fields to `undefined` as well.

Files and modules:

- `text.dfy`
  - `Common` holds `Option` and `Result`.
  - `Text` holds `trim`, JavaScript's UTF-16 `length`, decimal rendering
    `String(n)`, and the decimal parser that stands for `parseInt`/`Number`.
- `validation.dfy` (`Validation`): `MAX_COUNT` and the five-stage target
  validation.
- `catalog.dfy` (`Catalog`): the static dhikr catalog, `toggleExpand` and the
  derived section list.
- `lists.dfy` (`Lists`): removal by position, which is how both lists delete.
- `favorites.dfy` (`Favorites`): lookup by key and upsert.
- `feedback.dfy` (`Feedback`): effects, alert notices and the announcement text.
- `theme.dfy` (`Theme`): resolving the theme to dark or light, and the theme
  toggle.
- `session.dfy` (`Counter`): the session and one function per intent.
- `session_properties.dfy` (`CounterProperties`):
  - undo round trips;
  - runs of taps;
  - the state invariant, kept by every intent and so by every state reachable
    from app start.

## Behaviour worth knowing

- **Undo.** `handleUndo` assigns count, target and text from the snapshot
  every time (App.js:152-154). A tap's snapshot holds only `count`
  (App.js:71). So an undo right after a tap on an empty slot makes target and
  text `undefined`. After that, starting a catalog dhikr no longer sets a
  target, because only a target of exactly `0` is replaced (App.js:161).
  `CounterProperties.TapUndoLosesTarget` shows this sequence.
- **Favorites.** Favorites are deleted by list position (App.js:554, 575).
- **Selecting.**
  - Selecting a favorite loads its count and target verbatim (App.js:563-567).
  - Selecting a custom entry sets the text and count 0 and keeps the target
    (App.js:643-645).
  - Neither one goes through the catalog-start rule.
- **Stop-on-target refusal.** The refusal shows the "Target completed" alert.
  With text-to-speech on, it also stops speech and speaks "Target completed"
  (App.js:51-65).
- **Counter names.** `showCounterName` starts true (App.js:38) and no screen
  changes it: the settings screen receives its setter (App.js:609-610) but
  offers no switch for it (setting.js:14-23). So blank text always opens the
  naming prompt on save (`CounterProperties.CounterNameAlwaysShown`), and the
  names-hidden branch of `handleSaveFavorite` is never taken.
- **Name length.** The naming prompt measures `trim().length` (App.js:224),
  which counts UTF-16 code units. A single emoji outside the Basic
  Multilingual Plane is two units and is accepted as a name.

## Model

| member | source | states |
|---|---|---|
| `Counter.Tap` | App.js:49-134 | A tap is refused first by stop-on-target (count at or past a positive target) and then by the maximum. A refused tap changes nothing; the maximum refusal requests nothing, and the stop-on-target refusal raises the "Target completed" alert. A counted tap adds one and merges the old count into the undo slot. Target, text, lists and settings stay unchanged. The count stays at or below MAX_COUNT. With speech on, a counted tap makes the pending announcement the one for the new count; otherwise the pending announcement is kept. |
| `Counter.TapFeedback` | App.js:51-134 | The completion alert is requested exactly on the stop-on-target refusal and on the counted tap that lands on the target. The click is requested exactly on counted taps with sound on, and the 150 ms vibration exactly on counted taps with vibration on. With speech off, no speech request is made. |
| `Counter.TapSpeech` | App.js:51-132 | With speech on, and only then: a counted tap cancels the pending announcement (when one is pending), stops current speech and schedules the announcement of the new count after 200 ms. "Target completed" is spoken at once exactly on the stop-on-target refusal and on the counted tap that lands on the target. The refusal requests the alert, and with speech on then stops speech and speaks the phrase, in that order. A completing tap's last request is that speech. |
| `Counter.TapRequestsNothingElse` | App.js:51-132 | A tap requests nothing but the click, the 150 ms vibration, the cancel, stop and schedule of the announcement for the new count, the completion phrase and the completion alert. No request occurs twice except stopping speech, which a completing tap does before the new announcement and again before the phrase. At most one announcement is scheduled. |
| `Counter.ScheduledIsPending` | App.js:88-109 | The announcement a tap schedules is exactly the one left pending for the timer. |
| `Counter.InitialState` | App.js:22-41 | The app starts at count 0 with target 0, no text, an empty undo slot, empty lists and the naming prompt closed. Sound and counter names are on, vibration, stop-on-target and speech are off, the theme is dark, and the state is valid. |
| `Counter.MergeCount` | App.js:71 | The undo slot after a tap has the old count and keeps the previous snapshot's target and text, or has neither when the slot was empty. |
| `Counter.FireSpeech` | App.js:97-109 | When the delay timer fires, the one pending announcement is spoken and the slot empties. With nothing pending, nothing is spoken. |
| `Counter.Reset` | App.js:136-148 | Reset records count, target and text in the undo slot. It then sets count 0, target 0 and no text, and makes no other change. |
| `Counter.Undo` | App.js:150-157 | With an empty slot, undo changes nothing. Otherwise it assigns all three snapshot fields, including absent ones, and empties the slot. |
| `Counter.StartDhikr` | App.js:159-163 | Starting a dhikr sets its text and count 0. The target becomes the dhikr's count only when the target is exactly 0, and the undo slot is untouched. |
| `Counter.SetTarget` | App.js:315-376 | The target changes only to the value validation accepted, which is above the count and at most MAX_COUNT. A rejection leaves the session as it was and reports the first failing stage. |
| `Counter.SaveFavorite` | App.js:165-185 | Blank text with names shown opens the naming prompt and changes nothing else. Blank text with names hidden does nothing. Usable text is upserted with the current count and target. Keys stay unique. |
| `Counter.SaveNamedFavorite` | App.js:224-242 | A name whose trimmed form is shorter than two UTF-16 code units is refused with no change. Otherwise the favorite is upserted under the name as typed, the name becomes the text and the prompt closes. Keys stay unique. |
| `Counter.CancelNamePrompt` | App.js:255-258 | Cancelling the prompt only closes it. |
| `Counter.DeleteFavorite` | App.js:553-555 | Deleting favorite `i` removes exactly that position and keeps the others in order. An out-of-range index changes nothing. Keys stay unique. |
| `Counter.SelectFavorite` | App.js:563-567 | Selecting a favorite loads its key as text, and its count and target verbatim. Nothing else changes. |
| `Counter.AddCustomDhikr` | App.js:695-703 | A name that is blank after trimming is refused with an alert. Any other name is appended untrimmed, and duplicates are allowed. |
| `Counter.RemoveCustomDhikr` | App.js:664-666 | Removing entry `i` drops exactly that position and keeps the rest in order. |
| `Counter.SelectCustomDhikr` | App.js:643-645 | Selecting a custom entry sets its name as text and count 0. The target and undo slot are kept. |
| `Counter.ToggleSwitch` | App.js:484-489 | Flipping one of the four switches (sound, vibration, stop-on-target, speech) changes that setting and no other; the theme and the counter-name setting are kept. The counter screen flips sound and vibration this way, and the settings screen flips all four (setting.js:66-110). |
| `Counter.ChooseTheme` | App.js:611-612 | The settings theme picker stores the chosen preference. |
| `Counter.PressThemeIcon` | App.js:481 | The sun/moon icon stores `light` exactly when the preference was `dark` and `dark` otherwise, never `system`. For an explicit preference this flips the appearance shown; from `system` the app is dark afterwards whatever it showed before (see Findings). |
| `Validation.ValidateTarget` | App.js:316-365 | Each stage's error is characterised exactly: empty for all-white-space input; not an integer for other text that does not parse; not positive for a parsed number at or below 0; above the maximum for one above MAX_COUNT; not above the count for one in (0, MAX_COUNT] at or below the count. Acceptance happens exactly when the parsed number lies in (count, MAX_COUNT], and it returns that number. |
| `Validation.AcceptsRenderedNumber` | App.js:326-365 | A typed whole number with any white-space padding is accepted exactly when it lies in (count, MAX_COUNT], and then it is the new target. |
| `Validation.RejectionStageOfNumber` | App.js:337-364 | A number at or below 0 fails the positivity stage. One above MAX_COUNT fails the maximum stage. One in range but not above the count fails the last stage. |
| `Validation.RejectionExamples` | App.js:316-365 | "3" at count 5 is not above the count, and "" is empty. |
| `Validation.NotIntegerExample` | App.js:326-335 | "abc" fails the whole-number stage. |
| `Validation.WordDoesNotParse` | App.js:327-328 | Text that, inside any white-space padding, starts with neither a sign nor a digit is not blank and does not parse as a whole number. |
| `Validation.AcceptanceExample` | App.js:366-367 | "50" at count 5 is accepted, and 50 becomes the target. |
| `Text.TrimStart` | App.js:317 | Only leading white space is dropped, and the result does not start with white space. |
| `Text.TrimEnd` | App.js:317 | Only trailing white space is dropped, and the result does not end with white space. |
| `Text.Trim` | App.js:317 | The trimmed text is empty exactly when the input is all white space. Otherwise it neither starts nor ends with white space. |
| `Text.IsBlank` | App.js:166-170 | Text is blank exactly when it is absent or consists of white space alone. |
| `Text.Utf16Length` | App.js:224 | JavaScript's `length` is at least the number of characters and at most twice it, and equals it when every character lies in the Basic Multilingual Plane. |
| `Text.TrimShape` | App.js:317 | Trimming both ends gives the empty string exactly for all-white-space input. |
| `Text.TrimPadded` | App.js:317 | Trimming removes any white-space padding around text that has no white space at its ends. |
| `Text.TrimUnpadded` | App.js:317 | Text with no white space at its ends is its own trim. |
| `Text.TrimStartPadded` | App.js:317 | Dropping leading white space removes exactly the padding in front. |
| `Text.TrimEndPadded` | App.js:317 | Dropping trailing white space removes exactly the padding behind. |
| `Text.ParseInt` | App.js:327-328 | A parse succeeds exactly when the trimmed text is an optional sign followed by at least one digit. The value is at most 0 after a minus sign and at least 0 otherwise. |
| `Text.ParseNumeral` | App.js:327-328 | On trimmed text, a number is read exactly from an optional sign followed by at least one digit. Without a sign the value is the digits' value; after `-` it is its negation, after `+` the value itself. |
| `Text.ParseSignedPadded` | App.js:327-328 | `+` or `-`, any number of leading zeros and the digits of `n`, with any white-space padding, parse as `n` or `-n`. |
| `Text.ParseZeroPadded` | App.js:327-328 | Any number of leading zeros before the digits of `n`, with any white-space padding, parse as `n`. |
| `Text.LeadingZerosValue` | App.js:327 | Leading zeros do not change the value of a digit string. |
| `Text.RenderedNumeralValue` | App.js:327-328 | What `String(i)` writes has no white space at its ends and reads back as `i`. |
| `Text.ParseRoundTrip` | App.js:327-328 | Parsing the decimal rendering of any whole number, with any white-space padding, gives the number back. |
| `Text.NatToString` | App.js:104 | `String(n)` is a non-empty run of decimal digits, and it starts with 0 only for 0. |
| `Text.IntToString` | App.js:104 | The rendering starts with a minus sign exactly for negative numbers. |
| `Text.DigitsRoundTrip` | App.js:104 | Reading back the digits of `String(n)` gives `n`. |
| `Text.DigitValue` | App.js:327 | A digit's value is below 10. |
| `Text.DigitChar` | App.js:104 | The character written for a value below 10 is a digit with that value. |
| `Feedback.Utterance` | App.js:98-108 | The announcement starts with `String(newCount)`. It continues with " completed!" exactly when the new count equals the target, and with nothing otherwise. |
| `Feedback.UtteranceNamesCount` | App.js:97-109 | The number an announcement starts with reads back as the count it was scheduled for, and different counts give different announcements. |
| `Feedback.UtteranceShape` | App.js:98-108 | An announcement is all digits exactly when it is not the completion announcement. |
| `Favorites.FindIndex` | App.js:171 | The result is the first position holding the key, or none exactly when no favorite has the key. |
| `Favorites.Upsert` | App.js:171-177 | An existing key is replaced at its first position, the length stays the same and nothing else changes. A new key is appended. Looking up the key afterwards finds the new entry. |
| `Favorites.UpsertKeepsKeysUnique` | App.js:171-177 | Upsert keeps keys unique, and the saved key then holds only the new entry. |
| `Favorites.SecondSaveWins` | App.js:171-177 | Saving the same key twice gives the same list as saving only the second time. |
| `Favorites.RemoveKeepsKeysUnique` | App.js:554 | Deleting by position keeps keys unique. |
| `Lists.RemoveAt` | App.js:665 | The position filter drops exactly element `i` (one shorter, the others in order), and an out-of-range index keeps the list. |
| `Catalog.CatalogCountsPositive` | DhikrListScreen.js:19-70 | Every catalog entry suggests a count above 0 and at most MAX_COUNT. |
| `Catalog.Without` | DhikrListScreen.js:111 | The filter keeps exactly the elements other than the index and never lengthens the list. |
| `Catalog.ToggleExpand` | DhikrListScreen.js:109-115 | A toggle flips whether the index is expanded and keeps every other index's membership. |
| `Catalog.WithoutNoDuplicates` | DhikrListScreen.js:111 | Filtering keeps a duplicate-free list duplicate-free. |
| `Catalog.ToggleKeepsNoDuplicates` | DhikrListScreen.js:110-114 | A toggle never introduces a duplicate index. |
| `Catalog.ToggleTwiceRestoresMembership` | DhikrListScreen.js:109-115 | Toggling the same index twice restores the set of expanded indices. |
| `Catalog.Sections` | DhikrListScreen.js:117-121 | There is one section per category, with its title and index. It shows the category's entries when expanded and none otherwise. |
| `Catalog.ToggleChangesOneSection` | DhikrListScreen.js:109-121 | A toggle opens or closes exactly the toggled section and leaves every other section unchanged. |
| `Theme.DarkMode` | App.js:37 | The app is dark for `dark`, light for `light`, and under `system` dark exactly when the system scheme is dark. |
| `Theme.ToggleThemeAsWritten` | App.js:481 | The written toggle never yields `system`, and it yields `light` exactly from `dark`. |
| `Theme.ToggleAsWrittenCanKeepDark` | App.js:481 | Under `system` with a dark system scheme, the written toggle leaves the app dark. |
| `Theme.ToggleTheme` | App.js:481-482 | The corrected toggle flips the resolved appearance, and it agrees with the written toggle for `light` and `dark`. |
| `Theme.ToggleTwiceRestoresAppearance` | App.js:37 | Two presses of the corrected toggle restore the appearance. |
| `CounterProperties.ResetThenUndoRestores` | App.js:136-157 | Reset then undo restores count, target and text exactly and empties the slot. |
| `CounterProperties.UndoTwiceIsUndoOnce` | App.js:150-157 | A second undo is a no-op. |
| `CounterProperties.TapThenUndo` | App.js:150-157 | Undo after a counted tap restores the count. Target and text come from the merged slot, and are absent if the slot was empty before the tap. |
| `CounterProperties.TapUndoLosesTarget` | App.js:150-163 | Start a catalog dhikr, tap and undo: the target becomes absent, and a later catalog start no longer sets it. |
| `CounterProperties.StartFromCatalogSetsPositiveTarget` | App.js:159-163 | Starting a catalog entry with target 0 yields a target in (0, MAX_COUNT] and keeps the undo slot. |
| `CounterProperties.SaveThenSelectRestores` | App.js:165-185 | Saving a favorite and selecting it gives back the saved text, count and target. |
| `CounterProperties.EmojiNameAccepted` | App.js:224-242 | A one-emoji name outside the Basic Multilingual Plane is long enough and is saved. |
| `CounterProperties.LetterNameRefused` | App.js:224-232 | A single letter inside white space is refused as too short. |
| `CounterProperties.SingleCharacterName` | App.js:224 | A single non-white-space character is its own trim and is one or two code units long. |
| `CounterProperties.AddThenRemoveCustom` | App.js:664-703 | Removing the custom entry just added gives the session back. |
| `CounterProperties.TapsKeepTarget` | App.js:71-73 | A run of taps never changes settings, target or text. |
| `CounterProperties.TapsCountUpToMax` | App.js:67-73 | With stop-on-target off, `k` taps raise the count to min(count + k, MAX_COUNT). |
| `CounterProperties.TapsCountUpToTarget` | App.js:51-73 | With stop-on-target on and target `t`, `k` taps from at most `t` raise the count to min(count + k, t). |
| `CounterProperties.NoCompletionPastTarget` | App.js:116 | With stop-on-target off and the count at or past the target, no later tap raises the completion alert. |
| `CounterProperties.CompletionFiresOnce` | App.js:116-133 | With stop-on-target off and a target above the count, a run of taps raises the completion alert once if it reaches the target and never otherwise. |
| `CounterProperties.PendingSpeechTracksCount` | App.js:88-109 | With speech on, the pending announcement stays the one for the current count across taps. |
| `CounterProperties.TapKeepsSpeechInvariant` | App.js:88-109 | With speech on and the pending announcement for the current count, a tap keeps it so and changes neither settings nor target. |
| `CounterProperties.RapidTapsAnnounceFinalCount` | App.js:88-109 | After a run of taps that starts with a counted tap, the single pending announcement is for the final count, and that is what the timer speaks. |
| `CounterProperties.UpsertInBounds` | App.js:171-177 | Upserting an in-bounds entry keeps every favorite's count and target in bounds. |
| `CounterProperties.ApplyKeepsValid` | App.js:49-700 | Every offered intent keeps the count, the target, the snapshot and the favorites within [0, MAX_COUNT], and keeps favorite keys unique. |
| `CounterProperties.CountingKeepsValid` | App.js:49-157 | Tap, reset, undo, the speech timer and setting a target keep the state valid. |
| `CounterProperties.SaveKeepsValid` | App.js:165-185 | Saving the current text and cancelling the prompt keep the state valid. |
| `CounterProperties.SaveNamedKeepsValid` | App.js:224-242 | Saving under a typed name keeps the state valid. |
| `CounterProperties.DeleteSelectKeepValid` | App.js:553-567 | Deleting or selecting a favorite keeps the state valid. |
| `CounterProperties.CustomListKeepsValid` | App.js:643-703 | Adding, removing and selecting custom entries keep the state valid. |
| `CounterProperties.SettingsKeepValid` | App.js:481-489 | Switches, the theme picker and the theme icon keep the state valid. |
| `CounterProperties.RunKeepsValid` | App.js:49-700 | Any sequence of intents keeps a valid session valid. |
| `CounterProperties.ReachableStatesValid` | App.js:22-41 | Every state reachable from the initial state is valid, so its count is at most MAX_COUNT. |
| `CounterProperties.ApplyKeepsCounterName` | App.js:38 | No intent changes whether counter names are shown. |
| `CounterProperties.RunKeepsCounterName` | App.js:38 | No sequence of intents changes whether counter names are shown. |
| `CounterProperties.CounterNameAlwaysShown` | App.js:166-168 | In every reachable state counter names are shown, so saving with blank text opens the naming prompt. |

## Left out

- Rendering, styles, the `adjust` sizing and the check that only decides which
  side the trash icon sits on (App.js:531). This is presentation only.
- Navigation resets and `navigate` calls. They move between screens and do not
  change the session.
- Modal visibility and text-input buffers of the target dialog and the custom
  dialog, and the `setTimeout` focus workarounds. The typed text is a parameter
  of the intent. Only the naming prompt's open flag is kept, because saving
  depends on it.
- Platform drivers (`expo-av` sound, `expo-speech`, `Vibration`, `Alert`). They
  are abstract effect values. Loading and unloading the click sound is not
  modelled. `PlayClick` is requested whenever sound is on, and whether the
  asset has loaded is left to the driver. Speech language and rate are not
  modelled.
- The model assumes every driver request succeeds. The code differs when one
  fails:
  - `Vibration.vibrate(150)` (App.js:84) has no `try/catch`, so a failure
    there ends the tap's handler early;
  - the refusal's `Speech.stop` and `Speech.speak` (App.js:57-63) have no
    `try/catch` either;
  - inside the guarded speech block, a failing `Speech.stop()` (App.js:94)
    jumps to the `catch` at App.js:110 after the old timer was cleared
    (App.js:92) and before the new one is set (App.js:97), so no
    announcement is left pending, while the model always leaves one.
- Timing:
  - the 200 ms delay is carried in the `ScheduleSpeech` request but not
    simulated;
  - `FireSpeech` is the timer firing;
  - the unmount cleanup that cancels the timer is not modelled.
- Asynchrony:
  - the `await`s inside the tap handler;
  - React's batching of state updates;
  - stale closures under very rapid taps.

  Each intent is atomic.
- The code calls `clearTimeout` whenever a timer was ever scheduled. Clearing
  a timer that already fired does nothing. So the model requests
  `CancelScheduledSpeech` only while an announcement is pending.
- Alert wording. Alerts are `Feedback.Notice` values. The formatted strings,
  such as `targetCount || 'No Target'`, are not reproduced.
- `Text.ParseInt`, `Validation.ValidateTarget`: JavaScript number coercion in
  `parseInt`/`Number` (App.js:327-328) is not modelled. The model takes
  optional white space, an optional sign, then decimal digits. It differs in
  two ways:
  - "12.0", "1e3" and "0x10", which JavaScript accepts, are rejected here as
    not an integer;
  - a numeral of 309 or more digits becomes `Infinity` under `Number`, so
    JavaScript reports it as not a whole number, while the model reads its
    exact value and reports it as above the maximum.
- `Text.Trim` removes ASCII white space, no-break space, the byte-order mark
  and the line and paragraph separators. It does not remove the other Unicode
  space separators that `trim` also strips, such as U+3000.
- `Counter.TapSpeech`: of the order of a counted tap's requests, only the
  last request of a completing tap is stated. The refusal's requests are
  stated in full and in order.
  Which requests occur, and how often, is stated by `Counter.TapSpeech`,
  `Counter.TapFeedback` and `Counter.TapRequestsNothingElse`. The full order
  is the definition `CountedTapEffects`.
- The settings screen file `setting.js` is modelled only through its four
  switches and theme picker (`Counter.ToggleSwitch`, `Counter.ChooseTheme`).
  Its layout and the theme dialog's visibility are presentation only.
- Catalog fields `meaning` and `why` are carried but only displayed by the app.

## Findings

| source | as written | input that shows it | evidently intended | confidence | as-written member | corrected member |
|---|---|---|---|---|---|---|
| App.js:481 | The sun/moon icon sets `theme === 'dark' ? 'light' : 'dark'`. | Preference `system` with a dark system scheme. The app shows dark and the sun icon, and pressing it sets `dark`, so the app stays dark. | Pressing the icon switches to the opposite of the appearance shown, as the icon's choice (App.js:482) suggests. | medium, not executed | `Counter.PressThemeIcon`, `Theme.ToggleAsWrittenCanKeepDark` | `Theme.ToggleTheme`, `Theme.ToggleTwiceRestoresAppearance` |
