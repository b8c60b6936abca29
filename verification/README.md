# Dimer life-timer engine, modelled in Dafny

Dimer is a macOS countdown utility: the user enters a birthday and an
expected age, and the app counts down, in days, hours, minutes and seconds,
to the birthday moved forward by that many calendar years. The record is
kept in an app-group `UserDefaults` suite so that the main window and the
menu-bar extra see the same state.

This project models the engine behind that UI, `LifeTimerData.swift`:

- `wrappers.dfy` — module `Wrappers`: `Option`, standing for Swift's optionals.
- `lifetimer.dfy` — module `LifeTimer`: the record `LifeTimerData`, the derived
  `ExpectedDeathDate`, `TimeRemaining` and `IsExpired`, and
  `FormattedTimeRemaining`, which splits an interval into a `Breakdown`.
  Instants and intervals are exact `real` seconds. "Now" is a parameter. Calendar
  year addition is a parameter of type `YearAdder = (Date, int) -> Option<Date>`,
  where `None` is the calendar giving no date.
- `timerstore.dfy` — module `TimerStore`: the `LifeTimerManager` operations
  `Save`, `Load` and `Clear` as pure functions over a `Defaults` value.
  `Defaults` is either `Unavailable` (the suite initializer gave nil) or
  `Available(entries)`. The JSON coder is a `Codec` of two abstract functions,
  and `RoundTripsOn` states the decode-after-encode property that the lemmas
  assume. A trace model (`Op`, `Run`) is compared with an independent
  reference, `LastWrite`: over any sequence of calls, the key holds what the
  last writing call left there.
- `menubar.dfy` — module `MenuBar`: what the two menu-bar surfaces (label and
  dropdown) compute on each tick. They load the record from the shared suite
  and format the time remaining.

Swift's `/` and `%` truncate toward zero, while Dafny's are Euclidean.
`formattedTimeRemaining` divides only when the whole-second count is
non-negative, and there the two agree, so the model uses Dafny's operators
directly.

The input ranges of the setup screen are an expected age of 30...120 and a
birthday between 120 years ago and today (`ContentView.swift:14-19, 64`). The
engine does not depend on either range: every member handles every record and
every instant. So no member takes them as a precondition.

## Model

| member | source | states |
|---|---|---|
| LifeTimer.TruncateToInt | LifeTimerData.swift:25 | `Int(timeInterval)` drops the fraction toward zero: for a non-negative interval the result `n` satisfies `0 <= n <= x < n + 1`; for a negative one, `n - 1 < x <= n <= 0` |
| LifeTimer.ExpectedDeathDate | LifeTimerData.swift:8-10 | the calendar's year-addition result when it gives one, the birthday when it gives none; it depends only on the two stored fields and the calendar |
| LifeTimer.TimeRemaining | LifeTimerData.swift:12-14 | `now` plus the remaining interval is the expected death date, and the interval is positive exactly when `now` is before that date |
| LifeTimer.IsExpired | LifeTimerData.swift:16-18 | expired exactly when `now` has reached or passed the expected death date |
| LifeTimer.FormattedTimeRemaining | LifeTimerData.swift:20-32 | a non-positive interval shows (0, 0, 0, 0); every result has hours in 0..23, minutes and seconds in 0..59 and non-negative, uncapped days |
| LifeTimer.FormattedReconstructs | LifeTimerData.swift:25-29 | for a positive interval, `days*86400 + hours*3600 + minutes*60 + seconds` equals the interval truncated to whole seconds |
| LifeTimer.SplitUnique | LifeTimerData.swift:26-29 | two in-range breakdowns of the same number of seconds are equal |
| LifeTimer.FormattedUnique | LifeTimerData.swift:20-31 | formatting the seconds any in-range breakdown stands for gives that breakdown back, so the split is the inverse of reconstruction |
| LifeTimer.FormattedZeroIff | LifeTimerData.swift:21-29 | the display is all zeros exactly when less than one whole second remains |
| LifeTimer.FormattedTruncates | LifeTimerData.swift:25 | fractions are dropped, not rounded: 0.5 and 0.999 give zeros, 10.9 gives (0, 0, 0, 10), 90061.5 gives (1, 1, 1, 1) |
| LifeTimer.FormattedTick | LifeTimerData.swift:25-29 | one second less remaining shows exactly one second less, whenever at least one second remains |
| LifeTimer.FormattedMonotone | LifeTimerData.swift:21-29 | a longer interval never shows fewer total seconds |
| LifeTimer.ExpiredShowsZero | LifeTimerData.swift:16-23 | expired exactly when the remaining interval is at most zero, and an expired record shows all zeros |
| LifeTimer.EightyYearsScenario | LifeTimerData.swift:8-29 | birthday 2000-01-01 with age 80 ends 2080-01-01 under any calendar that gives that date; at that instant the record is expired and shows zeros, and ten seconds earlier it shows (0, 0, 0, 10) |
| TimerStore.Lookup | LifeTimerData.swift:41-43 | a value is found exactly when the suite exists and holds the key, and it is the stored value |
| TimerStore.Save | LifeTimerData.swift:45-49 | when encoding succeeds and the suite exists, the key holds the encoded bytes; otherwise the suite is unchanged; no other key changes |
| TimerStore.Load | LifeTimerData.swift:51-58 | gives a record exactly when bytes are stored under the key and they decode, and then it is the decoded record; a missing suite, a missing key and undecodable bytes all give none |
| TimerStore.Clear | LifeTimerData.swift:60-63 | afterwards nothing is stored under the key, and no other key changes |
| TimerStore.SaveThenLoad | LifeTimerData.swift:45-58 | given the coder's round trip, loading after saving a record gives that record |
| TimerStore.SaveOverwrites | LifeTimerData.swift:45-49 | a second save leaves the same suite as saving only the second record, and the second record is what loads; nothing is merged |
| TimerStore.ClearThenLoad | LifeTimerData.swift:51-63 | after a clear nothing loads, whatever the prior state, and clearing twice equals clearing once |
| TimerStore.CorruptLoadsNothing | LifeTimerData.swift:53-56 | stored bytes that do not decode load as nothing, the same outcome as after a clear |
| TimerStore.RunMatchesLastWrite | LifeTimerData.swift:45-63 | over any sequence of save, load and clear calls, the key holds what the last writing call left, or its initial contents if no call wrote; availability and other keys never change |
| TimerStore.LastSaveWins | LifeTimerData.swift:45-58 | after a successful save followed by any loads and failed saves, that record is what loads |
| TimerStore.LastClearWins | LifeTimerData.swift:51-63 | after a clear followed by any loads and failed saves, nothing loads |
| MenuBar.Reading | DimerApp.swift:48-54 | a menu-bar surface shows numbers exactly when a record loads; they are in range, all zeros once that record has expired, and otherwise add up to the time until its expected death date truncated to whole seconds |
| MenuBar.ReadingAfterSave | ContentView.swift:135-157 | right after a record is saved, the menu-bar surfaces count down to that record's expected death date to the truncated second; after a reset it shows nothing |
| MenuBar.ReadingTicks | DimerApp.swift:44-58 | between two ticks one second apart, a running countdown drops by exactly one second |

## Left out

- Wall-clock reads (`Date()`) and the 1 Hz `Timer.publish` ticks: "now" is an explicit parameter, and a tick is a call with a later `now`.
- `Calendar.current` year addition, with its time zones and its rule for February 29: it is the abstract `YearAdder` parameter, not a Gregorian calendar.
- `JSONEncoder`/`JSONDecoder`: they are the abstract `Codec`, and their round trip is a hypothesis (`RoundTripsOn`), not proved.
- `synchronize()` and cross-process sharing of the app-group suite: `save` and `clear` call it after writing and `load` calls it before reading, to exchange state with the other process; the model abstracts all of this into one shared `Defaults` value.
- The main window's countdown (`ContentView.swift:23-24, 93, 135-148`): it counts down from its in-memory record, which setup assigns even when the save silently stored nothing, and it reads the suite only when it appears. So it can disagree with the menu-bar surfaces, and each surface has its own timer and "now".
- Values of other property-list types stored under the key are not modelled: the suite holds only data entries.
- Double-precision `TimeInterval`, including the trap in `Int(timeInterval)` on values beyond the integer range: intervals are exact reals and integers are unbounded.
- NaN intervals: with reals there are none, although the source's `guard timeInterval > 0` would also send NaN to the all-zero result.
- The `%d:%02d:%02d:%02d` text formatting and all SwiftUI/AppKit layout, hover state and window handling in `ContentView.swift` and `DimerApp.swift`: these are UI.
- `SMAppService` launch-at-login registration (`DimerApp.swift:29-31`): it is an OS call.
