# ZenTimer's Pomodoro timer, modelled in Dafny

ZenTimer is a single-page Pomodoro timer. All of its logic sits in one
class, `PomodoroTimer` (app.js). The class cycles between three modes: a
pomodoro (a focus period), a short break and a long break. It counts down
one second per interval tick. It counts completed pomodoros, and it keeps
the settings and that counter in the browser's storage. When a countdown
runs out it plays a tone and shows a system notification.

This project models that class as a state machine and proves what its
transitions do:

- `wrappers.dfy`: `Option`, used for stored fields that may be absent and
  for table entries that may be missing.
- `preferences.dfy` (module `Preferences`): the five settings, their
  defaults, the record storage returns, and the startup merge
  `{ ...defaults, ...stored }`. Present fields override. Absent fields keep
  the default.
- `modes.dfy` (module `Modes`): the mode, taken from the mode button's
  string tag, and the four per-mode tables: duration, running label,
  completion label, and name. An unknown tag is kept as `Other(tag)`, so
  each table's default branch is modelled too: 25 minutes, `运行中`,
  `完成`, and no name.
- `display.dfy` (module `Display`): the `MM:SS` text. It uses
  `Math.floor(t / 60)` and JavaScript's `%`, whose remainder keeps the sign
  of the dividend. Each field is written in decimal and padded with `0` to
  two characters. A parser for that text is proved to invert it for every
  time that is not negative.
- `timer.dfy` (module `Timer`): class `PomodoroTimer`. Its fields are the
  fields of app.js: settings, current mode, seconds left, running flag and
  pomodoro count. It also has a ghost trace of effects. Its methods are the
  transitions of app.js.
- `sessions.dfy` (module `Sessions`): client methods that drive a fresh
  timer through whole sessions and state what results.

The effects are what a transition asks of the world around it, recorded in
order:

- display updates: the time, the mode label, the button text, the counter
- storage writes
- notifications, after the `notificationEnabled` check
- tones, after the `soundEnabled` check

The interval callback is the method `Tick`. It may only be called while the
timer runs, which is when app.js has an interval installed. The
`confirm()` prompt of `switchMode` is the boolean argument `confirmed`. The
values the settings form parses become the argument of `SaveSettings`. What
storage holds becomes the constructor's arguments.

Behaviour of the code worth knowing, which the model follows:

- The seconds left are not clamped at zero. A timer started again after a
  completion, with no reset, ticks to -1, which shows as `-1:-1`, and counts
  the same pomodoro again (`Sessions.RestartWithoutReset`). The seconds left
  are an `int`.
- The constructor sets the seconds left from the default 25 minutes before
  it reads storage (app.js:15 runs before app.js:41). A stored pomodoro
  duration therefore does not reach the first countdown.
- Saving settings while the timer runs keeps the old time. The seconds left
  can therefore exceed the current mode's duration.
- `start()` is not idempotent in app.js. It installs a new interval
  every time it is called. Its only caller, `toggleTimer`, calls it only when
  the timer is stopped. The model states that as `Start`'s precondition.
- A completion does not move on to the next mode. The mode and the time stay
  as they are.

## Model

| member | source | states |
|---|---|---|
| `Preferences.Serialize` | app.js:49-52 | saving writes every one of the five settings, so the stored record carries all five fields |
| `Preferences.Merge` | app.js:58-60 | each field of the merged settings is the stored value when the record has that field and the current value otherwise |
| `Preferences.Load` | app.js:55-60 | a missing record leaves the settings as they are; a present one is merged field by field |
| `Preferences.MergeNothing` | app.js:58-60 | a stored record with no fields changes no setting |
| `Preferences.LoadSaved` | app.js:50-60 | loading the record saving wrote gives back exactly the saved settings, whatever the defaults |
| `Preferences.MergeIdempotent` | app.js:59 | merging a record a second time changes nothing more |
| `Preferences.MergeDependsOnlyOnAbsentFields` | app.js:59 | the merge result depends on the base only through the fields the record lacks |
| `Modes.ModeOf` | app.js:195-203 | the three known tags select their modes, and every other tag selects the default case |
| `Modes.TagOf` | app.js:177 | a known mode is stored under one of the three known tags, an unknown one under its own tag |
| `Modes.TagOfModeOf` | app.js:177 | the mode kept for any tag gives that tag back |
| `Modes.ModeOfTagOf` | app.js:177 | a mode's tag selects that mode again |
| `Modes.ModeMinutes` | app.js:194-205 | `getModeTime`: the tags `pomodoro`, `shortBreak` and `longBreak` give their own settings field, any other tag 25 minutes |
| `Modes.RunningText` | app.js:208-219 | the running label of each of the three tags, and `运行中` for any other |
| `Modes.CompleteText` | app.js:222-233 | the completion label of each of the three tags, and `完成` for any other |
| `Modes.ModeName` | app.js:246-252 | the names table gives a name to each of the three tags and none to any other tag the model admits |
| `Modes.ModeMinutesReadsOwnField` | app.js:194-205 | the duration of a known mode depends only on that mode's settings field; an unknown mode lasts 25 minutes whatever the settings |
| `Modes.DefaultMinutes` | app.js:5-8 | with the default settings the modes last 25, 5 and 15 minutes |
| `Modes.LabelsTellModesApart` | app.js:208-252 | the running, completion and name tables each give the three known modes distinct entries and give a known mode an entry apart from the default; only an unknown mode has no name in the model |
| `Display.NatToString` | app.js:239 | a number's decimal text starts with a digit, has one character below 10 and at most two below 100 |
| `Display.IntToString` | app.js:239 | `toString` of an integer is never empty and starts with a minus sign exactly when the integer is negative |
| `Display.IntToStringValue` | app.js:239 | `toString` of an integer is its decimal text: a negative number gives a minus sign followed by the digits of its magnitude, a non-negative one gives digits only, and either reads back as the number |
| `Display.PadStart` | app.js:239 | `padStart` gives a text of the requested width when the input is shorter, and the input's length otherwise |
| `Display.NatToStringDigits` | app.js:239 | a number's decimal text is all digits, has no leading zero except for 0 itself, and reads back as that number |
| `Display.PadStartShape` | app.js:239 | padding keeps the text as the suffix and puts only the fill character in front |
| `Display.JsRem` | app.js:238 | the remainder is Dafny's for a non-negative time and lies in (-60, 0] for a negative one; the time minus the remainder is a multiple of 60, which together pins the remainder to JavaScript's `a - b·trunc(a/b)` |
| `Display.JsRemOdd` | app.js:238 | negating the time negates the remainder: the remainder keeps the sign of the dividend |
| `Display.LeadingZeroValue` | app.js:239 | a leading `0` added by padding does not change the value a field reads as |
| `Display.PadTwoValue` | app.js:239 | a padded field is all digits and keeps its number |
| `Display.FormatTime` | app.js:236-239 | the displayed text has at least five characters, and for a time that is not negative the colon is third from the end |
| `Display.FormatTimeFields` | app.js:236-239 | for a time that is not negative, the text is the padded minutes, a colon and the padded seconds |
| `Display.FormatTimeRoundTrip` | app.js:236-239 | for every time that is not negative, reading the displayed text back gives exactly that time |
| `Display.FormatTimeShape` | app.js:236-239 | below 6000 seconds the text has five characters with the colon at index 2 |
| `Display.FormatTimeNegative` | app.js:237-239 | a negative time shows a text that starts with a minus sign |
| `Display.FormatFullPomodoro` | app.js:236-239 | 1500 seconds show as `25:00` |
| `Display.FormatZero` | app.js:236-239 | 0 seconds show as `00:00` |
| `Display.FormatMinusOne` | app.js:237-239 | -1 seconds show as `-1:-1` |
| `Timer.CompletionNotice` | app.js:149-162 | a pomodoro gets the pomodoro title, with the long-rest body exactly when the new count is a multiple of 4 and the plain rest body otherwise; a break always gets the break-over notice |
| `Timer.NotifyEffects` | app.js:278-279 | a notification is shown exactly when notifications are enabled, and nothing else is asked for; switched off it does nothing |
| `Timer.ToneEffects` | app.js:256-257 | a tone is played exactly when sound is enabled, and nothing else is asked for; switched off it does nothing |
| `Timer.PauseEffects` | app.js:131-132 | `pause` only touches the display: the resume button, then the paused label |
| `Timer.ReadyEffects` | app.js:140-142 | after a reset or a mode switch only the display changes: the start button and the new time are shown, and the mode's name last |
| `Timer.CompletionEffects` | app.js:146-165 | a completion begins with the effects of `pause` and never shows a new time |
| `Timer.AfterPauseEffects` | app.js:149-165 | after its inner pause a completion shows the counter exactly for a pomodoro, saves only the current settings with the new count, touches neither the time nor the button, and ends with the mode's completion label |
| `Timer.CompletionTone` | app.js:164 | a completion plays the tone exactly when sound is enabled |
| `Timer.CompletionNotifies` | app.js:155-161 | a completion shows a notice exactly when notifications are enabled, and only the one its mode and new count select |
| `Timer.CompletionSaves` | app.js:149-153 | a completion writes storage exactly when it ends a pomodoro, and then it writes the settings with the new count |
| `Timer.CompletionLabelLast` | app.js:146-165 | the label a completion leaves is the mode's completion label, shown after the paused label of its inner pause |
| `Timer.PomodoroTimer.constructor` | app.js:3-43 | a new timer is in the pomodoro mode (a mode a tag in app.js can give) and stopped, with 1500 seconds; the settings are the stored record merged over the defaults; the count is the stored count or 0 |
| `Timer.PomodoroTimer.LoadFromStorage` | app.js:54-65 | a stored record overrides the settings field by field; a stored count replaces the count and is shown; nothing else changes |
| `Timer.PomodoroTimer.Toggle` | app.js:104-110 | a running timer is paused and a stopped one started; only the running flag changes |
| `Timer.PomodoroTimer.Start` | app.js:113-117 | the timer runs and shows the mode's running label; time, mode, count and settings stay |
| `Timer.PomodoroTimer.Tick` | app.js:118-124 | one tick takes exactly one second off and shows it; at or below zero it completes in the same step and the timer stops; from a positive time it stops at exactly 0 |
| `Timer.PomodoroTimer.Pause` | app.js:129-134 | the timer stops; time, mode, count and settings stay |
| `Timer.PomodoroTimer.Reset` | app.js:137-143 | the timer stops with the full duration of its mode; mode, count and settings stay |
| `Timer.PomodoroTimer.Complete` | app.js:146-166 | the timer stops; the count goes up by exactly 1 after a pomodoro and stays after a break; mode and time stay, so no next mode starts |
| `Timer.PomodoroTimer.SwitchMode` | app.js:169-191 | a running timer whose switch is declined is left entirely unchanged; otherwise the timer stops in the mode the tag selects, kept in the form a tag gives, with that mode's full duration, also when the mode is the current one |
| `Timer.PomodoroTimer.SaveSettings` | app.js:295-314 | all five settings are replaced and saved; a stopped timer takes its mode's new duration, a running one keeps its time |
| `Sessions.Countdown` | app.js:118-120 | n ticks show n times |
| `Sessions.CountdownAt` | app.js:118-120 | the i-th tick shows one second less than the one before it |
| `Sessions.CountdownOnlyTimes` | app.js:118-120 | ticking shows only times, and a full countdown shows 0 |
| `Sessions.RunToLastSecond` | app.js:118-124 | every tick before the last second completes nothing |
| `Sessions.RunUntilStopped` | app.js:118-124 | a running timer stops after exactly as many ticks as it had seconds, showing every second down to 0, and completes once |
| `Sessions.DefaultPomodoroTrace` | app.js:146-164 | a default first pomodoro's trace shows 0, the plain rest notice and the tone, and no long-rest notice |
| `Sessions.FullDefaultPomodoro` | app.js:113-166 | a fresh timer started and left alone stops after 1500 ticks showing `00:00`, with one pomodoro counted, the plain rest notice and the tone |
| `Sessions.RestartWithoutReset` | app.js:118-150 | starting again after a completion shows `-1:-1` after one tick and counts a second pomodoro |
| `Sessions.StartThenPause` | app.js:104-134 | starting and pausing with no tick between leaves the time at 1500 and the timer stopped |
| `Sessions.EditDuration` | app.js:295-308 | a one-minute pomodoro saved while stopped gives 60 seconds at once; saved while running it keeps 1500 seconds until the reset, which gives 60 |
| `Sessions.SwitchWhileRunning` | app.js:169-178 | a declined switch keeps a running pomodoro running at 1499 seconds; a confirmed one leaves a stopped short break with 300 seconds |
| `Sessions.Reload` | app.js:49-63 | a timer that saves settings `s` with counter `count`, and a second timer built from that stored record and counter: the second has `s` and `count` |

## Left out

- Modes.ModeName: tags that name a property an object literal inherits
  (`toString`, `__proto__` and the like) are not modelled. The names table
  at app.js:247-252 is an ordinary object, so for such a tag the label
  shows the inherited value's text; the model shows no name for every
  unknown tag. The mode buttons of the page carry only the three known
  tags. The `switch` tables compare with `===` and are not affected.

- The page itself is not modelled: element lookups, button classes, the
  container's colour class, the settings panel and the values written back
  into the settings form (app.js:21-34, 68-72, 182-187, 291, 310). Text that
  reaches the page is kept only as effects.
- Event wiring is not modelled (app.js:83-100, 317-320). These lines only
  decide which method a click calls.
- `setInterval` and `clearInterval` run on the wall clock (app.js:118, 133).
  They are replaced by the explicit `Tick` method, which is callable exactly
  while the timer runs.
- The sound synthesis goes through the Web Audio API with floating-point
  gain and frequency (app.js:259-274). Only "a tone is requested iff sound is
  enabled" is kept.
- Notification permission is a browser API (app.js:76-80, 281). The request
  at startup is not modelled. A `Notify` effect is an allowed request; the
  permission check after it is not modelled. The notification icon is not
  modelled either.
- Storage, `JSON.parse`, `JSON.stringify` and `parseInt` work on text
  (app.js:50-63, 296-298). They are not modelled. The model works on the
  values they produce. A malformed stored settings record makes `JSON.parse`
  throw (app.js:59); the exception leaves `init()` before the display is
  drawn and before any event listener is attached (app.js:41-44), so the
  page never responds. That exception path is left out: the model always
  receives a parsed record. A form field that does not parse gives `NaN`
  from `parseInt` (app.js:63, 296-298); that is not modelled either. Fields
  of other types in the stored record are not modelled.
- The page title carries the same `MM:SS` text as the timer (app.js:242). It
  is folded into the same `ShowTime` effect.
- The number arithmetic is modelled on unbounded integers. JavaScript's
  doubles lose precision only far beyond any countdown.
