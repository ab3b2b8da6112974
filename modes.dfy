/** The timer's modes and the per-mode lookup tables: the duration
    (app.js:194-205), the running label (app.js:208-219), the completion
    label (app.js:222-233) and the mode name (app.js:247-251). */
module Modes {
  import opened Wrappers
  import opened Preferences

  /** The mode the timer is in. app.js keeps the mode as a string tag
      taken from the mode button; the three tags it knows become the first
      three variants, and any other tag is kept as `Other`, the case every
      lookup table answers with its default branch. */
  datatype Mode = Pomodoro | ShortBreak | LongBreak | Other(tag: string)

  const PomodoroTag: string := "pomodoro"
  const ShortBreakTag: string := "shortBreak"
  const LongBreakTag: string := "longBreak"

  /** The mode a tag selects. */
  function ModeOf(tag: string): (m: Mode)
    ensures m == Pomodoro <==> tag == PomodoroTag
    ensures m == ShortBreak <==> tag == ShortBreakTag
    ensures m == LongBreak <==> tag == LongBreakTag
    ensures m.Other? <==> tag != PomodoroTag && tag != ShortBreakTag && tag != LongBreakTag
  {
    if tag == PomodoroTag then Pomodoro
    else if tag == ShortBreakTag then ShortBreak
    else if tag == LongBreakTag then LongBreak
    else Other(tag)
  }

  /** The tag a mode is stored under. */
  function TagOf(m: Mode): (tag: string)
    ensures m.Other? ==> tag == m.tag
    ensures !m.Other? ==> tag == PomodoroTag || tag == ShortBreakTag || tag == LongBreakTag
  {
    match m
    case Pomodoro => PomodoroTag
    case ShortBreak => ShortBreakTag
    case LongBreak => LongBreakTag
    case Other(t) => t
  }

  /** A mode as `ModeOf` builds it: `Other` never carries a known tag. */
  predicate Canonical(m: Mode) {
    m.Other? ==> m.tag != PomodoroTag && m.tag != ShortBreakTag && m.tag != LongBreakTag
  }

  /** Every tag survives the trip through the mode datatype. */
  lemma TagOfModeOf(tag: string)
    ensures Canonical(ModeOf(tag)) && TagOf(ModeOf(tag)) == tag
  {
  }

  /** Every canonical mode survives the trip through its tag. */
  lemma ModeOfTagOf(m: Mode)
    requires Canonical(m)
    ensures ModeOf(TagOf(m)) == m
  {
  }

  /** `getModeTime`: the configured minutes of the mode, 25 for an unknown
      tag. The contract reads the table by the tag the mode is stored under. */
  function ModeMinutes(s: Settings, m: Mode): (r: int)
    ensures Canonical(m) && TagOf(m) == PomodoroTag ==> r == s.pomodoroTime
    ensures Canonical(m) && TagOf(m) == ShortBreakTag ==> r == s.shortBreakTime
    ensures Canonical(m) && TagOf(m) == LongBreakTag ==> r == s.longBreakTime
    ensures m.Other? ==> r == 25
  {
    match m
    case Pomodoro => s.pomodoroTime
    case ShortBreak => s.shortBreakTime
    case LongBreak => s.longBreakTime
    case Other(_) => 25
  }

  /** `getModeRunningText`: the label shown while the mode runs. */
  function RunningText(m: Mode): (r: string)
    ensures Canonical(m) && TagOf(m) == PomodoroTag ==> r == "专注中..."
    ensures Canonical(m) && TagOf(m) == ShortBreakTag ==> r == "短休息中..."
    ensures Canonical(m) && TagOf(m) == LongBreakTag ==> r == "长休息中..."
    ensures m.Other? ==> r == "运行中"
  {
    match m
    case Pomodoro => "专注中..."
    case ShortBreak => "短休息中..."
    case LongBreak => "长休息中..."
    case Other(_) => "运行中"
  }

  /** `getModeCompleteText`: the label shown once the mode has run out. */
  function CompleteText(m: Mode): (r: string)
    ensures Canonical(m) && TagOf(m) == PomodoroTag ==> r == "番茄完成！"
    ensures Canonical(m) && TagOf(m) == ShortBreakTag ==> r == "短休息结束"
    ensures Canonical(m) && TagOf(m) == LongBreakTag ==> r == "长休息结束"
    ensures m.Other? ==> r == "完成"
  {
    match m
    case Pomodoro => "番茄完成！"
    case ShortBreak => "短休息结束"
    case LongBreak => "长休息结束"
    case Other(_) => "完成"
  }

  /** The names table of `updateModeDisplay`: it has no entry for an unknown tag. */
  function ModeName(m: Mode): (r: Option<string>)
    ensures Canonical(m) && TagOf(m) == PomodoroTag ==> r == Some("专注模式")
    ensures Canonical(m) && TagOf(m) == ShortBreakTag ==> r == Some("短休息")
    ensures Canonical(m) && TagOf(m) == LongBreakTag ==> r == Some("长休息")
    ensures r.None? <==> m.Other?
  {
    match m
    case Pomodoro => Some("专注模式")
    case ShortBreak => Some("短休息")
    case LongBreak => Some("长休息")
    case Other(_) => None
  }

  /** The duration of a known mode is the settings field of that mode and
      depends on no other field; an unknown mode ignores the settings. */
  lemma ModeMinutesReadsOwnField(s: Settings, t: Settings, m: Mode)
    requires m == Pomodoro ==> s.pomodoroTime == t.pomodoroTime
    requires m == ShortBreak ==> s.shortBreakTime == t.shortBreakTime
    requires m == LongBreak ==> s.longBreakTime == t.longBreakTime
    ensures ModeMinutes(s, m) == ModeMinutes(t, m)
    ensures m.Other? ==> ModeMinutes(s, m) == 25
  {
  }

  /** With the default settings the three modes last 25, 5 and 15 minutes. */
  lemma DefaultMinutes()
    ensures ModeMinutes(Defaults, Pomodoro) == 25
    ensures ModeMinutes(Defaults, ShortBreak) == 5
    ensures ModeMinutes(Defaults, LongBreak) == 15
  {
  }

  /** Each table tells every mode apart: two modes that share a running label,
      a completion label or a name are the same known mode, or both unknown. */
  lemma LabelsTellModesApart(m: Mode, n: Mode)
    ensures RunningText(m) == RunningText(n) <==> m == n || (m.Other? && n.Other?)
    ensures CompleteText(m) == CompleteText(n) <==> m == n || (m.Other? && n.Other?)
    ensures ModeName(m) == ModeName(n) <==> m == n || (m.Other? && n.Other?)
    ensures ModeName(m).None? <==> m.Other?
  {
  }
}
