/** The timer's user settings (app.js:5-11), the record storage hands back
    for them, and the startup merge of the two (app.js:58-60). */
module Preferences {
  import opened Wrappers

  /** Three durations in minutes and the two switches. The durations are
      whatever integers the settings form produced; app.js checks no range. */
  datatype Settings = Settings(
    pomodoroTime: int,
    shortBreakTime: int,
    longBreakTime: int,
    soundEnabled: bool,
    notificationEnabled: bool)

  /** The settings a fresh timer starts with. */
  const Defaults: Settings := Settings(25, 5, 15, true, true)

  /** A settings record as parsed back from storage: every field may be absent. */
  datatype StoredSettings = StoredSettings(
    pomodoroTime: Option<int>,
    shortBreakTime: Option<int>,
    longBreakTime: Option<int>,
    soundEnabled: Option<bool>,
    notificationEnabled: Option<bool>)

  /** The record that holds no field at all. */
  const NothingStored: StoredSettings := StoredSettings(None, None, None, None, None)

  /** `v` is the value a spread merge gives one field: the stored value when
      the record has one, the base value otherwise. */
  predicate FieldFrom<T(==)>(stored: Option<T>, base: T, v: T) {
    if stored.Some? then v == stored.value else v == base
  }

  /** What saving `s` and parsing it back yields: the record with all five fields. */
  function Serialize(s: Settings): (p: StoredSettings)
    ensures p.pomodoroTime == Some(s.pomodoroTime)
    ensures p.shortBreakTime == Some(s.shortBreakTime)
    ensures p.longBreakTime == Some(s.longBreakTime)
    ensures p.soundEnabled == Some(s.soundEnabled)
    ensures p.notificationEnabled == Some(s.notificationEnabled)
  {
    StoredSettings(Some(s.pomodoroTime), Some(s.shortBreakTime), Some(s.longBreakTime),
                   Some(s.soundEnabled), Some(s.notificationEnabled))
  }

  /** `{ ...base, ...p }`: every field the stored record carries overrides
      the base, every field it lacks keeps the base value. */
  function Merge(base: Settings, p: StoredSettings): (r: Settings)
    ensures FieldFrom(p.pomodoroTime, base.pomodoroTime, r.pomodoroTime)
    ensures FieldFrom(p.shortBreakTime, base.shortBreakTime, r.shortBreakTime)
    ensures FieldFrom(p.longBreakTime, base.longBreakTime, r.longBreakTime)
    ensures FieldFrom(p.soundEnabled, base.soundEnabled, r.soundEnabled)
    ensures FieldFrom(p.notificationEnabled, base.notificationEnabled, r.notificationEnabled)
  {
    Settings(
      p.pomodoroTime.GetOr(base.pomodoroTime),
      p.shortBreakTime.GetOr(base.shortBreakTime),
      p.longBreakTime.GetOr(base.longBreakTime),
      p.soundEnabled.GetOr(base.soundEnabled),
      p.notificationEnabled.GetOr(base.notificationEnabled))
  }

  /** The startup step: merge only when storage returned a record. */
  function Load(base: Settings, saved: Option<StoredSettings>): (r: Settings)
    ensures saved.None? ==> r == base
    ensures saved.Some? ==> r == Merge(base, saved.value)
  {
    match saved
    case None => base
    case Some(p) => Merge(base, p)
  }

  /** A record with no fields changes nothing. */
  lemma MergeNothing(base: Settings)
    ensures Merge(base, NothingStored) == base
  {
  }

  /** Loading what was saved gives back exactly the saved settings,
      whatever the base was. */
  lemma LoadSaved(base: Settings, s: Settings)
    ensures Load(base, Some(Serialize(s))) == s
  {
  }

  /** Merging the same record twice is merging it once. */
  lemma MergeIdempotent(base: Settings, p: StoredSettings)
    ensures Merge(Merge(base, p), p) == Merge(base, p)
  {
  }

  /** A field the record carries does not depend on the base, and a field it
      lacks does not depend on the record: two bases that agree on the absent
      fields merge to the same settings. */
  lemma MergeDependsOnlyOnAbsentFields(b1: Settings, b2: Settings, p: StoredSettings)
    requires p.pomodoroTime.None? ==> b1.pomodoroTime == b2.pomodoroTime
    requires p.shortBreakTime.None? ==> b1.shortBreakTime == b2.shortBreakTime
    requires p.longBreakTime.None? ==> b1.longBreakTime == b2.longBreakTime
    requires p.soundEnabled.None? ==> b1.soundEnabled == b2.soundEnabled
    requires p.notificationEnabled.None? ==> b1.notificationEnabled == b2.notificationEnabled
    ensures Merge(b1, p) == Merge(b2, p)
  {
  }
}
