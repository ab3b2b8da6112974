/** The `PomodoroTimer` class of app.js as a state machine: its state
    (app.js:5-17), its transitions (app.js:104-191, 295-314), the interval
    callback as an explicit `Tick` (app.js:118-125), and the effects each
    transition asks of the page, the storage and the notifier, recorded in
    order in a ghost trace. */
module Timer {
  import opened Wrappers
  import opened Preferences
  import opened Modes

  /** A system notification: title and body. */
  datatype Notice = Notice(title: string, body: string)

  /** What a transition asks of the world outside the state machine. */
  datatype Effect =
    | ShowTime(seconds: int)               // `updateDisplay`: `Display.FormatTime(seconds)` in the timer and the page title
    | ShowModeText(modeText: Option<string>)  // the mode label; None when the names table has no entry
    | ShowButton(text: string)             // the start/pause button's text
    | ShowCount(count: int)                // the completed-pomodoro counter on the page
    | Save(settings: Settings, count: int) // `saveToStorage`: both storage keys written
    | Notify(notice: Notice)               // `showNotification` past its `notificationEnabled` gate
    | Tone                                 // `playSound` past its `soundEnabled` gate

  const PauseButtonText: string := "暂停"
  const ResumeButtonText: string := "继续"
  const StartButtonText: string := "开始"
  const PausedText: string := "已暂停"

  const PomodoroDoneTitle: string := "番茄完成！"
  const LongRestBody: string := "你已经完成了4个番茄，该休息一下了！"
  const RestBody: string := "休息一下吧！"
  const BreakOverTitle: string := "休息结束！"
  const BreakOverBody: string := "准备开始新的番茄吧！"
  const SettingsSaved: Notice := Notice("设置已保存", "你的设置已成功保存！")

  /** The notice a completion shows, given the mode that ran out and the
      counter after the completion. A pomodoro suggests the long rest exactly
      when the counter reaches a multiple of four (JavaScript's `%` and Dafny's
      agree on whether a remainder by 4 is zero); a break always announces
      that it is over. */
  function CompletionNotice(m: Mode, count: int): (n: Notice)
    ensures n.title == PomodoroDoneTitle <==> m == Pomodoro
    ensures n.body == LongRestBody <==> m == Pomodoro && count % 4 == 0
    ensures n.body == RestBody <==> m == Pomodoro && count % 4 != 0
    ensures m != Pomodoro ==> n == Notice(BreakOverTitle, BreakOverBody)
  {
    if m == Pomodoro then
      Notice(PomodoroDoneTitle, if count % 4 == 0 then LongRestBody else RestBody)
    else
      Notice(BreakOverTitle, BreakOverBody)
  }

  /** `showNotification`: nothing when notifications are switched off. */
  function NotifyEffects(s: Settings, n: Notice): (e: seq<Effect>)
    ensures Notify(n) in e <==> s.notificationEnabled
    ensures forall x :: x in e ==> x == Notify(n)
    ensures |e| <= 1
  {
    if s.notificationEnabled then [Notify(n)] else []
  }

  /** `playSound`: nothing when sound is switched off. */
  function ToneEffects(s: Settings): (e: seq<Effect>)
    ensures Tone in e <==> s.soundEnabled
    ensures forall x :: x in e ==> x == Tone
    ensures |e| <= 1
  {
    if s.soundEnabled then [Tone] else []
  }

  /** What `pause` shows: the resume button and the paused label. */
  function PauseEffects(): (e: seq<Effect>)
    ensures |e| == 2
    ensures forall x :: x in e ==> x.ShowButton? || x.ShowModeText?
    ensures ShowButton(ResumeButtonText) in e && Last(e) == ShowModeText(Some(PausedText))
  {
    [ShowButton(ResumeButtonText), ShowModeText(Some(PausedText))]
  }

  /** What `resetTimer` and `switchMode` show after setting the time. */
  function ReadyEffects(m: Mode, timeLeft: int): (e: seq<Effect>)
    ensures forall x :: x in e ==> x.ShowButton? || x.ShowTime? || x.ShowModeText?
    ensures ShowButton(StartButtonText) in e && ShowTime(timeLeft) in e
    ensures Last(e) == ShowModeText(ModeName(m))
  {
    [ShowButton(StartButtonText), ShowTime(timeLeft), ShowModeText(ModeName(m))]
  }

  /** The effects of `complete()` in mode `m` under settings `s`, where `count`
      is the counter after the completion: pause, then for a pomodoro the new
      counter shown and saved, then the notice, the tone, and last the
      completion label. */
  function CompletionEffects(s: Settings, m: Mode, count: int): (e: seq<Effect>)
    ensures |e| > 2 && e[..2] == PauseEffects()
    ensures forall x :: x in e ==> !x.ShowTime?
  {
    PauseEffects() + AfterPauseEffects(s, m, count)
  }

  /** The part of `CompletionEffects` that follows the inner `pause`. */
  function AfterPauseEffects(s: Settings, m: Mode, count: int): (e: seq<Effect>)
    ensures |e| > 0 && Last(e) == ShowModeText(Some(CompleteText(m)))
    ensures ShowCount(count) in e <==> m == Pomodoro
    ensures forall x :: x in e && x.Save? ==> x == Save(s, count)
    ensures forall x :: x in e ==> !x.ShowTime? && !x.ShowButton?
  {
    (if m == Pomodoro then [ShowCount(count), Save(s, count)] else [])
    + NotifyEffects(s, CompletionNotice(m, count))
    + ToneEffects(s)
    + [ShowModeText(Some(CompleteText(m)))]
  }

  /** A completion plays the tone iff sound is enabled. */
  lemma CompletionTone(s: Settings, m: Mode, count: int)
    ensures Tone in CompletionEffects(s, m, count) <==> s.soundEnabled
  {
  }

  /** A completion shows a notice iff notifications are enabled, and the only
      notice it shows is the one its mode and counter select. */
  lemma CompletionNotifies(s: Settings, m: Mode, count: int, n: Notice)
    ensures Notify(n) in CompletionEffects(s, m, count)
        <==> s.notificationEnabled && n == CompletionNotice(m, count)
  {
  }

  /** A completion writes storage iff the mode was a pomodoro, and then it
      writes the current settings with the new counter. */
  lemma CompletionSaves(s: Settings, m: Mode, count: int)
    ensures (exists e :: e in CompletionEffects(s, m, count) && e.Save?) <==> m == Pomodoro
    ensures m == Pomodoro ==> Save(s, count) in CompletionEffects(s, m, count)
  {
    var e := CompletionEffects(s, m, count);
    if m == Pomodoro {
      assert e[3] == Save(s, count);
    } else {
      var n := NotifyEffects(s, CompletionNotice(m, count));
      var t := ToneEffects(s);
      assert e == PauseEffects() + n + t + [ShowModeText(Some(CompleteText(m)))];
      assert forall x :: x in e ==> x in PauseEffects() || x in n || x in t || x.ShowModeText?;
    }
  }

  /** The last label a completion leaves is the mode's completion label, not
      the paused label its inner `pause` showed first. */
  lemma CompletionLabelLast(s: Settings, m: Mode, count: int)
    ensures |CompletionEffects(s, m, count)| >= 3
    ensures CompletionEffects(s, m, count)[1] == ShowModeText(Some(PausedText))
    ensures Last(CompletionEffects(s, m, count)) == ShowModeText(Some(CompleteText(m)))
  {
  }

  function Last<T>(s: seq<T>): T
    requires |s| > 0
  {
    s[|s| - 1]
  }

  class PomodoroTimer {
    var settings: Settings
    var currentMode: Mode
    /** Seconds left; nothing keeps it from going below zero. */
    var timeLeft: int
    var isRunning: bool
    var pomodoroCount: int
    /** Every effect asked for so far, oldest first. */
    ghost var effects: seq<Effect>

    /** A fresh timer: default settings and the pomodoro mode, with the time
        taken from the default duration, then whatever storage holds merged in
        (app.js:3-17, 39-43, 54-65). The time is fixed before storage is read,
        so a stored pomodoro duration does not reach it. */
    constructor (savedSettings: Option<StoredSettings>, savedCount: Option<int>)
      ensures settings == Load(Defaults, savedSettings)
      ensures currentMode == Pomodoro && Canonical(currentMode) && !isRunning
      ensures timeLeft == Defaults.pomodoroTime * 60
      ensures pomodoroCount == savedCount.GetOr(0)
      ensures effects == (if savedCount.Some? then [ShowCount(savedCount.value)] else [])
                         + [ShowTime(timeLeft), ShowModeText(ModeName(Pomodoro))]
    {
      settings := Defaults;
      currentMode := Pomodoro;
      timeLeft := Defaults.pomodoroTime * 60;
      isRunning := false;
      pomodoroCount := 0;
      effects := [];
      new;
      LoadFromStorage(savedSettings, savedCount);
      effects := effects + [ShowTime(timeLeft), ShowModeText(ModeName(currentMode))];
    }

    /** `loadFromStorage`: a stored settings record overrides the current
        settings field by field; a stored counter replaces the counter. */
    method LoadFromStorage(savedSettings: Option<StoredSettings>, savedCount: Option<int>)
      modifies this
      ensures settings == Load(old(settings), savedSettings)
      ensures pomodoroCount == savedCount.GetOr(old(pomodoroCount))
      ensures currentMode == old(currentMode) && timeLeft == old(timeLeft) && isRunning == old(isRunning)
      ensures effects == old(effects) + (if savedCount.Some? then [ShowCount(savedCount.value)] else [])
    {
      if savedSettings.Some? {
        settings := Merge(settings, savedSettings.value);
      }
      if savedCount.Some? {
        pomodoroCount := savedCount.value;
        effects := effects + [ShowCount(pomodoroCount)];
      }
    }

    /** `toggleTimer`: pause a running timer, start a stopped one. */
    method Toggle()
      modifies this
      ensures isRunning == !old(isRunning)
      ensures settings == old(settings) && currentMode == old(currentMode)
      ensures timeLeft == old(timeLeft) && pomodoroCount == old(pomodoroCount)
      ensures effects == old(effects)
                         + if old(isRunning) then PauseEffects()
                           else [ShowButton(PauseButtonText), ShowModeText(Some(RunningText(currentMode)))]
    {
      if isRunning {
        Pause();
      } else {
        Start();
      }
    }

    /** `start`: the timer runs and ticks from now on. `app.js` itself does
        not check that it is stopped; its only caller does. */
    method Start()
      requires !isRunning
      modifies this
      ensures isRunning
      ensures settings == old(settings) && currentMode == old(currentMode)
      ensures timeLeft == old(timeLeft) && pomodoroCount == old(pomodoroCount)
      ensures effects == old(effects) + [ShowButton(PauseButtonText), ShowModeText(Some(RunningText(currentMode)))]
    {
      isRunning := true;
      effects := effects + [ShowButton(PauseButtonText), ShowModeText(Some(RunningText(currentMode)))];
    }

    /** One firing of the interval callback: one second less, shown, and a
        completion in the same step once the time is at or below zero. The
        time is not clamped, so a timer started at zero goes to -1 and
        completes again. */
    method Tick()
      requires isRunning
      modifies this
      ensures timeLeft == old(timeLeft) - 1
      ensures old(timeLeft) > 0 && timeLeft <= 0 ==> timeLeft == 0
      ensures isRunning <==> timeLeft > 0
      ensures settings == old(settings) && currentMode == old(currentMode)
      ensures pomodoroCount == old(pomodoroCount) + (if timeLeft <= 0 && currentMode == Pomodoro then 1 else 0)
      ensures effects == old(effects) + [ShowTime(timeLeft)]
                         + (if timeLeft <= 0 then CompletionEffects(settings, currentMode, pomodoroCount) else [])
    {
      timeLeft := timeLeft - 1;
      effects := effects + [ShowTime(timeLeft)];
      if timeLeft <= 0 {
        Complete();
      }
    }

    /** `pause`: the timer stops ticking; nothing but the running flag changes. */
    method Pause()
      modifies this
      ensures !isRunning
      ensures settings == old(settings) && currentMode == old(currentMode)
      ensures timeLeft == old(timeLeft) && pomodoroCount == old(pomodoroCount)
      ensures effects == old(effects) + PauseEffects()
    {
      isRunning := false;
      effects := effects + PauseEffects();
    }

    /** `resetTimer`: stopped, with the full duration of the current mode;
        mode, counter and settings stay. */
    method Reset()
      modifies this
      ensures !isRunning
      ensures timeLeft == ModeMinutes(settings, currentMode) * 60
      ensures settings == old(settings) && currentMode == old(currentMode)
      ensures pomodoroCount == old(pomodoroCount)
      ensures effects == old(effects) + PauseEffects() + ReadyEffects(currentMode, timeLeft)
    {
      Pause();
      timeLeft := ModeMinutes(settings, currentMode) * 60;
      effects := effects + ReadyEffects(currentMode, timeLeft);
    }

    /** `complete`: stopped; a pomodoro adds one to the counter and saves it;
        the mode and the time stay as they are, so nothing advances to the
        next mode. */
    method Complete()
      modifies this
      ensures !isRunning
      ensures pomodoroCount == old(pomodoroCount) + (if currentMode == Pomodoro then 1 else 0)
      ensures settings == old(settings) && currentMode == old(currentMode) && timeLeft == old(timeLeft)
      ensures effects == old(effects) + CompletionEffects(settings, currentMode, pomodoroCount)
    {
      Pause();
      if currentMode == Pomodoro {
        pomodoroCount := pomodoroCount + 1;
      }
      effects := effects + AfterPauseEffects(settings, currentMode, pomodoroCount);
    }

    /** `switchMode`: `confirmed` is the user's answer to the prompt a running
        timer asks first. Declined, nothing changes. Otherwise the timer is
        stopped in the selected mode with that mode's full duration, also when
        the mode is the current one. */
    method SwitchMode(tag: string, confirmed: bool)
      modifies this
      ensures old(isRunning) && !confirmed ==>
                isRunning && currentMode == old(currentMode) && timeLeft == old(timeLeft)
                && settings == old(settings) && pomodoroCount == old(pomodoroCount) && effects == old(effects)
      ensures !old(isRunning) || confirmed ==>
                !isRunning && currentMode == ModeOf(tag) && Canonical(currentMode)
                && timeLeft == ModeMinutes(settings, currentMode) * 60
                && settings == old(settings) && pomodoroCount == old(pomodoroCount)
                && effects == old(effects) + (if old(isRunning) then PauseEffects() else [])
                                           + ReadyEffects(currentMode, timeLeft)
    {
      if isRunning {
        if !confirmed {
          return;
        }
        Pause();
      }
      currentMode := ModeOf(tag);
      timeLeft := ModeMinutes(settings, currentMode) * 60;
      effects := effects + ReadyEffects(currentMode, timeLeft);
    }

    /** `saveSettings`: all five settings replaced by the form's values and
        saved; a stopped timer takes the new duration of its mode at once, a
        running one keeps its time. */
    method SaveSettings(form: Settings)
      modifies this
      ensures settings == form
      ensures isRunning == old(isRunning) && currentMode == old(currentMode)
      ensures pomodoroCount == old(pomodoroCount)
      ensures old(isRunning) ==> timeLeft == old(timeLeft)
      ensures !old(isRunning) ==> timeLeft == ModeMinutes(form, currentMode) * 60
      ensures effects == old(effects) + [Save(form, pomodoroCount)]
                         + (if isRunning then [] else [ShowTime(timeLeft)])
                         + NotifyEffects(form, SettingsSaved)
    {
      settings := form;
      effects := effects + [Save(settings, pomodoroCount)];
      if !isRunning {
        timeLeft := ModeMinutes(settings, currentMode) * 60;
        effects := effects + [ShowTime(timeLeft)];
      }
      effects := effects + NotifyEffects(settings, SettingsSaved);
    }
  }
}
