/** Whole sessions with the timer, driven the way the page drives it: the
    start/pause button, one `Tick` per elapsed second, the mode buttons and
    the settings form. Each method builds its own timer and reports what the
    user ends up seeing. */
module Sessions {
  import opened Wrappers
  import opened Preferences
  import opened Modes
  import opened Display
  import opened Timer

  /** The times shown by `n` ticks counting down from `from` seconds. */
  function Countdown(from: int, n: nat): (e: seq<Effect>)
    ensures |e| == n
  {
    if n == 0 then [] else Countdown(from, n - 1) + [ShowTime(from - n)]
  }

  /** The `i`-th tick of a countdown shows one second less than the one before:
      no second is skipped or shown twice. */
  lemma {:induction false} CountdownAt(from: int, n: nat, i: nat)
    requires i < n
    ensures Countdown(from, n)[i] == ShowTime(from - 1 - i)
  {
    if i < n - 1 {
      CountdownAt(from, n - 1, i);
    }
  }

  /** A countdown shows times and nothing else, and a full countdown ends by
      showing zero. */
  lemma {:induction false} CountdownOnlyTimes(from: int, n: nat)
    ensures forall e :: e in Countdown(from, n) ==> e.ShowTime?
    ensures n == from > 0 ==> ShowTime(0) in Countdown(from, n)
  {
    if n > 0 {
      CountdownOnlyTimes(from, n - 1);
    }
  }

  /** Lets a running timer tick down to its last second: every tick before
      that one shows the time and completes nothing. */
  method RunToLastSecond(t: PomodoroTimer) returns (ticks: nat)
    requires t.isRunning && t.timeLeft > 0
    modifies t
    ensures ticks == old(t.timeLeft) - 1
    ensures t.isRunning && t.timeLeft == 1
    ensures t.settings == old(t.settings) && t.currentMode == old(t.currentMode)
    ensures t.pomodoroCount == old(t.pomodoroCount)
    ensures t.effects == old(t.effects) + Countdown(old(t.timeLeft), ticks)
  {
    ghost var from, base := t.timeLeft, t.effects;
    ticks := 0;
    while t.timeLeft > 1
      invariant t.isRunning && t.timeLeft >= 1
      invariant ticks + t.timeLeft == from
      invariant t.settings == old(t.settings) && t.currentMode == old(t.currentMode)
      invariant t.pomodoroCount == old(t.pomodoroCount)
      invariant t.effects == base + Countdown(from, ticks)
      decreases t.timeLeft
    {
      ghost var before := t.effects;
      t.Tick();
      assert t.effects == before + [ShowTime(t.timeLeft)];
      ticks := ticks + 1;
      assert Countdown(from, ticks) == Countdown(from, ticks - 1) + [ShowTime(t.timeLeft)];
    }
  }

  /** Lets a running timer tick until it stops: exactly as many ticks as it
      had seconds left, each second shown down to zero, then one completion. */
  method RunUntilStopped(t: PomodoroTimer) returns (ticks: nat)
    requires t.isRunning && t.timeLeft > 0
    modifies t
    ensures ticks == old(t.timeLeft)
    ensures !t.isRunning && t.timeLeft == 0
    ensures t.settings == old(t.settings) && t.currentMode == old(t.currentMode)
    ensures t.pomodoroCount == old(t.pomodoroCount) + (if t.currentMode == Pomodoro then 1 else 0)
    ensures t.effects == old(t.effects) + Countdown(old(t.timeLeft), ticks)
                         + CompletionEffects(t.settings, t.currentMode, t.pomodoroCount)
  {
    ghost var from, base := t.timeLeft, t.effects;
    ticks := RunToLastSecond(t);
    ghost var counted := Countdown(from, ticks);
    t.Tick();
    ghost var done := CompletionEffects(t.settings, t.currentMode, t.pomodoroCount);
    assert t.effects == base + counted + [ShowTime(0)] + done;
    ticks := ticks + 1;
    assert Countdown(from, ticks) == counted + [ShowTime(0)];
  }

  /** The trace of a default pomodoro run from `from` seconds to the end, after
      a `prefix` with no notice in it: zero is shown, the plain rest notice and
      the tone follow, and the long-rest notice does not appear. */
  lemma DefaultPomodoroTrace(prefix: seq<Effect>, from: nat)
    requires from > 0
    requires forall e :: e in prefix ==> !e.Notify?
    ensures ShowTime(0) in prefix + Countdown(from, from) + CompletionEffects(Defaults, Pomodoro, 1)
    ensures Notify(Notice(PomodoroDoneTitle, RestBody))
            in prefix + Countdown(from, from) + CompletionEffects(Defaults, Pomodoro, 1)
    ensures Notify(Notice(PomodoroDoneTitle, LongRestBody))
            !in prefix + Countdown(from, from) + CompletionEffects(Defaults, Pomodoro, 1)
    ensures Tone in prefix + Countdown(from, from) + CompletionEffects(Defaults, Pomodoro, 1)
  {
    var countdown := Countdown(from, from);
    var done := CompletionEffects(Defaults, Pomodoro, 1);
    CountdownOnlyTimes(from, from);
    CompletionTone(Defaults, Pomodoro, 1);
    assert CompletionNotice(Pomodoro, 1) == Notice(PomodoroDoneTitle, RestBody);
    CompletionNotifies(Defaults, Pomodoro, 1, Notice(PomodoroDoneTitle, RestBody));
    CompletionNotifies(Defaults, Pomodoro, 1, Notice(PomodoroDoneTitle, LongRestBody));
    assert Notify(Notice(PomodoroDoneTitle, LongRestBody)) !in countdown;
  }

  /** A fresh timer with nothing stored, started and left to run: 1500 ticks,
      the last one showing `00:00`, one pomodoro counted, the plain rest notice
      and the tone. */
  method FullDefaultPomodoro() returns (ticks: nat, count: int, shown: string, ghost trace: seq<Effect>)
    ensures ticks == 1500 && count == 1 && shown == "00:00"
    ensures ShowTime(0) in trace
    ensures Notify(Notice(PomodoroDoneTitle, RestBody)) in trace
    ensures Notify(Notice(PomodoroDoneTitle, LongRestBody)) !in trace
    ensures Tone in trace
  {
    var t := new PomodoroTimer(None, None);
    t.Toggle();
    ghost var started, from := t.effects, t.timeLeft;
    ticks := RunUntilStopped(t);
    count := t.pomodoroCount;
    shown := FormatTime(t.timeLeft);
    trace := t.effects;
    FormatZero();
    DefaultPomodoroTrace(started, from);
  }

  /** Starting again after a completion, without a reset, runs from zero: the
      next tick shows `-1:-1` and counts the same pomodoro a second time. */
  method RestartWithoutReset() returns (count: int, left: int, shown: string, running: bool)
    ensures count == 2 && left == -1 && shown == "-1:-1" && !running
  {
    var t := new PomodoroTimer(None, None);
    t.Toggle();
    var _ := RunUntilStopped(t);
    t.Toggle();
    t.Tick();
    count, left, running := t.pomodoroCount, t.timeLeft, t.isRunning;
    shown := FormatTime(left);
    FormatMinusOne();
  }

  /** Pressing the button twice with no tick in between leaves the time as it was. */
  method StartThenPause() returns (left: int, running: bool)
    ensures left == 1500 && !running
  {
    var t := new PomodoroTimer(None, None);
    t.Toggle();
    t.Toggle();
    left, running := t.timeLeft, t.isRunning;
  }

  /** A one-minute pomodoro saved while stopped sets 60 seconds at once; saved
      while running it leaves the 1500 seconds until the next reset. */
  method EditDuration() returns (idleLeft: int, runningLeft: int, afterReset: int)
    ensures idleLeft == 60 && runningLeft == 1500 && afterReset == 60
  {
    var form := Defaults.(pomodoroTime := 1);
    var idle := new PomodoroTimer(None, None);
    idle.SaveSettings(form);
    idleLeft := idle.timeLeft;
    var busy := new PomodoroTimer(None, None);
    busy.Toggle();
    busy.SaveSettings(form);
    runningLeft := busy.timeLeft;
    busy.Reset();
    afterReset := busy.timeLeft;
  }

  /** Switching a running pomodoro to the short break: declined, it keeps
      running where it was; confirmed, it stops in the short break with its
      full five minutes. */
  method SwitchWhileRunning() returns (declined: (Mode, bool, int), confirmed: (Mode, bool, int))
    ensures declined == (Pomodoro, true, 1499)
    ensures confirmed == (ShortBreak, false, 300)
  {
    var t := new PomodoroTimer(None, None);
    t.Toggle();
    t.Tick();
    t.SwitchMode(ShortBreakTag, false);
    declined := (t.currentMode, t.isRunning, t.timeLeft);
    t.SwitchMode(ShortBreakTag, true);
    confirmed := (t.currentMode, t.isRunning, t.timeLeft);
  }

  /** What one timer saves, the next one loads: a timer with counter `count`
      saves the settings `s`, and a timer built from that stored record and
      counter gets the settings and the counter back as they were. */
  method Reload(s: Settings, count: int) returns (restored: Settings, restoredCount: int)
    ensures restored == s && restoredCount == count
  {
    var first := new PomodoroTimer(None, Some(count));
    first.SaveSettings(s);
    assert Save(s, count) in first.effects;
    var second := new PomodoroTimer(Some(Serialize(first.settings)), Some(first.pomodoroCount));
    LoadSaved(Defaults, s);
    restored, restoredCount := second.settings, second.pomodoroCount;
  }
}
