/**
 * The page's `PomodoroTimer` object: its fields and the handlers that update
 * them in place, each proved to perform the step `TimerSpec` defines.
 */
module Timer {
  import opened Wrappers
  import opened JsText
  import opened TimeEntry
  import TimerSpec

  class PomodoroTimer {
    var currentMode: string
    var timeLeft: int
    var totalSeconds: int
    var initialSeconds: int
    var isRunning: bool
    var currentSessionId: Option<int>
    var isEditing: bool
    var pomodoroMinutes: int
    var shortBreakMinutes: int
    var longBreakMinutes: int
    /** The value of the edit field. */
    var editText: string
    /** The requests posted to the server so far. */
    var requests: seq<TimerSpec.Request>

    /** The fields as one value. */
    function State(): TimerSpec.TimerState
      reads this
    {
      TimerSpec.TimerState(currentMode, timeLeft, totalSeconds, initialSeconds, isRunning, currentSessionId,
        isEditing, pomodoroMinutes, shortBreakMinutes, longBreakMinutes, editText, requests)
    }

    predicate Valid()
      reads this
    {
      TimerSpec.Valid(State())
    }

    constructor ()
      ensures State() == TimerSpec.Initial && Valid()
    {
      currentMode := "pomodoro";
      timeLeft := 25 * 60;
      isRunning := false;
      currentSessionId := None;
      isEditing := false;
      pomodoroMinutes := 25;
      shortBreakMinutes := 5;
      longBreakMinutes := 15;
      totalSeconds := 25 * 60;
      initialSeconds := totalSeconds;
      editText := "";
      requests := [];
    }

    method StartEditing()
      modifies this
      ensures old(Valid()) ==> Valid()
      ensures State() == TimerSpec.StartEditing(old(State()))
    {
      if isRunning {
        return;
      }
      isEditing := true;
      var minutes := timeLeft / 60;
      var seconds := Rem(timeLeft, 60);
      editText := TwoDigits(minutes) + ":" + TwoDigits(seconds);
    }

    method FinishEditing()
      modifies this
      ensures old(Valid()) ==> Valid()
      ensures State() == TimerSpec.FinishEditing(old(State()))
    {
      if !isEditing {
        return;
      }
      var value := Trim(editText);
      var entry := ParseEntry(value);
      assert EnteredSeconds(editText) == if entry.Some? then Some(EntrySeconds(entry.value)) else None;
      if entry.Some? {
        var minutes := OrElse(ParseInt(entry.value.minutes), 0);
        var seconds := OrElse(ParseInt(entry.value.seconds), 0);
        SetTime(minutes, seconds);
      }
      CancelEditing();
    }

    /** The clamping that ends the matched branch of `finishEditing`: the result becomes the time left, the total and the initial seconds. */
    method SetTime(m: int, s: int)
      modifies this
      ensures old(Valid()) ==> Valid()
      ensures State() == old(State()).(timeLeft := ClampedSeconds(m, s),
        totalSeconds := ClampedSeconds(m, s), initialSeconds := ClampedSeconds(m, s))
    {
      var minutes, seconds := m, s;
      if minutes < 0 { minutes := 0; }
      if minutes > 99 { minutes := 99; }
      if seconds < 0 { seconds := 0; }
      if seconds > 59 { seconds := 59; }
      timeLeft := minutes * 60 + seconds;
      if timeLeft == 0 { timeLeft := 60; }
      totalSeconds := timeLeft;
      initialSeconds := totalSeconds;
    }

    method CancelEditing()
      modifies this
      ensures old(Valid()) ==> Valid()
      ensures State() == TimerSpec.CancelEditing(old(State()))
    {
      isEditing := false;
    }

    /** The `input` listener: the field is rewritten as it is typed. */
    method Input(raw: string)
      modifies this
      ensures old(Valid()) ==> Valid()
      ensures State() == TimerSpec.Input(old(State()), raw)
    {
      editText := FormatInput(raw);
    }

    /** The `click` listener of the time display. */
    method ClickTime()
      modifies this
      ensures old(Valid()) ==> Valid()
      ensures State() == TimerSpec.ClickTime(old(State()))
    {
      if !isRunning && !isEditing {
        StartEditing();
      }
    }

    /** Sets the time left by the `switch` on a mode name, then the total and initial seconds from it. */
    method LoadMode(mode: string)
      modifies this
      ensures old(Valid()) ==> Valid()
      ensures State() == TimerSpec.Load(old(State()), mode)
    {
      if mode == "pomodoro" {
        timeLeft := pomodoroMinutes * 60;
      } else if mode == "short_break" {
        timeLeft := shortBreakMinutes * 60;
      } else if mode == "long_break" {
        timeLeft := longBreakMinutes * 60;
      }
      totalSeconds := timeLeft;
      initialSeconds := totalSeconds;
    }

    method SwitchMode(mode: string)
      modifies this
      ensures old(Valid()) ==> Valid()
      ensures State() == TimerSpec.SwitchMode(old(State()), mode)
    {
      if isRunning {
        Pause();
      }
      if isEditing {
        CancelEditing();
      }
      currentMode := mode;
      LoadMode(mode);
    }

    method Pause()
      modifies this
      ensures old(Valid()) ==> Valid()
      ensures State() == TimerSpec.Pause(old(State()))
    {
      if !isRunning {
        return;
      }
      isRunning := false;
    }

    method Reset()
      modifies this
      ensures old(Valid()) ==> Valid()
      ensures State() == TimerSpec.Reset(old(State()))
    {
      Pause();
      if isEditing {
        CancelEditing();
      }
      LoadMode(currentMode);
      currentSessionId := None;
    }

    /** `start`, with the answer of `/timer/start` as `reply`. */
    method Start(reply: TimerSpec.StartReply)
      modifies this
      ensures old(Valid()) ==> Valid()
      ensures State() == TimerSpec.Start(old(State()), reply)
    {
      if isRunning {
        return;
      }
      if isEditing {
        FinishEditing();
      }
      isRunning := true;
      if currentMode == "pomodoro" && !TimerSpec.Truthy(currentSessionId) {
        requests := requests + [TimerSpec.StartSession(currentMode)];
        if reply.Replied? {
          currentSessionId := reply.sessionId;
        }
      }
    }

    method Complete()
      modifies this
      ensures old(Valid()) ==> Valid()
      ensures State() == TimerSpec.Complete(old(State()))
    {
      Pause();
      if currentMode == "pomodoro" && TimerSpec.Truthy(currentSessionId) {
        var durationMinutes := initialSeconds as real / 60.0;
        requests := requests + [TimerSpec.EndSession(currentSessionId.value, durationMinutes)];
      }
      Reset();
    }

    /** The interval callback, which exists only while the timer runs. */
    method Tick()
      requires isRunning
      modifies this
      ensures old(Valid()) ==> Valid()
      ensures State() == TimerSpec.Tick(old(State()))
    {
      timeLeft := timeLeft - 1;
      if timeLeft <= 0 {
        Complete();
      }
    }

    /** The `change` listener of the minutes field of preset `p`, whose text is `value`. */
    method ChangeMinutes(p: TimerSpec.Preset, value: string)
      modifies this
      ensures old(Valid()) ==> Valid()
      ensures State() == TimerSpec.ChangeMinutes(old(State()), p, value)
    {
      var minutes := OrElse(ParseInt(value), p.DefaultMinutes());
      ghost var u := State().WithMinutes(p, minutes);
      match p {
        case Pomodoro => pomodoroMinutes := minutes;
        case ShortBreak => shortBreakMinutes := minutes;
        case LongBreak => longBreakMinutes := minutes;
      }
      assert State() == u;
      if currentMode == p.Name() && !isRunning {
        timeLeft := minutes * 60;
        totalSeconds := timeLeft;
        initialSeconds := totalSeconds;
      }
    }
  }
}
