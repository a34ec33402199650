/**
 * The state of the page's `PomodoroTimer` and what each of its handlers does
 * to it, as functions from the state before to the state after. The server
 * round trips of `start` and `complete` are taken as one step each: the
 * request sent is appended to `requests` and the reply is a parameter.
 */
module TimerSpec {
  import opened Wrappers
  import opened JsText
  import opened TimeEntry
  import opened Decimal

  /** A request the timer posts: `/timer/start` with a session type, `/timer/end` with an id and the minutes. */
  datatype Request = StartSession(sessionType: string) | EndSession(sessionId: int, durationMinutes: real)

  /** How `/timer/start` answered: no usable answer (a network error or a status that is not ok), or the `sessionId` of the JSON body, which may be missing. */
  datatype StartReply = Failed | Replied(sessionId: Option<int>)

  /** The three modes with a configured length. */
  datatype Preset = Pomodoro | ShortBreak | LongBreak {
    /** The mode's name, as the mode buttons and `currentMode` spell it. */
    function Name(): string {
      match this
      case Pomodoro => "pomodoro"
      case ShortBreak => "short_break"
      case LongBreak => "long_break"
    }

    /** The minutes a settings field falls back to. */
    function DefaultMinutes(): int {
      match this
      case Pomodoro => 25
      case ShortBreak => 5
      case LongBreak => 15
    }
  }

  /** The preset a mode name selects, if any. */
  function PresetOf(mode: string): (p: Option<Preset>)
    ensures p.Some? ==> p.value.Name() == mode
    ensures forall q: Preset :: q.Name() == mode ==> p == Some(q)
  {
    if mode == "pomodoro" then Some(Pomodoro)
    else if mode == "short_break" then Some(ShortBreak)
    else if mode == "long_break" then Some(LongBreak)
    else None
  }

  /**
   * The fields of a `PomodoroTimer`. The interval handle is set exactly
   * while `isRunning` holds, so it is not kept apart; `editText` is the
   * value of the edit field.
   */
  datatype TimerState = TimerState(
    currentMode: string,
    timeLeft: int,
    totalSeconds: int,
    initialSeconds: int,
    isRunning: bool,
    currentSessionId: Option<int>,
    isEditing: bool,
    pomodoroMinutes: int,
    shortBreakMinutes: int,
    longBreakMinutes: int,
    editText: string,
    requests: seq<Request>)
  {
    /** The configured minutes of a preset. */
    function Minutes(p: Preset): int {
      match p
      case Pomodoro => pomodoroMinutes
      case ShortBreak => shortBreakMinutes
      case LongBreak => longBreakMinutes
    }

    /** The state with the minutes of `p` set to `m`. */
    function WithMinutes(p: Preset, m: int): (r: TimerState)
      ensures r.Minutes(p) == m
      ensures forall q: Preset :: q != p ==> r.Minutes(q) == Minutes(q)
    {
      match p
      case Pomodoro => this.(pomodoroMinutes := m)
      case ShortBreak => this.(shortBreakMinutes := m)
      case LongBreak => this.(longBreakMinutes := m)
    }
  }

  /** A session id is truthy when it is present and not 0. */
  predicate Truthy(id: Option<int>) {
    id.Some? && id.value != 0
  }

  /**
   * What every handler keeps: the total and initial seconds agree, the timer
   * is never edited while it runs, and no mode is configured to 0 minutes.
   */
  predicate Valid(s: TimerState) {
    s.totalSeconds == s.initialSeconds &&
    !(s.isRunning && s.isEditing) &&
    s.pomodoroMinutes != 0 && s.shortBreakMinutes != 0 && s.longBreakMinutes != 0
  }

  /** The state the constructor builds: a stopped 25-minute pomodoro. */
  const Initial := TimerState("pomodoro", 25 * 60, 25 * 60, 25 * 60, false, None, false, 25, 5, 15, "", [])

  lemma InitialValid()
    ensures Valid(Initial) && Initial.timeLeft == 1500 && Initial.Minutes(Pomodoro) == 25
  {
  }

  /** The `switch` on a mode name: its preset's minutes in seconds, or the time left for any other name. */
  function ModeSeconds(s: TimerState, mode: string): int {
    match PresetOf(mode)
    case None => s.timeLeft
    case Some(p) => s.Minutes(p) * 60
  }

  /** The `switch` followed by setting the total and initial seconds to the time left. */
  function Load(s: TimerState, mode: string): TimerState {
    var t := ModeSeconds(s, mode);
    s.(timeLeft := t, totalSeconds := t, initialSeconds := t)
  }

  /** `startEditing`: the field shows the time left as `mm:ss`. */
  function StartEditing(s: TimerState): (r: TimerState)
    ensures Valid(s) ==> Valid(r)
  {
    if s.isRunning then s else s.(isEditing := true, editText := EditText(s.timeLeft))
  }

  /** `cancelEditing`. */
  function CancelEditing(s: TimerState): (r: TimerState)
    ensures Valid(s) ==> Valid(r)
    ensures !r.isEditing
  {
    s.(isEditing := false)
  }

  /** `finishEditing`: an accepted entry becomes the time left, the total and the initial seconds. */
  function FinishEditing(s: TimerState): (r: TimerState)
    ensures Valid(s) ==> Valid(r)
    ensures !r.isEditing
  {
    if !s.isEditing then s
    else
      CancelEditing(
        match EnteredSeconds(s.editText)
        case None => s
        case Some(t) => s.(timeLeft := t, totalSeconds := t, initialSeconds := t))
  }

  /** The `input` listener of the edit field. */
  function Input(s: TimerState, raw: string): (r: TimerState)
    ensures Valid(s) ==> Valid(r)
  {
    s.(editText := FormatInput(raw))
  }

  /** The `click` listener of the time display. */
  function ClickTime(s: TimerState): (r: TimerState)
    ensures Valid(s) ==> Valid(r)
  {
    if !s.isRunning && !s.isEditing then StartEditing(s) else s
  }

  /** `pause`. */
  function Pause(s: TimerState): (r: TimerState)
    ensures Valid(s) ==> Valid(r)
    ensures !r.isRunning
  {
    if !s.isRunning then s else s.(isRunning := false)
  }

  /** `switchMode(mode)`. */
  function SwitchMode(s: TimerState, mode: string): (r: TimerState)
    ensures Valid(s) ==> Valid(r)
  {
    var p := if s.isRunning then Pause(s) else s;
    var c := if p.isEditing then CancelEditing(p) else p;
    Load(c.(currentMode := mode), mode)
  }

  /** `reset`: the current mode's length again, and no session. */
  function Reset(s: TimerState): (r: TimerState)
    ensures Valid(s) ==> Valid(r)
  {
    var p := Pause(s);
    var c := if p.isEditing then CancelEditing(p) else p;
    Load(c, c.currentMode).(currentSessionId := None)
  }

  /**
   * `start`: an entry being edited is finished first; a pomodoro without a
   * session asks the server for one and keeps the id it is given.
   */
  function Start(s: TimerState, reply: StartReply): (r: TimerState)
    ensures Valid(s) ==> Valid(r)
  {
    if s.isRunning then s
    else
      var f := if s.isEditing then FinishEditing(s) else s;
      var g := f.(isRunning := true);
      if g.currentMode == "pomodoro" && !Truthy(g.currentSessionId) then
        var sent := g.(requests := g.requests + [StartSession(g.currentMode)]);
        match reply
        case Failed => sent
        case Replied(id) => sent.(currentSessionId := id)
      else g
  }

  /** `complete`: stop, end the pomodoro's session on the server if there is one, and reset. */
  function Complete(s: TimerState): (r: TimerState)
    ensures Valid(s) ==> Valid(r)
  {
    var p := Pause(s);
    var e :=
      if p.currentMode == "pomodoro" && Truthy(p.currentSessionId) then
        p.(requests := p.requests + [EndSession(p.currentSessionId.value, p.initialSeconds as real / 60.0)])
      else p;
    Reset(e)
  }

  /** One call of the interval callback: a second less, and completion once none is left. */
  function Tick(s: TimerState): (r: TimerState)
    requires s.isRunning
    ensures Valid(s) ==> Valid(r)
  {
    var d := s.(timeLeft := s.timeLeft - 1);
    if d.timeLeft <= 0 then Complete(d) else d
  }

  /** The `change` listener of the minutes field of `p`. */
  function ChangeMinutes(s: TimerState, p: Preset, value: string): (r: TimerState)
    ensures Valid(s) ==> Valid(r)
  {
    var m := OrElse(ParseInt(value), p.DefaultMinutes());
    var u := s.WithMinutes(p, m);
    if u.currentMode == p.Name() && !u.isRunning then
      u.(timeLeft := m * 60, totalSeconds := m * 60, initialSeconds := m * 60)
    else u
  }

  /** The state after `n` calls of the interval callback, which stop once the timer does. */
  function Run(s: TimerState, n: nat): TimerState {
    if n == 0 then s
    else
      var p := Run(s, n - 1);
      if p.isRunning then Tick(p) else p
  }

  // ---- Properties ----

  /** An entry of an accepted shape sets the time, the total and the initial seconds to its reading, which is 1 to 5999 seconds. */
  lemma FinishEditingAccepts(s: TimerState, f: Fields)
    requires s.isEditing
    requires ColonEntry(Trim(s.editText), f) || PlainEntry(Trim(s.editText), f)
    ensures FinishEditing(s) == s.(isEditing := false, timeLeft := EntrySeconds(f), totalSeconds := EntrySeconds(f), initialSeconds := EntrySeconds(f))
    ensures 1 <= FinishEditing(s).timeLeft <= 5999
  {
    ParseEntryComplete(Trim(s.editText), f);
  }

  /** Any other entry only ends the editing. */
  lemma FinishEditingRejects(s: TimerState)
    requires s.isEditing
    requires forall f :: !ColonEntry(Trim(s.editText), f) && !PlainEntry(Trim(s.editText), f)
    ensures FinishEditing(s) == s.(isEditing := false)
  {
    ParseEntryRejects(Trim(s.editText));
  }

  /** Editing a stopped timer of 1 to 5999 seconds and confirming the text it shows keeps that time, and makes it the total. */
  lemma EditRoundTrip(s: TimerState)
    requires !s.isRunning && 1 <= s.timeLeft <= 5999
    ensures FinishEditing(StartEditing(s)) == s.(isEditing := false, editText := EditText(s.timeLeft), totalSeconds := s.timeLeft, initialSeconds := s.timeLeft)
  {
    EditTextRoundTrip(s.timeLeft);
  }

  /** From 100 minutes on, or below zero, the text shown is rejected and the times stay as they were. */
  lemma EditOutOfRange(s: TimerState)
    requires !s.isRunning && (s.timeLeft >= 6000 || s.timeLeft < 0)
    ensures FinishEditing(StartEditing(s)) == s.(isEditing := false, editText := EditText(s.timeLeft))
  {
    if s.timeLeft >= 6000 {
      EditTextTooLong(s.timeLeft);
    } else {
      EditTextNegative(s.timeLeft);
    }
  }

  /** A time of zero is shown as "00:00" and comes back as one minute. */
  lemma EditZero(s: TimerState)
    requires !s.isRunning && s.timeLeft == 0
    ensures FinishEditing(StartEditing(s)) == s.(isEditing := false, editText := "00:00", timeLeft := 60, totalSeconds := 60, initialSeconds := 60)
  {
    EditTextZero(s.timeLeft);
  }

  /** `pause` stops the timer, does nothing to a stopped one, and a second `pause` changes nothing. */
  lemma PauseIdempotent(s: TimerState)
    ensures !Pause(s).isRunning
    ensures !s.isRunning ==> Pause(s) == s
    ensures Pause(Pause(s)) == Pause(s)
  {
  }

  /** `start` does nothing to a running timer; otherwise it runs, not in editing, with the settings unchanged. */
  lemma StartRuns(s: TimerState, reply: StartReply)
    requires Valid(s)
    ensures s.isRunning ==> Start(s, reply) == s
    ensures Start(s, reply).isRunning && !Start(s, reply).isEditing
    ensures Start(s, reply).currentMode == s.currentMode
    ensures forall p: Preset :: Start(s, reply).Minutes(p) == s.Minutes(p)
  {
    if !s.isRunning {
      FinishEditingKeeps(s);
    }
  }

  /** `finishEditing` changes only the time fields and the editing flag. */
  lemma FinishEditingKeeps(s: TimerState)
    ensures var r := FinishEditing(s);
      r.currentMode == s.currentMode && r.isRunning == s.isRunning && r.currentSessionId == s.currentSessionId &&
      r.pomodoroMinutes == s.pomodoroMinutes && r.shortBreakMinutes == s.shortBreakMinutes &&
      r.longBreakMinutes == s.longBreakMinutes && r.editText == s.editText && r.requests == s.requests
  {
  }

  /**
   * A pomodoro started without a session asks for one, exactly once: after
   * a truthy id comes back, pausing and starting again asks for nothing more.
   */
  lemma StartOncePerSession(s: TimerState, id: int, later: StartReply)
    requires !s.isRunning && s.currentMode == "pomodoro" && !Truthy(s.currentSessionId) && id != 0
    ensures Start(s, Replied(Some(id))).requests == s.requests + [StartSession("pomodoro")]
    ensures Start(s, Replied(Some(id))).currentSessionId == Some(id)
    ensures Start(Pause(Start(s, Replied(Some(id)))), later).requests == Start(s, Replied(Some(id))).requests
  {
  }

  /** After `reset` the next pomodoro start asks the server for a new session. */
  lemma ResetStartsNewSession(s: TimerState, reply: StartReply)
    requires s.currentMode == "pomodoro"
    ensures Start(Reset(s), reply).requests == s.requests + [StartSession("pomodoro")]
  {
  }

  /** `switchMode`: stopped, not editing, in the new mode, with its preset length or the old time for an unknown mode; the session id is kept. */
  lemma SwitchModeResult(s: TimerState, mode: string)
    ensures var r := SwitchMode(s, mode);
      r.currentMode == mode && !r.isRunning && !r.isEditing &&
      r.totalSeconds == r.timeLeft && r.initialSeconds == r.timeLeft &&
      (forall p: Preset :: p.Name() == mode ==> r.timeLeft == s.Minutes(p) * 60) &&
      (PresetOf(mode).None? ==> r.timeLeft == s.timeLeft) &&
      r.currentSessionId == s.currentSessionId && r.requests == s.requests &&
      (forall p: Preset :: r.Minutes(p) == s.Minutes(p))
  {
  }

  /** `reset`: stopped, not editing, without a session, with the current mode's length. */
  lemma ResetResult(s: TimerState)
    ensures var r := Reset(s);
      r.currentMode == s.currentMode && !r.isRunning && !r.isEditing && r.currentSessionId == None &&
      r.timeLeft == ModeSeconds(s, s.currentMode) &&
      r.totalSeconds == r.timeLeft && r.initialSeconds == r.timeLeft &&
      r.requests == s.requests && (forall p: Preset :: r.Minutes(p) == s.Minutes(p))
  {
  }

  /** While more than one second is left, a tick only takes one second off. */
  lemma TickDecrements(s: TimerState)
    requires s.isRunning && s.timeLeft > 1
    ensures Tick(s) == s.(timeLeft := s.timeLeft - 1)
  {
  }

  /**
   * The tick that reaches zero completes: the timer stops and resets to the
   * mode's length, and a pomodoro with a session reports it as ended after
   * the initial seconds in minutes.
   */
  lemma TickCompletes(s: TimerState)
    requires s.isRunning && s.timeLeft <= 1
    ensures var r := Tick(s);
      !r.isRunning && r.currentSessionId == None && r.currentMode == s.currentMode &&
      r.timeLeft == ModeSeconds(s.(timeLeft := s.timeLeft - 1), s.currentMode) &&
      r.totalSeconds == r.timeLeft && r.initialSeconds == r.timeLeft &&
      r.requests == s.requests +
        (if s.currentMode == "pomodoro" && Truthy(s.currentSessionId)
         then [EndSession(s.currentSessionId.value, s.initialSeconds as real / 60.0)] else [])
  {
  }

  /** Fewer ticks than seconds left count the time down one by one. */
  lemma {:induction false} RunCountsDown(s: TimerState, k: nat)
    requires s.isRunning && k < s.timeLeft
    ensures Run(s, k) == s.(timeLeft := s.timeLeft - k)
  {
    if k > 0 {
      RunCountsDown(s, k - 1);
      TickDecrements(Run(s, k - 1));
    }
  }

  /** A running timer with `t` seconds left completes on exactly the `t`-th tick, and later ticks change nothing. */
  lemma {:induction false} RunCompletes(s: TimerState, n: nat)
    requires s.isRunning && 1 <= s.timeLeft <= n
    ensures Run(s, n) == Tick(s.(timeLeft := 1))
    ensures !Run(s, n).isRunning
    ensures forall k: nat :: k < s.timeLeft ==> Run(s, k).isRunning
  {
    if n == s.timeLeft {
      RunCountsDown(s, n - 1);
    } else {
      RunCompletes(s, n - 1);
    }
    forall k: nat | k < s.timeLeft
      ensures Run(s, k).isRunning
    {
      RunCountsDown(s, k);
    }
  }

  /** A settings change gives the mode the typed minutes, or its default for text that reads as no number or 0; the time follows only for the current, stopped mode. */
  lemma ChangeMinutesResult(s: TimerState, p: Preset, value: string)
    ensures var r := ChangeMinutes(s, p, value);
      r.Minutes(p) != 0 &&
      (r.Minutes(p) == p.DefaultMinutes() || Some(r.Minutes(p)) == ParseInt(value)) &&
      (ParseInt(value).Some? && ParseInt(value).value != 0 ==> r.Minutes(p) == ParseInt(value).value) &&
      (forall q: Preset :: q != p ==> r.Minutes(q) == s.Minutes(q)) &&
      (if s.currentMode == p.Name() && !s.isRunning
       then r.timeLeft == r.Minutes(p) * 60 && r.totalSeconds == r.timeLeft && r.initialSeconds == r.timeLeft
       else r.timeLeft == s.timeLeft && r.totalSeconds == s.totalSeconds && r.initialSeconds == s.initialSeconds) &&
      r.isRunning == s.isRunning && r.currentMode == s.currentMode && r.currentSessionId == s.currentSessionId
  {
  }

  /** Typing the decimal text of a nonzero number sets exactly that many minutes. */
  lemma ChangeMinutesOfText(s: TimerState, p: Preset, n: int)
    requires n != 0
    ensures ChangeMinutes(s, p, IntText(n)).Minutes(p) == n
  {
    ParseIntOfText(n);
  }
}
