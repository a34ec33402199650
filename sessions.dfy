/**
 * Focus sessions as the statistics service reads them from the repository,
 * Java's 32-bit `int` arithmetic, and the sums of completed minutes the
 * statistics are built from.
 */
module Sessions {
  import opened Wrappers
  import opened Calendar

  /** A Java `int`. */
  type Int32 = x: int | -0x8000_0000 <= x < 0x8000_0000

  /** The Java `int` that the exact integer `x` wraps around to (two's complement, section 15.18.2 of the Java Language Specification). */
  function Wrap(x: int): (r: Int32)
    ensures (x - r) % 0x1_0000_0000 == 0
    ensures -0x8000_0000 <= x < 0x8000_0000 ==> r == x
  {
    (x + 0x8000_0000) % 0x1_0000_0000 - 0x8000_0000
  }

  /** Adding to a wrapped value and wrapping again is wrapping the exact sum once. */
  lemma WrapAdd(x: int, y: int)
    ensures Wrap(Wrap(x) + y) == Wrap(x + y)
  {
    var q := (x + 0x8000_0000) / 0x1_0000_0000;
    assert Wrap(x) == x - q * 0x1_0000_0000;
    var a := x + y + 0x8000_0000;
    var q2 := a / 0x1_0000_0000;
    assert a == q2 * 0x1_0000_0000 + a % 0x1_0000_0000;
    assert Wrap(x) + y + 0x8000_0000 == (q2 - q) * 0x1_0000_0000 + a % 0x1_0000_0000;
  }

  type SecondOfDay = s: int | 0 <= s < 86400

  /** A `LocalDateTime`: a day number and a second of that day. */
  datatype Timestamp = Timestamp(day: int, second: SecondOfDay)

  /** `a.isAfter(b)`. */
  predicate IsAfter(a: Timestamp, b: Timestamp) {
    a.day > b.day || (a.day == b.day && a.second > b.second)
  }

  /** `a >= b` in a query. */
  predicate AtOrAfter(a: Timestamp, b: Timestamp) {
    !IsAfter(b, a)
  }

  /** `LocalDateTime.of(day, LocalTime.MIN)`. */
  function StartOfDay(day: int): Timestamp {
    Timestamp(day, 0)
  }

  /** `t.minusDays(n)`: the same time of day, `n` days earlier. */
  function MinusDays(t: Timestamp, n: int): Timestamp {
    Timestamp(t.day - n, t.second)
  }

  /**
   * A `FocusSession` row: its type ("pomodoro", "short", "long" or whatever
   * the client sent), when it started, and the minutes recorded when it
   * ended (null until then).
   */
  datatype Session = Session(sessionType: string, startTime: Timestamp, durationMinutes: Option<Int32>)

  /** A completed pomodoro: the only sessions any statistic counts. */
  predicate Qualifies(s: Session) {
    s.sessionType == "pomodoro" && s.durationMinutes.Some? && s.durationMinutes.value > 0
  }

  /** The minutes a session adds to every statistic it falls into. */
  function Minutes(s: Session): (n: nat)
    ensures n > 0 <==> Qualifies(s)
  {
    if Qualifies(s) then s.durationMinutes.value else 0
  }

  /** `findByUserAndStartTimeAfter(user, since)`: the sessions starting at or after `since`, in their order. */
  function SessionsSince(ss: seq<Session>, since: Timestamp): (r: seq<Session>)
    ensures |r| <= |ss|
    ensures forall s :: s in r <==> s in ss && AtOrAfter(s.startTime, since)
  {
    if ss == [] then []
    else
      var init := SessionsSince(ss[..|ss| - 1], since);
      var last := ss[|ss| - 1];
      assert ss == ss[..|ss| - 1] + [last];
      if AtOrAfter(last.startTime, since) then init + [last] else init
  }

  /** The completed pomodoros of `ss`, in their order (the stream filter of `calculateStreak`). */
  function Completed(ss: seq<Session>): (r: seq<Session>)
    ensures |r| <= |ss|
    ensures forall s :: s in r <==> s in ss && Qualifies(s)
  {
    if ss == [] then []
    else
      var init := Completed(ss[..|ss| - 1]);
      var last := ss[|ss| - 1];
      assert ss == ss[..|ss| - 1] + [last];
      if Qualifies(last) then init + [last] else init
  }

  /** The exact number of completed pomodoro minutes in `ss`. */
  function TotalMinutes(ss: seq<Session>): nat {
    if ss == [] then 0 else TotalMinutes(ss[..|ss| - 1]) + Minutes(ss[|ss| - 1])
  }

  /** Start of the most recent completed pomodoro, the first one seen among equal starts. */
  function LatestStart(ss: seq<Session>): Option<Timestamp> {
    if ss == [] then None
    else
      var init := LatestStart(ss[..|ss| - 1]);
      var last := ss[|ss| - 1];
      if Qualifies(last) && (init.None? || IsAfter(last.startTime, init.value)) then Some(last.startTime)
      else init
  }

  /** `LatestStart` is the latest start of a completed pomodoro, and there is one exactly when some session qualifies. */
  lemma {:induction false} LatestStartIsLatest(ss: seq<Session>)
    ensures LatestStart(ss).None? <==> forall s :: s in ss ==> !Qualifies(s)
    ensures LatestStart(ss).Some? ==>
      (exists s :: s in ss && Qualifies(s) && s.startTime == LatestStart(ss).value)
      && forall s :: s in ss && Qualifies(s) ==> !IsAfter(s.startTime, LatestStart(ss).value)
  {
    if ss != [] {
      var init := ss[..|ss| - 1];
      LatestStartIsLatest(init);
      assert ss == init + [ss[|ss| - 1]];
    }
  }

  /** The completed minutes of day `d`. */
  function DayMinutes(ss: seq<Session>, d: int): nat {
    if ss == [] then 0
    else DayMinutes(ss[..|ss| - 1], d) + (if ss[|ss| - 1].startTime.day == d then Minutes(ss[|ss| - 1]) else 0)
  }

  /** The completed minutes of month `ym`. */
  function MonthMinutes(ss: seq<Session>, ym: YearMonth): nat {
    if ss == [] then 0
    else
      var s := ss[|ss| - 1];
      MonthMinutes(ss[..|ss| - 1], ym) + (if MonthOf(DateOf(s.startTime.day)) == ym then Minutes(s) else 0)
  }

  /** The key of a session in the per-day series: its day as `LocalDate.toString` writes it. */
  function SessionDayKey(s: Session): string {
    DayKey(s.startTime.day)
  }

  /** The key of a session in the per-month series: its month as `yyyy-MM`. */
  function SessionMonthKey(s: Session): string {
    MonthKey(s.startTime.day)
  }

  /** The completed minutes of the sessions whose key is `k`. */
  function MinutesByKey(ss: seq<Session>, key: Session -> string, k: string): nat {
    if ss == [] then 0
    else
      var s := ss[|ss| - 1];
      MinutesByKey(ss[..|ss| - 1], key, k) + (if key(s) == k then Minutes(s) else 0)
  }

  /** A day's key collects exactly that day's minutes. */
  lemma {:induction false} DayKeyMinutes(ss: seq<Session>, d: int)
    ensures MinutesByKey(ss, SessionDayKey, DayKey(d)) == DayMinutes(ss, d)
  {
    if ss != [] {
      DayKeyMinutes(ss[..|ss| - 1], d);
      var s := ss[|ss| - 1];
      if DayKey(s.startTime.day) == DayKey(d) {
        DayKeyInjective(s.startTime.day, d);
      }
    }
  }

  /** In the common era, a month's key collects exactly that month's minutes. */
  lemma {:induction false} MonthKeyMinutes(ss: seq<Session>, ym: YearMonth)
    requires 1 <= ym.month <= 12 && ym.year >= 1
    requires forall s :: s in ss ==> DateOf(s.startTime.day).year >= 1
    ensures MinutesByKey(ss, SessionMonthKey, IsoYearMonth(ym)) == MonthMinutes(ss, ym)
  {
    if ss != [] {
      var init := ss[..|ss| - 1];
      assert forall s :: s in init ==> s in ss;
      MonthKeyMinutes(init, ym);
      var s := ss[|ss| - 1];
      var m := MonthOf(DateOf(s.startTime.day));
      assert m.year >= 1;
      if IsoYearMonth(m) == IsoYearMonth(ym) {
        IsoYearMonthInjective(m, ym);
      }
    }
  }

  /** The repository filter keeps every session of a day that starts after `since`, or of `since`'s own day when `since` is midnight. */
  lemma {:induction false} SinceKeepsDay(ss: seq<Session>, since: Timestamp, d: int)
    requires d > since.day || (d == since.day && since.second == 0)
    ensures DayMinutes(SessionsSince(ss, since), d) == DayMinutes(ss, d)
  {
    if ss != [] {
      SinceKeepsDay(ss[..|ss| - 1], since, d);
    }
  }

  /** The repository filter keeps every session of a month none of whose days is `since`'s day or earlier. */
  lemma {:induction false} SinceKeepsMonth(ss: seq<Session>, since: Timestamp, ym: YearMonth)
    requires forall n :: n <= since.day ==> MonthOf(DateOf(n)) != ym
    ensures MonthMinutes(SessionsSince(ss, since), ym) == MonthMinutes(ss, ym)
  {
    if ss != [] {
      SinceKeepsMonth(ss[..|ss| - 1], since, ym);
    }
  }

  /** The repository filter drops every session of a day before `since`'s day. */
  lemma {:induction false} SinceDropsEarlierDays(ss: seq<Session>, since: Timestamp, d: int)
    requires d < since.day
    ensures DayMinutes(SessionsSince(ss, since), d) == 0
  {
    if ss != [] {
      SinceDropsEarlierDays(ss[..|ss| - 1], since, d);
    }
  }
}
