/**
 * The per-day and per-month series of `StatisticsService`: each seeds every
 * key of its window with 0, then adds the minutes of every completed
 * pomodoro whose key is in the window, in Java `int` arithmetic.
 */
module Series {
  import opened Wrappers
  import opened Calendar
  import opened Sessions

  /** The keys `key(lo)` to `key(hi)`. */
  function Window(key: int -> string, lo: int, hi: int): set<string> {
    set d | lo <= d <= hi :: key(d)
  }

  lemma WindowExtend(key: int -> string, lo: int, hi: int)
    requires lo <= hi
    ensures Window(key, lo, hi) == Window(key, lo, hi - 1) + {key(hi)}
  {
  }

  /** A window of distinct keys has one key per position. */
  lemma {:induction false} WindowSize(key: int -> string, lo: int, hi: int)
    requires lo <= hi + 1
    requires forall a, b :: lo <= a <= hi && lo <= b <= hi && key(a) == key(b) ==> a == b
    ensures |Window(key, lo, hi)| == hi - lo + 1
    decreases hi - lo
  {
    if lo <= hi {
      WindowSize(key, lo, hi - 1);
      WindowExtend(key, lo, hi);
      assert key(hi) !in Window(key, lo, hi - 1);
    } else {
      assert Window(key, lo, hi) == {};
    }
  }

  /** The day keys of the days `lo` to `hi`. */
  function DayWindow(lo: int, hi: int): set<string> {
    Window(DayKey, lo, hi)
  }

  /** The key of the month `i` months before the month of `today`. */
  function MonthKeyBefore(today: int): int -> string {
    i => IsoYearMonth(MonthsBefore(today, i))
  }

  /** The month keys of the twelve months up to the month of `today`. */
  function MonthWindow(today: int): set<string> {
    Window(MonthKeyBefore(today), 0, 11)
  }

  lemma DayWindowSize(lo: int, hi: int)
    requires lo <= hi + 1
    ensures |DayWindow(lo, hi)| == hi - lo + 1
  {
    forall a, b | DayKey(a) == DayKey(b)
      ensures a == b
    {
      DayKeyInjective(a, b);
    }
    WindowSize(DayKey, lo, hi);
  }

  /** Twelve months have twelve keys. */
  lemma MonthWindowSize(today: int)
    ensures |MonthWindow(today)| == 12
  {
    var key := MonthKeyBefore(today);
    forall a, b | 0 <= a <= 11 && 0 <= b <= 11 && key(a) == key(b)
      ensures a == b
    {
      if a != b {
        MonthsBeforeDistinctMonths(today, a, b);
        IsoYearMonthMonth(MonthsBefore(today, a), MonthsBefore(today, b));
      }
    }
    WindowSize(key, 0, 11);
  }

  /** The loop body: a completed pomodoro adds its minutes to its key, when that key was seeded. */
  method AddSession(data: map<string, Int32>, session: Session, key: Session -> string) returns (result: map<string, Int32>)
    ensures result.Keys == data.Keys
    ensures forall k :: k in data ==> result[k] == Wrap(data[k] + (if key(session) == k then Minutes(session) else 0))
  {
    result := data;
    if session.sessionType == "pomodoro" && session.durationMinutes.Some? && session.durationMinutes.value > 0 {
      var k := key(session);
      if k in result {
        result := result[k := Wrap(result[k] + session.durationMinutes.value)];
      }
    }
  }

  /** One more session keeps every seeded key at the wrapped total of the sessions so far. */
  lemma AddSessionTotals(data: map<string, Int32>, before: map<string, Int32>, after: map<string, Int32>,
                         sessions: seq<Session>, i: int, key: Session -> string)
    requires 0 <= i < |sessions|
    requires before.Keys == data.Keys && after.Keys == data.Keys
    requires forall k :: k in data ==> before[k] == Wrap(data[k] + MinutesByKey(sessions[..i], key, k))
    requires forall k :: k in data ==> after[k] == Wrap(before[k] + (if key(sessions[i]) == k then Minutes(sessions[i]) else 0))
    ensures forall k :: k in data ==> after[k] == Wrap(data[k] + MinutesByKey(sessions[..i + 1], key, k))
  {
    assert sessions[..i + 1][..i] == sessions[..i];
    forall k | k in data
      ensures after[k] == Wrap(data[k] + MinutesByKey(sessions[..i + 1], key, k))
    {
      WrapAdd(data[k] + MinutesByKey(sessions[..i], key, k), if key(sessions[i]) == k then Minutes(sessions[i]) else 0);
    }
  }

  /** The loop over the fetched sessions shared by the four series. */
  method Accumulate(data: map<string, Int32>, sessions: seq<Session>, key: Session -> string) returns (result: map<string, Int32>)
    ensures result.Keys == data.Keys
    ensures forall k :: k in data ==> result[k] == Wrap(data[k] + MinutesByKey(sessions, key, k))
  {
    result := data;
    var i := 0;
    while i < |sessions|
      invariant 0 <= i <= |sessions|
      invariant result.Keys == data.Keys
      invariant forall k :: k in data ==> result[k] == Wrap(data[k] + MinutesByKey(sessions[..i], key, k))
    {
      ghost var before := result;
      result := AddSession(result, sessions[i], key);
      AddSessionTotals(data, before, result, sessions, i, key);
      i := i + 1;
    }
    assert sessions[..i] == sessions;
  }

  /** The descending seeding loop of the weekly, monthly and yearly series: `key(count - 1)` down to `key(0)`, each with 0. */
  method SeedBack(key: int -> string, count: nat) returns (data: map<string, Int32>)
    ensures data.Keys == Window(key, 0, count - 1)
    ensures forall k :: k in data ==> data[k] == 0
  {
    data := map[];
    var i: int := count - 1;
    while i >= 0
      invariant -1 <= i <= count - 1
      invariant data.Keys == Window(key, i + 1, count - 1)
      invariant forall k :: k in data ==> data[k] == 0
    {
      assert Window(key, i, count - 1) == Window(key, i + 1, count - 1) + {key(i)};
      data := data[key(i) := 0];
      i := i - 1;
    }
  }

  /** The day key `i` days before `today`. */
  function DayKeyBefore(today: int): int -> string {
    i => DayKey(today - i)
  }

  lemma DaysBeforeWindow(today: int, count: nat)
    ensures Window(DayKeyBefore(today), 0, count - 1) == DayWindow(today - (count - 1), today)
  {
    DayKeyBeforeAt(today);
    WindowBackward(DayKeyBefore(today), DayKey, today - (count - 1), today, count - 1);
  }

  lemma DayKeyBeforeAt(today: int)
    ensures forall i :: DayKeyBefore(today)(i) == DayKey(today - i)
  {
  }

  /** Counting back from `top` through `f` gives the window of `f` below `top`. */
  lemma WindowBackward(key: int -> string, f: int -> string, bottom: int, top: int, hi: int)
    requires bottom == top - hi
    requires forall i :: key(i) == f(top - i)
    ensures Window(key, 0, hi) == Window(f, bottom, top)
  {
    forall i | 0 <= i <= hi
      ensures key(i) in Window(f, bottom, top)
    {
      assert key(i) == f(top - i);
    }
    forall d | bottom <= d <= top
      ensures f(d) in Window(key, 0, hi)
    {
      assert key(top - d) == f(d);
    }
  }

  /** The ascending seeding loop of the contribution series: `key(0)` up to `key(count - 1)`, each with 0. */
  method SeedForward(key: int -> string, count: nat) returns (data: map<string, Int32>)
    ensures data.Keys == Window(key, 0, count - 1)
    ensures forall k :: k in data ==> data[k] == 0
  {
    data := map[];
    var i := 0;
    while i < count
      invariant 0 <= i <= count
      invariant data.Keys == Window(key, 0, i - 1)
      invariant forall k :: k in data ==> data[k] == 0
    {
      WindowExtend(key, 0, i);
      data := data[key(i) := 0];
      i := i + 1;
    }
  }

  /** The day key `i` days after `start`. */
  function DayKeyAfter(start: int): int -> string {
    i => DayKey(start + i)
  }

  lemma DaysAfterWindow(start: int, count: nat)
    ensures Window(DayKeyAfter(start), 0, count - 1) == DayWindow(start, start + count - 1)
  {
    DayKeyAfterAt(start);
    WindowForward(DayKeyAfter(start), DayKey, start, start + count - 1, count - 1);
  }

  lemma DayKeyAfterAt(start: int)
    ensures forall i :: DayKeyAfter(start)(i) == DayKey(start + i)
  {
  }

  /** Counting up from `bottom` through `f` gives the window of `f` above `bottom`. */
  lemma WindowForward(key: int -> string, f: int -> string, bottom: int, top: int, hi: int)
    requires top == bottom + hi
    requires forall i :: key(i) == f(bottom + i)
    ensures Window(key, 0, hi) == Window(f, bottom, top)
  {
    forall i | 0 <= i <= hi
      ensures key(i) in Window(f, bottom, top)
    {
      assert key(i) == f(bottom + i);
    }
    forall d | bottom <= d <= top
      ensures f(d) in Window(key, 0, hi)
    {
      assert key(d - bottom) == f(d);
    }
  }

  /**
   * A per-day series seeded with 0 on the days `lo` to `hi` and accumulated
   * over sessions fetched from the first midnight of the window on has one
   * entry per day, each the wrapped total of that day.
   */
  lemma DaySeries(all: seq<Session>, since: Timestamp, lo: int, hi: int, seeded: map<string, Int32>, data: map<string, Int32>)
    requires lo <= hi + 1
    requires since.day < lo || (since.day == lo && since.second == 0)
    requires seeded.Keys == DayWindow(lo, hi) && data.Keys == seeded.Keys
    requires forall k :: k in seeded ==> seeded[k] == 0
    requires forall k :: k in seeded ==> data[k] == Wrap(seeded[k] + MinutesByKey(SessionsSince(all, since), SessionDayKey, k))
    ensures |data| == hi - lo + 1
    ensures forall d :: lo <= d <= hi ==> DayKey(d) in data && data[DayKey(d)] == Wrap(DayMinutes(all, d))
  {
    DayWindowSize(lo, hi);
    assert |data| == |data.Keys|;
    forall d | lo <= d <= hi
      ensures DayKey(d) in data && data[DayKey(d)] == Wrap(DayMinutes(all, d))
    {
      assert DayKey(d) in DayWindow(lo, hi);
      DayKeyMinutes(SessionsSince(all, since), d);
      SinceKeepsDay(all, since, d);
    }
  }

  /** A series seeded with 0 on a window of keys has one entry per key, each the wrapped total of that key. */
  lemma SeededTotals(window: set<string>, fetched: seq<Session>, key: Session -> string, seeded: map<string, Int32>, data: map<string, Int32>)
    requires seeded.Keys == window && data.Keys == seeded.Keys
    requires forall k :: k in seeded ==> seeded[k] == 0
    requires forall k :: k in seeded ==> data[k] == Wrap(seeded[k] + MinutesByKey(fetched, key, k))
    ensures |data| == |window|
    ensures forall k :: k in data ==> data[k] == Wrap(MinutesByKey(fetched, key, k))
  {
    assert |data| == |data.Keys|;
  }

  /** `getWeeklyStatistics`: the wrapped completed minutes of each of the last 7 days, today included. */
  method GetWeeklyStatistics(allSessions: seq<Session>, today: int) returns (weeklyData: map<string, Int32>)
    ensures weeklyData.Keys == DayWindow(today - 6, today)
    ensures |weeklyData| == 7
    ensures forall d :: today - 6 <= d <= today ==> weeklyData[DayKey(d)] == Wrap(DayMinutes(allSessions, d))
  {
    var sevenDaysAgo := StartOfDay(today - 6);
    var recentSessions := SessionsSince(allSessions, sevenDaysAgo);
    var seeded := SeedBack(DayKeyBefore(today), 7);
    DaysBeforeWindow(today, 7);
    weeklyData := Accumulate(seeded, recentSessions, SessionDayKey);
    DaySeries(allSessions, sevenDaysAgo, today - 6, today, seeded, weeklyData);
  }

  /** `getMonthlyStatistics`: the wrapped completed minutes of each of the last 30 days, today included. */
  method GetMonthlyStatistics(allSessions: seq<Session>, today: int) returns (monthlyData: map<string, Int32>)
    ensures monthlyData.Keys == DayWindow(today - 29, today)
    ensures |monthlyData| == 30
    ensures forall d :: today - 29 <= d <= today ==> monthlyData[DayKey(d)] == Wrap(DayMinutes(allSessions, d))
  {
    var thirtyDaysAgo := StartOfDay(today - 29);
    var recentSessions := SessionsSince(allSessions, thirtyDaysAgo);
    var seeded := SeedBack(DayKeyBefore(today), 30);
    DaysBeforeWindow(today, 30);
    monthlyData := Accumulate(seeded, recentSessions, SessionDayKey);
    DaySeries(allSessions, thirtyDaysAgo, today - 29, today, seeded, monthlyData);
  }

  /**
   * `getYearlyStatistics`: the wrapped completed minutes, among the sessions
   * of the last 365 days to the second, of each of the twelve months up to
   * this one.
   */
  method GetYearlyStatistics(allSessions: seq<Session>, now: Timestamp) returns (yearlyData: map<string, Int32>)
    ensures yearlyData.Keys == MonthWindow(now.day)
    ensures |yearlyData| == 12
    ensures forall k :: k in yearlyData ==>
      yearlyData[k] == Wrap(MinutesByKey(SessionsSince(allSessions, MinusDays(now, 365)), SessionMonthKey, k))
  {
    var oneYearAgo := MinusDays(now, 365);
    var fetched := SessionsSince(allSessions, oneYearAgo);
    var seeded := SeedBack(MonthKeyBefore(now.day), 12);
    yearlyData := Accumulate(seeded, fetched, SessionMonthKey);
    MonthWindowSize(now.day);
    SeededTotals(MonthWindow(now.day), fetched, SessionMonthKey, seeded, yearlyData);
  }

  /** `getContributionData`: the wrapped completed minutes of each of the last 365 days, today included. */
  method GetContributionData(allSessions: seq<Session>, now: Timestamp) returns (contributionData: map<string, Int32>)
    ensures contributionData.Keys == DayWindow(now.day - 364, now.day)
    ensures |contributionData| == 365
    ensures forall d :: now.day - 364 <= d <= now.day ==> contributionData[DayKey(d)] == Wrap(DayMinutes(allSessions, d))
  {
    var oneYearAgo := MinusDays(now, 365);
    var fetched := SessionsSince(allSessions, oneYearAgo);
    var startDate := now.day - 364;
    var seeded := SeedForward(DayKeyAfter(startDate), 365);
    DaysAfterWindow(startDate, 365);
    contributionData := Accumulate(seeded, fetched, SessionDayKey);
    DaySeries(allSessions, oneYearAgo, startDate, now.day, seeded, contributionData);
  }

  /** In the common era a yearly bucket is the wrapped total of its month among the fetched sessions. */
  lemma YearlyBucket(fetched: seq<Session>, today: int, i: int)
    requires 0 <= i < 12 && MonthsBefore(today, i).year >= 1
    requires forall s :: s in fetched ==> DateOf(s.startTime.day).year >= 1
    ensures Wrap(MinutesByKey(fetched, SessionMonthKey, IsoYearMonth(MonthsBefore(today, i))))
      == Wrap(MonthMinutes(fetched, MonthsBefore(today, i)))
  {
    MonthKeyMinutes(fetched, MonthsBefore(today, i));
  }

  /**
   * The eleven most recent yearly buckets hold their month's wrapped total
   * over all sessions: the fetch from `now` minus 365 days keeps every day of
   * those months. The oldest bucket can miss the sessions of its first day
   * that started before the time of day of `now`.
   */
  lemma RecentMonthBucket(allSessions: seq<Session>, now: Timestamp, i: int)
    requires 0 <= i < 11 && MonthsBefore(now.day, i).year >= 1
    requires forall s :: s in SessionsSince(allSessions, MinusDays(now, 365)) ==> DateOf(s.startTime.day).year >= 1
    ensures Wrap(MinutesByKey(SessionsSince(allSessions, MinusDays(now, 365)), SessionMonthKey, IsoYearMonth(MonthsBefore(now.day, i))))
      == Wrap(MonthMinutes(allSessions, MonthsBefore(now.day, i)))
  {
    var since := MinusDays(now, 365);
    var ym := MonthsBefore(now.day, i);
    YearlyBucket(SessionsSince(allSessions, since), now.day, i);
    forall n | n <= since.day
      ensures MonthOf(DateOf(n)) != ym
    {
      MonthsApart(n, now.day, 11);
      assert MonthIndex(ym) == MonthNumber(now.day) - i;
    }
    SinceKeepsMonth(allSessions, since, ym);
  }

  /** A bucket shows the exact total as long as that total fits a Java `int`. */
  lemma BucketExact(total: nat)
    requires total < 0x8000_0000
    ensures Wrap(total) == total && Wrap(total) >= 0
  {
  }
}
