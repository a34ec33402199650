/**
 * The focus streak of `StatisticsService.calculateStreak`: the number of
 * consecutive days, counted back from the most recent day with a completed
 * pomodoro, that each have one, provided that day is not before yesterday.
 */
module Streaks {
  import opened Wrappers
  import opened Sessions

  /** The days with at least one completed pomodoro. */
  function QualifyingDays(ss: seq<Session>): set<int> {
    set s | s in ss && Qualifies(s) :: s.startTime.day
  }

  /** The most recent day with a completed pomodoro, if any. */
  function LatestDay(ss: seq<Session>): Option<int> {
    if ss == [] then None
    else
      var init := LatestDay(ss[..|ss| - 1]);
      var last := ss[|ss| - 1];
      if Qualifies(last) && (init.None? || last.startTime.day > init.value) then Some(last.startTime.day)
      else init
  }

  /** `LatestDay` is the maximum of the qualifying days, and exists exactly when there are some. */
  lemma {:induction false} LatestDayIsMax(ss: seq<Session>)
    ensures LatestDay(ss).None? <==> QualifyingDays(ss) == {}
    ensures LatestDay(ss).Some? ==>
      LatestDay(ss).value in QualifyingDays(ss) && forall d :: d in QualifyingDays(ss) ==> d <= LatestDay(ss).value
  {
    if ss != [] {
      var init := ss[..|ss| - 1];
      var last := ss[|ss| - 1];
      LatestDayIsMax(init);
      assert ss == init + [last];
      assert QualifyingDays(ss) == QualifyingDays(init) + (if Qualifies(last) then {last.startTime.day} else {});
    }
  }

  /** The day of the latest completed start is the latest completed day. */
  lemma LatestStartDay(ss: seq<Session>)
    ensures LatestStart(ss).None? <==> LatestDay(ss).None?
    ensures LatestStart(ss).Some? ==> LatestDay(ss) == Some(LatestStart(ss).value.day)
  {
    LatestStartIsLatest(ss);
    LatestDayIsMax(ss);
    if LatestStart(ss).Some? {
      var t := LatestStart(ss).value;
      var s :| s in ss && Qualifies(s) && s.startTime == t;
      assert t.day in QualifyingDays(ss);
      forall d | d in QualifyingDays(ss)
        ensures d <= t.day
      {
        var u :| u in ss && Qualifies(u) && u.startTime.day == d;
        assert !IsAfter(u.startTime, t);
      }
    } else {
      assert forall d :: d in QualifyingDays(ss) ==> exists s :: s in ss && Qualifies(s) && s.startTime.day == d;
    }
  }

  /** How many of the days `d`, `d - 1`, `d - 2`, ... in a row belong to `ds`. */
  function RunLength(ds: set<int>, d: int): nat
    decreases |ds|
  {
    if d in ds then 1 + RunLength(ds - {d}, d - 1) else 0
  }

  /** The run from `d` covers exactly the days after `d - RunLength(ds, d)` up to `d`, and stops at a missing day. */
  lemma {:induction false} RunLengthIsRun(ds: set<int>, d: int)
    ensures forall x :: d - RunLength(ds, d) < x <= d ==> x in ds
    ensures d - RunLength(ds, d) !in ds
    decreases |ds|
  {
    if d in ds {
      RunLengthIsRun(ds - {d}, d - 1);
      var r := RunLength(ds - {d}, d - 1);
      assert RunLength(ds, d) == 1 + r;
      forall x | d - (1 + r) < x <= d
        ensures x in ds
      {
        if x < d {
          assert x in ds - {d};
        }
      }
    }
  }

  lemma {:induction false} RunLengthBound(ds: set<int>, d: int)
    ensures RunLength(ds, d) <= |ds|
    decreases |ds|
  {
    if d in ds {
      RunLengthBound(ds - {d}, d - 1);
    }
  }

  /** A run does not depend on days later than its start. */
  lemma {:induction false} RunLengthIgnoresLater(ds: set<int>, e: int, d: int)
    requires e > d
    ensures RunLength(ds - {e}, d) == RunLength(ds, d)
    decreases |ds|
  {
    if d in ds {
      assert (ds - {e}) - {d} == (ds - {d}) - {e};
      RunLengthIgnoresLater(ds - {d}, e, d - 1);
    }
  }

  /**
   * The streak: 0 without completed pomodoros or when the most recent day
   * with one is more than one day before `today`, otherwise the run of days
   * ending on that most recent day.
   */
  function Streak(ss: seq<Session>, today: int): nat {
    match LatestDay(ss)
    case None => 0
    case Some(m) => if today - m > 1 then 0 else RunLength(QualifyingDays(ss), m)
  }

  /** The days of the completed pomodoros, collected by position, are the qualifying days. */
  lemma DaysOfCompleted(ss: seq<Session>)
    ensures (set j | 0 <= j < |Completed(ss)| :: Completed(ss)[j].startTime.day) == QualifyingDays(ss)
  {
    var p := Completed(ss);
    forall d | d in QualifyingDays(ss)
      ensures d in set j | 0 <= j < |p| :: p[j].startTime.day
    {
      var s :| s in ss && Qualifies(s) && s.startTime.day == d;
      assert s in p;
      var j :| 0 <= j < |p| && p[j] == s;
    }
    forall d | d in set j | 0 <= j < |p| :: p[j].startTime.day
      ensures d in QualifyingDays(ss)
    {
      var j :| 0 <= j < |p| && p[j].startTime.day == d;
      assert p[j] in p;
    }
  }

  /** The one maximum of the qualifying days is `LatestDay`. */
  lemma LatestDayUnique(ss: seq<Session>, m: int)
    requires m in QualifyingDays(ss)
    requires forall d :: d in QualifyingDays(ss) ==> d <= m
    ensures LatestDay(ss) == Some(m)
  {
    LatestDayIsMax(ss);
  }

  /** The loop of `calculateStreak` that collects the day of every completed pomodoro into a set. */
  method CollectDates(pomodoroSessions: seq<Session>) returns (sessionDates: set<int>)
    ensures sessionDates == set j | 0 <= j < |pomodoroSessions| :: pomodoroSessions[j].startTime.day
  {
    sessionDates := {};
    var i := 0;
    while i < |pomodoroSessions|
      invariant 0 <= i <= |pomodoroSessions|
      invariant sessionDates == set j | 0 <= j < i :: pomodoroSessions[j].startTime.day
    {
      sessionDates := sessionDates + {pomodoroSessions[i].startTime.day};
      i := i + 1;
    }
  }

  /** A non-empty set of days has a day to pick. */
  lemma NonEmptyHasElement(ds: set<int>)
    requires ds != {}
    ensures exists d :: d in ds
  {
    if forall d :: d !in ds {
      assert false;
    }
  }

  /** The loop of `calculateStreak` that finds the most recent of the dates, `None` for none. */
  method MostRecentDate(sessionDates: set<int>) returns (mostRecentDate: Option<int>)
    ensures mostRecentDate.None? <==> sessionDates == {}
    ensures mostRecentDate.Some? ==>
      mostRecentDate.value in sessionDates && forall d :: d in sessionDates ==> d <= mostRecentDate.value
  {
    mostRecentDate := None;
    var rest := sessionDates;
    while rest != {}
      invariant rest <= sessionDates
      invariant mostRecentDate.None? <==> rest == sessionDates
      invariant mostRecentDate.Some? ==>
        mostRecentDate.value in sessionDates && forall d :: d in sessionDates && d !in rest ==> d <= mostRecentDate.value
      decreases |rest|
    {
      NonEmptyHasElement(rest);
      var date :| date in rest;
      if mostRecentDate.None? || date > mostRecentDate.value {
        mostRecentDate := Some(date);
      }
      rest := rest - {date};
    }
  }

  /** The loop of `calculateStreak` that counts the days in a row back from `mostRecent`. */
  method CountBack(sessionDates: set<int>, mostRecent: int) returns (streak: nat)
    requires forall d :: d in sessionDates ==> d <= mostRecent
    ensures streak == RunLength(sessionDates, mostRecent)
  {
    streak := 0;
    var checkDate := mostRecent;
    ghost var left := sessionDates;
    while checkDate in sessionDates
      invariant forall x :: x in left <==> x in sessionDates && x <= checkDate
      invariant streak + RunLength(left, checkDate) == RunLength(sessionDates, mostRecent)
      decreases |left|
    {
      assert checkDate in left;
      streak := streak + 1;
      left := left - {checkDate};
      checkDate := checkDate - 1;
    }
    assert checkDate !in left;
  }

  /** `calculateStreak(user)`, with the user's sessions and the current day as inputs. */
  method CalculateStreak(sessions: seq<Session>, today: int) returns (streak: nat)
    ensures streak == Streak(sessions, today)
  {
    if |sessions| == 0 {
      return 0;
    }
    var pomodoroSessions := Completed(sessions);
    DaysOfCompleted(sessions);
    LatestDayIsMax(sessions);
    if |pomodoroSessions| == 0 {
      return 0;
    }
    var sessionDates := CollectDates(pomodoroSessions);
    // The source's `sessionDatesSet.isEmpty()` guard cannot fire here.
    assert pomodoroSessions[0].startTime.day in sessionDates;
    var mostRecentDate := MostRecentDate(sessionDates);
    // Nor can the `mostRecentDate == null` guard.
    var mostRecent := mostRecentDate.value;
    LatestDayUnique(sessions, mostRecent);
    if today - mostRecent > 1 {
      return 0;
    }
    streak := CountBack(sessionDates, mostRecent);
  }

  /** There is a streak exactly when some completed pomodoro started yesterday, today or later. */
  lemma StreakAlive(ss: seq<Session>, today: int)
    ensures Streak(ss, today) > 0 <==> exists s :: s in ss && Qualifies(s) && s.startTime.day >= today - 1
  {
    LatestDayIsMax(ss);
    assert forall t :: t in ss && Qualifies(t) ==> t.startTime.day in QualifyingDays(ss);
    if LatestDay(ss).Some? {
      var m := LatestDay(ss).value;
      var s :| s in ss && Qualifies(s) && s.startTime.day == m;
      if today - m <= 1 {
        assert RunLength(QualifyingDays(ss), m) > 0;
      }
    }
  }

  /** A streak of `k` days covers the `k` days ending on the latest completed day, and the day before them has no completed pomodoro. */
  lemma StreakIsRun(ss: seq<Session>, today: int)
    requires Streak(ss, today) > 0
    ensures LatestDay(ss).Some?
    ensures forall x :: LatestDay(ss).value - Streak(ss, today) < x <= LatestDay(ss).value ==> x in QualifyingDays(ss)
    ensures LatestDay(ss).value - Streak(ss, today) !in QualifyingDays(ss)
  {
    RunLengthIsRun(QualifyingDays(ss), LatestDay(ss).value);
  }

  /** A streak never exceeds the number of days with a completed pomodoro. */
  lemma StreakBound(ss: seq<Session>, today: int)
    ensures Streak(ss, today) <= |QualifyingDays(ss)|
  {
    if LatestDay(ss).Some? {
      RunLengthBound(QualifyingDays(ss), LatestDay(ss).value);
    }
  }

  /**
   * The streak depends only on which days have a completed pomodoro: not on
   * the order of the sessions, on how many a day has, or on the other sessions.
   */
  lemma StreakDependsOnDays(a: seq<Session>, b: seq<Session>, today: int)
    requires QualifyingDays(a) == QualifyingDays(b)
    ensures Streak(a, today) == Streak(b, today)
  {
    LatestDayIsMax(a);
    LatestDayIsMax(b);
    if LatestDay(a).Some? {
      assert LatestDay(a).value <= LatestDay(b).value && LatestDay(b).value <= LatestDay(a).value;
    }
  }

  /** A session that is not a completed pomodoro leaves the streak alone. */
  lemma IgnoredSession(ss: seq<Session>, s: Session, today: int)
    requires !Qualifies(s)
    ensures Streak(ss + [s], today) == Streak(ss, today)
  {
    assert QualifyingDays(ss + [s]) == QualifyingDays(ss) by {
      assert forall t :: t in ss + [s] <==> t in ss || t == s;
    }
    StreakDependsOnDays(ss + [s], ss, today);
  }

  /** A second completed pomodoro on a day that already has one leaves the streak alone. */
  lemma SameDaySession(ss: seq<Session>, s: Session, today: int)
    requires Qualifies(s) && s.startTime.day in QualifyingDays(ss)
    ensures Streak(ss + [s], today) == Streak(ss, today)
  {
    assert QualifyingDays(ss + [s]) == QualifyingDays(ss) by {
      assert forall t :: t in ss + [s] <==> t in ss || t == s;
    }
    StreakDependsOnDays(ss + [s], ss, today);
  }

  /** Completing the first pomodoro of today extends a streak that reached yesterday by one day. */
  lemma StreakExtends(ss: seq<Session>, s: Session, today: int)
    requires Qualifies(s) && s.startTime.day == today
    requires LatestDay(ss) == Some(today - 1)
    ensures Streak(ss + [s], today) == Streak(ss, today) + 1
  {
    var ds := QualifyingDays(ss);
    LatestDayIsMax(ss);
    assert QualifyingDays(ss + [s]) == ds + {today} by {
      assert forall t :: t in ss + [s] <==> t in ss || t == s;
    }
    assert ss + [s] != [] && (ss + [s])[..|ss + [s]| - 1] == ss;
    assert LatestDay(ss + [s]) == Some(today);
    assert (ds + {today}) - {today} == ds;
  }

  // ---- the behaviour the dashboard shows, on concrete histories ----

  function Pomodoro(day: int, minutes: Int32): Session {
    Session("pomodoro", Timestamp(day, 36000), Some(minutes))
  }

  /** One 25-minute pomodoro today is a one-day streak. */
  lemma OneSessionToday(today: int)
    ensures Streak([Pomodoro(today, 25)], today) == 1
  {
    var ss := [Pomodoro(today, 25)];
    assert QualifyingDays(ss) == {today} by {
      assert forall t :: t in ss <==> t == ss[0];
    }
    LatestDayUnique(ss, today);
    assert RunLength({today} - {today}, today - 1) == 0;
  }

  /** Pomodoros on each of the last three days, newest first, are a three-day streak. */
  lemma ThreeDaysInARow(today: int)
    ensures Streak([Pomodoro(today, 25), Pomodoro(today - 1, 25), Pomodoro(today - 2, 25)], today) == 3
  {
    var ss := [Pomodoro(today, 25), Pomodoro(today - 1, 25), Pomodoro(today - 2, 25)];
    var ds := {today, today - 1, today - 2};
    assert QualifyingDays(ss) == ds by {
      assert forall t :: t in ss <==> t == ss[0] || t == ss[1] || t == ss[2];
    }
    LatestDayUnique(ss, today);
    assert ds - {today} == {today - 1, today - 2};
    assert {today - 1, today - 2} - {today - 1} == {today - 2};
    assert RunLength({today - 2} - {today - 2}, today - 3) == 0;
    assert RunLength({today - 2}, today - 2) == 1;
    assert RunLength({today - 1, today - 2}, today - 1) == 2;
  }

  /** A streak whose last pomodoro was three days ago is broken. */
  lemma ThreeDaysAgo(today: int)
    ensures Streak([Pomodoro(today - 3, 25), Pomodoro(today - 4, 25)], today) == 0
  {
    var ss := [Pomodoro(today - 3, 25), Pomodoro(today - 4, 25)];
    StreakAlive(ss, today);
    assert forall t :: t in ss <==> t == ss[0] || t == ss[1];
  }

  /** Yesterday's pomodoro keeps the streak alive before today's is done. */
  lemma YesterdayStillCounts(today: int)
    ensures Streak([Pomodoro(today - 1, 25)], today) == 1
  {
    var ss := [Pomodoro(today - 1, 25)];
    assert QualifyingDays(ss) == {today - 1} by {
      assert forall t :: t in ss <==> t == ss[0];
    }
    LatestDayUnique(ss, today - 1);
    assert RunLength({today - 1} - {today - 1}, today - 2) == 0;
  }

  /** A short break, however long, is no streak. */
  lemma BreaksDoNotCount(today: int)
    ensures Streak([Session("short", Timestamp(today, 0), Some(5))], today) == 0
  {
    var ss := [Session("short", Timestamp(today, 0), Some(5))];
    assert ss[..0] == [];
  }

  /** An unfinished pomodoro (no duration recorded yet) is no streak. */
  lemma UnfinishedDoesNotCount(today: int)
    ensures Streak([Session("pomodoro", Timestamp(today, 0), None)], today) == 0
  {
    var ss := [Session("pomodoro", Timestamp(today, 0), None)];
    assert ss[..0] == [];
  }
}
