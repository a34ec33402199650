/**
 * The statistics a `User` record carries and `StatisticsService.updateUserStatistics`
 * recomputes from the user's sessions, and the summary `getDashboardStatistics`
 * reads back from it.
 */
module UserStatistics {
  import opened Wrappers
  import opened Sessions
  import opened Streaks

  /** The statistics columns of a `User` row; `None` is a null column. */
  datatype UserStats = UserStats(
    totalFocusHours: Option<real>,
    lastSessionTime: Option<Timestamp>,
    currentStreak: Option<int>,
    maxStreak: Option<int>)

  /** `User.getMaxStreak()`: a null maximum reads as 0. */
  function MaxStreakOf(u: UserStats): int {
    u.maxStreak.GetOr(0)
  }

  /** The statistics of a new user (the field initialisers of `User`). */
  const NewUserStats := UserStats(Some(0.0), None, Some(0), Some(0))

  class User {
    var totalFocusHours: Option<real>
    var lastSessionTime: Option<Timestamp>
    var currentStreak: Option<int>
    var maxStreak: Option<int>

    constructor ()
      ensures Summary() == NewUserStats
    {
      totalFocusHours := Some(0.0);
      lastSessionTime := None;
      currentStreak := Some(0);
      maxStreak := Some(0);
    }

    function Summary(): UserStats
      reads this
    {
      UserStats(totalFocusHours, lastSessionTime, currentStreak, maxStreak)
    }
  }

  /**
   * What `updateUserStatistics` writes: the completed hours, the start of the
   * latest completed pomodoro, the current streak, and the maximum streak,
   * raised to the current streak when that is higher.
   */
  function Updated(prev: UserStats, sessions: seq<Session>, today: int): UserStats {
    var streak := Streak(sessions, today);
    UserStats(
      Some(TotalMinutes(sessions) as real / 60.0),
      LatestStart(sessions),
      Some(streak),
      if streak > MaxStreakOf(prev) then Some(streak) else prev.maxStreak)
  }

  /** `updateUserStatistics(userId)` on the user's record, its sessions and the current day. */
  method UpdateUserStatistics(user: User, allSessions: seq<Session>, today: int)
    modifies user
    ensures user.Summary() == Updated(old(user.Summary()), allSessions, today)
  {
    var totalMinutes: int := 0;
    var lastSessionTime: Option<Timestamp> := None;
    var i := 0;
    while i < |allSessions|
      invariant 0 <= i <= |allSessions|
      invariant totalMinutes == TotalMinutes(allSessions[..i])
      invariant lastSessionTime == LatestStart(allSessions[..i])
    {
      var session := allSessions[i];
      assert allSessions[..i + 1][..i] == allSessions[..i];
      if session.sessionType == "pomodoro" && session.durationMinutes.Some? && session.durationMinutes.value > 0 {
        totalMinutes := totalMinutes + session.durationMinutes.value;
        if lastSessionTime.None? || IsAfter(session.startTime, lastSessionTime.value) {
          lastSessionTime := Some(session.startTime);
        }
      }
      i := i + 1;
    }
    assert allSessions[..i] == allSessions;

    user.totalFocusHours := Some(totalMinutes as real / 60.0);
    user.lastSessionTime := lastSessionTime;

    var streak := CalculateStreak(allSessions, today);
    user.currentStreak := Some(streak);

    var currentMaxStreak := user.maxStreak.GetOr(0);
    if streak > currentMaxStreak {
      user.maxStreak := Some(streak);
    }
  }

  /** After an update the maximum streak is the larger of the old maximum and the current streak. */
  lemma UpdatedMaxStreak(prev: UserStats, sessions: seq<Session>, today: int)
    ensures var u := Updated(prev, sessions, today);
      MaxStreakOf(u) >= u.currentStreak.value
      && MaxStreakOf(u) >= MaxStreakOf(prev)
      && (MaxStreakOf(u) == u.currentStreak.value || MaxStreakOf(u) == MaxStreakOf(prev))
  {
  }

  /** Updating twice from the same sessions on the same day changes nothing the second time. */
  lemma UpdatedIdempotent(prev: UserStats, sessions: seq<Session>, today: int)
    ensures Updated(Updated(prev, sessions, today), sessions, today) == Updated(prev, sessions, today)
  {
  }

  /** The exact completed minutes of two lists together are the sums of each. */
  lemma {:induction false} TotalMinutesAppend(a: seq<Session>, b: seq<Session>)
    ensures TotalMinutes(a + b) == TotalMinutes(a) + TotalMinutes(b)
    decreases |b|
  {
    if b == [] {
      assert a + b == a;
    } else {
      var b0 := b[..|b| - 1];
      assert (a + b)[..|a + b| - 1] == a + b0;
      assert (a + b)[|a + b| - 1] == b[|b| - 1];
      TotalMinutesAppend(a, b0);
    }
  }

  /** Only completed pomodoros add hours. */
  lemma TotalMinutesOfOne(s: Session)
    ensures TotalMinutes([s]) > 0 <==> Qualifies(s)
  {
    assert [s][..0] == [];
  }

  /** The summary `getDashboardStatistics` returns; null columns read as zero. */
  datatype DashboardStats = DashboardStats(totalHours: real, currentStreak: int, maxStreak: int, lastSessionTime: Option<Timestamp>)

  function DashboardStatistics(u: UserStats): DashboardStats {
    DashboardStats(u.totalFocusHours.GetOr(0.0), u.currentStreak.GetOr(0), MaxStreakOf(u), u.lastSessionTime)
  }

  /** A new user's dashboard shows no hours, no streaks and no last session. */
  lemma NewUserDashboard()
    ensures DashboardStatistics(NewUserStats) == DashboardStats(0.0, 0, 0, None)
  {
  }

  /**
   * After an update the dashboard shows the completed hours, the current
   * streak, a maximum streak no lower than it nor than the maximum before,
   * and the start of the latest completed pomodoro, whose day is the latest
   * day with one.
   */
  lemma DashboardAfterUpdate(prev: UserStats, sessions: seq<Session>, today: int)
    ensures var d := DashboardStatistics(Updated(prev, sessions, today));
      d.totalHours == TotalMinutes(sessions) as real / 60.0
      && d.currentStreak == Streak(sessions, today)
      && d.maxStreak == (if Streak(sessions, today) > MaxStreakOf(prev) then Streak(sessions, today) else MaxStreakOf(prev))
      && d.lastSessionTime == LatestStart(sessions)
      && (d.lastSessionTime.Some? ==> LatestDay(sessions) == Some(d.lastSessionTime.value.day))
  {
    LatestStartDay(sessions);
  }
}
