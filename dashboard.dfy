/**
 * The dashboard page's presentation logic: the date keys it looks data up
 * by, the contribution grid with its intensity levels and tooltips, and the
 * key order of the charts. Dates are day numbers in the browser's time zone.
 */
module Dashboard {
  import opened Wrappers
  import opened Decimal
  import opened Calendar
  import opened TextOrder
  import opened JsText
  import opened Sessions
  import opened Series

  // ---- Date keys ----

  /** `formatDateKey(date)`: `String(year)`, then the month and the day padded to two digits, joined by '-'. */
  function FormatDateKey(n: int): string {
    var d := DateOf(n);
    IntText(d.year) + "-" + PadStart(IntText(d.month), 2, '0') + "-" + PadStart(IntText(d.day), 2, '0')
  }

  /** The key is the year, then the month and the day as two digits each. */
  lemma FormatDateKeyParts(n: int)
    ensures var k := FormatDateKey(n); var d := DateOf(n);
      |k| >= 6 && k[..|k| - 6] == IntText(d.year) && k[|k| - 6] == '-' && k[|k| - 3] == '-' &&
      AllDigits(k[|k| - 5..|k| - 3]) && Value(k[|k| - 5..|k| - 3]) == d.month &&
      AllDigits(k[|k| - 2..]) && Value(k[|k| - 2..]) == d.day
  {
    var d := DateOf(n);
    PaddedLength(d.month, 2);
    PaddedLength(d.day, 2);
    PaddedValue(d.month, 2);
    PaddedValue(d.day, 2);
    var y, m, dd := IntText(d.year), Padded(d.month, 2), Padded(d.day, 2);
    var k := FormatDateKey(n);
    assert k == y + "-" + m + "-" + dd;
    assert k[..|k| - 6] == y;
    assert k[|k| - 5..|k| - 3] == m;
    assert k[|k| - 2..] == dd;
  }

  /** For four-digit years the browser's key is the server's `LocalDate.toString` key. */
  lemma FormatDateKeyIsDayKey(n: int)
    requires 1000 <= DateOf(n).year <= 9999
    ensures FormatDateKey(n) == DayKey(n)
  {
    DigitsLength(DateOf(n).year);
  }

  // ---- Intensity levels and tooltips ----

  /** The level cascade of a grid square. */
  function Level(minutes: int): (level: int)
    ensures 0 <= level <= 4
  {
    if minutes > 0 && minutes < 30 then 1
    else if minutes >= 30 && minutes < 60 then 2
    else if minutes >= 60 && minutes < 120 then 3
    else if minutes >= 120 then 4
    else 0
  }

  /** The bands: none, under half an hour, under an hour, under two hours, two hours or more. */
  lemma LevelBands(minutes: int)
    ensures Level(minutes) == 0 <==> minutes <= 0
    ensures Level(minutes) == 1 <==> 0 < minutes < 30
    ensures Level(minutes) == 2 <==> 30 <= minutes < 60
    ensures Level(minutes) == 3 <==> 60 <= minutes < 120
    ensures Level(minutes) == 4 <==> minutes >= 120
  {
  }

  /** More minutes never give a lower level. */
  lemma LevelMonotone(a: int, b: int)
    requires a <= b
    ensures Level(a) <= Level(b)
  {
  }

  /** `data[key] || 0` on an object of numbers: a missing key reads as 0. */
  function MinutesAt(data: map<string, int>, key: string): (m: int)
    ensures key in data ==> m == data[key]
    ensures key !in data ==> m == 0
  {
    OrElse(if key in data then Some(data[key]) else None, 0)
  }

  function Plural(n: int): string {
    if n != 1 then "s" else ""
  }

  /** The tooltip's message for a number of minutes. */
  function TooltipMessage(minutes: int): string {
    if minutes > 0 then
      if minutes < 60 then IntText(minutes) + " minute" + Plural(minutes)
      else
        var h := minutes / 60;
        var m := Rem(minutes, 60);
        if m > 0 then IntText(h) + "h " + IntText(m) + "m" else IntText(h) + " hour" + Plural(h)
    else "No focus time"
  }

  /** Reads a tooltip message back as the minutes it describes. */
  function MinutesOfMessage(msg: string): Option<int> {
    if msg == "No focus time" then Some(0)
    else
      var n := DigitPrefix(msg, 10);
      if n == [] then None else UnitValue(RadixValue(n, 10), msg[|n|..])
  }

  /** The minutes a message means whose leading number is `k` and whose text after it is `rest`. */
  function UnitValue(k: nat, rest: string): Option<int> {
    if rest == " minute" || rest == " minutes" then Some(k)
    else if rest == " hour" || rest == " hours" then Some(60 * k)
    else if |rest| >= 4 && rest[..2] == "h " && rest[|rest| - 1] == 'm' then
      var mm := rest[2..|rest| - 1];
      if DigitPrefix(mm, 10) == mm then Some(60 * k + RadixValue(mm, 10)) else None
    else None
  }

  /** The decimal digits of a number, followed by text that does not start with a digit, are the digit prefix. */
  lemma {:induction false} DigitPrefixOfText(a: string, b: string)
    requires AllDigits(a)
    requires b == [] || !IsDigit(b[0])
    ensures DigitPrefix(a + b, 10) == a
  {
    if a != [] {
      assert (a + b)[1..] == a[1..] + b;
      DigitPrefixOfText(a[1..], b);
      assert a == [a[0]] + a[1..];
    } else {
      assert a + b == b;
    }
  }

  /** The digits of `k` followed by `rest` read back as `k`. */
  lemma NumberThen(k: nat, rest: string)
    requires rest == [] || !IsDigit(rest[0])
    ensures DigitPrefix(Digits(k) + rest, 10) == Digits(k)
    ensures (Digits(k) + rest)[|Digits(k)|..] == rest
    ensures RadixValue(Digits(k), 10) == k
  {
    ValueOfDigits(k);
    DigitPrefixOfText(Digits(k), rest);
    DecimalValue(Digits(k));
  }

  /** A message made of the digits of `k` and a text that starts with no digit reads as `k` with that text. */
  lemma ReadNumber(k: nat, rest: string)
    requires rest == [] || !IsDigit(rest[0])
    ensures MinutesOfMessage(Digits(k) + rest) == UnitValue(k, rest)
  {
    var msg := Digits(k) + rest;
    DigitsAreDigits(k);
    NumberThen(k, rest);
    assert msg[0] == Digits(k)[0];
    assert msg != "No focus time";
  }

  lemma ReadMinutes(k: nat)
    requires 0 < k < 60
    ensures MinutesOfMessage(IntText(k) + " minute" + Plural(k)) == Some(k)
  {
    var rest := " minute" + Plural(k);
    assert IntText(k) + " minute" + Plural(k) == Digits(k) + rest;
    ReadNumber(k, rest);
  }

  lemma ReadHours(h: nat)
    requires h > 0
    ensures MinutesOfMessage(IntText(h) + " hour" + Plural(h)) == Some(60 * h)
  {
    var rest := " hour" + Plural(h);
    assert IntText(h) + " hour" + Plural(h) == Digits(h) + rest;
    ReadNumber(h, rest);
  }

  lemma ReadHoursMinutes(h: nat, m: nat)
    requires h > 0 && m > 0
    ensures MinutesOfMessage(IntText(h) + "h " + IntText(m) + "m") == Some(60 * h + m)
  {
    var dm := Digits(m);
    var tail := "h " + dm + "m";
    assert IntText(h) + "h " + IntText(m) + "m" == Digits(h) + tail;
    ReadNumber(h, tail);
    MinutesField(h, m);
  }

  lemma MinutesField(h: nat, m: nat)
    ensures UnitValue(h, "h " + Digits(m) + "m") == Some(60 * h + m)
  {
    NumberThen(m, []);
    assert Digits(m) + [] == Digits(m);
    UnitOfDigits(h, Digits(m), m);
  }

  /** The text "h ", a run of digits of value `m`, and "m" after a number `h` mean `60 * h + m` minutes. */
  lemma UnitOfDigits(h: nat, dm: string, m: nat)
    requires dm != [] && DigitPrefix(dm, 10) == dm && RadixValue(dm, 10) == m
    ensures UnitValue(h, "h " + dm + "m") == Some(60 * h + m)
  {
    HoursMinutesTail(dm);
  }

  lemma HoursMinutesTail(dm: string)
    requires dm != []
    ensures var tail := "h " + dm + "m";
      |tail| >= 4 && tail[0] == 'h' && tail[..2] == "h " && tail[|tail| - 1] == 'm' && tail[2..|tail| - 1] == dm
  {
    var tail := "h " + dm + "m";
    assert tail[..2] == "h ";
    assert tail[2..|tail| - 1] == dm;
  }

  /** Every message reads back as its number of minutes, so different numbers of minutes give different messages. */
  lemma TooltipRoundTrip(minutes: nat)
    ensures MinutesOfMessage(TooltipMessage(minutes)) == Some(minutes)
  {
    if 0 < minutes < 60 {
      ReadMinutes(minutes);
    } else if minutes >= 60 {
      var h, m := minutes / 60, minutes % 60;
      if m > 0 {
        ReadHoursMinutes(h, m);
      } else {
        ReadHours(h);
      }
    }
  }

  /** The unit is singular exactly when its count is 1: at 1 minute and at 60. */
  lemma TooltipSingular(minutes: int)
    requires minutes > 0
    ensures var msg := TooltipMessage(minutes);
      (msg[|msg| - 1] == 's') <==> (minutes < 60 && minutes != 1) || (minutes > 60 && minutes % 60 == 0)
  {
    if minutes >= 60 && minutes % 60 > 0 {
      assert TooltipMessage(minutes)[|TooltipMessage(minutes)| - 1] == 'm';
    }
  }

  // ---- The contribution grid ----

  /** A filled square: its key, minutes and level, and the day it shows. */
  datatype Cell = Cell(date: string, minutes: int, level: int, day: int)

  function CellOf(data: map<string, int>, d: int): Cell {
    var key := FormatDateKey(d);
    var minutes := MinutesAt(data, key);
    Cell(key, minutes, Level(minutes), d)
  }

  /** The first day shown: 364 days before today, moved back to a Sunday. */
  function GridStart(today: int): int {
    var start := today - 364;
    var startDay := Weekday(start);
    if startDay != 0 then start - startDay else start
  }

  /** The square of day `d`, or a blank one after the last day. */
  function GridCell(data: map<string, int>, end: int, d: int): Option<Cell> {
    if d > end then None else Some(CellOf(data, d))
  }

  /** Week `w` of the grid starting on `start`: seven squares, Sunday first. */
  function GridWeek(data: map<string, int>, start: int, end: int, w: int): seq<Option<Cell>> {
    seq(7, i => GridCell(data, end, start + 7 * w + i))
  }

  /** The grid for `today`: the weeks from the start Sunday that hold a shown day. */
  function Grid(data: map<string, int>, today: int): seq<seq<Option<Cell>>> {
    var start := GridStart(today);
    seq((today - start) / 7 + 1, w => GridWeek(data, start, today, w))
  }

  /** The minutes the grid reads for each day. */
  function MinutesOfDay(data: map<string, int>): int -> int {
    d => MinutesAt(data, FormatDateKey(d))
  }

  /** The number of the `n` days from day `lo` on whose value under `f` is above zero. */
  function CountDays(f: int -> int, lo: int, n: nat): (r: nat)
    ensures r <= n
  {
    if n == 0 then 0 else CountDays(f, lo, n - 1) + (if f(lo + n - 1) > 0 then 1 else 0)
  }

  /** The number of days from `lo` to `hi` with more than zero minutes. */
  function ActiveDays(data: map<string, int>, lo: int, hi: int): nat {
    CountDays(MinutesOfDay(data), lo, if hi < lo then 0 else hi - lo + 1)
  }

  function Min(a: int, b: int): int {
    if a < b then a else b
  }

  /** The grid starts on a Sunday and shows from 365 to 371 days, in 53 weeks. */
  lemma GridStartSunday(today: int)
    ensures Weekday(GridStart(today)) == 0
    ensures 365 <= today - GridStart(today) + 1 <= 371
    ensures (today - GridStart(today)) / 7 + 1 == 53
  {
    BackToSunday(today - 364);
  }

  /**
   * `generateContributionGraph`: the weeks of squares from the start Sunday
   * through today, with blanks after today, and the number of days shown
   * that have minutes.
   */
  method GenerateContributionGraph(contributionData: map<string, int>, today: int)
      returns (weeks: seq<seq<Option<Cell>>>, totalContributions: nat)
    ensures weeks == Grid(contributionData, today)
    ensures totalContributions == ActiveDays(contributionData, GridStart(today), today)
  {
    var endDate := today;
    var startDate := endDate - 364;
    var startDay := Weekday(startDate);
    if startDay != 0 {
      startDate := startDate - startDay;
    }
    assert startDate == GridStart(today);
    ghost var grid := Grid(contributionData, today);
    weeks := [];
    totalContributions := 0;
    var currentDate := startDate;
    while currentDate <= endDate
      invariant currentDate == startDate + 7 * |weeks|
      invariant |weeks| <= |grid| && weeks == grid[..|weeks|]
      invariant |weeks| == |grid| <==> currentDate > endDate
      invariant totalContributions == GridCount(weeks)
      decreases endDate - currentDate
    {
      var week, newTotal := FillWeek(contributionData, startDate, endDate, |weeks|, currentDate, totalContributions);
      assert grid[|weeks|] == week;
      assert grid[..|weeks| + 1] == grid[..|weeks|] + [week];
      assert (weeks + [week])[..|weeks|] == weeks;
      totalContributions := newTotal;
      weeks := weeks + [week];
      currentDate := currentDate + 7;
    }
    assert grid[..|weeks|] == grid;
    GridCountIsActiveDays(contributionData, today);
  }

  /**
   * The inner loop of `generateContributionGraph`: the seven squares of week
   * `w`, from `currentDate` on, adding the days with minutes to `total`.
   */
  method FillWeek(contributionData: map<string, int>, startDate: int, endDate: int, w: nat, currentDate: int, total: nat)
      returns (week: seq<Option<Cell>>, newTotal: nat)
    requires currentDate == startDate + 7 * w
    ensures week == GridWeek(contributionData, startDate, endDate, w)
    ensures newTotal == total + ActiveSquares(week)
  {
    ghost var squares := GridWeek(contributionData, startDate, endDate, w);
    week := [];
    newTotal := total;
    var date := currentDate;
    for i := 0 to 7
      invariant date == currentDate + i
      invariant week == squares[..i]
      invariant newTotal == total + ActiveSquares(week)
    {
      assert squares[..i + 1] == squares[..i] + [squares[i]];
      assert squares[i] == GridCell(contributionData, endDate, date);
      if date > endDate {
        week := week + [None];
      } else {
        var dateKey := FormatDateKey(date);
        var minutes := MinutesAt(contributionData, dateKey);
        if minutes > 0 {
          newTotal := newTotal + 1;
        }
        var level := 0;
        if minutes > 0 && minutes < 30 {
          level := 1;
        } else if minutes >= 30 && minutes < 60 {
          level := 2;
        } else if minutes >= 60 && minutes < 120 {
          level := 3;
        } else if minutes >= 120 {
          level := 4;
        }
        DaySquare(contributionData, endDate, date, dateKey, minutes, level);
        week := week + [Some(Cell(dateKey, minutes, level, date))];
      }
      assert week[..i] == squares[..i];
      date := date + 1;
    }
    assert squares[..7] == squares;
  }

  /** One day's square as the inner loop builds it. */
  lemma DaySquare(data: map<string, int>, end: int, d: int, key: string, minutes: int, level: int)
    requires d <= end
    requires key == FormatDateKey(d) && minutes == MinutesAt(data, key)
    requires level == if 0 < minutes < 30 then 1 else if 30 <= minutes < 60 then 2
      else if 60 <= minutes < 120 then 3 else if minutes >= 120 then 4 else 0
    ensures GridCell(data, end, d) == Some(Cell(key, minutes, level, d))
  {
  }

  /** The number of squares in `week` that are filled and have minutes. */
  function ActiveSquares(week: seq<Option<Cell>>): nat {
    if week == [] then 0
    else ActiveSquares(week[..|week| - 1]) + (if week[|week| - 1].Some? && week[|week| - 1].value.minutes > 0 then 1 else 0)
  }

  /** The number of squares in the weeks `weeks` that are filled and have minutes. */
  function GridCount(weeks: seq<seq<Option<Cell>>>): nat {
    if weeks == [] then 0 else GridCount(weeks[..|weeks| - 1]) + ActiveSquares(weeks[|weeks| - 1])
  }

  /** Week `g` has seven squares for the days from `first` on, filled up to `last` with the value of `f`. */
  predicate WeekShows(f: int -> int, g: seq<Option<Cell>>, first: int, last: int) {
    |g| == 7 &&
    (forall j :: 0 <= j < 7 ==> (g[j].Some? <==> first + j <= last)) &&
    (forall j :: 0 <= j < 7 && g[j].Some? ==> g[j].value.minutes == f(first + j))
  }

  /** The first `i` squares of such a week add their active count to the days before `first`. */
  lemma {:induction false} SquaresCount(f: int -> int, g: seq<Option<Cell>>, lo: int, first: int, last: int, i: nat)
    requires lo <= first <= last && i <= 7
    requires WeekShows(f, g, first, last)
    ensures CountDays(f, lo, Min(first - lo + i, last - lo + 1)) == CountDays(f, lo, first - lo) + ActiveSquares(g[..i])
  {
    if i == 0 {
      assert g[..0] == [];
    } else {
      SquaresCount(f, g, lo, first, last, i - 1);
      assert g[..i][..i - 1] == g[..i - 1];
      ActiveSquaresStep(g[..i]);
    }
  }

  /** Weeks that each show seven days from `start` on: the active squares of the first `k` weeks are the active days they cover. */
  lemma {:induction false} WeeksCount(f: int -> int, weeks: seq<seq<Option<Cell>>>, start: int, last: int, k: nat)
    requires k <= |weeks| && start <= last && start + 7 * (|weeks| - 1) <= last
    requires forall w :: 0 <= w < |weeks| ==> WeekShows(f, weeks[w], start + 7 * w, last)
    ensures GridCount(weeks[..k]) == CountDays(f, start, Min(7 * k, last - start + 1))
  {
    if k > 0 {
      WeeksCount(f, weeks, start, last, k - 1);
      assert weeks[..k][..k - 1] == weeks[..k - 1];
      assert weeks[..k][k - 1] == weeks[k - 1];
      WeeksCountStep(f, weeks[..k], start, last);
    } else {
      assert weeks[..0] == [];
    }
  }

  /** All the weeks together. */
  lemma AllWeeksCount(f: int -> int, weeks: seq<seq<Option<Cell>>>, start: int, last: int)
    requires start <= last && start + 7 * (|weeks| - 1) <= last
    requires forall w :: 0 <= w < |weeks| ==> WeekShows(f, weeks[w], start + 7 * w, last)
    ensures GridCount(weeks) == CountDays(f, start, Min(7 * |weeks|, last - start + 1))
  {
    WeeksCount(f, weeks, start, last, |weeks|);
    assert weeks[..|weeks|] == weeks;
  }

  /** One more week adds its active squares to the days counted before it. */
  lemma WeeksCountStep(f: int -> int, weeks: seq<seq<Option<Cell>>>, start: int, last: int)
    requires weeks != [] && start <= last && start + 7 * (|weeks| - 1) <= last
    requires WeekShows(f, weeks[|weeks| - 1], start + 7 * (|weeks| - 1), last)
    requires GridCount(weeks[..|weeks| - 1]) == CountDays(f, start, Min(7 * (|weeks| - 1), last - start + 1))
    ensures GridCount(weeks) == CountDays(f, start, Min(7 * |weeks|, last - start + 1))
  {
    var k := |weeks|;
    var g := weeks[k - 1];
    var first := start + 7 * (k - 1);
    var before, upTo := Min(7 * (k - 1), last - start + 1), Min(7 * k, last - start + 1);
    assert before == first - start;
    assert upTo == Min(first - start + 7, last - start + 1);
    SquaresCount(f, g, start, first, last, 7);
    assert g[..7] == g;
    GridCountStep(weeks);
  }

  lemma GridCountStep(weeks: seq<seq<Option<Cell>>>)
    requires weeks != []
    ensures GridCount(weeks) == GridCount(weeks[..|weeks| - 1]) + ActiveSquares(weeks[|weeks| - 1])
  {
  }

  /** The squares of week `w` are filled up to today, with the minutes of their days. */
  lemma WeekMinutes(data: map<string, int>, today: int, w: int)
    requires 0 <= w < 53
    ensures |Grid(data, today)| == 53
    ensures WeekShows(MinutesOfDay(data), Grid(data, today)[w], GridStart(today) + 7 * w, today)
  {
    GridAt(data, today, w, 0);
    forall j | 0 <= j < 7
      ensures Grid(data, today)[w][j] == GridCell(data, today, GridStart(today) + 7 * w + j)
    {
      GridAt(data, today, w, j);
    }
  }

  /** Every week of the grid shows its seven days from the start Sunday on, filled up to today. */
  lemma GridWeeksShow(data: map<string, int>, today: int)
    ensures |Grid(data, today)| == 53
    ensures forall w :: 0 <= w < 53 ==> WeekShows(MinutesOfDay(data), Grid(data, today)[w], GridStart(today) + 7 * w, today)
  {
    GridStartSunday(today);
    forall w | 0 <= w < 53
      ensures WeekShows(MinutesOfDay(data), Grid(data, today)[w], GridStart(today) + 7 * w, today)
    {
      WeekMinutes(data, today, w);
    }
  }

  /** Counting the active squares of the grid counts the active days it shows. */
  lemma GridCountIsActiveDays(data: map<string, int>, today: int)
    ensures GridCount(Grid(data, today)) == ActiveDays(data, GridStart(today), today)
  {
    GridStartSunday(today);
    GridWeeksShow(data, today);
    AllWeeksCount(MinutesOfDay(data), Grid(data, today), GridStart(today), today);
    assert Min(7 * 53, today - GridStart(today) + 1) == today - GridStart(today) + 1;
  }

  lemma ActiveSquaresStep(week: seq<Option<Cell>>)
    requires week != []
    ensures ActiveSquares(week) == ActiveSquares(week[..|week| - 1]) + (if week[|week| - 1].Some? && week[|week| - 1].value.minutes > 0 then 1 else 0)
  {
  }

  /** The grid has 53 weeks of seven squares; square `i` of week `w` is for the day `7 * w + i` after the start. */
  lemma GridAt(data: map<string, int>, today: int, w: int, i: int)
    requires 0 <= w < 53 && 0 <= i < 7
    ensures |Grid(data, today)| == 53 && |Grid(data, today)[w]| == 7
    ensures Grid(data, today)[w][i] == GridCell(data, today, GridStart(today) + 7 * w + i)
  {
    GridStartSunday(today);
  }

  /** Every week has seven squares; a blank square lies in the last week, and so does every square after it. */
  lemma GridWeeks(data: map<string, int>, today: int, w: int, i: int)
    requires 0 <= w < |Grid(data, today)| && 0 <= i < 7
    ensures |Grid(data, today)[w]| == 7
    ensures Grid(data, today)[w][i].None? ==>
      w == |Grid(data, today)| - 1 && forall j :: i <= j < 7 ==> Grid(data, today)[w][j].None?
  {
    GridStartSunday(today);
    GridAt(data, today, w, i);
    forall j | i <= j < 7
      ensures Grid(data, today)[w][i].None? ==> Grid(data, today)[w][j].None?
    {
      GridAt(data, today, w, j);
    }
  }

  /** A filled square in week `w`, column `i` shows the day `7 * w + i` after the start, which falls on weekday `i`, from the start to today. */
  lemma GridSquareDay(data: map<string, int>, today: int, w: int, i: int)
    requires 0 <= w < |Grid(data, today)| && 0 <= i < 7
    requires Grid(data, today)[w][i].Some?
    ensures var d := Grid(data, today)[w][i].value.day;
      d == GridStart(today) + 7 * w + i && GridStart(today) <= d <= today && Weekday(d) == i
      && Grid(data, today)[w][i].value == CellOf(data, d)
  {
    GridStartSunday(today);
    GridAt(data, today, w, i);
    SundayPlus(GridStart(today), w, i);
  }

  /** The day `7 * w + i` after a Sunday falls on weekday `i`. */
  lemma SundayPlus(s: int, w: int, i: int)
    requires Weekday(s) == 0 && 0 <= i < 7
    ensures Weekday(s + 7 * w + i) == i
  {
    var q := (s + 4) / 7;
    assert s + 4 == 7 * q;
    assert s + 7 * w + i + 4 == 7 * (q + w) + i;
  }

  /** Each day from the start through today has its square, at its own week and weekday. */
  lemma GridShowsDay(data: map<string, int>, today: int, d: int)
    requires GridStart(today) <= d <= today
    ensures var w, i := (d - GridStart(today)) / 7, (d - GridStart(today)) % 7;
      0 <= w < |Grid(data, today)| && Grid(data, today)[w][i] == Some(CellOf(data, d))
  {
    DayPosition(today, d);
    GridAtDay(data, today, (d - GridStart(today)) / 7, (d - GridStart(today)) % 7, d);
  }

  /** The square at week `w`, column `i` is the square of its day `d`. */
  lemma GridAtDay(data: map<string, int>, today: int, w: int, i: int, d: int)
    requires 0 <= w < 53 && 0 <= i < 7 && d == GridStart(today) + 7 * w + i
    ensures |Grid(data, today)| == 53 && Grid(data, today)[w][i] == GridCell(data, today, d)
  {
    GridAt(data, today, w, i);
  }

  /** A day from the start through today lies in one of the 53 weeks. */
  lemma DayPosition(today: int, d: int)
    requires GridStart(today) <= d <= today
    ensures 0 <= (d - GridStart(today)) / 7 < 53
    ensures d == GridStart(today) + 7 * ((d - GridStart(today)) / 7) + (d - GridStart(today)) % 7
  {
    GridStartSunday(today);
  }

  /** Squares further along the grid show later days: the days appear in increasing order. */
  lemma GridOrdered(data: map<string, int>, today: int, w: int, i: int, w2: int, i2: int)
    requires 0 <= w < |Grid(data, today)| && 0 <= i < 7 && 0 <= w2 < |Grid(data, today)| && 0 <= i2 < 7
    requires 7 * w + i < 7 * w2 + i2
    requires Grid(data, today)[w][i].Some? && Grid(data, today)[w2][i2].Some?
    ensures Grid(data, today)[w][i].value.day < Grid(data, today)[w2][i2].value.day
  {
    GridSquareDay(data, today, w, i);
    GridSquareDay(data, today, w2, i2);
  }

  /** The count of `CountDays` is the size of the set of days it counts. */
  lemma {:induction false} CountDaysIsSetSize(f: int -> int, lo: int, n: nat)
    ensures CountDays(f, lo, n) == |set d | lo <= d < lo + n && f(d) > 0|
  {
    if n == 0 {
      assert (set d | lo <= d < lo + n && f(d) > 0) == {};
    } else {
      CountDaysIsSetSize(f, lo, n - 1);
      DaysWithStep(f, lo, n - 1);
    }
  }

  /** One more day adds itself to the days counted when its value is above zero. */
  lemma DaysWithStep(f: int -> int, lo: int, n: nat)
    ensures |set d | lo <= d < lo + n + 1 && f(d) > 0|
      == |set d | lo <= d < lo + n && f(d) > 0| + if f(lo + n) > 0 then 1 else 0
  {
    var s0 := set d | lo <= d < lo + n && f(d) > 0;
    var s := set d | lo <= d < lo + n + 1 && f(d) > 0;
    if f(lo + n) > 0 {
      assert s == s0 + {lo + n};
      assert lo + n !in s0;
    } else {
      assert s == s0;
    }
  }

  /** The count of active days is the number of days from `lo` to `hi` that have minutes, and so at most the number of days. */
  lemma ActiveDaysIsCount(data: map<string, int>, lo: int, hi: int)
    ensures ActiveDays(data, lo, hi) == |set d | lo <= d <= hi && MinutesAt(data, FormatDateKey(d)) > 0|
    ensures ActiveDays(data, lo, hi) <= if hi < lo then 0 else hi - lo + 1
  {
    var n := if hi < lo then 0 else hi - lo + 1;
    CountDaysIsSetSize(MinutesOfDay(data), lo, n);
    assert (set d | lo <= d < lo + n && MinutesOfDay(data)(d) > 0)
      == (set d | lo <= d <= hi && MinutesAt(data, FormatDateKey(d)) > 0);
  }

  /**
   * With the server's contribution map for the same day, in four-digit
   * years, each square shows the wrapped completed minutes of its day, and
   * the days before the server's 365 read as 0.
   */
  lemma GridShowsContributions(allSessions: seq<Session>, contributionData: map<string, Int32>, today: int, d: int)
    requires contributionData.Keys == DayWindow(today - 364, today)
    requires forall x :: today - 364 <= x <= today ==> contributionData[DayKey(x)] == Wrap(DayMinutes(allSessions, x))
    requires 1000 <= DateOf(GridStart(today)).year && DateOf(today).year <= 9999
    requires GridStart(today) <= d <= today
    ensures CellOf(contributionData, d).minutes == if d >= today - 364 then Wrap(DayMinutes(allSessions, d)) else 0
  {
    YearBetween(GridStart(today), d, today);
    FormatDateKeyIsDayKey(d);
    if d < today - 364 {
      if DayKey(d) in contributionData {
        var x :| today - 364 <= x <= today && DayKey(x) == DayKey(d);
        DayKeyInjective(x, d);
      }
    }
  }

  // ---- Chart keys ----

  /** `sortedKeys.map(key => Math.round(data[key] || 0))` on whole numbers. */
  method ChartMinutes(data: map<string, int>, sortedKeys: seq<string>) returns (minutes: seq<int>)
    ensures |minutes| == |sortedKeys|
    ensures forall j :: 0 <= j < |sortedKeys| ==> minutes[j] == MinutesAt(data, sortedKeys[j])
  {
    minutes := [];
    var j := 0;
    while j < |sortedKeys|
      invariant 0 <= j <= |sortedKeys|
      invariant |minutes| == j
      invariant forall k :: 0 <= k < j ==> minutes[k] == MinutesAt(data, sortedKeys[k])
    {
      minutes := minutes + [MinutesAt(data, sortedKeys[j])];
      j := j + 1;
    }
  }

  /** The week chart: the keys of the last seven days, oldest first, and their minutes. */
  method PrepareWeekChart(weeklyData: map<string, int>, today: int) returns (sortedKeys: seq<string>, minutes: seq<int>)
    ensures sortedKeys == KeysFrom(FormatDateKey, today - 6, 7)
    ensures |minutes| == 7 && forall j :: 0 <= j < 7 ==> minutes[j] == MinutesAt(weeklyData, sortedKeys[j])
  {
    sortedKeys := LastWeekKeys(FormatDateKey, today);
    minutes := ChartMinutes(weeklyData, sortedKeys);
  }

  /** The loop of the week chart: the key of each of the last seven days, from six days ago through today. */
  method LastWeekKeys(formatDateKey: int -> string, today: int) returns (sortedKeys: seq<string>)
    ensures sortedKeys == KeysFrom(formatDateKey, today - 6, 7)
  {
    sortedKeys := [];
    var i := 6;
    while i >= 0
      invariant -1 <= i <= 6
      invariant sortedKeys == KeysFrom(formatDateKey, today - 6, 6 - i)
    {
      KeysFromSnoc(formatDateKey, today - 6, 6 - i, today - i);
      sortedKeys := sortedKeys + [formatDateKey(today - i)];
      i := i - 1;
    }
  }

  /** The month and year charts: the keys in sort order, and their minutes. */
  method PrepareSortedChart(data: map<string, int>, keys: seq<string>) returns (sortedKeys: seq<string>, minutes: seq<int>)
    ensures sortedKeys == Sort(keys)
    ensures |minutes| == |sortedKeys|
    ensures forall j :: 0 <= j < |sortedKeys| ==> minutes[j] == MinutesAt(data, sortedKeys[j])
  {
    sortedKeys := Sort(keys);
    minutes := ChartMinutes(data, sortedKeys);
  }

  /** In four-digit years the week chart's keys are the server's weekly keys, in day order. */
  lemma WeekChartKeys(today: int)
    requires 1000 <= DateOf(today - 6).year && DateOf(today).year <= 9999
    ensures KeysFrom(FormatDateKey, today - 6, 7) == DayKeysFrom(today - 6, today)
    ensures Ascending(FormatDateKey, today - 6, today)
  {
    forall d | today - 6 <= d <= today
      ensures FormatDateKey(d) == DayKey(d)
    {
      YearBetween(today - 6, d, today);
      FormatDateKeyIsDayKey(d);
    }
    DayKeysAscending(today - 6, today);
    assert KeysFrom(FormatDateKey, today - 6, 7) == KeysFrom(DayKey, today - 6, 7);
  }

  /** The keys `key(lo)` to `key(lo + n - 1)`, in that order. */
  function KeysFrom(key: int -> string, lo: int, n: nat): (t: seq<string>)
    ensures |t| == n
  {
    seq(n, j => key(lo + j))
  }

  /** One key more: the keys from `lo` for one more day end with the key of that day `d`. */
  lemma KeysFromSnoc(key: int -> string, lo: int, m: nat, d: int)
    requires d == lo + m
    ensures KeysFrom(key, lo, m + 1) == KeysFrom(key, lo, m) + [key(d)]
  {
  }

  /** From `lo` to `hi`, later arguments have greater keys. */
  predicate Ascending(key: int -> string, lo: int, hi: int) {
    forall a, b :: lo <= a < b <= hi ==> Less(key(a), key(b))
  }

  /** Sorting a listing of the keys of a window of `n` ascending keys gives them in window order. */
  lemma SortWindow(key: int -> string, lo: int, hi: int, n: nat, keys: seq<string>)
    requires n == hi - lo + 1
    requires Distinct(keys)
    requires Ascending(key, lo, hi)
    requires forall x :: x in keys <==> x in Window(key, lo, hi)
    ensures Sort(keys) == KeysFrom(key, lo, n)
  {
    var t := KeysFrom(key, lo, n);
    forall i, j | 0 <= i < j < |t|
      ensures Less(t[i], t[j])
    {
      assert t[i] == key(lo + i) && t[j] == key(lo + j);
    }
    forall x
      ensures x in keys <==> x in t
    {
      if x in Window(key, lo, hi) {
        var d :| lo <= d <= hi && x == key(d);
        assert t[d - lo] == x;
      }
      if x in t {
        var j :| 0 <= j < |t| && t[j] == x;
        assert x == key(lo + j);
      }
    }
    SortIsTheSortedOrder(keys, t);
  }

  /** The days from `lo` to `hi` as keys, oldest first. */
  function DayKeysFrom(lo: int, hi: int): seq<string> {
    KeysFrom(DayKey, lo, if hi < lo then 0 else hi - lo + 1)
  }

  /** In years 0 to 9999, later days have greater keys. */
  lemma DayKeysAscending(lo: int, hi: int)
    requires 0 <= DateOf(lo).year && DateOf(hi).year <= 9999
    ensures Ascending(DayKey, lo, hi)
  {
    forall a, b | lo <= a < b <= hi
      ensures Less(DayKey(a), DayKey(b))
    {
      YearBetween(lo, a, hi);
      YearBetween(lo, b, hi);
      DayKeyLess(a, b);
    }
  }

  /** Sorting a listing of the keys of the days `lo` to `hi` puts them in day order, for years 0 to 9999. */
  lemma DayKeysSortChronologically(keys: seq<string>, lo: int, hi: int)
    requires Distinct(keys)
    requires forall x :: x in keys <==> x in DayWindow(lo, hi)
    requires lo <= hi && 0 <= DateOf(lo).year && DateOf(hi).year <= 9999
    ensures Sort(keys) == DayKeysFrom(lo, hi)
  {
    DayKeysAscending(lo, hi);
    SortWindow(DayKey, lo, hi, hi - lo + 1, keys);
  }

  /** The keys `key(hi)` down to `key(hi - n + 1)`, in that order. */
  function KeysDown(key: int -> string, hi: int, n: nat): (t: seq<string>)
    ensures |t| == n
  {
    seq(n, j => key(hi - j))
  }

  /** From `lo` to `hi`, later arguments have smaller keys. */
  predicate Descending(key: int -> string, lo: int, hi: int) {
    forall a, b :: lo <= a < b <= hi ==> Less(key(b), key(a))
  }

  /** Sorting a listing of the keys of a window of `n` descending keys gives them in reverse window order. */
  lemma SortWindowDown(key: int -> string, lo: int, hi: int, n: nat, keys: seq<string>)
    requires n == hi - lo + 1
    requires Distinct(keys)
    requires Descending(key, lo, hi)
    requires forall x :: x in keys <==> x in Window(key, lo, hi)
    ensures Sort(keys) == KeysDown(key, hi, n)
  {
    var t := KeysDown(key, hi, n);
    forall i, j | 0 <= i < j < |t|
      ensures Less(t[i], t[j])
    {
      assert t[i] == key(hi - i) && t[j] == key(hi - j);
    }
    forall x
      ensures x in keys <==> x in t
    {
      if x in Window(key, lo, hi) {
        var d :| lo <= d <= hi && x == key(d);
        assert t[hi - d] == x;
      }
      if x in t {
        var j :| 0 <= j < |t| && t[j] == x;
        assert x == key(hi - j);
      }
    }
    SortIsTheSortedOrder(keys, t);
  }

  /** The twelve month keys of the yearly statistics, oldest first. */
  function MonthKeysOldestFirst(today: int): seq<string> {
    KeysDown(MonthKeyBefore(today), 11, 12)
  }

  /** Month `k - i`, for `i` from 0 to 11, lies between month `k - 11` and month `k`, so its year does too. */
  lemma MonthAtYear(k: int, i: int)
    requires 0 <= i < 12
    ensures MonthAt(k - 11).year <= MonthAt(k - i).year <= MonthAt(k).year
  {
    assert (k - 11) / 12 <= (k - i) / 12 <= k / 12;
  }

  /** In years 1 to 9999, of the twelve months, the one further back has the smaller key. */
  lemma MonthKeysDescending(today: int)
    requires 1 <= MonthsBefore(today, 11).year && MonthsBefore(today, 0).year <= 9999
    ensures Descending(MonthKeyBefore(today), 0, 11)
  {
    MonthRowsKeys(today);
    MonthKeysByRows(today);
  }

  /** The twelve months back from `today` lie in years 1 to 9999. */
  predicate MonthsInRange(today: int) {
    1 <= MonthsBefore(today, 11).year && MonthsBefore(today, 0).year <= 9999
  }

  /** The key of the month `i` months back from `today`. */
  function MonthKeyAt(today: int, i: int): string {
    MonthKeyBefore(today)(i)
  }

  lemma MonthRowsKeys(today: int)
    requires MonthsInRange(today)
    ensures forall a :: 0 <= a <= 11 ==> forall b :: a < b <= 11 ==> Less(MonthKeyAt(today, b), MonthKeyAt(today, a))
  {
    forall a | 0 <= a <= 11
      ensures forall b :: a < b <= 11 ==> Less(MonthKeyAt(today, b), MonthKeyAt(today, a))
    {
      MonthRowKeys(today, a);
    }
  }

  /** The month keys are descending when each one is above every key after it. */
  lemma MonthKeysByRows(today: int)
    requires forall a :: 0 <= a <= 11 ==> forall b :: a < b <= 11 ==> Less(MonthKeyAt(today, b), MonthKeyAt(today, a))
    ensures Descending(MonthKeyBefore(today), 0, 11)
  {
    forall a, b | 0 <= a < b <= 11
      ensures Less(MonthKeyBefore(today)(b), MonthKeyBefore(today)(a))
    {
      assert Less(MonthKeyAt(today, b), MonthKeyAt(today, a));
    }
  }

  lemma MonthRowKeys(today: int, a: int)
    requires 0 <= a <= 11 && MonthsInRange(today)
    ensures forall b :: a < b <= 11 ==> Less(MonthKeyAt(today, b), MonthKeyAt(today, a))
  {
    forall b | a < b <= 11
      ensures Less(MonthKeyAt(today, b), MonthKeyAt(today, a))
    {
      MonthPairKeys(today, a, b);
    }
  }

  lemma MonthPairKeys(today: int, a: int, b: int)
    requires 0 <= a < b < 12 && MonthsInRange(today)
    ensures Less(MonthKeyBefore(today)(b), MonthKeyBefore(today)(a))
  {
    MonthPairLess(MonthIndex(MonthOf(DateOf(today))), a, b);
    MonthKeysInOrder(today, a, b);
  }

  /** The order of the keys of the months `b` and `a` back is the order of their texts. */
  lemma MonthKeysInOrder(today: int, a: int, b: int)
    requires Less(IsoYearMonth(MonthAt(MonthIndex(MonthOf(DateOf(today))) - b)), IsoYearMonth(MonthAt(MonthIndex(MonthOf(DateOf(today))) - a)))
    ensures Less(MonthKeyBefore(today)(b), MonthKeyBefore(today)(a))
  {
    MonthKeyBeforeAt(today, a);
    MonthKeyBeforeAt(today, b);
  }

  lemma MonthKeyBeforeAt(today: int, i: int)
    ensures MonthKeyBefore(today)(i) == IsoYearMonth(MonthAt(MonthIndex(MonthOf(DateOf(today))) - i))
  {
  }

  /** Of two of the twelve months back from month `k`, the one further back has the smaller key. */
  lemma MonthPairLess(k: int, a: int, b: int)
    requires 0 <= a < b < 12 && 1 <= MonthAt(k - 11).year && MonthAt(k).year <= 9999
    ensures Less(IsoYearMonth(MonthAt(k - b)), IsoYearMonth(MonthAt(k - a)))
  {
    MonthAtYear(k, a);
    MonthAtYear(k, b);
    IsoYearMonthLess(MonthAt(k - b), MonthAt(k - a));
  }

  /** Sorting a listing of the twelve month keys puts them in month order, for years 1 to 9999. */
  lemma MonthKeysSortChronologically(keys: seq<string>, today: int)
    requires Distinct(keys)
    requires forall x :: x in keys <==> x in MonthWindow(today)
    requires 1 <= MonthsBefore(today, 11).year && MonthsBefore(today, 0).year <= 9999
    ensures Sort(keys) == MonthKeysOldestFirst(today)
  {
    MonthKeysDescending(today);
    SortWindowDown(MonthKeyBefore(today), 0, 11, 12, keys);
  }
}
