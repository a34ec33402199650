/**
 * The proleptic Gregorian calendar of `java.time.LocalDate` and JavaScript's
 * `Date`, on day numbers counted from 1970-01-01 (an epoch day, as
 * `LocalDate.ofEpochDay` takes it), and the two text forms the statistics
 * service writes: ISO 8601 extended calendar dates `YYYY-MM-DD`
 * (`LocalDate.toString`) and reduced-accuracy months `yyyy-MM`
 * (`DateTimeFormatter.ofPattern("yyyy-MM")`).
 */
module Calendar {
  import opened Decimal
  import opened TextOrder

  datatype Date = Date(year: int, month: int, day: int)

  /** A month of a year, as the `yyyy-MM` buckets name them. */
  datatype YearMonth = YearMonth(year: int, month: int)

  predicate IsLeapYear(y: int) {
    y % 4 == 0 && (y % 100 != 0 || y % 400 == 0)
  }

  function DaysInMonth(y: int, m: int): int {
    if m == 2 then (if IsLeapYear(y) then 29 else 28)
    else if m == 4 || m == 6 || m == 9 || m == 11 then 30
    else 31
  }

  predicate IsValid(d: Date) {
    1 <= d.month <= 12 && 1 <= d.day <= DaysInMonth(d.year, d.month)
  }

  /** Orders dates as (year, month, day) lexicographically. */
  function Rank(d: Date): int {
    d.year * 10000 + d.month * 100 + d.day
  }

  function NextDay(d: Date): (r: Date)
    requires IsValid(d)
    ensures IsValid(r) && Rank(r) > Rank(d)
  {
    if d.day < DaysInMonth(d.year, d.month) then Date(d.year, d.month, d.day + 1)
    else if d.month < 12 then Date(d.year, d.month + 1, 1)
    else Date(d.year + 1, 1, 1)
  }

  function PrevDay(d: Date): (r: Date)
    requires IsValid(d)
    ensures IsValid(r) && Rank(r) < Rank(d)
  {
    if d.day > 1 then Date(d.year, d.month, d.day - 1)
    else if d.month > 1 then Date(d.year, d.month - 1, DaysInMonth(d.year, d.month - 1))
    else Date(d.year - 1, 12, 31)
  }

  const Epoch := Date(1970, 1, 1)

  /** The calendar date of day number `n` (`LocalDate.ofEpochDay(n)`). */
  function DateOf(n: int): (d: Date)
    ensures IsValid(d)
    decreases if n >= 0 then n else -n
  {
    if n == 0 then Epoch
    else if n > 0 then NextDay(DateOf(n - 1))
    else PrevDay(DateOf(n + 1))
  }

  /** Later day numbers are later dates. */
  lemma {:induction false} DateOfMonotone(a: int, b: int)
    requires a < b
    ensures Rank(DateOf(a)) < Rank(DateOf(b))
    decreases b - a
  {
    if a + 1 < b {
      DateOfMonotone(a, b - 1);
      DateOfMonotone(b - 1, b);
    } else if a < 0 {
      assert DateOf(a) == PrevDay(DateOf(a + 1));
    } else {
      assert DateOf(b) == NextDay(DateOf(a));
    }
  }

  /** Distinct day numbers are distinct dates. */
  lemma DateOfInjective(a: int, b: int)
    requires DateOf(a) == DateOf(b)
    ensures a == b
  {
    if a < b {
      DateOfMonotone(a, b);
    } else if b < a {
      DateOfMonotone(b, a);
    }
  }

  /** The years of the days between two day numbers lie between their years. */
  lemma YearBetween(lo: int, n: int, hi: int)
    requires lo <= n <= hi
    ensures DateOf(lo).year <= DateOf(n).year <= DateOf(hi).year
  {
    if lo < n {
      DateOfMonotone(lo, n);
    }
    if n < hi {
      DateOfMonotone(n, hi);
    }
  }

  /** The day of the week of day number `n`, 0 for Sunday (`Date.prototype.getDay`); 1970-01-01 was a Thursday. */
  function Weekday(n: int): (w: int)
    ensures 0 <= w < 7
  {
    (n + 4) % 7
  }

  /** Going back `Weekday(n)` days from day `n` reaches a Sunday. */
  lemma BackToSunday(n: int)
    ensures Weekday(n - Weekday(n)) == 0
  {
    var q, r := (n + 4) / 7, (n + 4) % 7;
    assert n + 4 == 7 * q + r;
    assert n - r + 4 == 7 * q;
  }

  /** Seven days on, the day of the week is the same. */
  lemma WeekdayPeriodic(n: int)
    ensures Weekday(n + 7) == Weekday(n)
  {
    var q, r := (n + 4) / 7, (n + 4) % 7;
    assert n + 11 == 7 * (q + 1) + r;
  }

  /** Months counted from January of year 0, as `LocalDate.plusMonths` counts them. */
  function MonthIndex(ym: YearMonth): int {
    ym.year * 12 + ym.month - 1
  }

  function MonthAt(k: int): (ym: YearMonth)
    ensures 1 <= ym.month <= 12
    ensures MonthIndex(ym) == k
  {
    YearMonth(k / 12, k % 12 + 1)
  }

  lemma MonthAtIndex(ym: YearMonth)
    requires 1 <= ym.month <= 12
    ensures MonthAt(MonthIndex(ym)) == ym
  {
    var k := MonthIndex(ym);
    assert k == 12 * ym.year + (ym.month - 1);
    assert k / 12 == ym.year && k % 12 == ym.month - 1;
  }

  function MonthOf(d: Date): YearMonth {
    YearMonth(d.year, d.month)
  }

  /** The month of `today.minusMonths(i)` (its day of month is then set to 1). */
  function MonthsBefore(today: int, i: int): (ym: YearMonth)
    ensures 1 <= ym.month <= 12
  {
    MonthAt(MonthIndex(MonthOf(DateOf(today))) - i)
  }

  /** Fewer than twelve months apart, two months fall on different months of the year. */
  lemma MonthAtDistinctMonths(k: int, i: int, j: int)
    requires 0 <= i < 12 && 0 <= j < 12 && i != j
    ensures MonthAt(k - i).month != MonthAt(k - j).month
  {
    var a, b := MonthAt(k - i), MonthAt(k - j);
    var dy, dm := a.year - b.year, a.month - b.month;
    assert 12 * dy + dm == j - i;
    assert -12 < j - i < 12 && -12 < dm < 12;
    if dy >= 1 {
      assert 12 * dy >= 12;
    } else if dy <= -1 {
      assert 12 * dy <= -12;
    }
  }

  /** The twelve months back from the month of `today` have twelve different month numbers. */
  lemma MonthsBeforeDistinctMonths(today: int, i: int, j: int)
    requires 0 <= i < 12 && 0 <= j < 12 && i != j
    ensures MonthsBefore(today, i).month != MonthsBefore(today, j).month
  {
    MonthAtDistinctMonths(MonthIndex(MonthOf(DateOf(today))), i, j);
  }

  /** The month index of day number `n`. */
  function MonthNumber(n: int): int {
    MonthIndex(MonthOf(DateOf(n)))
  }

  /** Day number `n + 1` is the day after day number `n`. */
  lemma DateOfSucc(n: int)
    ensures DateOf(n + 1) == NextDay(DateOf(n))
  {
    if n < 0 {
      assert DateOf(n) == PrevDay(DateOf(n + 1));
    }
  }

  /** Going `j` days on, the month index never falls, and within the same month the day of month rises by `j`. */
  lemma {:induction false} DaysAhead(n: int, j: nat)
    ensures MonthNumber(n + j) >= MonthNumber(n)
    ensures MonthNumber(n + j) == MonthNumber(n) ==> DateOf(n + j).day == DateOf(n).day + j
  {
    if j > 0 {
      DaysAhead(n, j - 1);
      DateOfSucc(n + j - 1);
    }
  }

  /** Every `31 * j` days on, the month index has risen by `j` at least: no month is longer than 31 days. */
  lemma {:induction false} MonthsApart(a: int, b: int, j: nat)
    requires a + 31 * j <= b
    ensures MonthNumber(b) >= MonthNumber(a) + j
    decreases j
  {
    if j == 0 {
      DaysAhead(a, b - a);
    } else {
      DaysAhead(a, 31);
      MonthsApart(a + 31, b, j - 1);
    }
  }

  // ---- LocalDate.toString: ISO 8601 extended format ----

  /** The year as `LocalDate.toString` writes it: four digits at least, '+' above 9999, '-' below 0. */
  function YearText(y: int): string {
    if y > 9999 then "+" + Padded(y, 4)
    else if y >= 0 then Padded(y, 4)
    else "-" + Padded(-y, 4)
  }

  /** `LocalDate.toString()`: `YYYY-MM-DD` (section 4.1.2.2 of ISO 8601:2004, extended format). */
  function IsoDate(d: Date): string
    requires IsValid(d)
  {
    YearText(d.year) + "-" + Padded(d.month, 2) + "-" + Padded(d.day, 2)
  }

  /** The key the statistics service uses for day number `n` (`LocalDate.toString`). */
  function DayKey(n: int): string {
    IsoDate(DateOf(n))
  }

  function YearOfText(t: string): int {
    if |t| > 0 && t[0] == '+' && AllDigits(t[1..]) then Value(t[1..])
    else if |t| > 0 && t[0] == '-' && AllDigits(t[1..]) then -(Value(t[1..]) as int)
    else if AllDigits(t) then Value(t)
    else 0
  }

  /** The year text reads back as the year it was written from. */
  lemma YearTextRoundTrip(y: int)
    ensures YearOfText(YearText(y)) == y
  {
    var t := YearText(y);
    if y > 9999 {
      assert t[1..] == Padded(y, 4);
      PaddedValue(y, 4);
    } else if y >= 0 {
      PaddedValue(y, 4);
      PaddedLength(y, 4);
      assert IsDigit(t[0]);
    } else {
      assert t[1..] == Padded(-y, 4);
      PaddedValue(-y, 4);
    }
  }

  lemma IsoDateParts(d: Date)
    requires IsValid(d)
    ensures var s := IsoDate(d);
      |s| >= 6 && s[..|s| - 6] == YearText(d.year)
      && s[|s| - 5..|s| - 3] == Padded(d.month, 2)
      && s[|s| - 2..] == Padded(d.day, 2)
  {
    PaddedLength(d.month, 2);
    PaddedLength(d.day, 2);
    var y, m, dd := YearText(d.year), Padded(d.month, 2), Padded(d.day, 2);
    var s := IsoDate(d);
    assert s == y + "-" + m + "-" + dd;
    assert |s| == |y| + 6;
    assert s[..|s| - 6] == y;
    assert s[|s| - 5..|s| - 3] == m;
    assert s[|s| - 2..] == dd;
  }

  /** Different dates have different ISO texts. */
  lemma IsoDateInjective(a: Date, b: Date)
    requires IsValid(a) && IsValid(b)
    requires IsoDate(a) == IsoDate(b)
    ensures a == b
  {
    IsoDateParts(a);
    IsoDateParts(b);
    PaddedInjective(a.month, b.month, 2);
    PaddedInjective(a.day, b.day, 2);
    YearTextRoundTrip(a.year);
    YearTextRoundTrip(b.year);
  }

  /** Different day numbers have different day keys. */
  lemma DayKeyInjective(a: int, b: int)
    requires DayKey(a) == DayKey(b)
    ensures a == b
  {
    IsoDateInjective(DateOf(a), DateOf(b));
    DateOfInjective(a, b);
  }

  /** A shared leading '-' does not change the order. */
  lemma DashLess(x: string, y: string)
    ensures Less("-" + x, "-" + y) <==> Less(x, y)
  {
    LessConcat("-", x, "-", y);
    LessIrreflexive("-");
  }

  /** A zero-padded field followed by '-' and more text sorts by the field first. */
  lemma FieldLess(x: nat, y: nat, width: nat, q: string, q2: string)
    requires |Padded(x, width)| == width && |Padded(y, width)| == width
    ensures Less(Padded(x, width) + ("-" + q), Padded(y, width) + ("-" + q2))
      <==> x < y || (x == y && Less(q, q2))
  {
    LessConcat(Padded(x, width), "-" + q, Padded(y, width), "-" + q2);
    DashLess(q, q2);
    DigitsOrder(x, y, width);
  }

  lemma RankLess(a: Date, b: Date)
    requires IsValid(a) && IsValid(b)
    ensures Rank(a) < Rank(b) <==>
      a.year < b.year || (a.year == b.year && (a.month < b.month || (a.month == b.month && a.day < b.day)))
  {
    assert DaysInMonth(a.year, a.month) <= 31 && DaysInMonth(b.year, b.month) <= 31;
  }

  lemma IsoDateShape(d: Date)
    requires IsValid(d) && 0 <= d.year <= 9999
    ensures IsoDate(d) == Padded(d.year, 4) + ("-" + (Padded(d.month, 2) + ("-" + Padded(d.day, 2))))
  {
  }

  lemma FieldsLess(a: Date, b: Date)
    requires IsValid(a) && IsValid(b)
    requires 0 <= a.year <= 9999 && 0 <= b.year <= 9999
    ensures Less(Padded(a.year, 4) + ("-" + (Padded(a.month, 2) + ("-" + Padded(a.day, 2)))),
                 Padded(b.year, 4) + ("-" + (Padded(b.month, 2) + ("-" + Padded(b.day, 2)))))
      <==> Rank(a) < Rank(b)
  {
    var da, db := Padded(a.day, 2), Padded(b.day, 2);
    PaddedLength(a.year, 4);
    PaddedLength(b.year, 4);
    PaddedLength(a.month, 2);
    PaddedLength(b.month, 2);
    PaddedLength(a.day, 2);
    PaddedLength(b.day, 2);
    FieldLess(a.year, b.year, 4, Padded(a.month, 2) + ("-" + da), Padded(b.month, 2) + ("-" + db));
    FieldLess(a.month, b.month, 2, da, db);
    DigitsOrder(a.day, b.day, 2);
    RankLess(a, b);
  }

  /** For years 0 to 9999 the ISO texts sort in date order. */
  lemma IsoDateLess(a: Date, b: Date)
    requires IsValid(a) && IsValid(b)
    requires 0 <= a.year <= 9999 && 0 <= b.year <= 9999
    ensures Less(IsoDate(a), IsoDate(b)) <==> Rank(a) < Rank(b)
  {
    IsoDateShape(a);
    IsoDateShape(b);
    FieldsLess(a, b);
  }

  /** Zero-padded numbers of one width compare as their values do. */
  lemma DigitsOrder(x: nat, y: nat, width: nat)
    requires |Padded(x, width)| == width && |Padded(y, width)| == width
    ensures Less(Padded(x, width), Padded(y, width)) <==> x < y
    ensures Padded(x, width) == Padded(y, width) <==> x == y
  {
    PaddedValue(x, width);
    PaddedValue(y, width);
    LessFixedWidth(Padded(x, width), Padded(y, width));
  }

  /** For years 0 to 9999 the day keys sort in day order. */
  lemma DayKeyLess(a: int, b: int)
    requires 0 <= DateOf(a).year <= 9999 && 0 <= DateOf(b).year <= 9999
    ensures Less(DayKey(a), DayKey(b)) <==> a < b
  {
    IsoDateLess(DateOf(a), DateOf(b));
    if a < b {
      DateOfMonotone(a, b);
    } else if b < a {
      DateOfMonotone(b, a);
    }
  }

  // ---- DateTimeFormatter "yyyy-MM" ----

  /** Pattern letter `y` is the year of era: 1 BCE is year 0, 2 BCE is year -1. */
  function YearOfEra(y: int): nat {
    if y >= 1 then y else 1 - y
  }

  /** `yyyy` with sign style EXCEEDS_PAD: four digits at least, '+' when more are needed. */
  function EraYearText(e: nat): string {
    if e > 9999 then "+" + Padded(e, 4) else Padded(e, 4)
  }

  /** `DateTimeFormatter.ofPattern("yyyy-MM")` (section 4.1.2.3 a of ISO 8601:2004 for years of era 1 to 9999). */
  function IsoYearMonth(ym: YearMonth): string
    requires 1 <= ym.month <= 12
  {
    EraYearText(YearOfEra(ym.year)) + "-" + Padded(ym.month, 2)
  }

  /** The key the statistics service uses for the month of day number `n`. */
  function MonthKey(n: int): string {
    IsoYearMonth(MonthOf(DateOf(n)))
  }

  /** The text of `x`, '-' and a two-character field splits back into its parts. */
  lemma JoinParts(x: string, y: string)
    requires |y| == 2
    ensures var s := x + "-" + y; |s| >= 3 && s[..|s| - 3] == x && s[|s| - 2..] == y
  {
    var s := x + "-" + y;
    assert |s| == |x| + 3;
    assert s[..|x|] == x;
    assert s[|x| + 1..] == y;
  }

  lemma IsoYearMonthParts(ym: YearMonth)
    requires 1 <= ym.month <= 12
    ensures var s := IsoYearMonth(ym);
      |s| >= 3 && s[..|s| - 3] == EraYearText(YearOfEra(ym.year))
      && s[|s| - 2..] == Padded(ym.month, 2)
  {
    PaddedLength(ym.month, 2);
    JoinParts(EraYearText(YearOfEra(ym.year)), Padded(ym.month, 2));
  }

  /** Month texts with different month numbers differ. */
  lemma IsoYearMonthMonth(a: YearMonth, b: YearMonth)
    requires 1 <= a.month <= 12 && 1 <= b.month <= 12
    requires IsoYearMonth(a) == IsoYearMonth(b)
    ensures a.month == b.month
  {
    IsoYearMonthParts(a);
    IsoYearMonthParts(b);
    PaddedInjective(a.month, b.month, 2);
  }

  function EraYearOfText(t: string): nat {
    if |t| > 0 && t[0] == '+' && AllDigits(t[1..]) then Value(t[1..])
    else if AllDigits(t) then Value(t)
    else 0
  }

  /** The year-of-era text reads back as the year it was written from. */
  lemma EraYearTextRoundTrip(e: nat)
    ensures EraYearOfText(EraYearText(e)) == e
  {
    var t := EraYearText(e);
    PaddedValue(e, 4);
    if e > 9999 {
      assert t[1..] == Padded(e, 4);
    } else {
      PaddedLength(e, 4);
      assert IsDigit(t[0]);
    }
  }

  /** In the common era, different months have different `yyyy-MM` texts. */
  lemma IsoYearMonthInjective(a: YearMonth, b: YearMonth)
    requires 1 <= a.month <= 12 && 1 <= b.month <= 12
    requires a.year >= 1 && b.year >= 1
    requires IsoYearMonth(a) == IsoYearMonth(b)
    ensures a == b
  {
    IsoYearMonthParts(a);
    IsoYearMonthParts(b);
    PaddedInjective(a.month, b.month, 2);
    EraYearTextRoundTrip(YearOfEra(a.year));
    EraYearTextRoundTrip(YearOfEra(b.year));
  }

  lemma IsoYearMonthShape(ym: YearMonth)
    requires 1 <= ym.month <= 12 && 1 <= ym.year <= 9999
    ensures IsoYearMonth(ym) == Padded(ym.year, 4) + ("-" + Padded(ym.month, 2))
  {
  }

  lemma YearMonthFieldsLess(a: YearMonth, b: YearMonth)
    requires 1 <= a.month <= 12 && 1 <= b.month <= 12
    requires 1 <= a.year <= 9999 && 1 <= b.year <= 9999
    ensures Less(Padded(a.year, 4) + ("-" + Padded(a.month, 2)), Padded(b.year, 4) + ("-" + Padded(b.month, 2)))
      <==> MonthIndex(a) < MonthIndex(b)
  {
    PaddedLength(a.year, 4);
    PaddedLength(b.year, 4);
    PaddedLength(a.month, 2);
    PaddedLength(b.month, 2);
    FieldLess(a.year, b.year, 4, Padded(a.month, 2), Padded(b.month, 2));
    DigitsOrder(a.month, b.month, 2);
  }

  /** For years 1 to 9999 the month texts sort in month order. */
  lemma IsoYearMonthLess(a: YearMonth, b: YearMonth)
    requires 1 <= a.month <= 12 && 1 <= b.month <= 12
    requires 1 <= a.year <= 9999 && 1 <= b.year <= 9999
    ensures Less(IsoYearMonth(a), IsoYearMonth(b)) <==> MonthIndex(a) < MonthIndex(b)
  {
    IsoYearMonthShape(a);
    IsoYearMonthShape(b);
    YearMonthFieldsLess(a, b);
  }
}
