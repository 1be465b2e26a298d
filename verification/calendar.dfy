/** The proleptic Gregorian calendar on integer day numbers. This stands in
    for the date-fns helpers the views call (`addDays`, `addWeeks`,
    `addMonths`, `startOfWeek`, `startOfMonth`, `isSameDay`), for the
    `Date` methods `getMonth` and `getDay`, and for the day of the month that
    `format(day, "d")` prints.

    A day is an integer counted from 1970-01-01, the day that JavaScript
    timestamps start from. A month is a serial `m == 12 * year + monthIndex`
    with a 0-based month index, as JavaScript's `getMonth` returns it. */
module Calendar {

  /** Milliseconds in one calendar day. */
  const MsPerDay := 86_400_000

  /** 1970-01-01 (day 0) was a Thursday. */
  const EpochWeekday := 4

  /** The serial of January 1970, the month that holds day 0. */
  const EpochMonth := 12 * 1970

  /** Number of days from 0000-01-01 to 1970-01-01. */
  const DaysBeforeEpoch := 719_528

  /** The calendar day of a timestamp in milliseconds (rounded down, so a
      timestamp before the epoch falls on a negative day). */
  function DayOf(t: int): (d: int)
    ensures d * MsPerDay <= t < (d + 1) * MsPerDay
  {
    t / MsPerDay
  }

  /** Day of the week, 0 = Sunday ... 6 = Saturday. */
  function Weekday(d: int): (w: int)
    ensures 0 <= w < 7
  {
    (d + EpochWeekday) % 7
  }

  /** `startOfWeek` with weeks starting on Sunday: the Sunday on or before `d`. */
  function StartOfWeek(d: int): (s: int)
    ensures Weekday(s) == 0
    ensures s <= d < s + 7
  {
    d - Weekday(d)
  }

  /** A Sunday-aligned week has exactly one start. */
  lemma StartOfWeekUnique(d: int, s: int)
    requires Weekday(s) == 0 && s <= d < s + 7
    ensures StartOfWeek(d) == s
  {
  }

  predicate IsLeapYear(y: int) {
    y % 4 == 0 && (y % 100 != 0 || y % 400 == 0)
  }

  /** Length of month `mi` (0-based) of year `y`. */
  function DaysInMonth(y: int, mi: int): (n: int)
    requires 0 <= mi < 12
    ensures 28 <= n <= 31
    ensures n == 29 <==> mi == 1 && IsLeapYear(y)
  {
    if mi == 1 then (if IsLeapYear(y) then 29 else 28)
    else if mi == 3 || mi == 5 || mi == 8 || mi == 10 then 30
    else 31
  }

  /** Days of year `y` that precede the 1st of month `mi`. */
  function DaysBeforeMonth(y: int, mi: int): int
    requires 0 <= mi < 12
  {
    [0, 31, 59, 90, 120, 151, 181, 212, 243, 273, 304, 334][mi]
    + (if mi >= 2 && IsLeapYear(y) then 1 else 0)
  }

  /** The number of leap years in `[0, y)` for `y >= 0`, and its continuation
      to earlier years. */
  function LeapYearsBefore(y: int): int {
    (y + 3) / 4 - (y + 99) / 100 + (y + 399) / 400
  }

  /** Day number of January 1st of year `y`. */
  function DaysBeforeYear(y: int): int {
    365 * y + LeapYearsBefore(y) - DaysBeforeEpoch
  }

  /** The year a month serial belongs to. */
  function YearOf(m: int): int {
    m / 12
  }

  /** The 0-based index of a month within its year (JavaScript `getMonth`). */
  function MonthIndex(m: int): (mi: int)
    ensures 0 <= mi < 12
    ensures m == 12 * YearOf(m) + mi
  {
    m % 12
  }

  /** Number of days of month `m`. */
  function Length(m: int): (n: int)
    ensures 28 <= n <= 31
  {
    DaysInMonth(YearOf(m), MonthIndex(m))
  }

  /** Number of days of year `y`. */
  function YearLength(y: int): int {
    if IsLeapYear(y) then 366 else 365
  }

  /** Day number of January 1st of year `y`, found by walking year by year
      from 1970. */
  function YearStart(y: int): int
    decreases if y >= 1970 then y - 1970 else 1970 - y
  {
    if y == 1970 then 0
    else if y > 1970 then YearStart(y - 1) + YearLength(y - 1)
    else YearStart(y + 1) - YearLength(y)
  }

  /** Day number of the 1st of month `m`. */
  function FirstDay(m: int): int {
    YearStart(YearOf(m)) + DaysBeforeMonth(YearOf(m), MonthIndex(m))
  }

  /** Day `d` lies in month `m`. */
  predicate InMonth(d: int, m: int) {
    FirstDay(m) <= d < FirstDay(m) + Length(m)
  }

  /** Consecutive months tile the day line: the month after `m` starts on the
      day after `m`'s last day, across year ends and leap days too. */
  lemma NextMonthFollows(m: int)
    ensures FirstDay(m + 1) == FirstDay(m) + Length(m)
  {
    var y, mi := YearOf(m), MonthIndex(m);
    if mi < 11 {
      assert YearOf(m + 1) == y && MonthIndex(m + 1) == mi + 1;
    } else {
      assert YearOf(m + 1) == y + 1 && MonthIndex(m + 1) == 0;
      assert YearStart(y + 1) == YearStart(y) + YearLength(y);
    }
  }

  /** Rounding `y / k` up steps by one exactly past a multiple of `k`, for
      the three divisors of the leap-year rule. */
  lemma CeilingStep(y: int, k: int)
    requires k == 4 || k == 100 || k == 400
    ensures (y + k) / k == (y + k - 1) / k + (if y % k == 0 then 1 else 0)
  {
    if k == 4 {
      assert (y + 4) / 4 == y / 4 + 1;
      assert (y + 3) / 4 == y / 4 + (if y % 4 == 0 then 0 else 1);
    } else if k == 100 {
      assert (y + 100) / 100 == y / 100 + 1;
      assert (y + 99) / 100 == y / 100 + (if y % 100 == 0 then 0 else 1);
    } else {
      assert (y + 400) / 400 == y / 400 + 1;
      assert (y + 399) / 400 == y / 400 + (if y % 400 == 0 then 0 else 1);
    }
  }

  /** A multiple of `k * n` is a multiple of `k`, for the divisors of the
      leap-year rule. */
  lemma MultipleOfMultiple(y: int, k: int, n: int)
    requires (k == 100 && n == 4) || (k == 4 && n == 25)
    requires y % (k * n) == 0
    ensures y % k == 0
  {
    var q := y / (k * n);
    assert y == k * (n * q);
  }

  /** Passing year `y` adds one to the leap-year count exactly when `y` is a
      leap year. */
  lemma LeapYearsStep(y: int)
    ensures LeapYearsBefore(y + 1) == LeapYearsBefore(y) + (if IsLeapYear(y) then 1 else 0)
  {
    CeilingStep(y, 4);
    CeilingStep(y, 100);
    CeilingStep(y, 400);
    if y % 400 == 0 {
      MultipleOfMultiple(y, 100, 4);
    }
    if y % 100 == 0 {
      MultipleOfMultiple(y, 4, 25);
    }
  }

  /** The year-by-year walk agrees with the Gregorian closed form: 365 days
      a year plus one for each leap year passed. */
  lemma {:induction false} YearStartIsGregorian(y: int)
    ensures YearStart(y) == DaysBeforeYear(y)
    decreases if y >= 1970 then y - 1970 else 1970 - y
  {
    if y == 1970 {
      assert LeapYearsBefore(1970) == 478;
    } else if y > 1970 {
      YearStartIsGregorian(y - 1);
      LeapYearsStep(y - 1);
    } else {
      YearStartIsGregorian(y + 1);
      LeapYearsStep(y);
    }
  }

  /** Later months start after earlier months end. */
  lemma {:induction false} FirstDayIncreasing(m1: int, m2: int)
    requires m1 < m2
    ensures FirstDay(m1) + Length(m1) <= FirstDay(m2)
    decreases m2 - m1
  {
    NextMonthFollows(m1);
    var next := FirstDay(m1 + 1);
    assert FirstDay(m1) + Length(m1) == next;
    if m1 + 1 < m2 {
      FirstDayIncreasing(m1 + 1, m2);
      assert next + Length(m1 + 1) <= FirstDay(m2);
    }
  }

  /** Every day lies in at most one month. */
  lemma MonthUnique(d: int, m1: int, m2: int)
    requires InMonth(d, m1) && InMonth(d, m2)
    ensures m1 == m2
  {
    if m1 < m2 {
      FirstDayIncreasing(m1, m2);
    } else if m2 < m1 {
      FirstDayIncreasing(m2, m1);
    }
  }

  /** Walks from month `m` towards the month holding `d`. */
  function MonthSearch(d: int, m: int): (r: int)
    ensures InMonth(d, r)
    decreases if d < FirstDay(m) then FirstDay(m) - d + 32 else d - FirstDay(m)
  {
    NextMonthFollows(m);
    NextMonthFollows(m - 1);
    if d < FirstDay(m) then MonthSearch(d, m - 1)
    else if d < FirstDay(m) + Length(m) then m
    else MonthSearch(d, m + 1)
  }

  /** The month that holds day `d`. The search starts from an estimate
      (400 Gregorian years are 4800 months and 146097 days). */
  function MonthOf(d: int): (m: int)
    ensures InMonth(d, m)
  {
    MonthSearch(d, EpochMonth + d * 4800 / 146_097)
  }

  /** `MonthOf` is the only month that holds `d`. */
  lemma MonthOfIs(d: int, m: int)
    requires InMonth(d, m)
    ensures MonthOf(d) == m
  {
    MonthUnique(d, MonthOf(d), m);
  }

  /** `startOfMonth`: the 1st of the month holding `d`. */
  function StartOfMonth(d: int): (s: int)
    ensures s <= d < s + 31
    ensures MonthOf(s) == MonthOf(d)
    ensures DayOfMonth(s) == 1
  {
    var s := FirstDay(MonthOf(d));
    MonthOfIs(s, MonthOf(d));
    s
  }

  /** The 1-based day of the month, as `format(day, "d")` prints it. */
  function DayOfMonth(d: int): (n: int)
    ensures 1 <= n <= Length(MonthOf(d))
    ensures d == FirstDay(MonthOf(d)) + n - 1
  {
    d - FirstDay(MonthOf(d)) + 1
  }

  /** A valid civil date: year, 0-based month index and 1-based day. */
  predicate ValidDate(y: int, mi: int, dom: int) {
    0 <= mi < 12 && 1 <= dom <= DaysInMonth(y, mi)
  }

  /** The day number of a civil date. */
  function DayFromCivil(y: int, mi: int, dom: int): (d: int)
    requires ValidDate(y, mi, dom)
    ensures MonthOf(d) == 12 * y + mi
    ensures DayOfMonth(d) == dom
  {
    var m := 12 * y + mi;
    assert YearOf(m) == y && MonthIndex(m) == mi;
    MonthOfIs(FirstDay(m) + dom - 1, m);
    FirstDay(m) + dom - 1
  }

  /** Decomposing a day number and rebuilding it gives the same day. */
  lemma CivilRoundTrip(d: int)
    ensures ValidDate(YearOf(MonthOf(d)), MonthIndex(MonthOf(d)), DayOfMonth(d))
    ensures DayFromCivil(YearOf(MonthOf(d)), MonthIndex(MonthOf(d)), DayOfMonth(d)) == d
  {
  }

  function Min(a: int, b: int): int {
    if a <= b then a else b
  }

  /** date-fns `addMonths`: the same day of the month `n` months later,
      clamped to the last day of that month when it is shorter. */
  function AddMonths(d: int, n: int): (r: int)
    ensures MonthOf(r) == MonthOf(d) + n
    ensures DayOfMonth(r) == Min(DayOfMonth(d), Length(MonthOf(d) + n))
  {
    var target := MonthOf(d) + n;
    var r := FirstDay(target) + Min(DayOfMonth(d), Length(target)) - 1;
    MonthOfIs(r, target);
    r
  }

  /** Day 0 is 1 January 1970, a Thursday. */
  lemma EpochIsNewYear1970()
    ensures MonthOf(0) == EpochMonth && DayOfMonth(0) == 1
    ensures Weekday(0) == 4
  {
    MonthOfIs(0, EpochMonth);
  }
}
