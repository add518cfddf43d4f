/** Civil dates of the proleptic Gregorian calendar, numbered by a day count,
    with the day and month arithmetic that the calendar view borrows from its
    date library (`addDays`, `addMonths`, `startOfMonth`, `endOfMonth`). */
module CivilDates {

  /** A calendar day without a time of day. */
  datatype Date = Date(year: int, month: int, day: int)

  predicate IsLeapYear(y: int) {
    y % 4 == 0 && (y % 100 != 0 || y % 400 == 0)
  }

  function DaysInMonth(y: int, m: int): (n: int)
    requires 1 <= m <= 12
    ensures 28 <= n <= 31
    ensures n == 28 <==> m == 2 && !IsLeapYear(y)
  {
    if m == 2 then (if IsLeapYear(y) then 29 else 28)
    else if m == 4 || m == 6 || m == 9 || m == 11 then 30
    else 31
  }

  function DaysInYear(y: int): int {
    if IsLeapYear(y) then 366 else 365
  }

  /** A date that exists: a month 1..12 and a day within that month. */
  predicate ValidDate(d: Date) {
    1 <= d.month <= 12 && 1 <= d.day <= DaysInMonth(d.year, d.month)
  }

  function Min(a: int, b: int): int {
    if a <= b then a else b
  }

  /** Days from 0001-01-01 to January 1st of year `y` (negative before year 1). */
  function DaysBeforeYear(y: int): int
    decreases if y >= 1 then y - 1 else 1 - y
  {
    if y == 1 then 0
    else if y > 1 then DaysBeforeYear(y - 1) + DaysInYear(y - 1)
    else DaysBeforeYear(y + 1) - DaysInYear(y)
  }

  /** Days from January 1st of year `y` to the first day of month `m`. */
  function DaysBeforeMonth(y: int, m: int): int
    requires 1 <= m <= 12
  {
    if m == 1 then 0 else DaysBeforeMonth(y, m - 1) + DaysInMonth(y, m - 1)
  }

  /** The usual table of month starts in a common year. */
  function CommonMonthStart(m: int): int
    requires 1 <= m <= 12
  {
    if m == 1 then 0 else if m == 2 then 31 else if m == 3 then 59
    else if m == 4 then 90 else if m == 5 then 120 else if m == 6 then 151
    else if m == 7 then 181 else if m == 8 then 212 else if m == 9 then 243
    else if m == 10 then 273 else if m == 11 then 304 else 334
  }

  lemma {:induction false} DaysBeforeMonthTable(y: int, m: int)
    requires 1 <= m <= 12
    ensures DaysBeforeMonth(y, m) == CommonMonthStart(m) + (if m > 2 && IsLeapYear(y) then 1 else 0)
  {
    if m > 1 {
      DaysBeforeMonthTable(y, m - 1);
    }
  }

  /** The day count of a date: 0001-01-01 is day 0. */
  function DayNumber(d: Date): int
    requires 1 <= d.month <= 12
  {
    DaysBeforeYear(d.year) + DaysBeforeMonth(d.year, d.month) + d.day - 1
  }

  /** Day of the week, 0 = Sunday .. 6 = Saturday (0001-01-01 was a Monday). */
  function DayOfWeek(d: Date): (w: int)
    requires 1 <= d.month <= 12
    ensures 0 <= w < 7
  {
    (DayNumber(d) + 1) % 7
  }

  /** Leap days between consecutive years: one more multiple of `k` is passed
      exactly when `p + 1` is one. */
  lemma MultiplesStep(p: int)
    ensures (p + 1) / 4 - p / 4 == if (p + 1) % 4 == 0 then 1 else 0
    ensures (p + 1) / 100 - p / 100 == if (p + 1) % 100 == 0 then 1 else 0
    ensures (p + 1) / 400 - p / 400 == if (p + 1) % 400 == 0 then 1 else 0
  {
  }

  /** A year holds DaysInYear(y) days. */
  lemma YearLength(y: int)
    ensures DaysBeforeYear(y + 1) == DaysBeforeYear(y) + DaysInYear(y)
  {
  }

  /** The Gregorian leap rule as a count of multiples of 4, 100 and 400. */
  lemma LeapByMultiples(p: int)
    ensures (if IsLeapYear(p) then 1 else 0)
      == (if p % 4 == 0 then 1 else 0) - (if p % 100 == 0 then 1 else 0) + (if p % 400 == 0 then 1 else 0)
  {
    if p % 400 == 0 {
      assert p == 100 * (4 * (p / 400));
    }
    if p % 100 == 0 {
      assert p == 4 * (25 * (p / 100));
    }
  }

  /** The closed form of the year start: 365 days a year plus the leap days
      of the Gregorian rule (every 4th year, except centuries not divisible by 400). */
  lemma {:induction false} DaysBeforeYearClosedForm(y: int)
    ensures var p := y - 1; DaysBeforeYear(y) == 365 * p + p / 4 - p / 100 + p / 400
    decreases if y >= 1 then y - 1 else 1 - y
  {
    if y > 1 {
      DaysBeforeYearClosedForm(y - 1);
      GregorianStep(y - 2);
    } else if y < 1 {
      DaysBeforeYearClosedForm(y + 1);
      GregorianStep(y - 1);
    }
  }

  /** The closed form grows by the length of year `p + 1` from `p` to `p + 1`. */
  lemma GregorianStep(p: int)
    ensures 365 * (p + 1) + (p + 1) / 4 - (p + 1) / 100 + (p + 1) / 400
      == 365 * p + p / 4 - p / 100 + p / 400 + DaysInYear(p + 1)
  {
    MultiplesStep(p);
    LeapByMultiples(p + 1);
  }

  /** Month `m` starts DaysInMonth(y, m) days after month `m - 1`. */
  lemma MonthLength(y: int, m: int)
    requires 1 <= m <= 12
    ensures m < 12 ==> DaysBeforeMonth(y, m + 1) == DaysBeforeMonth(y, m) + DaysInMonth(y, m)
    ensures m == 12 ==> DaysBeforeMonth(y, m) + DaysInMonth(y, m) == DaysInYear(y)
  {
    DaysBeforeMonthTable(y, m);
  }

  /** The day after `d`, rolling over month and year ends. */
  function NextDay(d: Date): (r: Date)
    requires ValidDate(d)
    ensures ValidDate(r)
    ensures DayNumber(r) == DayNumber(d) + 1
  {
    if d.day < DaysInMonth(d.year, d.month) then
      Date(d.year, d.month, d.day + 1)
    else if d.month < 12 then
      MonthLength(d.year, d.month);
      Date(d.year, d.month + 1, 1)
    else
      MonthLength(d.year, 12);
      YearLength(d.year);
      Date(d.year + 1, 1, 1)
  }

  /** The day before `d`, rolling back over month and year starts. */
  function PrevDay(d: Date): (r: Date)
    requires ValidDate(d)
    ensures ValidDate(r)
    ensures DayNumber(r) == DayNumber(d) - 1
  {
    if d.day > 1 then
      Date(d.year, d.month, d.day - 1)
    else if d.month > 1 then
      MonthLength(d.year, d.month - 1);
      Date(d.year, d.month - 1, DaysInMonth(d.year, d.month - 1))
    else
      MonthLength(d.year - 1, 12);
      YearLength(d.year - 1);
      Date(d.year - 1, 12, 31)
  }

  /** `addDays(d, n)`: the date `n` days after `d` (before it when n < 0). */
  function AddDays(d: Date, n: int): (r: Date)
    requires ValidDate(d)
    ensures ValidDate(r)
    ensures DayNumber(r) == DayNumber(d) + n
    decreases if n >= 0 then n else -n
  {
    if n == 0 then d
    else if n > 0 then AddDays(NextDay(d), n - 1)
    else AddDays(PrevDay(d), n + 1)
  }

  lemma ModSevenShift(x: int, n: int)
    ensures (x + n) % 7 == (x % 7 + n) % 7
  {
    var q := x / 7;
    assert x == 7 * q + x % 7;
    assert x + n == 7 * q + (x % 7 + n);
  }

  /** A date `n` days after another falls `n` weekdays (mod 7) later. */
  lemma DayOfWeekLater(a: Date, b: Date, n: int)
    requires 1 <= a.month <= 12 && 1 <= b.month <= 12
    requires DayNumber(b) == DayNumber(a) + n
    ensures DayOfWeek(b) == (DayOfWeek(a) + n) % 7
  {
    ModSevenShift(DayNumber(a) + 1, n);
  }

  /** Strict chronological order, read off the fields. */
  predicate Before(a: Date, b: Date) {
    a.year < b.year
    || (a.year == b.year && a.month < b.month)
    || (a.year == b.year && a.month == b.month && a.day < b.day)
  }

  lemma {:induction false} YearsAreOrdered(y1: int, y2: int)
    requires y1 < y2
    ensures DaysBeforeYear(y1) + DaysInYear(y1) <= DaysBeforeYear(y2)
    decreases y2 - y1
  {
    YearLength(y1);
    if y1 + 1 < y2 {
      YearsAreOrdered(y1 + 1, y2);
    }
  }

  lemma MonthsAreOrdered(y: int, m1: int, m2: int)
    requires 1 <= m1 < m2 <= 12
    ensures DaysBeforeMonth(y, m1) + DaysInMonth(y, m1) <= DaysBeforeMonth(y, m2)
  {
    DaysBeforeMonthTable(y, m1);
    DaysBeforeMonthTable(y, m2);
  }

  /** The day count is strictly increasing in chronological order. */
  lemma BeforeMeansSmallerNumber(a: Date, b: Date)
    requires ValidDate(a) && ValidDate(b)
    requires Before(a, b)
    ensures DayNumber(a) < DayNumber(b)
  {
    if a.year < b.year {
      MonthsInYear(a.year, a.month);
      YearsAreOrdered(a.year, b.year);
      DaysBeforeMonthTable(b.year, b.month);
    } else if a.month < b.month {
      MonthsAreOrdered(a.year, a.month, b.month);
    }
  }

  lemma MonthsInYear(y: int, m: int)
    requires 1 <= m <= 12
    ensures DaysBeforeMonth(y, m) + DaysInMonth(y, m) <= DaysInYear(y)
  {
    DaysBeforeMonthTable(y, m);
  }

  /** Chronological order and day-count order agree, so the day count names
      each valid date exactly once. */
  lemma BeforeIffSmallerNumber(a: Date, b: Date)
    requires ValidDate(a) && ValidDate(b)
    ensures Before(a, b) <==> DayNumber(a) < DayNumber(b)
    ensures a == b <==> DayNumber(a) == DayNumber(b)
  {
    if Before(a, b) {
      BeforeMeansSmallerNumber(a, b);
    } else if Before(b, a) {
      BeforeMeansSmallerNumber(b, a);
    }
  }

  lemma DayNumberInjective(a: Date, b: Date)
    requires ValidDate(a) && ValidDate(b)
    requires DayNumber(a) == DayNumber(b)
    ensures a == b
  {
    BeforeIffSmallerNumber(a, b);
  }

  /** Stepping forward a day and back again, in either order, is the identity. */
  lemma NextPrevInverse(d: Date)
    requires ValidDate(d)
    ensures PrevDay(NextDay(d)) == d && NextDay(PrevDay(d)) == d
  {
    DayNumberInjective(PrevDay(NextDay(d)), d);
    DayNumberInjective(NextDay(PrevDay(d)), d);
  }

  /** Adding days composes by adding the counts. */
  lemma AddDaysCompose(d: Date, a: int, b: int)
    requires ValidDate(d)
    ensures AddDays(AddDays(d, a), b) == AddDays(d, a + b)
  {
    DayNumberInjective(AddDays(AddDays(d, a), b), AddDays(d, a + b));
  }

  /** Adding `n` days and then `-n` days gives back the starting date. */
  lemma AddDaysRoundTrip(d: Date, n: int)
    requires ValidDate(d)
    ensures AddDays(AddDays(d, n), -n) == d
  {
    AddDaysCompose(d, n, -n);
  }

  /** The weekday in closed form, from the year, the month table and the day. */
  lemma DayOfWeekClosedForm(d: Date)
    requires 1 <= d.month <= 12
    ensures var p := d.year - 1;
      DayOfWeek(d) == (365 * p + p / 4 - p / 100 + p / 400 + CommonMonthStart(d.month)
        + (if d.month > 2 && IsLeapYear(d.year) then 1 else 0) + d.day) % 7
  {
    DaysBeforeYearClosedForm(d.year);
    DaysBeforeMonthTable(d.year, d.month);
  }

  /** 1970-01-01, the JavaScript epoch, was a Thursday. */
  lemma EpochWeekday()
    ensures DayOfWeek(Date(1970, 1, 1)) == 4
  {
    DayOfWeekClosedForm(Date(1970, 1, 1));
    assert 365 * 1969 + 1969 / 4 - 1969 / 100 + 1969 / 400 == 719162;
  }

  /** 2024-03-05, in a leap year after February 29th, was a Tuesday. */
  lemma LeapMarchWeekday()
    ensures DayOfWeek(Date(2024, 3, 5)) == 2
  {
    DayOfWeekClosedForm(Date(2024, 3, 5));
    assert 365 * 2023 + 2023 / 4 - 2023 / 100 + 2023 / 400 == 738885;
  }

  /** The dates of one month are numbered consecutively from its first day. */
  lemma DayNumberInMonth(y: int, m: int, k: int)
    requires 1 <= m <= 12
    ensures DayNumber(Date(y, m, k)) == DayNumber(Date(y, m, 1)) + k - 1
  {
  }

  /** Months counted from year 0: January 0000 is month 0. */
  function MonthIndex(d: Date): int {
    d.year * 12 + d.month - 1
  }

  /** `addMonths(d, n)`: the same day `n` calendar months later, clamped to the
      length of the target month. */
  function AddMonths(d: Date, n: int): (r: Date)
    requires ValidDate(d)
    ensures ValidDate(r)
    ensures MonthIndex(r) == MonthIndex(d) + n
    ensures r.day == Min(d.day, DaysInMonth(r.year, r.month))
  {
    var t := MonthIndex(d) + n;
    var y, m := t / 12, t % 12 + 1;
    Date(y, m, Min(d.day, DaysInMonth(y, m)))
  }

  /** The month index determines year and month of a valid date. */
  lemma MonthIndexInjective(a: Date, b: Date)
    requires 1 <= a.month <= 12 && 1 <= b.month <= 12
    requires MonthIndex(a) == MonthIndex(b)
    ensures a.year == b.year && a.month == b.month
  {
  }

  /** One month forward: December rolls into January of the next year, and
      the day is clamped to the length of the target month. */
  lemma NextMonth(d: Date)
    requires ValidDate(d)
    ensures d.month == 12 ==> AddMonths(d, 1) == Date(d.year + 1, 1, d.day)
    ensures d.month < 12 ==>
      AddMonths(d, 1) == Date(d.year, d.month + 1, Min(d.day, DaysInMonth(d.year, d.month + 1)))
  {
    var r := AddMonths(d, 1);
    if d.month == 12 {
      MonthIndexInjective(r, Date(d.year + 1, 1, d.day));
    } else {
      MonthIndexInjective(r, Date(d.year, d.month + 1, d.day));
    }
  }

  /** One month back: January rolls into December of the previous year, and
      the day is clamped to the length of the target month. */
  lemma PrevMonth(d: Date)
    requires ValidDate(d)
    ensures d.month == 1 ==> AddMonths(d, -1) == Date(d.year - 1, 12, d.day)
    ensures d.month > 1 ==>
      AddMonths(d, -1) == Date(d.year, d.month - 1, Min(d.day, DaysInMonth(d.year, d.month - 1)))
  {
    var r := AddMonths(d, -1);
    if d.month == 1 {
      MonthIndexInjective(r, Date(d.year - 1, 12, d.day));
    } else {
      MonthIndexInjective(r, Date(d.year, d.month - 1, d.day));
    }
  }

  /** Moving `n` months and back restores the date exactly when the day fits
      into the intermediate month; otherwise the clamp loses the day. */
  lemma AddMonthsRoundTrip(d: Date, n: int)
    requires ValidDate(d)
    ensures AddMonths(AddMonths(d, n), -n) == d
        <==> d.day <= DaysInMonth(AddMonths(d, n).year, AddMonths(d, n).month)
  {
    var r := AddMonths(d, n);
    var back := AddMonths(r, -n);
    MonthIndexInjective(back, d);
  }

  /** Days 1 to 28 exist in every month, so they survive any month steps. */
  lemma AddMonthsCompose(d: Date, a: int, b: int)
    requires ValidDate(d) && d.day <= 28
    ensures AddMonths(AddMonths(d, a), b) == AddMonths(d, a + b)
  {
    MonthIndexInjective(AddMonths(AddMonths(d, a), b), AddMonths(d, a + b));
  }
}
