/** The date-range engine of the calendar view: the days each view shows and
    how the anchor date moves between pages. Weeks start on Sunday. */
module DateRange {
  import opened CivilDates

  datatype View = Month | Week | Day
  datatype Direction = Next | Prev

  /** Column headers of the month grid, Sunday first. */
  const WeekdayNames: seq<string> := ["Sun", "Mon", "Tue", "Wed", "Thu", "Fri", "Sat"]

  /** The header order agrees with the weekday numbering: 1970-01-01, a
      Thursday, is numbered into the "Thu" column, and 2024-03-05 into "Tue". */
  lemma HeadersNameWeekdays()
    ensures WeekdayNames[DayOfWeek(Date(1970, 1, 1))] == "Thu"
    ensures WeekdayNames[DayOfWeek(Date(2024, 3, 5))] == "Tue"
  {
    EpochWeekday();
    LeapMarchWeekday();
  }

  /** `startOfWeek`: the Sunday on or before `d`. */
  function StartOfWeek(d: Date): (r: Date)
    requires ValidDate(d)
    ensures ValidDate(r) && DayOfWeek(r) == 0
    ensures DayNumber(r) == DayNumber(d) - DayOfWeek(d)
  {
    DayOfWeekLater(d, AddDays(d, -DayOfWeek(d)), -DayOfWeek(d));
    AddDays(d, -DayOfWeek(d))
  }

  /** `endOfWeek`: the Saturday on or after `d`. */
  function EndOfWeek(d: Date): (r: Date)
    requires ValidDate(d)
    ensures ValidDate(r) && DayOfWeek(r) == 6
    ensures DayNumber(r) == DayNumber(d) + 6 - DayOfWeek(d)
  {
    DayOfWeekLater(d, AddDays(d, 6 - DayOfWeek(d)), 6 - DayOfWeek(d));
    AddDays(d, 6 - DayOfWeek(d))
  }

  /** `startOfMonth`: the first day of the anchor's month, `d.day - 1` days
      before it. */
  function StartOfMonth(d: Date): (r: Date)
    requires ValidDate(d)
    ensures ValidDate(r) && r.year == d.year && r.month == d.month && r.day == 1
    ensures DayNumber(r) == DayNumber(d) - (d.day - 1)
  {
    DayNumberInMonth(d.year, d.month, d.day);
    Date(d.year, d.month, 1)
  }

  /** `endOfMonth`: the last day of the anchor's month. */
  function EndOfMonth(d: Date): (r: Date)
    requires ValidDate(d)
    ensures ValidDate(r) && r.year == d.year && r.month == d.month
    ensures NextDay(r).month != d.month
  {
    Date(d.year, d.month, DaysInMonth(d.year, d.month))
  }

  predicate SameMonth(a: Date, b: Date) {
    a.year == b.year && a.month == b.month
  }

  /** `n` consecutive days starting at `a`. */
  function DaysFrom(a: Date, n: nat): (r: seq<Date>)
    requires ValidDate(a)
    ensures |r| == n
    ensures forall i :: 0 <= i < n ==> ValidDate(r[i]) && DayNumber(r[i]) == DayNumber(a) + i
  {
    seq(n, i requires 0 <= i < n => AddDays(a, i))
  }

  /** `eachDayOfInterval`: every day from `a` through `b`, in order. */
  function EachDayOfInterval(a: Date, b: Date): (r: seq<Date>)
    requires ValidDate(a) && ValidDate(b)
    requires DayNumber(a) <= DayNumber(b)
    ensures |r| == DayNumber(b) - DayNumber(a) + 1
    ensures forall i :: 0 <= i < |r| ==> ValidDate(r[i]) && DayNumber(r[i]) == DayNumber(a) + i
  {
    DaysFrom(a, DayNumber(b) - DayNumber(a) + 1)
  }

  /** An interval of days starts at its first and ends at its last day. */
  lemma IntervalEnds(a: Date, b: Date)
    requires ValidDate(a) && ValidDate(b) && DayNumber(a) <= DayNumber(b)
    ensures var r := EachDayOfInterval(a, b); r[0] == a && r[|r| - 1] == b
  {
    var r := EachDayOfInterval(a, b);
    DayNumberInjective(r[0], a);
    DayNumberInjective(r[|r| - 1], b);
  }

  /** The cell `j` of an interval is the day numbered `j` after its start. */
  lemma IntervalCell(a: Date, b: Date, j: int, x: Date)
    requires ValidDate(a) && ValidDate(b) && ValidDate(x)
    requires 0 <= j && DayNumber(a) + j <= DayNumber(b) && DayNumber(x) == DayNumber(a) + j
    ensures j < |EachDayOfInterval(a, b)| && EachDayOfInterval(a, b)[j] == x
  {
    DayNumberInjective(EachDayOfInterval(a, b)[j], x);
  }

  /** The days of the month view: from the Sunday on or before the 1st to
      the Saturday on or after the last day of the anchor's month. */
  function MonthGrid(anchor: Date): (g: seq<Date>)
    requires ValidDate(anchor)
    ensures |g| > 0 && g[0] == StartOfWeek(StartOfMonth(anchor)) && g[|g| - 1] == EndOfWeek(EndOfMonth(anchor))
  {
    DayNumberInMonth(anchor.year, anchor.month, DaysInMonth(anchor.year, anchor.month));
    IntervalEnds(StartOfWeek(StartOfMonth(anchor)), EndOfWeek(EndOfMonth(anchor)));
    EachDayOfInterval(StartOfWeek(StartOfMonth(anchor)), EndOfWeek(EndOfMonth(anchor)))
  }

  /** The days of the week view: seven days from the Sunday of the anchor's week. */
  function WeekStrip(anchor: Date): (r: seq<Date>)
    requires ValidDate(anchor)
    ensures |r| == 7
  {
    DaysFrom(StartOfWeek(anchor), 7)
  }

  /** A list of dates in which each day follows the previous one. */
  predicate Consecutive(s: seq<Date>)
    requires forall i :: 0 <= i < |s| ==> ValidDate(s[i])
  {
    forall i :: 0 <= i < |s| - 1 ==> s[i + 1] == NextDay(s[i])
  }

  /** Days numbered one apart are consecutive days. */
  lemma NumberedConsecutive(s: seq<Date>, start: int)
    requires forall i :: 0 <= i < |s| ==> ValidDate(s[i]) && DayNumber(s[i]) == start + i
    ensures Consecutive(s)
  {
    forall i | 0 <= i < |s| - 1
      ensures s[i + 1] == NextDay(s[i])
    {
      DayNumberInjective(s[i + 1], NextDay(s[i]));
    }
  }

  /** Cell `i` of a run of days starting on a Sunday falls on weekday i mod 7. */
  lemma WeekdayOfCell(days: seq<Date>, a: Date, i: int)
    requires ValidDate(a) && DayOfWeek(a) == 0 && 0 <= i < |days|
    requires ValidDate(days[i]) && DayNumber(days[i]) == DayNumber(a) + i
    ensures DayOfWeek(days[i]) == i % 7
    ensures i < 7 ==> DayOfWeek(days[i]) == i
  {
    DayOfWeekLater(a, days[i], i);
    if i < 7 {
      SmallRemainder(i);
    }
  }

  lemma SmallRemainder(i: int)
    requires 0 <= i < 7
    ensures i % 7 == i
  {
  }

  /** A month of `n` days whose 1st falls on weekday `off` and whose last
      day on weekday `wl` fills four to six whole weeks. */
  lemma GridWeeks(off: int, n: int, wl: int)
    requires 0 <= off < 7 && 28 <= n <= 31 && wl == (off + n - 1) % 7
    ensures (n + 6 + off - wl) % 7 == 0 && 28 <= n + 6 + off - wl <= 42
  {
    var x := off + n - 1;
    var q := x / 7;
    assert x == 7 * q + wl;
    assert n + 6 + off - wl == 7 * (q + 1);
  }

  /** The month grid is a whole number of weeks, four to six of them. */
  lemma MonthGridLength(anchor: Date)
    requires ValidDate(anchor)
    ensures |MonthGrid(anchor)| % 7 == 0 && 28 <= |MonthGrid(anchor)| <= 42
  {
    var first, last := StartOfMonth(anchor), EndOfMonth(anchor);
    var a, b := StartOfWeek(first), EndOfWeek(last);
    DayNumberInMonth(anchor.year, anchor.month, last.day);
    GridSpanWeeks(a, b, first, last, last.day);
    var len := DayNumber(b) - DayNumber(a) + 1;
    assert len % 7 == 0 && 28 <= len <= 42;
    assert |MonthGrid(anchor)| == len by {
      assert MonthGrid(anchor) == EachDayOfInterval(a, b);
    }
  }

  /** From the Sunday before the 1st of an `n`-day month to the Saturday
      after its last day is four to six whole weeks. */
  lemma GridSpanWeeks(a: Date, b: Date, first: Date, last: Date, n: int)
    requires ValidDate(a) && ValidDate(b) && ValidDate(first) && ValidDate(last) && 28 <= n <= 31
    requires DayNumber(a) == DayNumber(first) - DayOfWeek(first)
    requires DayNumber(b) == DayNumber(last) + 6 - DayOfWeek(last)
    requires DayNumber(last) == DayNumber(first) + n - 1
    ensures (DayNumber(b) - DayNumber(a) + 1) % 7 == 0 && 28 <= DayNumber(b) - DayNumber(a) + 1 <= 42
  {
    DayOfWeekLater(first, last, n - 1);
    GridWeeks(DayOfWeek(first), n, DayOfWeek(last));
  }

  /** Each cell's weekday is the header of its column: cell i is under
      header i mod 7. */
  lemma MonthGridWeekdays(anchor: Date)
    requires ValidDate(anchor)
    ensures var g := MonthGrid(anchor);
      forall i :: 0 <= i < |g| ==> ValidDate(g[i]) && DayOfWeek(g[i]) == i % 7
  {
    var g := MonthGrid(anchor);
    var a := StartOfWeek(StartOfMonth(anchor));
    forall i | 0 <= i < |g|
      ensures DayOfWeek(g[i]) == i % 7
    {
      WeekdayOfCell(g, a, i);
    }
  }

  /** The grid's days follow one another without gaps. */
  lemma MonthGridConsecutive(anchor: Date)
    requires ValidDate(anchor)
    ensures Consecutive(MonthGrid(anchor))
  {
    NumberedConsecutive(MonthGrid(anchor), DayNumber(StartOfWeek(StartOfMonth(anchor))));
  }

  /** The k-th day of the anchor's month sits at offset DayOfWeek(1st) + k - 1. */
  lemma MonthDayInGrid(anchor: Date, k: int)
    requires ValidDate(anchor) && 1 <= k <= DaysInMonth(anchor.year, anchor.month)
    ensures var off := DayOfWeek(StartOfMonth(anchor));
      off + k - 1 < |MonthGrid(anchor)|
      && MonthGrid(anchor)[off + k - 1] == Date(anchor.year, anchor.month, k)
  {
    var first, last := StartOfMonth(anchor), EndOfMonth(anchor);
    var a, b := StartOfWeek(first), EndOfWeek(last);
    var j, x := DayOfWeek(first) + k - 1, Date(anchor.year, anchor.month, k);
    DayNumberInMonth(anchor.year, anchor.month, k);
    DayNumberInMonth(anchor.year, anchor.month, last.day);
    assert DayNumber(x) == DayNumber(a) + j;
    assert DayNumber(a) + j <= DayNumber(b);
    IntervalCell(a, b, j, x);
    assert MonthGrid(anchor) == EachDayOfInterval(a, b);
  }

  /** A grid cell lies in the anchor's month exactly when it is within the run
      of that month's days; the others are the dimmed neighbours. */
  lemma CellInCurrentMonth(anchor: Date, i: int)
    requires ValidDate(anchor) && 0 <= i < |MonthGrid(anchor)|
    ensures var off := DayOfWeek(StartOfMonth(anchor));
      SameMonth(MonthGrid(anchor)[i], anchor) <==> off <= i < off + DaysInMonth(anchor.year, anchor.month)
  {
    var g := MonthGrid(anchor);
    var first := StartOfMonth(anchor);
    var off := DayOfWeek(first);
    var n := DaysInMonth(anchor.year, anchor.month);
    if SameMonth(g[i], anchor) {
      CellOfMonth(StartOfWeek(first), first, g[i], i);
      assert off <= i < off + n;
    } else if off <= i < off + n {
      MonthDayInGrid(anchor, i - off + 1);
      assert false;
    }
  }

  /** A day of the month that sits `i` days after the Sunday before the 1st
      lies `DayOfWeek(1st)` or more, and less than a month past it, cells in. */
  lemma CellOfMonth(a: Date, first: Date, x: Date, i: int)
    requires ValidDate(first) && first.day == 1 && ValidDate(x) && ValidDate(a)
    requires x.year == first.year && x.month == first.month
    requires DayNumber(a) == DayNumber(first) - DayOfWeek(first) && DayNumber(x) == DayNumber(a) + i
    ensures DayOfWeek(first) <= i < DayOfWeek(first) + DaysInMonth(first.year, first.month)
  {
    DayNumberInMonth(first.year, first.month, x.day);
    assert x == Date(first.year, first.month, x.day) && first == Date(first.year, first.month, 1);
  }

  /** Every day of the anchor's month appears in the grid, in order, as one
      run starting under its weekday; a cell belongs to the anchor's month
      exactly when it lies in that run. */
  lemma MonthGridCoversMonth(anchor: Date)
    requires ValidDate(anchor)
    ensures var g := MonthGrid(anchor);
      var off := DayOfWeek(StartOfMonth(anchor));
      var n := DaysInMonth(anchor.year, anchor.month);
      && off + n <= |g|
      && (forall k :: 1 <= k <= n ==> g[off + k - 1] == Date(anchor.year, anchor.month, k))
      && (forall i :: 0 <= i < |g| ==> (SameMonth(g[i], anchor) <==> off <= i < off + n))
  {
    var n := DaysInMonth(anchor.year, anchor.month);
    MonthDayInGrid(anchor, n);
    forall k | 1 <= k <= n
      ensures MonthGrid(anchor)[DayOfWeek(StartOfMonth(anchor)) + k - 1] == Date(anchor.year, anchor.month, k)
    {
      MonthDayInGrid(anchor, k);
    }
    forall i | 0 <= i < |MonthGrid(anchor)|
      ensures SameMonth(MonthGrid(anchor)[i], anchor)
        <==> DayOfWeek(StartOfMonth(anchor)) <= i < DayOfWeek(StartOfMonth(anchor)) + n
    {
      CellInCurrentMonth(anchor, i);
    }
  }

  lemma WeekStripNumbers(anchor: Date)
    requires ValidDate(anchor)
    ensures var w := WeekStrip(anchor);
      forall i :: 0 <= i < 7 ==> ValidDate(w[i]) && DayNumber(w[i]) == DayNumber(StartOfWeek(anchor)) + i
  {
  }

  /** The week strip runs Sunday to Saturday. */
  lemma WeekStripWeekdays(anchor: Date)
    requires ValidDate(anchor)
    ensures forall i :: 0 <= i < 7 ==> ValidDate(WeekStrip(anchor)[i]) && DayOfWeek(WeekStrip(anchor)[i]) == i
  {
    WeekStripNumbers(anchor);
    forall i | 0 <= i < 7
      ensures DayOfWeek(WeekStrip(anchor)[i]) == i
    {
      WeekdayOfCell(WeekStrip(anchor), StartOfWeek(anchor), i);
    }
  }

  /** The week strip's seven days follow one another without gaps. */
  lemma WeekStripConsecutive(anchor: Date)
    requires ValidDate(anchor)
    ensures Consecutive(WeekStrip(anchor))
  {
    WeekStripNumbers(anchor);
    NumberedConsecutive(WeekStrip(anchor), DayNumber(StartOfWeek(anchor)));
  }

  /** The anchor is in its week strip, at the position of its weekday. */
  lemma WeekStripContainsAnchor(anchor: Date)
    requires ValidDate(anchor)
    ensures WeekStrip(anchor)[DayOfWeek(anchor)] == anchor
  {
    WeekStripNumbers(anchor);
    DayNumberInjective(WeekStrip(anchor)[DayOfWeek(anchor)], anchor);
  }

  /** The signed size of one step: a month in month view, else a week or a day. */
  function Step(view: View, dir: Direction): int {
    var n := if view == Week then 7 else 1;
    if dir == Next then n else -n
  }

  /** `navigateNext` / `navigatePrev`: one month, one week or one day. */
  function Navigate(anchor: Date, view: View, dir: Direction): (r: Date)
    requires ValidDate(anchor)
    ensures ValidDate(r)
  {
    if view == Month then AddMonths(anchor, Step(view, dir))
    else AddDays(anchor, Step(view, dir))
  }

  /** In week and day view, a step forward and a step back (in either order)
      restore the anchor exactly. */
  lemma NavigateRoundTripWeekDay(anchor: Date, view: View)
    requires ValidDate(anchor) && view != Month
    ensures Navigate(Navigate(anchor, view, Next), view, Prev) == anchor
    ensures Navigate(Navigate(anchor, view, Prev), view, Next) == anchor
  {
    AddDaysRoundTrip(anchor, Step(view, Next));
    AddDaysRoundTrip(anchor, Step(view, Prev));
  }

  /** In day and week view a step moves the anchor by exactly 1 or 7 days, and
      a week step keeps the weekday. */
  lemma NavigateDistance(anchor: Date, view: View, dir: Direction)
    requires ValidDate(anchor) && view != Month
    ensures var r := Navigate(anchor, view, dir);
      var n := (if view == Week then 7 else 1) * (if dir == Next then 1 else -1);
      DayNumber(r) == DayNumber(anchor) + n && (view == Week ==> DayOfWeek(r) == DayOfWeek(anchor))
  {
    var n := Step(view, dir);
    if view == Week {
      WholeWeeksKeepWeekday(anchor, AddDays(anchor, n), n);
    }
  }

  lemma WholeWeeksKeepWeekday(a: Date, b: Date, n: int)
    requires 1 <= a.month <= 12 && 1 <= b.month <= 12 && (n == 7 || n == -7)
    requires DayNumber(b) == DayNumber(a) + n
    ensures DayOfWeek(b) == DayOfWeek(a)
  {
    DayOfWeekLater(a, b, n);
  }

  /** In month view a step goes to the neighbouring calendar month, rolling
      December into January of the next year (and back), with the day
      clamped to the length of the target month. */
  lemma NavigateMonth(anchor: Date)
    requires ValidDate(anchor)
    ensures var r := Navigate(anchor, Month, Next);
      && r.year == (if anchor.month == 12 then anchor.year + 1 else anchor.year)
      && r.month == (if anchor.month == 12 then 1 else anchor.month + 1)
      && r.day == Min(anchor.day, DaysInMonth(r.year, r.month))
    ensures var r := Navigate(anchor, Month, Prev);
      && r.year == (if anchor.month == 1 then anchor.year - 1 else anchor.year)
      && r.month == (if anchor.month == 1 then 12 else anchor.month - 1)
      && r.day == Min(anchor.day, DaysInMonth(r.year, r.month))
  {
    NextMonth(anchor);
    PrevMonth(anchor);
  }

  /** In month view, Next then Prev restores the anchor exactly when its day
      exists in the next month. */
  lemma NavigateRoundTripMonth(anchor: Date)
    requires ValidDate(anchor)
    ensures var r := Navigate(anchor, Month, Next);
      Navigate(r, Month, Prev) == anchor <==> anchor.day <= DaysInMonth(r.year, r.month)
  {
    AddMonthsRoundTrip(anchor, 1);
  }

  /** January 31st, 2024 goes to February 29th and comes back as January 29th. */
  lemma MonthRoundTripLosesDay()
    ensures Navigate(Date(2024, 1, 31), Month, Next) == Date(2024, 2, 29)
    ensures Navigate(Date(2024, 2, 29), Month, Prev) == Date(2024, 1, 29)
  {
    NextMonth(Date(2024, 1, 31));
    PrevMonth(Date(2024, 2, 29));
  }
}
