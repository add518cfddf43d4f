/** The "All Events" list: its comparator, the order it puts the events in,
    and the duration label printed beside each entry. */
module EventList {
  import opened Wrappers
  import opened CivilDates
  import opened Text
  import opened Events

  function Sign(x: int): int {
    if x < 0 then -1 else if x > 0 then 1 else 0
  }

  /** The sign of `dateA.getTime() - dateB.getTime()`, read off the calendar
      fields of the two days. */
  function CompareDates(a: Date, b: Date): int {
    if Before(a, b) then -1 else if Before(b, a) then 1 else 0
  }

  /** Comparing the calendar fields is comparing the instants: for real
      days the sign is that of the difference of their day numbers. */
  lemma CompareDatesIsTimeDifference(a: Date, b: Date)
    requires ValidDate(a) && ValidDate(b)
    ensures CompareDates(a, b) == Sign(DayNumber(a) - DayNumber(b))
  {
    BeforeIffSmallerNumber(a, b);
    BeforeIffSmallerNumber(b, a);
  }

  /** Character-by-character comparison of two strings; it stands in for
      `localeCompare`. */
  function CompareStrings(a: string, b: string): int
    decreases |a|
  {
    if a == [] && b == [] then 0
    else if a == [] then -1
    else if b == [] then 1
    else if a[0] < b[0] then -1
    else if a[0] > b[0] then 1
    else CompareStrings(a[1..], b[1..])
  }

  /** The string comparison is antisymmetric and says 0 only of equal strings. */
  lemma {:induction false} CompareStringsAntisymmetric(a: string, b: string)
    ensures CompareStrings(a, b) == -CompareStrings(b, a)
    ensures CompareStrings(a, b) == 0 <==> a == b
    decreases |a|
  {
    if a != [] && b != [] && a[0] == b[0] {
      CompareStringsAntisymmetric(a[1..], b[1..]);
      if a[1..] == b[1..] {
        assert a == [a[0]] + a[1..] && b == [b[0]] + b[1..];
      }
    }
  }

  /** The list comparator: by date, then by `time` when both events have
      one, and a tie otherwise. */
  function CompareForList(a: Event, b: Event): int {
    var byDate := CompareDates(a.date, b.date);
    if byDate != 0 then byDate
    else if IsTimed(a) && IsTimed(b) then CompareStrings(a.time.value, b.time.value)
    else 0
  }

  /** Swapping the arguments flips the comparator's verdict, and a strictly
      earlier date always compares lower. */
  lemma CompareForListAntisymmetric(a: Event, b: Event)
    ensures CompareForList(a, b) == -CompareForList(b, a)
    ensures Before(a.date, b.date) ==> CompareForList(a, b) < 0
  {
    if IsTimed(a) && IsTimed(b) {
      CompareStringsAntisymmetric(a.time.value, b.time.value);
    }
  }

  function SameDayAt(a: Event, t: Option<string>): Event {
    a.(time := t)
  }

  /** On a single date the comparator is not an order: an untimed event ties
      with both a 10:00 and a 09:00 event, which do not tie with each other. */
  lemma CompareForListNotTransitive(e: Event)
    ensures var ten, open, nine := SameDayAt(e, Some("10:00")), SameDayAt(e, None), SameDayAt(e, Some("09:00"));
      CompareForList(ten, open) == 0 && CompareForList(open, nine) == 0 && CompareForList(ten, nine) > 0
  {
    assert CompareStrings("10:00", "09:00") == 1;
  }

  /** Every neighbouring pair in comparator order. */
  predicate Adjacent(r: seq<Event>) {
    forall i :: 0 <= i < |r| - 1 ==> CompareForList(r[i], r[i + 1]) <= 0
  }

  /** Events with earlier dates come first. */
  predicate DateOrdered(r: seq<Event>) {
    forall i, j :: 0 <= i < j < |r| ==> !Before(r[j].date, r[i].date)
  }

  /** Places `x` before the first element that compares above it. */
  function InsertForList(x: Event, r: seq<Event>): (q: seq<Event>)
    ensures multiset(q) == multiset(r) + multiset{x}
    ensures |q| == |r| + 1
    ensures q[0] == x || (r != [] && q[0] == r[0])
    decreases |r|
  {
    if r == [] then [x]
    else if CompareForList(r[0], x) > 0 then [x] + r
    else
      var rest := InsertForList(x, r[1..]);
      assert r == [r[0]] + r[1..];
      [r[0]] + rest
  }

  /** Inserting into a list whose neighbours are in order keeps them so. */
  lemma {:induction false} InsertKeepsAdjacent(x: Event, r: seq<Event>)
    requires Adjacent(r)
    ensures Adjacent(InsertForList(x, r))
    decreases |r|
  {
    if r != [] {
      if CompareForList(r[0], x) > 0 {
        CompareForListAntisymmetric(r[0], x);
      } else {
        InsertKeepsAdjacent(x, r[1..]);
        var rest := InsertForList(x, r[1..]);
        var q := [r[0]] + rest;
        assert q == InsertForList(x, r);
        assert CompareForList(r[0], q[1]) <= 0;
        forall i | 1 <= i < |q| - 1
          ensures CompareForList(q[i], q[i + 1]) <= 0
        {
          assert q[i] == rest[i - 1] && q[i + 1] == rest[i];
        }
      }
    }
  }

  /** A stable insertion sort with the list comparator: each event goes
      after every earlier one it does not compare below. */
  function SortForList(s: seq<Event>): (r: seq<Event>)
    ensures multiset(r) == multiset(s)
    ensures |r| == |s|
    ensures Adjacent(r)
    decreases |s|
  {
    if s == [] then []
    else
      var init := s[..|s| - 1];
      assert s == init + [s[|s| - 1]];
      InsertKeepsAdjacent(s[|s| - 1], SortForList(init));
      InsertForList(s[|s| - 1], SortForList(init))
  }

  /** Dates never go backwards between neighbours, so they never go
      backwards at all. */
  lemma {:induction false} AdjacentMeansDateOrdered(r: seq<Event>)
    requires Adjacent(r)
    ensures DateOrdered(r)
    decreases |r|
  {
    if |r| > 1 {
      AdjacentMeansDateOrdered(r[1..]);
      forall j | 0 < j < |r|
        ensures !Before(r[j].date, r[0].date)
      {
        CompareForListAntisymmetric(r[1], r[0]);
        if j > 1 {
          assert !Before(r[j].date, r[1].date) by {
            assert r[1..][0] == r[1] && r[1..][j - 1] == r[j];
          }
        }
      }
      forall i, j | 0 < i < j < |r|
        ensures !Before(r[j].date, r[i].date)
      {
        assert r[1..][i - 1] == r[i] && r[1..][j - 1] == r[j];
      }
    }
  }

  /** The list shows every event exactly once, events with different dates
      in date order. */
  lemma SortForListOrdersDates(s: seq<Event>)
    ensures multiset(SortForList(s)) == multiset(s)
    ensures DateOrdered(SortForList(s))
  {
    AdjacentMeansDateOrdered(SortForList(s));
  }

  /** `formatDuration`: empty for a missing or zero duration, "All day" for
      480, minutes under an hour, whole hours with a plural, otherwise
      hours and minutes. */
  function FormatDuration(minutes: Option<int>): (text: string)
    ensures text == "" <==> minutes.None? || minutes.value == 0
  {
    if minutes.None? || minutes.value == 0 then ""
    else
      var m := minutes.value;
      if m == 480 then "All day"
      else if m < 60 then IntStr(m) + " min"
      else
        var hours, mins := m / 60, m % 60;
        if mins == 0 then IntStr(hours) + (if hours > 1 then " hours" else " hour")
        else IntStr(hours) + ("h " + IntStr(mins) + "m")
  }

  /** Reads a duration label back into minutes. The count must be written
      as the formatter writes it: no sign other than '-', no leading zeros. */
  function ParseDurationLabel(s: string): Option<int> {
    if s == "All day" then Some(480)
    else match ReadInt(s)
      case None => None
      case Some((n, rest)) => if s == IntStr(n) + rest then UnitValue(n, rest) else None
  }

  /** The minutes of a count `n` followed by the unit text `rest`. Only the
      unit the label would be printed with is accepted: "min" for a non-zero
      count under an hour, "hour" for exactly one, "hours" for more (eight
      hours being "All day"), and "h Mm" for 1 to 59 minutes past an hour. */
  function UnitValue(n: int, rest: string): Option<int> {
    if rest == " min" then (if n != 0 && n < 60 then Some(n) else None)
    else if rest == " hour" then (if n == 1 then Some(60) else None)
    else if rest == " hours" then (if n > 1 && n != 8 then Some(n * 60) else None)
    else if |rest| >= 2 && rest[..2] == "h " then
      match MinutesPart(rest[2..])
      case Some(k) => if n >= 1 && 1 <= k < 60 then Some(n * 60 + k) else None
      case None => None
    else None
  }

  /** The "Mm" that follows "Hh " in a label. */
  function MinutesPart(s: string): Option<int> {
    match ReadInt(s)
    case Some((k, tail)) => if tail == "m" && s == IntStr(k) + tail then Some(k) else None
    case None => None
  }

  lemma IntStrStart(n: int)
    ensures |IntStr(n)| > 0 && IntStr(n)[0] != 'A'
  {
    if n >= 0 {
      assert IsDigit(NatStr(n)[0]);
    }
  }

  /** A printed count followed by unit text is decoded by the unit alone. */
  lemma LabelDecodes(n: int, rest: string)
    requires rest != [] && !IsDigit(rest[0])
    ensures ParseDurationLabel(IntStr(n) + rest) == UnitValue(n, rest)
  {
    IntStrStart(n);
    assert (IntStr(n) + rest)[0] == IntStr(n)[0];
    IntStrReadBack(n, rest);
  }

  lemma MinutesLabelRoundTrip(m: int)
    requires m != 0 && m < 60
    ensures ParseDurationLabel(IntStr(m) + " min") == Some(m)
  {
    LabelDecodes(m, " min");
  }

  lemma HoursLabelRoundTrip(hours: int, suffix: string)
    requires (suffix == " hour" && hours == 1) || (suffix == " hours" && hours > 1 && hours != 8)
    ensures ParseDurationLabel(IntStr(hours) + suffix) == Some(hours * 60)
  {
    LabelDecodes(hours, suffix);
    assert " hours" != " min" && " hours" != " hour" && " hour" != " min";
  }

  lemma HoursMinutesLabelRoundTrip(hours: int, mins: int)
    requires hours >= 1 && 1 <= mins < 60
    ensures ParseDurationLabel(IntStr(hours) + ("h " + IntStr(mins) + "m")) == Some(hours * 60 + mins)
  {
    var rest := "h " + IntStr(mins) + "m";
    MinutesSuffix(mins);
    MixedUnit(hours, mins, rest);
    LabelDecodes(hours, rest);
  }

  lemma MixedUnit(hours: int, mins: int, rest: string)
    requires hours >= 1 && 1 <= mins < 60
    requires rest != " min" && rest != " hour" && rest != " hours"
    requires |rest| >= 2 && rest[..2] == "h " && MinutesPart(rest[2..]) == Some(mins)
    ensures UnitValue(hours, rest) == Some(hours * 60 + mins)
  {
  }

  lemma MinutesSuffix(mins: int)
    ensures var rest := "h " + IntStr(mins) + "m";
      && rest != " min" && rest != " hour" && rest != " hours"
      && |rest| >= 2 && rest[..2] == "h " && rest[0] == 'h'
      && MinutesPart(rest[2..]) == Some(mins)
  {
    var rest := "h " + IntStr(mins) + "m";
    assert rest[0] == 'h';
    assert " min"[0] == ' ' && " hour"[0] == ' ' && " hours"[0] == ' ';
    assert rest[2..] == IntStr(mins) + "m";
    IntStrReadBack(mins, "m");
  }

  /** Hours and minutes of a duration of an hour or more other than 480. */
  lemma HoursAndMinutes(m: int)
    requires m >= 60 && m != 480
    ensures m == (m / 60) * 60 + m % 60 && m / 60 >= 1 && 0 <= m % 60 < 60
    ensures m % 60 == 0 ==> m / 60 != 8
  {
  }

  /** Every label determines the duration it was printed from. */
  lemma FormatDurationRoundTrip(minutes: Option<int>)
    ensures ParseDurationLabel(FormatDuration(minutes))
      == if minutes.None? || minutes.value == 0 then None else minutes
  {
    if minutes.None? || minutes.value == 0 {
      assert FormatDuration(minutes) == "";
    } else {
      var m := minutes.value;
      if m == 480 {
        assert FormatDuration(minutes) == "All day";
      } else if m < 60 {
        MinutesCase(m);
      } else if m % 60 == 0 {
        WholeHoursCase(m);
      } else {
        MixedCase(m);
      }
    }
  }

  lemma MinutesCase(m: int)
    requires m != 0 && m < 60
    ensures ParseDurationLabel(FormatDuration(Some(m))) == Some(m)
  {
    var text := IntStr(m) + " min";
    assert FormatDuration(Some(m)) == text;
    MinutesLabelRoundTrip(m);
  }

  lemma WholeHoursCase(m: int)
    requires m >= 60 && m != 480 && m % 60 == 0
    ensures ParseDurationLabel(FormatDuration(Some(m))) == Some(m)
  {
    if m == 60 {
      OneHourCase();
    } else {
      ManyHoursCase(m);
    }
  }

  lemma OneHourCase()
    ensures ParseDurationLabel(FormatDuration(Some(60))) == Some(60)
  {
    assert FormatDuration(Some(60)) == IntStr(1) + " hour";
    HoursLabelRoundTrip(1, " hour");
  }

  lemma ManyHoursCase(m: int)
    requires m > 60 && m != 480 && m % 60 == 0
    ensures ParseDurationLabel(FormatDuration(Some(m))) == Some(m)
  {
    var hours := m / 60;
    HoursAndMinutes(m);
    var text := IntStr(hours) + " hours";
    assert FormatDuration(Some(m)) == text;
    HoursLabelRoundTrip(hours, " hours");
    assert ParseDurationLabel(text) == Some(m);
  }

  lemma MixedCase(m: int)
    requires m >= 60 && m % 60 != 0
    ensures ParseDurationLabel(FormatDuration(Some(m))) == Some(m)
  {
    var hours, mins := m / 60, m % 60;
    HoursAndMinutes(m);
    MixedFormat(m);
    HoursMinutesLabelRoundTrip(hours, mins);
  }

  lemma MixedFormat(m: int)
    requires m >= 60 && m % 60 != 0
    ensures FormatDuration(Some(m)) == IntStr(m / 60) + ("h " + IntStr(m % 60) + "m")
  {
  }

  /** Labels in a unit the formatter would not choose are not decoded: a
      plural for one hour, a singular for three, and minutes past an hour
      counted in minutes. */
  lemma WrongUnitsRejected()
    ensures ParseDurationLabel("1 hours") == None
    ensures ParseDurationLabel("3 hour") == None
    ensures ParseDurationLabel("90 min") == None
  {
    assert IntStr(1) == "1" && IntStr(3) == "3" && IntStr(90) == "90";
    assert "1 hours" == IntStr(1) + " hours" && "3 hour" == IntStr(3) + " hour" && "90 min" == IntStr(90) + " min";
    LabelDecodes(1, " hours");
    LabelDecodes(3, " hour");
    LabelDecodes(90, " min");
    assert " hours" != " min" && " hours" != " hour" && " hour" != " min";
  }

  /** "0h 15m" is not a label: fifteen minutes are printed as "15 min". */
  lemma ZeroHoursRejected()
    ensures ParseDurationLabel("0h 15m") == None
  {
    assert IntStr(0) == "0" && IntStr(15) == "15";
    assert "0h 15m" == IntStr(0) + ("h " + IntStr(15) + "m");
    MinutesSuffix(15);
    LabelDecodes(0, "h " + IntStr(15) + "m");
  }

  /** The decoder accepts nothing but labels: whatever it reads as `v` is
      exactly the text the formatter prints for `v`. */
  lemma DecodedLabelIsPrinted(s: string)
    ensures ParseDurationLabel(s).Some? ==> FormatDuration(ParseDurationLabel(s)) == s
  {
    if s != "All day" && ReadInt(s).Some? {
      var (n, rest) := ReadInt(s).value;
      if s == IntStr(n) + rest && UnitValue(n, rest).Some? {
        UnitIsPrinted(n, rest);
      }
    }
  }

  /** The unit cases of `DecodedLabelIsPrinted`. */
  lemma UnitIsPrinted(n: int, rest: string)
    requires UnitValue(n, rest).Some?
    ensures FormatDuration(UnitValue(n, rest)) == IntStr(n) + rest
  {
    if rest == " min" {
    } else if rest == " hour" {
    } else if rest == " hours" {
      PrintedWholeHours(n);
    } else {
      var k := MinutesPart(rest[2..]).value;
      var (k', tail) := ReadInt(rest[2..]).value;
      assert k' == k && tail == "m" && rest[2..] == IntStr(k) + "m";
      assert rest == "h " + IntStr(k) + "m";
      PrintedMixed(n, k);
    }
  }

  lemma PrintedWholeHours(n: int)
    requires n > 1 && n != 8
    ensures FormatDuration(Some(n * 60)) == IntStr(n) + " hours"
  {
    assert (n * 60) / 60 == n && (n * 60) % 60 == 0;
  }

  lemma PrintedMixed(n: int, k: int)
    requires n >= 1 && 1 <= k < 60
    ensures FormatDuration(Some(n * 60 + k)) == IntStr(n) + ("h " + IntStr(k) + "m")
  {
    assert (n * 60 + k) / 60 == n && (n * 60 + k) % 60 == k;
  }

  /** A count written with a plus sign or a leading zero is not a label. */
  lemma NonCanonicalCountsRejected()
    ensures ParseDurationLabel("+15 min") == None
    ensures ParseDurationLabel("015 min") == None
  {
    PlusCountRejected("+15 min");
    ZeroLedCountRejected();
  }

  lemma PlusCountRejected(s: string)
    requires |s| > 0 && s[0] == '+'
    ensures ParseDurationLabel(s) == None
  {
    assert s != "All day";
    match ReadInt(s)
    case None =>
    case Some((n, rest)) =>
      IntStrHead(n);
      assert (IntStr(n) + rest)[0] == IntStr(n)[0];
  }

  lemma ZeroLedCountRejected()
    ensures ParseDurationLabel("015 min") == None
  {
    var s := "015 min";
    assert NatStr(15) == "15" && IntStr(15) == "15";
    assert s == "0" + NatStr(15) + " min";
    ZeroNatStrReadBack(15, " min");
    assert |s| != |IntStr(15) + " min"|;
  }

  /** A printed integer starts with '-' or a digit, and '0' only when it is 0. */
  lemma IntStrHead(n: int)
    ensures |IntStr(n)| > 0
    ensures IntStr(n)[0] == '-' || IsDigit(IntStr(n)[0])
    ensures IntStr(n)[0] == '0' ==> n == 0
  {
    if n >= 0 {
      NoLeadingZero(n);
    }
  }

  /** A quarter of an hour is labelled in minutes. */
  lemma QuarterHourLabel()
    ensures FormatDuration(Some(15)) == "15 min"
  {
    assert IntStr(15) == "15";
  }

  /** Whole hours are labelled in hours, singular for one and plural above. */
  lemma WholeHourLabels()
    ensures FormatDuration(Some(60)) == "1 hour"
    ensures FormatDuration(Some(120)) == "2 hours"
  {
    assert IntStr(1) == "1" && IntStr(2) == "2";
  }

  /** No duration and a zero duration have an empty label. */
  lemma EmptyLabels()
    ensures FormatDuration(Some(0)) == "" && FormatDuration(None) == ""
  {
  }

  /** An hour and a half is labelled in hours and minutes. */
  lemma HourAndHalfLabel()
    ensures FormatDuration(Some(90)) == "1h 30m"
  {
    assert IntStr(1) == "1" && IntStr(30) == "30";
  }

  /** Eight hours is labelled as the whole day. */
  lemma WorkingDayLabel()
    ensures FormatDuration(Some(480)) == "All day"
  {
  }
}
