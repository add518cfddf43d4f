/** Placement of timed events on the hour grids: the week view draws one
    pixel per minute, the day view 80 pixels per hour. Pixel values are exact
    rationals. */
module Placement {
  import opened Wrappers
  import opened Text
  import opened Events

  /** A JavaScript number as the placement computes it: NaN when a time field
      does not parse. */
  datatype Pixels = NaN | Px(value: real)

  datatype Position = Position(top: Pixels, height: real)

  /** `hour * 60 + minute` of a clock time, None when either field is NaN. */
  function MinutesOfDay(t: string): Option<int> {
    match (HourOf(t), MinuteOf(t))
    case (Some(h), Some(m)) => Some(h * 60 + m)
    case _ => None
  }

  /** The week view's `getEventPosition`: top = minutes since midnight,
      height = duration, one pixel per minute. */
  function WeekPosition(e: Event): (p: Option<Position>)
    ensures p.None? <==> !IsTimed(e)
  {
    if !IsTimed(e) then None
    else
      var top := match MinutesOfDay(e.time.value)
        case Some(x) => Px(x as real)
        case None => NaN;
      Some(Position(top, EffectiveDuration(e) as real))
  }

  /** The day view's `getEventPosition`: top and height scaled by 80/60. */
  function DayPosition(e: Event): (p: Option<Position>)
    ensures p.None? <==> !IsTimed(e)
  {
    if !IsTimed(e) then None
    else
      var top := match MinutesOfDay(e.time.value)
        case Some(x) => Px(((x * 80) as real) / 60.0)
        case None => NaN;
      Some(Position(top, ((EffectiveDuration(e) * 80) as real) / 60.0))
  }

  /** The day view places every event where the week view does, scaled by
      80/60: 3 * day = 4 * week for top and height alike. */
  lemma DayIsScaledWeek(e: Event)
    ensures WeekPosition(e).None? <==> DayPosition(e).None?
    ensures WeekPosition(e).Some? ==>
      var w, d := WeekPosition(e).value, DayPosition(e).value;
      && (w.top.NaN? <==> d.top.NaN?)
      && (w.top.Px? ==> 3.0 * d.top.value == 4.0 * w.top.value)
      && 3.0 * d.height == 4.0 * w.height
  {
  }

  /** An event at clock time h:m sits h * 60 + m pixels down the week grid,
      as tall as its duration (an hour when the duration is missing or 0),
      within the 24 * 60 pixels of the grid. */
  lemma WeekPositionOfClockTime(e: Event, h: int, m: int, seconds: Option<int>)
    requires 0 <= h < 24 && 0 <= m < 60
    requires seconds.Some? ==> 0 <= seconds.value < 60
    requires e.time == Some(ClockText(h, m, seconds))
    ensures WeekPosition(e) == Some(Position(Px((h * 60 + m) as real), EffectiveDuration(e) as real))
    ensures 0.0 <= WeekPosition(e).value.top.value < 1440.0
  {
    ClockTextFields(h, m, seconds);
    assert e.time.value != "" by {
      assert |ClockText(h, m, seconds)| >= 2 by {
        JoinLength([Pad2(h), Pad2(m)] + (if seconds.Some? then [Pad2(seconds.value)] else []));
      }
    }
  }

  lemma JoinLength(parts: seq<string>)
    requires |parts| >= 1
    ensures |Join(parts, ':')| >= |parts[0]|
  {
    if |parts| > 1 {
      assert Join(parts, ':') == parts[0] + [':'] + Join(parts[1..], ':');
    }
  }

  /** The same event in the day view: 3 * top = 4 * (h * 60 + m), within the
      24 * 80 pixels of the grid. */
  lemma DayPositionOfClockTime(e: Event, h: int, m: int, seconds: Option<int>)
    requires 0 <= h < 24 && 0 <= m < 60
    requires seconds.Some? ==> 0 <= seconds.value < 60
    requires e.time == Some(ClockText(h, m, seconds))
    ensures DayPosition(e).Some? && DayPosition(e).value.top.Px?
    ensures 3.0 * DayPosition(e).value.top.value == 4.0 * ((h * 60 + m) as real)
    ensures 3.0 * DayPosition(e).value.height == 4.0 * (EffectiveDuration(e) as real)
    ensures 0.0 <= DayPosition(e).value.top.value < 1920.0
  {
    WeekPositionOfClockTime(e, h, m, seconds);
    DayIsScaledWeek(e);
  }

  /** "14:30" for 90 minutes: 870 and 90 pixels in the week view, 1160 and
      120 in the day view. */
  lemma HalfPastTwoForNinetyMinutes(e: Event)
    requires e.time == Some("14:30") && e.duration == Some(90)
    ensures WeekPosition(e) == Some(Position(Px(870.0), 90.0))
    ensures DayPosition(e) == Some(Position(Px(1160.0), 120.0))
  {
    assert Pad2(14) == "14" && Pad2(30) == "30";
    assert Join(["14", "30"], ':') == "14:30";
    assert [Pad2(14), Pad2(30)] + [] == ["14", "30"];
    assert "14:30" == ClockText(14, 30, None);
    WeekPositionOfClockTime(e, 14, 30, None);
    DayPositionOfClockTime(e, 14, 30, None);
  }
}
