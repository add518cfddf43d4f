/** Calendar events as the view holds them, and the per-day and per-hour
    selections the views draw from the event list. */
module Events {
  import opened Wrappers
  import opened CivilDates
  import opened Text

  /** An event row as the view holds it after `parseISO` of its date. */
  datatype Event = Event(
    id: int,
    title: string,
    date: Date,
    time: Option<string>,
    duration: Option<int>,
    description: Option<string>,
    color: string)

  /** `event.time` is truthy: present and not the empty string. */
  predicate IsTimed(e: Event) {
    e.time.Some? && e.time.value != ""
  }

  /** `event.duration || 60`: a missing or zero duration counts as an hour. */
  function EffectiveDuration(e: Event): int {
    if e.duration.None? || e.duration.value == 0 then 60 else e.duration.value
  }

  /** `parseInt(time.split(':')[0])`: the leading hour of a clock time. */
  function HourOf(t: string): Option<int> {
    ParseInt(Split(t, ':')[0])
  }

  /** `parseInt(time.split(':')[1])`: the minute field, NaN when there is none. */
  function MinuteOf(t: string): Option<int> {
    var parts := Split(t, ':');
    if |parts| >= 2 then ParseInt(parts[1]) else None
  }

  /** The text of a clock time as the form ("HH:MM") or the database's time
      column ("HH:MM:SS") writes it. */
  function ClockText(h: int, m: int, seconds: Option<int>): string
    requires 0 <= h < 24 && 0 <= m < 60
    requires seconds.Some? ==> 0 <= seconds.value < 60
  {
    Join([Pad2(h), Pad2(m)] + (if seconds.Some? then [Pad2(seconds.value)] else []), ':')
  }

  /** A clock time's fields read back as its hour and minute. */
  lemma ClockTextFields(h: int, m: int, seconds: Option<int>)
    requires 0 <= h < 24 && 0 <= m < 60
    requires seconds.Some? ==> 0 <= seconds.value < 60
    ensures HourOf(ClockText(h, m, seconds)) == Some(h)
    ensures MinuteOf(ClockText(h, m, seconds)) == Some(m)
  {
    var parts := [Pad2(h), Pad2(m)] + (if seconds.Some? then [Pad2(seconds.value)] else []);
    forall i | 0 <= i < |parts|
      ensures ':' !in parts[i]
    {
      assert AllDigits(parts[i]);
    }
    SplitJoin(parts, ':');
    ParsePad2(h);
    ParsePad2(m);
  }

  /** `r` is `s` with some elements left out, the rest in their order. */
  ghost predicate IsSubsequence<T>(r: seq<T>, s: seq<T>)
    decreases |s|
  {
    if r == [] then true
    else if s == [] then false
    else (r[0] == s[0] && IsSubsequence(r[1..], s[1..])) || IsSubsequence(r, s[1..])
  }

  /** `getEventsForDate(d)`: the events on day `d`, in list order. */
  function EventsOnDate(events: seq<Event>, d: Date): (r: seq<Event>)
    ensures forall e :: e in r ==> e.date == d
    ensures forall e: Event :: e.date == d ==> multiset(r)[e] == multiset(events)[e]
    ensures IsSubsequence(r, events)
    decreases |events|
  {
    if events == [] then []
    else
      var rest := EventsOnDate(events[1..], d);
      assert events == [events[0]] + events[1..];
      if events[0].date == d then [events[0]] + rest else rest
  }

  /** The event starts in hour `h` of day `d`: it is timed and its time's
      leading field parses to `h`. */
  predicate InHourSlot(e: Event, d: Date, h: int) {
    e.date == d && IsTimed(e) && HourOf(e.time.value) == Some(h)
  }

  /** `getEventsForHour(d, h)`: the timed events of day `d` whose time's hour
      is `h`, in list order. */
  function EventsInHour(events: seq<Event>, d: Date, h: int): (r: seq<Event>)
    ensures forall e :: e in r ==> InHourSlot(e, d, h)
    ensures forall e: Event :: InHourSlot(e, d, h) ==> multiset(r)[e] == multiset(events)[e]
    ensures IsSubsequence(r, events)
    decreases |events|
  {
    if events == [] then []
    else
      var rest := EventsInHour(events[1..], d, h);
      assert events == [events[0]] + events[1..];
      if events[0].date == d && IsTimed(events[0]) && HourOf(events[0].time.value) == Some(h)
      then [events[0]] + rest else rest
  }

  /** Selecting the hour slot from the whole list or from the day's events
      gives the same list: an hour slot is a selection of the day. */
  lemma {:induction false} HourSlotOfDay(events: seq<Event>, d: Date, h: int)
    ensures EventsInHour(events, d, h) == EventsInHour(EventsOnDate(events, d), d, h)
    ensures IsSubsequence(EventsInHour(events, d, h), EventsOnDate(events, d))
    decreases |events|
  {
    if events != [] {
      HourSlotOfDay(events[1..], d, h);
    }
  }

  /** An untimed event lies in no hour slot. */
  lemma UntimedInNoHour(events: seq<Event>, e: Event, d: Date, h: int)
    requires !IsTimed(e)
    ensures e !in EventsInHour(events, d, h)
  {
  }

  /** What a month cell shows: the first three events of the day, and
      "+N more" for the rest when there are more than three. */
  datatype DayCell = DayCell(shown: seq<Event>, more: Option<string>)

  function MonthCell(events: seq<Event>, d: Date): DayCell {
    var dayEvents := EventsOnDate(events, d);
    var n := |dayEvents|;
    DayCell(dayEvents[..Min(3, n)], if n > 3 then Some("+" + NatStr(n - 3) + " more") else None)
  }

  /** The cell shows the first min(3, n) of the day's n events, and a
      "+N more" label exactly when n > 3, whose number is the count of the
      events left out. */
  lemma MonthCellSummary(events: seq<Event>, d: Date)
    ensures var all, c := EventsOnDate(events, d), MonthCell(events, d);
      && |c.shown| == Min(3, |all|)
      && all == c.shown + all[|c.shown|..]
      && (c.more.Some? <==> |all| > 3)
      && (c.more.Some? ==> ReadInt(c.more.value) == Some((|all| - 3, " more")))
  {
    var all := EventsOnDate(events, d);
    var n := |all|;
    if n > 3 {
      PlusNatStrReadBack(n - 3, " more");
    }
  }
}
