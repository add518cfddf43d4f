# Calendar component of nextjs-calendar, modelled in Dafny

The repository is a small Next.js calendar. One React component,
`app/components/Calendar.tsx`, holds all of its logic:

- a month, week and day view over an anchor date (`currentDate`) that the
  previous and next buttons move by one month, week or day;
- the days each view shows: the month grid from the Sunday on or before the
  1st to the Saturday on or after the last day, and the week strip of seven
  days from Sunday;
- per-day and per-hour selections of the event list, the month cell's
  "first three and +N more" summary, and the vertical placement of timed
  events on the hour grids (one pixel per minute in the week view, 80 pixels
  per hour in the day view);
- an add/edit form whose handlers route a submit to a create or an update,
  then reset the form;
- the "All Events" list, sorted by date and then time, with a duration label
  beside each entry.

The model has these modules:

- `Wrappers`: the `Option` type.
- `CivilDates`: proleptic Gregorian dates as (year, month, day).
  - A day number counts from 0001-01-01, and the weekday is derived from it
    (0 is Sunday).
  - `AddDays` steps through `NextDay` / `PrevDay`.
  - `AddMonths` clamps the day to the target month, as `addMonths` and
    `subMonths` of date-fns do.
- `Text`: the numbers and strings of the component.
  - Decimal printing as in template literals.
  - A model of `parseInt` on decimal text.
  - `split(':')` and `join(':')`.
- `DateRange`: the weekday headers and week and month bounds, the month grid
  and the week strip, and navigation.
- `Events`: the event record, `getEventsForDate`, `getEventsForHour` and
  the month cell.
- `Placement`: both `getEventPosition` functions.
- `EventList`: the list comparator, the order of the "All Events" list, and
  `formatDuration` together with a decoder of its labels.
- `Controller`: a class `CalendarView` whose fields are the component's
  React state. Each handler is a method that updates them.
  - The events API is not called. What a request gets back is a parameter
    of the handler that sends it:
    - `Response`: the request threw, or was answered with or without `ok`.
    - `FetchResult`: the reload of the list failed, was answered without
      `ok`, or returned the events.
  - The request the handler would send is its result.

In this model a date is a calendar day. The component's `Date` values also
carry a time of day, which the model drops (see "Left out"). An event's
time of day is its `time` string.

## Model

| member | source | states |
|---|---|---|
| CivilDates.DaysInMonth | nextjs-calendar/nextjs-calendar/app/components/Calendar.tsx:212 | a month has 28 to 31 days, and 28 exactly for February of a common year |
| CivilDates.NextDay | nextjs-calendar/nextjs-calendar/app/components/Calendar.tsx:72 | the day after a valid date is a valid date numbered one higher, rolling over month and year ends |
| CivilDates.PrevDay | nextjs-calendar/nextjs-calendar/app/components/Calendar.tsx:86 | the day before a valid date is a valid date numbered one lower |
| CivilDates.NextPrevInverse | nextjs-calendar/nextjs-calendar/app/components/Calendar.tsx:72-86 | the next and the previous day undo each other |
| CivilDates.AddDays | nextjs-calendar/nextjs-calendar/app/components/Calendar.tsx:282 | `addDays(d, n)` is a valid date whose day number is n more than d's |
| CivilDates.AddDaysCompose | nextjs-calendar/nextjs-calendar/app/components/Calendar.tsx:282 | adding a days and then b days is adding a + b days |
| CivilDates.AddDaysRoundTrip | nextjs-calendar/nextjs-calendar/app/components/Calendar.tsx:69-86 | adding n days and then -n days gives back the date |
| CivilDates.DayOfWeekLater | nextjs-calendar/nextjs-calendar/app/components/Calendar.tsx:206 | a date n days after another falls n weekdays (mod 7) later |
| CivilDates.DaysBeforeYearClosedForm | nextjs-calendar/nextjs-calendar/app/components/Calendar.tsx:206 | the start of a year is 365 days per year plus the Gregorian leap days (every 4th year, not centuries, but every 400th) |
| CivilDates.DayOfWeekClosedForm | nextjs-calendar/nextjs-calendar/app/components/Calendar.tsx:206 | the weekday in closed form, from the year, the month table and the day |
| CivilDates.EpochWeekday | nextjs-calendar/nextjs-calendar/app/components/Calendar.tsx:206 | 1970-01-01 is a Thursday |
| CivilDates.LeapMarchWeekday | nextjs-calendar/nextjs-calendar/app/components/Calendar.tsx:206 | 2024-03-05 is a Tuesday |
| CivilDates.BeforeIffSmallerNumber | nextjs-calendar/nextjs-calendar/app/components/Calendar.tsx:671 | for valid dates, being earlier in fields is having the smaller day number, and equality is equal day numbers |
| CivilDates.DayNumberInjective | nextjs-calendar/nextjs-calendar/app/components/Calendar.tsx:165 | two valid dates with one day number are the same day |
| CivilDates.AddMonths | nextjs-calendar/nextjs-calendar/app/components/Calendar.tsx:66-80 | `addMonths(d, n)` is a valid date n calendar months on, whose day is d's day clamped to the target month's length |
| CivilDates.NextMonth | nextjs-calendar/nextjs-calendar/app/components/Calendar.tsx:66 | one month on: December rolls into January of the next year, and the day is clamped |
| CivilDates.PrevMonth | nextjs-calendar/nextjs-calendar/app/components/Calendar.tsx:80 | one month back: January rolls into December of the previous year, and the day is clamped |
| CivilDates.AddMonthsRoundTrip | nextjs-calendar/nextjs-calendar/app/components/Calendar.tsx:66-80 | n months on and n months back restores the date if and only if its day exists in the intermediate month |
| CivilDates.AddMonthsCompose | nextjs-calendar/nextjs-calendar/app/components/Calendar.tsx:66-80 | days 1 to 28 survive any sequence of month steps |
| DateRange.StartOfWeek | nextjs-calendar/nextjs-calendar/app/components/Calendar.tsx:213 | `startOfWeek` is a Sunday, DayOfWeek(d) days before d |
| DateRange.EndOfWeek | nextjs-calendar/nextjs-calendar/app/components/Calendar.tsx:214 | `endOfWeek` is a Saturday, 6 - DayOfWeek(d) days after d |
| DateRange.StartOfMonth | nextjs-calendar/nextjs-calendar/app/components/Calendar.tsx:211 | `startOfMonth` is day 1 of the anchor's year and month, `day - 1` days before the anchor |
| DateRange.EndOfMonth | nextjs-calendar/nextjs-calendar/app/components/Calendar.tsx:212 | `endOfMonth` is in the anchor's month, and the next day is in another month |
| DateRange.EachDayOfInterval | nextjs-calendar/nextjs-calendar/app/components/Calendar.tsx:215 | `eachDayOfInterval` holds DN(b) - DN(a) + 1 valid days, cell i numbered DN(a) + i |
| DateRange.IntervalEnds | nextjs-calendar/nextjs-calendar/app/components/Calendar.tsx:215 | the interval's first cell is its start and its last cell its end |
| DateRange.MonthGrid | nextjs-calendar/nextjs-calendar/app/components/Calendar.tsx:210-215 | the month grid is non-empty, starts at the Sunday on or before the 1st and ends at the Saturday on or after the last day |
| DateRange.MonthGridLength | nextjs-calendar/nextjs-calendar/app/components/Calendar.tsx:210-215 | the grid is a whole number of weeks, 28 to 42 days |
| DateRange.MonthGridWeekdays | nextjs-calendar/nextjs-calendar/app/components/Calendar.tsx:206-231 | cell i falls on weekday i mod 7 (0 is Sunday), the weekday named by the header of its column |
| DateRange.HeadersNameWeekdays | nextjs-calendar/nextjs-calendar/app/components/Calendar.tsx:206 | the Sunday-first header row names the weekday numbering: 1970-01-01 falls in the "Thu" column and 2024-03-05 in "Tue" |
| DateRange.MonthGridConsecutive | nextjs-calendar/nextjs-calendar/app/components/Calendar.tsx:215 | each grid cell is the day after the previous one |
| DateRange.MonthDayInGrid | nextjs-calendar/nextjs-calendar/app/components/Calendar.tsx:210-215 | day k of the anchor's month is at cell DayOfWeek(1st) + k - 1 |
| DateRange.CellInCurrentMonth | nextjs-calendar/nextjs-calendar/app/components/Calendar.tsx:232 | `isSameMonth(day, currentDate)` holds for a cell exactly when it lies in the run of the month's days |
| DateRange.MonthGridCoversMonth | nextjs-calendar/nextjs-calendar/app/components/Calendar.tsx:210-232 | every day of the month is in the grid, in order, as one run; a cell is in the month iff it is in that run |
| DateRange.WeekStrip | nextjs-calendar/nextjs-calendar/app/components/Calendar.tsx:281-282 | the week strip has 7 days |
| DateRange.WeekStripWeekdays | nextjs-calendar/nextjs-calendar/app/components/Calendar.tsx:281-282 | the strip's day i is weekday i, Sunday to Saturday |
| DateRange.WeekStripConsecutive | nextjs-calendar/nextjs-calendar/app/components/Calendar.tsx:281-282 | the strip's days follow one another |
| DateRange.WeekStripContainsAnchor | nextjs-calendar/nextjs-calendar/app/components/Calendar.tsx:281-282 | the anchor is the strip's day at the position of its weekday |
| DateRange.Navigate | nextjs-calendar/nextjs-calendar/app/components/Calendar.tsx:63-89 | a step in any view from a valid anchor gives a valid anchor |
| DateRange.NavigateRoundTripWeekDay | nextjs-calendar/nextjs-calendar/app/components/Calendar.tsx:63-89 | in week and day view, next then previous, and previous then next, restore the anchor exactly |
| DateRange.NavigateDistance | nextjs-calendar/nextjs-calendar/app/components/Calendar.tsx:68-86 | a week step moves the anchor 7 days and keeps its weekday; a day step moves it 1 day |
| DateRange.NavigateMonth | nextjs-calendar/nextjs-calendar/app/components/Calendar.tsx:65-80 | a month step goes to the neighbouring month, rolling over the year, with the day clamped to Min(day, days in the target month) |
| DateRange.NavigateRoundTripMonth | nextjs-calendar/nextjs-calendar/app/components/Calendar.tsx:65-80 | in month view, next then previous restores the anchor if and only if its day exists in the next month |
| DateRange.MonthRoundTripLosesDay | nextjs-calendar/nextjs-calendar/app/components/Calendar.tsx:65-80 | January 31st, 2024 goes to February 29th and comes back as January 29th |
| Text.IntStrReadBack | nextjs-calendar/nextjs-calendar/app/components/Calendar.tsx:173 | reading an integer from its printed text followed by a non-digit gives the number back and stops at the text's end |
| Text.ParsePad2 | nextjs-calendar/nextjs-calendar/app/components/Calendar.tsx:288-289 | `parseInt` of a two-digit zero-padded field is its number |
| Text.JoinSplit | nextjs-calendar/nextjs-calendar/app/components/Calendar.tsx:287 | joining the fields of `split(':')` gives back the string |
| Text.SplitJoin | nextjs-calendar/nextjs-calendar/app/components/Calendar.tsx:287 | splitting fields joined by ':' gives back the fields when none contains ':' |
| Events.ClockTextFields | nextjs-calendar/nextjs-calendar/app/components/Calendar.tsx:173 | a clock time "HH:MM" or "HH:MM:SS" reads back, field by field, as its hour and minute |
| Events.EventsOnDate | nextjs-calendar/nextjs-calendar/app/components/Calendar.tsx:163-167 | `getEventsForDate(d)` is a subsequence of the events that holds exactly the events on day d, each as often as in the list |
| Events.EventsInHour | nextjs-calendar/nextjs-calendar/app/components/Calendar.tsx:169-176 | `getEventsForHour(d, h)` is a subsequence holding exactly the timed events of day d whose leading time field parses to h |
| Events.HourSlotOfDay | nextjs-calendar/nextjs-calendar/app/components/Calendar.tsx:163-176 | the hour selection of the whole list equals the hour selection of the day's events, and is a subsequence of them |
| Events.UntimedInNoHour | nextjs-calendar/nextjs-calendar/app/components/Calendar.tsx:172 | an event without a time is in no hour slot |
| Events.MonthCellSummary | nextjs-calendar/nextjs-calendar/app/components/Calendar.tsx:251-269 | a month cell shows the first min(3, n) of the day's n events, and a "+N more" line exactly when n > 3, which reads as the number n - 3 followed by " more" |
| Placement.WeekPosition | nextjs-calendar/nextjs-calendar/app/components/Calendar.tsx:285-299 | the week-view position is absent exactly for an event without a time |
| Placement.DayPosition | nextjs-calendar/nextjs-calendar/app/components/Calendar.tsx:389-403 | the day-view position is absent exactly for an event without a time |
| Placement.DayIsScaledWeek | nextjs-calendar/nextjs-calendar/app/components/Calendar.tsx:389-403 | the day view places each event where the week view does, scaled by 80/60 (3 * day = 4 * week for top and height), and NaN in one is NaN in the other |
| Placement.WeekPositionOfClockTime | nextjs-calendar/nextjs-calendar/app/components/Calendar.tsx:285-299 | an event at h:m is at top h * 60 + m, within the 1440-pixel grid, and as tall as its duration, an hour when the duration is missing or 0 |
| Placement.DayPositionOfClockTime | nextjs-calendar/nextjs-calendar/app/components/Calendar.tsx:389-403 | in the day view 3 * top = 4 * (h * 60 + m), 3 * height = 4 * duration, and top is within the 1920-pixel grid |
| Placement.HalfPastTwoForNinetyMinutes | nextjs-calendar/nextjs-calendar/app/components/Calendar.tsx:389-403 | "14:30" for 90 minutes is at (870, 90) in the week view and (1160, 120) in the day view |
| EventList.CompareDatesIsTimeDifference | nextjs-calendar/nextjs-calendar/app/components/Calendar.tsx:671 | comparing the days' fields has the sign of `dateA.getTime() - dateB.getTime()` |
| EventList.CompareStringsAntisymmetric | nextjs-calendar/nextjs-calendar/app/components/Calendar.tsx:676 | the time comparison is antisymmetric and says 0 only of equal strings |
| EventList.CompareForListAntisymmetric | nextjs-calendar/nextjs-calendar/app/components/Calendar.tsx:665-678 | swapping the arguments negates the comparator, and an earlier date always compares lower |
| EventList.CompareForListNotTransitive | nextjs-calendar/nextjs-calendar/app/components/Calendar.tsx:675-678 | on one date, an untimed event ties with 10:00 and with 09:00, which do not tie with each other |
| EventList.InsertForList | nextjs-calendar/nextjs-calendar/app/components/Calendar.tsx:665-678 | inserting adds exactly the new event to the multiset of events |
| EventList.InsertKeepsAdjacent | nextjs-calendar/nextjs-calendar/app/components/Calendar.tsx:665-678 | inserting into a list whose neighbours are in comparator order keeps them so |
| EventList.SortForList | nextjs-calendar/nextjs-calendar/app/components/Calendar.tsx:665-678 | the sorted list is a permutation of the events whose neighbours are in comparator order |
| EventList.AdjacentMeansDateOrdered | nextjs-calendar/nextjs-calendar/app/components/Calendar.tsx:670-672 | a list whose neighbours are in comparator order has no later date before an earlier one |
| EventList.SortForListOrdersDates | nextjs-calendar/nextjs-calendar/app/components/Calendar.tsx:665-679 | the list shows every event exactly once, events with different dates in date order |
| EventList.FormatDuration | nextjs-calendar/nextjs-calendar/app/components/Calendar.tsx:681 | the label is empty exactly for a missing or zero duration |
| EventList.FormatDurationRoundTrip | nextjs-calendar/nextjs-calendar/app/components/Calendar.tsx:680-688 | every non-empty label decodes to the duration it was printed from, under a decoder that takes each unit only where the formatter prints it and each count only as a template literal writes it: "All day" for 480, "N min" for N below 60 other than 0 (negative counts too, which the formatter prints as "-N min"), "1 hour", "H hours" for H > 1 other than 8, and "Hh Mm" for H >= 1 and 1 <= M <= 59 |
| EventList.DecodedLabelIsPrinted | nextjs-calendar/nextjs-calendar/app/components/Calendar.tsx:680-688 | the decoder accepts nothing but labels: whatever text it reads as v is exactly what the formatter prints for v, so labels and non-zero durations correspond one to one |
| EventList.NonCanonicalCountsRejected | nextjs-calendar/nextjs-calendar/app/components/Calendar.tsx:683 | a count written with a plus sign or a leading zero ("+15 min", "015 min") is not a label, since a template literal prints neither |
| EventList.WrongUnitsRejected | nextjs-calendar/nextjs-calendar/app/components/Calendar.tsx:683-686 | "1 hours", "3 hour" and "90 min" are not labels: the formatter prints the plural only past one hour, the singular only for one, and minutes only under an hour |
| EventList.ZeroHoursRejected | nextjs-calendar/nextjs-calendar/app/components/Calendar.tsx:683-687 | "0h 15m" is not a label: durations under an hour are printed in minutes |
| EventList.QuarterHourLabel | nextjs-calendar/nextjs-calendar/app/components/Calendar.tsx:683 | 15 minutes is labelled "15 min" |
| EventList.WholeHourLabels | nextjs-calendar/nextjs-calendar/app/components/Calendar.tsx:686 | 60 minutes is "1 hour" and 120 is "2 hours" |
| EventList.EmptyLabels | nextjs-calendar/nextjs-calendar/app/components/Calendar.tsx:681 | a zero or missing duration has an empty label |
| EventList.HourAndHalfLabel | nextjs-calendar/nextjs-calendar/app/components/Calendar.tsx:684-687 | 90 minutes is "1h 30m" |
| EventList.WorkingDayLabel | nextjs-calendar/nextjs-calendar/app/components/Calendar.tsx:682 | 480 minutes is "All day" |
| Controller.RequestBody | nextjs-calendar/nextjs-calendar/app/components/Calendar.tsx:121-128 | the body carries the form's title, duration and colour and the selected day; an empty time or description goes as null, any other as entered |
| Controller.FormOf | nextjs-calendar/nextjs-calendar/app/components/Calendar.tsx:196-202 | the edit form holds the event's fields, a missing time or description as '' and a missing or zero duration as 60 |
| Controller.EditSaveRoundTrip | nextjs-calendar/nextjs-calendar/app/components/Calendar.tsx:121-128 | opening an event (the form of lines 196-202) and saving it unchanged sends the event back, up to empty fields becoming null; a stored event comes back exactly |
| Controller.HourLabel | nextjs-calendar/nextjs-calendar/app/components/Calendar.tsx:111-113 | the time set by a click on an hour row is "HH:00" and reads back as that hour and minute 0 |
| Controller.HourClickLandsInRow | nextjs-calendar/nextjs-calendar/app/components/Calendar.tsx:110-115 | an event created from a click on hour h of day d is listed in hour h of day d and in no other hour, and the week view draws it at the top of that row, h * 60 pixels down |
| Controller.CalendarView.constructor | nextjs-calendar/nextjs-calendar/app/components/Calendar.tsx:20-33 | the initial state: today in month view, no events, nothing selected, form hidden and at its defaults, loading |
| Controller.CalendarView.NavigateNext | nextjs-calendar/nextjs-calendar/app/components/Calendar.tsx:63-75 | the anchor moves one step forward in the current view; nothing else changes |
| Controller.CalendarView.NavigatePrev | nextjs-calendar/nextjs-calendar/app/components/Calendar.tsx:77-89 | the anchor moves one step back in the current view; nothing else changes |
| Controller.CalendarView.SetView | nextjs-calendar/nextjs-calendar/app/components/Calendar.tsx:497-515 | only the view changes |
| Controller.CalendarView.HandleDateClick | nextjs-calendar/nextjs-calendar/app/components/Calendar.tsx:105-108 | the day is selected and the form shown, with its fields unchanged |
| Controller.CalendarView.HandleTimeClick | nextjs-calendar/nextjs-calendar/app/components/Calendar.tsx:110-115 | the day is selected, the form's time becomes "HH:00" and no other field changes, and the form is shown |
| Controller.CalendarView.EditEvent | nextjs-calendar/nextjs-calendar/app/components/Calendar.tsx:192-204 | the event is remembered, its day selected, the form loaded from it and shown |
| Controller.CalendarView.CancelForm | nextjs-calendar/nextjs-calendar/app/components/Calendar.tsx:542-546 | the close button, like Cancel at lines 643-647: the form is hidden and reset to its defaults, and no event is being edited |
| Controller.CalendarView.EditText | nextjs-calendar/nextjs-calendar/app/components/Calendar.tsx:562-608 | typing changes only the title, time and description fields |
| Controller.CalendarView.ChooseDuration | nextjs-calendar/nextjs-calendar/app/components/Calendar.tsx:586-597 | choosing one of the offered durations changes only the form's duration |
| Controller.CalendarView.ChooseColor | nextjs-calendar/nextjs-calendar/app/components/Calendar.tsx:619-623 | clicking a swatch changes only the form's colour |
| Controller.CalendarView.FetchEvents | nextjs-calendar/nextjs-calendar/app/components/Calendar.tsx:38-55 | the list is replaced only by a successful answer, and loading ends in every case |
| Controller.CalendarView.HandleSubmitEvent | nextjs-calendar/nextjs-calendar/app/components/Calendar.tsx:117-161 | nothing is sent iff the title is empty or no day is selected; otherwise an update for the edited event or else a create; an answer resets and hides the form; an ok answer reloads the list and ends the edit; a throw changes nothing |
| Controller.CalendarView.DeleteEvent | nextjs-calendar/nextjs-calendar/app/components/Calendar.tsx:178-190 | a delete is sent for the id; only an ok answer reloads the list |
| Controller.CalendarView.SortForDisplay | nextjs-calendar/nextjs-calendar/app/components/Calendar.tsx:665-679 | the state's list is reordered in place into a permutation of itself with dates in order, and shown in that order |
| Controller.StaleEditOverwrites | nextjs-calendar/nextjs-calendar/app/components/Calendar.tsx:105-160 | after an update the API refuses, the component stays in edit mode with a reset form, so a day click and a new title send a second update to the old event's id rather than a create |

## Left out

- `getNavigationTitle` and every date-fns `format` call except the 'HH:mm'
  of `handleTimeClick`, which is modelled as `HourLabel`. That covers the
  titles (lines 91-102), the day-of-month numbers (lines 248 and 315), the
  weekday names (line 313), the hour labels of the week and day views
  (lines 363 and 414) and the printed dates (lines 539 and 700). The
  'yyyy-MM-dd' of line 123 is left out with the request body below. These
  are locale formatting inside date-fns, which is not part of this model.
- `useEffect`, the loading screen and `console.error`. `loading` is a field
  that `FetchEvents` clears; nothing reads it.
- JSX, CSS, colours and the `+2` / `-4` / `minHeight` pixel adjustments the
  views apply to a position, and the `height > 30` / `height > 40` /
  `height > 60` display conditions.
- `new Date()` and `today`: the clock is a parameter of the constructor. The
  today highlight is left out.
- Time of day inside a `Date`, `parseISO`, `startOfDay` and time zones. A
  date is a calendar day. `handleTimeClick` selects the clicked day; its
  hour is kept only in the form's time string.
- `EachDayOfInterval` requires its start not to be after its end. Every
  call in the component satisfies this, so the reversed case of date-fns is
  not modelled.
- `Text.ReadInt` models `parseInt` on decimal text: an optional sign and a
  run of digits. Leading whitespace and the `0x` prefix are not modelled,
  because the times the component reads never contain them.
- `EventList.CompareStrings` compares code points one by one. This stands
  in for `localeCompare`, which depends on the locale's collation. The two
  agree on zero-padded "HH:MM" and "HH:MM:SS" times, which is what the
  form and the database write. They may disagree on unpadded times such as
  "1:00" against "10:00", where a collation that ranks ':' before the
  digits differs from code-point order.
- `EventList.SortForList` is one stable insertion sort with the component's
  comparator. The JavaScript engine's own algorithm is not modelled. The
  comparator is not transitive on a single date (see
  `CompareForListNotTransitive`), so different algorithms may order
  same-day events differently. What holds for every algorithm that leaves
  each neighbouring pair in comparator order is proved: the output is a
  permutation with dates in order.
- Pixel values are exact reals. JavaScript doubles agree with them on
  whole minutes in the week view, but may round the day view's 80/60
  scaling.
- The request body carries the selected `Date` itself, not its
  'yyyy-MM-dd' text. JSON encoding, `fetch`, the events API routes, the
  database, `scripts/init-db.js` and `app/page.tsx` are not part of this
  model.
- `Controller.StoredEvent` assumes the API stores the request body as sent
  and returns it under a new id. A time sent as "14:00" might come back as
  "14:00:00". `HourOf` and `MinuteOf` read both the same
  (`ClockTextFields`), so the hour an event is listed under does not
  change.
- Concurrency of the async handlers: two requests in flight, the order in
  which their answers arrive, and the re-renders between awaits. Each
  handler runs to completion.
- `Controller.CalendarView.DeleteEvent` and `HandleSubmitEvent` take the
  outcome of the reload as a parameter. The model treats the reload as one
  step with `FetchEvents`, not as a second request.
- Month navigation is not reversible in general, and the model follows the
  code here. One might expect a month step forward and back to return to
  the anchor. The code clamps the day with `addMonths`, so the round trip
  holds only when the day exists in the next month
  (`NavigateRoundTripMonth`, `MonthRoundTripLosesDay`).
