/** The calendar component's state and the handlers that change it. The
    events API is not modelled: what a request gets back is a parameter of
    the handler that sends it. */
module Controller {
  import opened Wrappers
  import opened CivilDates
  import opened Text
  import opened DateRange
  import opened Events
  import opened EventList
  import opened Placement

  /** The add/edit form's fields. */
  datatype EventForm = EventForm(title: string, time: string, duration: int, description: string, color: string)

  const DefaultColor: string := "#3B82F6"

  /** The form after a reset: no title, no time, an hour, no description, blue. */
  const DefaultForm: EventForm := EventForm("", "", 60, "", DefaultColor)

  /** The durations the form's select offers, in minutes. */
  const DurationOptions: seq<int> := [15, 30, 45, 60, 90, 120, 180, 240, 480]

  /** The colour swatches the form offers. */
  const Palette: seq<string> := ["#3B82F6", "#10B981", "#F59E0B", "#EF4444", "#8B5CF6", "#EC4899"]

  /** The JSON body of a create or an update. */
  datatype EventData = EventData(title: string, date: Date, time: Option<string>, duration: int,
                                 description: Option<string>, color: string)

  /** The requests the component sends to the events API. */
  datatype Request = CreateEvent(body: EventData) | UpdateEvent(id: int, body: EventData) | DeleteEvent(id: int)

  /** How a create, update or delete request ended: `fetch` threw, or the
      API answered with or without `ok`. */
  datatype Response = Threw | Answered(ok: bool)

  /** How reloading the list ended: `fetch` or `json()` threw, the API
      answered without `ok`, or it answered with the events. */
  datatype FetchResult = FetchFailed | FetchNotOk | FetchOk(data: seq<Event>)

  /** `value || null` for a string field. */
  function OrNull(s: string): (r: Option<string>)
    ensures r.None? <==> s == ""
    ensures r.Some? ==> r.value == s
  {
    if s == "" then None else Some(s)
  }

  /** The event list after a reload: replaced on success, kept otherwise. */
  function Refreshed(events: seq<Event>, result: FetchResult): (r: seq<Event>)
    ensures result.FetchOk? ==> r == result.data
    ensures !result.FetchOk? ==> r == events
  {
    if result.FetchOk? then result.data else events
  }

  /** The body sent for the form on the selected day: an empty time or
      description goes as null, the rest as entered. */
  function RequestBody(form: EventForm, d: Date): (b: EventData)
    ensures b.title == form.title && b.date == d && b.duration == form.duration && b.color == form.color
    ensures b.time.GetOr("") == form.time && (b.time.None? <==> form.time == "")
    ensures b.description.GetOr("") == form.description && (b.description.None? <==> form.description == "")
  {
    EventData(form.title, d, OrNull(form.time), form.duration, OrNull(form.description), form.color)
  }

  /** The form loaded for editing an event: a missing time shows as empty,
      a missing or zero duration as an hour. */
  function FormOf(e: Event): (f: EventForm)
    ensures f.title == e.title && f.color == e.color
    ensures f.time == e.time.GetOr("") && f.description == e.description.GetOr("")
    ensures f.duration == EffectiveDuration(e)
  {
    EventForm(e.title, e.time.GetOr(""), if e.duration.None? || e.duration.value == 0 then 60 else e.duration.value,
              e.description.GetOr(""), e.color)
  }

  /** The event the API keeps for a body under a given id. */
  function StoredEvent(id: int, b: EventData): Event {
    Event(id, b.title, b.date, b.time, Some(b.duration), b.description, b.color)
  }

  /** An event whose optional fields are each absent or meaningful, the
      way the API stores what the form sends. */
  predicate Normal(e: Event) {
    && e.time != Some("")
    && e.description != Some("")
    && e.duration.Some? && e.duration.value != 0
  }

  /** Opening an event for editing and saving it unchanged sends back the
      event itself, up to empty fields becoming null and a missing or zero
      duration becoming an hour; a stored event round-trips exactly. */
  lemma EditSaveRoundTrip(e: Event)
    ensures var s := StoredEvent(e.id, RequestBody(FormOf(e), e.date));
      && Normal(s)
      && s.title == e.title && s.date == e.date && s.color == e.color
      && s.duration == Some(EffectiveDuration(e))
      && (IsTimed(e) <==> IsTimed(s)) && (IsTimed(e) ==> s.time == e.time)
    ensures Normal(e) ==> StoredEvent(e.id, RequestBody(FormOf(e), e.date)) == e
  {
  }

  /** The time `format(clickedDate, 'HH:mm')` gives for an hour row. */
  function HourLabel(hour: int): (t: string)
    requires 0 <= hour < 24
    ensures HourOf(t) == Some(hour) && MinuteOf(t) == Some(0)
    ensures t == Pad2(hour) + ":00"
  {
    ClockTextFields(hour, 0, None);
    assert [Pad2(hour), Pad2(0)] + [] == [Pad2(hour), Pad2(0)];
    assert Pad2(0) == "00";
    assert Join([Pad2(hour), Pad2(0)], ':') == Pad2(hour) + [':'] + Join([Pad2(0)], ':');
    ClockText(hour, 0, None)
  }

  /** An event created from a click on an hour row lands in that row: it is
      listed for that day and hour only, and the week view draws it at the
      top of the row, `hour * 60` pixels down. */
  lemma HourClickLandsInRow(form: EventForm, d: Date, hour: int, id: int)
    requires 0 <= hour < 24
    ensures var e := StoredEvent(id, RequestBody(form.(time := HourLabel(hour)), d));
      && EventsInHour([e], d, hour) == [e]
      && (forall h :: h != hour ==> EventsInHour([e], d, h) == [])
      && WeekPosition(e) == Some(Position(Px((hour * 60) as real), EffectiveDuration(e) as real))
  {
    var e := StoredEvent(id, RequestBody(form.(time := HourLabel(hour)), d));
    WeekPositionOfClockTime(e, hour, 0, None);
    assert |HourLabel(hour)| == 5;
    assert InHourSlot(e, d, hour);
  }

  class CalendarView {
    var currentDate: Date
    var view: View
    var events: seq<Event>
    var selectedDate: Option<Date>
    var showEventForm: bool
    var editingEvent: Option<Event>
    var loading: bool
    var eventForm: EventForm

    /** The anchor date is always a real day. */
    ghost predicate Valid()
      reads this
    {
      ValidDate(currentDate)
    }

    /** The component on mount: today's month, no events yet, loading. */
    constructor(today: Date)
      requires ValidDate(today)
      ensures Valid()
      ensures currentDate == today && view == Month && events == []
      ensures selectedDate.None? && !showEventForm && editingEvent.None?
      ensures loading && eventForm == DefaultForm
    {
      currentDate := today;
      view := Month;
      events := [];
      selectedDate := None;
      showEventForm := false;
      editingEvent := None;
      loading := true;
      eventForm := DefaultForm;
    }

    /** `navigateNext`: one month, week or day forward. */
    method NavigateNext()
      requires Valid()
      modifies this
      ensures Valid()
      ensures currentDate == Navigate(old(currentDate), view, Next)
      ensures view == old(view) && events == old(events) && selectedDate == old(selectedDate)
      ensures showEventForm == old(showEventForm) && editingEvent == old(editingEvent)
      ensures loading == old(loading) && eventForm == old(eventForm)
    {
      currentDate := Navigate(currentDate, view, Next);
    }

    /** `navigatePrev`: one month, week or day back. */
    method NavigatePrev()
      requires Valid()
      modifies this
      ensures Valid()
      ensures currentDate == Navigate(old(currentDate), view, Prev)
      ensures view == old(view) && events == old(events) && selectedDate == old(selectedDate)
      ensures showEventForm == old(showEventForm) && editingEvent == old(editingEvent)
      ensures loading == old(loading) && eventForm == old(eventForm)
    {
      currentDate := Navigate(currentDate, view, Prev);
    }

    /** The Month / Week / Day buttons. */
    method SetView(v: View)
      requires Valid()
      modifies this
      ensures Valid()
      ensures view == v && currentDate == old(currentDate) && events == old(events)
      ensures selectedDate == old(selectedDate) && showEventForm == old(showEventForm)
      ensures editingEvent == old(editingEvent) && loading == old(loading) && eventForm == old(eventForm)
    {
      view := v;
    }

    /** `handleDateClick`: select the day and open the form as it is. */
    method HandleDateClick(d: Date)
      requires Valid()
      modifies this
      ensures Valid()
      ensures selectedDate == Some(d) && showEventForm
      ensures currentDate == old(currentDate) && view == old(view) && events == old(events)
      ensures editingEvent == old(editingEvent) && loading == old(loading) && eventForm == old(eventForm)
    {
      selectedDate := Some(d);
      showEventForm := true;
    }

    /** `handleTimeClick`: select the day, set the form's time to the
      start of the hour and nothing else, and open the form. */
    method HandleTimeClick(d: Date, hour: int)
      requires Valid() && 0 <= hour < 24
      modifies this
      ensures Valid()
      ensures selectedDate == Some(d) && showEventForm
      ensures eventForm == old(eventForm).(time := HourLabel(hour))
      ensures currentDate == old(currentDate) && view == old(view) && events == old(events)
      ensures editingEvent == old(editingEvent) && loading == old(loading)
    {
      selectedDate := Some(d);
      eventForm := eventForm.(time := HourLabel(hour));
      showEventForm := true;
    }

    /** `editEvent`: remember the event, select its day, load its fields. */
    method EditEvent(e: Event)
      requires Valid()
      modifies this
      ensures Valid()
      ensures editingEvent == Some(e) && selectedDate == Some(e.date) && showEventForm
      ensures eventForm == FormOf(e)
      ensures currentDate == old(currentDate) && view == old(view) && events == old(events)
      ensures loading == old(loading)
    {
      editingEvent := Some(e);
      selectedDate := Some(e.date);
      eventForm := FormOf(e);
      showEventForm := true;
    }

    /** The close and Cancel buttons: hide the form, forget the event being
      edited, reset the fields. */
    method CancelForm()
      requires Valid()
      modifies this
      ensures Valid()
      ensures !showEventForm && editingEvent.None? && eventForm == DefaultForm
      ensures currentDate == old(currentDate) && view == old(view) && events == old(events)
      ensures selectedDate == old(selectedDate) && loading == old(loading)
    {
      showEventForm := false;
      editingEvent := None;
      eventForm := DefaultForm;
    }

    /** Typing in the title, time or description field. */
    method EditText(title: string, time: string, description: string)
      requires Valid()
      modifies this
      ensures Valid()
      ensures eventForm == old(eventForm).(title := title, time := time, description := description)
      ensures currentDate == old(currentDate) && view == old(view) && events == old(events)
      ensures selectedDate == old(selectedDate) && showEventForm == old(showEventForm)
      ensures editingEvent == old(editingEvent) && loading == old(loading)
    {
      eventForm := eventForm.(title := title, time := time, description := description);
    }

    /** Choosing one of the offered durations. */
    method ChooseDuration(minutes: int)
      requires Valid() && minutes in DurationOptions
      modifies this
      ensures Valid()
      ensures eventForm == old(eventForm).(duration := minutes)
      ensures currentDate == old(currentDate) && view == old(view) && events == old(events)
      ensures selectedDate == old(selectedDate) && showEventForm == old(showEventForm)
      ensures editingEvent == old(editingEvent) && loading == old(loading)
    {
      eventForm := eventForm.(duration := minutes);
    }

    /** Clicking one of the colour swatches. */
    method ChooseColor(color: string)
      requires Valid() && color in Palette
      modifies this
      ensures Valid()
      ensures eventForm == old(eventForm).(color := color)
      ensures currentDate == old(currentDate) && view == old(view) && events == old(events)
      ensures selectedDate == old(selectedDate) && showEventForm == old(showEventForm)
      ensures editingEvent == old(editingEvent) && loading == old(loading)
    {
      eventForm := eventForm.(color := color);
    }

    /** `fetchEvents`: the list is replaced only when the API answered with
      the events; loading is over in every case. */
    method FetchEvents(result: FetchResult)
      requires Valid()
      modifies this
      ensures Valid()
      ensures events == Refreshed(old(events), result) && !loading
      ensures currentDate == old(currentDate) && view == old(view) && selectedDate == old(selectedDate)
      ensures showEventForm == old(showEventForm) && editingEvent == old(editingEvent)
      ensures eventForm == old(eventForm)
    {
      if result.FetchOk? {
        events := result.data;
      }
      loading := false;
    }

    /** `handleSubmitEvent`. Without a title or a selected day nothing is
      sent and nothing changes. Otherwise an update is sent for the event
      being edited, a create if there is none. If the request throws,
      nothing changes. Once it is answered the form is reset and hidden; an
      `ok` answer also reloads the list (with `reload`) and ends the edit,
      while a failed update leaves `editingEvent` set: the form is closed
      but still in edit mode, so the next form opened from a day click
      updates the old event instead of creating one (`StaleEditOverwrites`). */
    method HandleSubmitEvent(response: Response, reload: FetchResult) returns (sent: Option<Request>)
      requires Valid()
      modifies this
      ensures Valid()
      ensures sent.None? <==> old(eventForm.title) == "" || old(selectedDate).None?
      ensures sent.Some? ==>
        var body := RequestBody(old(eventForm), old(selectedDate).value);
        sent.value == if old(editingEvent).Some? then UpdateEvent(old(editingEvent).value.id, body) else CreateEvent(body)
      ensures sent.Some? && response == Answered(true) ==>
        events == Refreshed(old(events), reload) && !loading && editingEvent.None?
      ensures sent.Some? && response.Answered? ==> eventForm == DefaultForm && !showEventForm
      ensures sent.Some? && response == Answered(false) ==>
        events == old(events) && loading == old(loading) && editingEvent == old(editingEvent)
      ensures sent.None? || response.Threw? ==>
        events == old(events) && loading == old(loading) && editingEvent == old(editingEvent)
        && eventForm == old(eventForm) && showEventForm == old(showEventForm)
      ensures currentDate == old(currentDate) && view == old(view) && selectedDate == old(selectedDate)
    {
      if eventForm.title != "" && selectedDate.Some? {
        var body := RequestBody(eventForm, selectedDate.value);
        if editingEvent.Some? {
          sent := Some(UpdateEvent(editingEvent.value.id, body));
          if response == Answered(true) {
            FetchEvents(reload);
            editingEvent := None;
          }
        } else {
          sent := Some(CreateEvent(body));
          if response == Answered(true) {
            FetchEvents(reload);
          }
        }
        if response.Answered? {
          eventForm := DefaultForm;
          showEventForm := false;
        }
      } else {
        sent := None;
      }
    }

    /** `deleteEvent`: send the delete; an `ok` answer reloads the list. */
    method DeleteEvent(id: int, response: Response, reload: FetchResult) returns (sent: Request)
      requires Valid()
      modifies this
      ensures Valid()
      ensures sent == Request.DeleteEvent(id)
      ensures response == Answered(true) ==> events == Refreshed(old(events), reload) && !loading
      ensures response != Answered(true) ==> events == old(events) && loading == old(loading)
      ensures currentDate == old(currentDate) && view == old(view) && selectedDate == old(selectedDate)
      ensures showEventForm == old(showEventForm) && editingEvent == old(editingEvent)
      ensures eventForm == old(eventForm)
    {
      sent := Request.DeleteEvent(id);
      if response == Answered(true) {
        FetchEvents(reload);
      }
    }

    /** The "All Events" list: `events.sort` reorders the state's own array
      in place and the list shows it in that order. */
    method SortForDisplay() returns (shown: seq<Event>)
      requires Valid()
      modifies this
      ensures Valid()
      ensures events == SortForList(old(events)) && shown == events
      ensures multiset(shown) == multiset(old(events)) && DateOrdered(shown)
      ensures currentDate == old(currentDate) && view == old(view) && selectedDate == old(selectedDate)
      ensures showEventForm == old(showEventForm) && editingEvent == old(editingEvent)
      ensures loading == old(loading) && eventForm == old(eventForm)
    {
      SortForListOrdersDates(events);
      events := SortForList(events);
      shown := events;
    }
  }

  /** After an update the API refuses, the component is still editing the
      event. A click on another day opens the reset form, and submitting a
      new title there sends a second update to the edited event's id, which
      overwrites it, rather than a create. */
  method StaleEditOverwrites(today: Date, e: Event, d: Date, title: string, reload: FetchResult)
      returns (first: Option<Request>, second: Option<Request>)
    requires ValidDate(today) && e.title != "" && title != ""
    ensures first == Some(UpdateEvent(e.id, RequestBody(FormOf(e), e.date)))
    ensures second == Some(UpdateEvent(e.id, RequestBody(DefaultForm.(title := title), d)))
  {
    var c := new CalendarView(today);
    c.EditEvent(e);
    first := c.HandleSubmitEvent(Answered(false), reload);
    c.HandleDateClick(d);
    c.EditText(title, "", "");
    second := c.HandleSubmitEvent(Answered(true), reload);
  }
}
