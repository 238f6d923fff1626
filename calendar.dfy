/** The records the compiler reads and the components it produces.

    An input record is a dictionary: every key may be absent, so every field
    is an `Option`. Dates and times arrive already parsed (the source parses
    `dd.mm.YYYY` and `HH:MM` strings with `strptime`); a record is well formed
    when every date and time it holds is a real one. */
module Calendar {
  import opened Wrappers
  import opened Dates

  datatype Time = Time(hour: int, minute: int)

  predicate ValidTime(t: Time) {
    0 <= t.hour < 24 && 0 <= t.minute < 60
  }

  /** `datetime.min.time()`, the time every exclusion date is given. */
  const Midnight: Time := Time(0, 0)

  /** A start or end value: a bare date (all-day) or a local date-time. */
  datatype Instant = AllDay(date: Date) | Timed(date: Date, time: Time)

  /** The `recurrence` dictionary of an event. */
  datatype RecurrenceRecord = RecurrenceRecord(
    freq: Option<string>,
    interval: Option<int>,
    count: Option<int>,
    until: Option<Date>)

  /** One entry of the `events` list. A `description` key is never read. */
  datatype EventRecord = EventRecord(
    summary: Option<string>,
    date: Option<Date>,
    dateStart: Option<Date>,
    dateEnd: Option<Date>,
    dates: Option<seq<Date>>,
    recurrence: Option<RecurrenceRecord>,
    startTime: Option<Time>,
    endTime: Option<Time>)

  /** One entry of the `exceptions` list; `title` and `reason` are never read. */
  datatype ExceptionRecord = ExceptionRecord(dateStart: Option<Date>, dateEnd: Option<Date>)

  /** The RRULE value handed to the calendar library. */
  datatype Rule = Rule(freq: string, interval: int, count: Option<int>, until: Option<Date>)

  /** A VEVENT as handed to the calendar library before serialisation.
      `exdate` is `None` when the EXDATE property is not added. */
  datatype Component = Component(
    summary: string,
    start: Instant,
    end: Instant,
    rrule: Option<Rule>,
    exdate: Option<set<Instant>>)

  /** A `KeyError` on a missing dictionary key, or the `OverflowError` of
      adding a day to the last representable date. Either aborts the run. */
  datatype Error = MissingKey(key: string) | DateOverflow

  predicate ValidOptionDate(o: Option<Date>) {
    o.Some? ==> Valid(o.value)
  }

  predicate ValidOptionTime(o: Option<Time>) {
    o.Some? ==> ValidTime(o.value)
  }

  predicate WellFormedEvent(e: EventRecord) {
    && ValidOptionDate(e.date)
    && ValidOptionDate(e.dateStart)
    && ValidOptionDate(e.dateEnd)
    && (e.dates.Some? ==> forall i :: 0 <= i < |e.dates.value| ==> Valid(e.dates.value[i]))
    && (e.recurrence.Some? ==> ValidOptionDate(e.recurrence.value.until))
    && ValidOptionTime(e.startTime)
    && ValidOptionTime(e.endTime)
  }

  predicate WellFormedEvents(events: seq<EventRecord>) {
    forall i :: 0 <= i < |events| ==> WellFormedEvent(events[i])
  }

  predicate WellFormedException(x: ExceptionRecord) {
    ValidOptionDate(x.dateStart) && ValidOptionDate(x.dateEnd)
  }

  predicate WellFormedExceptions(exs: seq<ExceptionRecord>) {
    forall i :: 0 <= i < |exs| ==> WellFormedException(exs[i])
  }

  /** The temporal shape of an event, resolved from which keys are present. */
  datatype Shape =
    | Multi(dates: seq<Date>)
    | Range(first: Date, last: Date)
    | Recurring(recurrence: RecurrenceRecord)
    | Single

  /** The source tests `dates`, then `date_start` with `date_end`, then
      `recurrence`, and otherwise treats the event as a single day. */
  function Classify(e: EventRecord): Shape {
    if e.dates.Some? then Multi(e.dates.value)
    else if e.dateStart.Some? && e.dateEnd.Some? then Range(e.dateStart.value, e.dateEnd.value)
    else if e.recurrence.Some? then Recurring(e.recurrence.value)
    else Single
  }

  datatype Times = Times(startTime: Time, endTime: Time)

  /** An event is timed exactly when both `start_time` and `end_time` are
      present; a lone one of them is ignored. */
  function Timing(e: EventRecord): (t: Option<Times>)
    ensures t.Some? <==> e.startTime.Some? && e.endTime.Some?
    ensures t.Some? ==> t.value == Times(e.startTime.value, e.endTime.value)
  {
    if e.startTime.Some? && e.endTime.Some? then Some(Times(e.startTime.value, e.endTime.value))
    else None
  }

  /** `date + timedelta(days=1)`: the next day, or an overflow past the last date. */
  function AddOneDay(d: Date): (r: Result<Date, Error>)
    requires Valid(d)
    ensures r.Ok? <==> d != MaxDate
    ensures r.Err? ==> r.error == DateOverflow
    ensures r.Ok? ==> Valid(r.value) && Ordinal(r.value) == Ordinal(d) + 1
  {
    if d == MaxDate then Err(DateOverflow)
    else
      NextDayOrdinal(d);
      Ok(NextDay(d))
  }

  datatype Span = Span(start: Instant, end: Instant)

  /** DTSTART and DTEND of an occurrence covering the days `first` to `last`.
      Timed: the two dates with the two times, no shift. All-day: `first`, and
      the day after `last`, since an all-day DTEND is exclusive. */
  function SpanOf(first: Date, last: Date, timing: Option<Times>): (r: Result<Span, Error>)
    requires Valid(first) && Valid(last)
    ensures timing.Some? ==>
      r == Ok(Span(Timed(first, timing.value.startTime), Timed(last, timing.value.endTime)))
    ensures timing.None? ==> (r.Ok? <==> last != MaxDate) && (r.Err? ==> r.error == DateOverflow)
    ensures timing.None? && r.Ok? ==>
      && r.value.start == AllDay(first)
      && r.value.end.AllDay?
      && Valid(r.value.end.date)
      && Ordinal(r.value.end.date) == Ordinal(last) + 1
  {
    match timing
    case Some(t) => Ok(Span(Timed(first, t.startTime), Timed(last, t.endTime)))
    case None =>
      match AddOneDay(last)
      case Err(err) => Err(err)
      case Ok(next) => Ok(Span(AllDay(first), AllDay(next)))
  }
}
