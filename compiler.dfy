/** The event compiler `create_ics` of generate_ics.py (lines 8-107), up to
    the point where the calendar is serialised and written.

    `CompileEvents` and the functions beside it describe what the compiler
    produces; `CreateIcs` is the compiler itself, a loop over the events
    that appends components to a growing calendar, proved to produce exactly
    what `Compile` describes. */
module EventCompiler {
  import opened Wrappers
  import opened Dates
  import opened Calendar
  import opened ExceptionDates

  /** EXDATE of a ranged event (line 57): the exception days from `first`
      to `last`, each at midnight; `None` when there are none (line 58). */
  function RangeExdates(ex: set<Date>, first: Date, last: Date): (r: Option<set<Instant>>)
    ensures r.None? <==> forall d :: d in ex ==> !(OnOrBefore(first, d) && OnOrBefore(d, last))
    ensures r.Some? ==> forall x :: x in r.value <==>
      x.Timed? && x.time == Midnight && x.date in ex && OnOrBefore(first, x.date) && OnOrBefore(x.date, last)
  {
    var s := set d | d in ex && OnOrBefore(first, d) && OnOrBefore(d, last) :: Timed(d, Midnight);
    assert forall d :: d in ex && OnOrBefore(first, d) && OnOrBefore(d, last) ==> Timed(d, Midnight) in s;
    if s == {} then None else Some(s)
  }

  /** EXDATE of a recurring event (line 86): every exception day on or
      after the event's date, at midnight, whatever COUNT or UNTIL say. */
  function RecurrenceExdates(ex: set<Date>, first: Date): (r: Option<set<Instant>>)
    ensures r.None? <==> forall d :: d in ex ==> !OnOrBefore(first, d)
    ensures r.Some? ==> forall x :: x in r.value <==>
      x.Timed? && x.time == Midnight && x.date in ex && OnOrBefore(first, x.date)
  {
    var s := set d | d in ex && OnOrBefore(first, d) :: Timed(d, Midnight);
    assert forall d :: d in ex && OnOrBefore(first, d) ==> Timed(d, Midnight) in s;
    if s == {} then None else Some(s)
  }

  /** The RRULE of lines 78-83: FREQ and INTERVAL are required keys; COUNT
      and UNTIL are each set when their key is present, both if both are. */
  function RecurrenceRule(rec: RecurrenceRecord): (r: Result<Rule, Error>)
    ensures r.Err? <==> rec.freq.None? || rec.interval.None?
    ensures r.Err? ==> r.error == MissingKey(if rec.freq.None? then "freq" else "interval")
    ensures r.Ok? ==> r.value == Rule(rec.freq.value, rec.interval.value, rec.count, rec.until)
  {
    if rec.freq.None? then Err(MissingKey("freq"))
    else if rec.interval.None? then Err(MissingKey("interval"))
    else Ok(Rule(rec.freq.value, rec.interval.value, rec.count, rec.until))
  }

  predicate AllValid(ds: seq<Date>) {
    forall k :: 0 <= k < |ds| ==> Valid(ds[k])
  }

  /** The components of a multi-date event (lines 23-38), one per listed
      date that is not an exception day, in list order. */
  function MultiComponents(e: EventRecord, ds: seq<Date>, ex: set<Date>): Result<seq<Component>, Error>
    requires AllValid(ds)
    decreases |ds|
  {
    if ds == [] then Ok([])
    else
      match MultiComponents(e, ds[..|ds| - 1], ex)
      case Err(err) => Err(err)
      case Ok(cs) =>
        var d := ds[|ds| - 1];
        if d in ex then Ok(cs)
        else if e.summary.None? then Err(MissingKey("summary"))
        else
          match SpanOf(d, d, Timing(e))
          case Err(err) => Err(err)
          case Ok(span) => Ok(cs + [Component(e.summary.value, span.start, span.end, None, None)])
  }

  /** The components one event adds to the calendar, by its shape. */
  function CompileEvent(e: EventRecord, ex: set<Date>): Result<seq<Component>, Error>
    requires WellFormedEvent(e)
  {
    match Classify(e)
    case Multi(ds) =>
      MultiComponents(e, ds, ex)
    case Range(first, last) =>
      if e.summary.None? then Err(MissingKey("summary"))
      else (
        match SpanOf(first, last, Timing(e))
        case Err(err) => Err(err)
        case Ok(span) =>
          Ok([Component(e.summary.value, span.start, span.end, None, RangeExdates(ex, first, last))]))
    case Recurring(rec) =>
      if e.summary.None? then Err(MissingKey("summary"))
      else if e.date.None? then Err(MissingKey("date"))
      else (
        match SpanOf(e.date.value, e.date.value, Timing(e))
        case Err(err) => Err(err)
        case Ok(span) =>
          match RecurrenceRule(rec)
          case Err(err) => Err(err)
          case Ok(rule) =>
            Ok([Component(e.summary.value, span.start, span.end, Some(rule), RecurrenceExdates(ex, e.date.value))]))
    case Single =>
      if e.date.None? then Err(MissingKey("date"))
      else if e.date.value in ex then Ok([])
      else if e.summary.None? then Err(MissingKey("summary"))
      else
        match SpanOf(e.date.value, e.date.value, Timing(e))
        case Err(err) => Err(err)
        case Ok(span) => Ok([Component(e.summary.value, span.start, span.end, None, None)])
  }

  /** The calendar after the event loop (lines 21-107): the components of
      each event in turn, or the error of the first event that raises one. */
  function CompileEvents(events: seq<EventRecord>, ex: set<Date>): Result<seq<Component>, Error>
    requires WellFormedEvents(events)
    decreases |events|
  {
    if events == [] then Ok([])
    else
      match CompileEvents(events[..|events| - 1], ex)
      case Err(err) => Err(err)
      case Ok(cs) =>
        match CompileEvent(events[|events| - 1], ex)
        case Err(err) => Err(err)
        case Ok(more) => Ok(cs + more)
  }

  /** The whole of `create_ics` before the file is written. */
  ghost function Compile(events: seq<EventRecord>, exs: seq<ExceptionRecord>): Result<seq<Component>, Error>
    requires WellFormedEvents(events)
  {
    match ExceptionDatesOf(exs)
    case Err(err) => Err(err)
    case Ok(ex) => CompileEvents(events, ex)
  }

  lemma {:induction false} CompileEventsErrorPrefix(events: seq<EventRecord>, ex: set<Date>, n: nat)
    requires WellFormedEvents(events) && n <= |events|
    requires CompileEvents(events[..n], ex).Err?
    ensures CompileEvents(events, ex) == CompileEvents(events[..n], ex)
  {
    if n < |events| {
      var init := events[..|events| - 1];
      assert init[..n] == events[..n];
      CompileEventsErrorPrefix(init, ex, n);
    } else {
      assert events[..n] == events;
    }
  }

  lemma {:induction false} MultiComponentsErrorPrefix(e: EventRecord, ds: seq<Date>, ex: set<Date>, n: nat)
    requires AllValid(ds) && n <= |ds|
    requires MultiComponents(e, ds[..n], ex).Err?
    ensures MultiComponents(e, ds, ex) == MultiComponents(e, ds[..n], ex)
  {
    if n < |ds| {
      var init := ds[..|ds| - 1];
      assert init[..n] == ds[..n];
      MultiComponentsErrorPrefix(e, init, ex, n);
    } else {
      assert ds[..n] == ds;
    }
  }

  /** What appending one event's components to `cal` gives. */
  function Appended(cal: seq<Component>, r: Result<seq<Component>, Error>): Result<seq<Component>, Error> {
    match r
    case Err(err) => Err(err)
    case Ok(more) => Ok(cal + more)
  }

  /** The loop over a multi-date event's dates, lines 23-38. */
  method AddDates(cal: seq<Component>, event: EventRecord, ds: seq<Date>, exceptionDates: set<Date>)
    returns (r: Result<seq<Component>, Error>)
    requires AllValid(ds)
    ensures r == Appended(cal, MultiComponents(event, ds, exceptionDates))
  {
    var out := cal;
    for j := 0 to |ds|
      invariant MultiComponents(event, ds[..j], exceptionDates).Ok?
      invariant out == cal + MultiComponents(event, ds[..j], exceptionDates).value
    {
      var eventDate := ds[j];
      assert ds[..j + 1][..j] == ds[..j];
      if eventDate in exceptionDates {
        continue;
      }
      if event.summary.None? {
        MultiComponentsErrorPrefix(event, ds, exceptionDates, j + 1);
        return Err(MissingKey("summary"));
      }
      var span := SpanOf(eventDate, eventDate, Timing(event));
      if span.Err? {
        MultiComponentsErrorPrefix(event, ds, exceptionDates, j + 1);
        return Err(span.error);
      }
      out := out + [Component(event.summary.value, span.value.start, span.value.end, None, None)];
    }
    assert ds[..|ds|] == ds;
    return Ok(out);
  }

  /** One pass of the event loop, lines 22-107: dispatch on the event's
      shape and append the components it yields. */
  method AddEvent(cal: seq<Component>, event: EventRecord, exceptionDates: set<Date>)
    returns (r: Result<seq<Component>, Error>)
    requires WellFormedEvent(event)
    ensures r == Appended(cal, CompileEvent(event, exceptionDates))
  {
    match Classify(event)
    case Multi(ds) =>
      r := AddDates(cal, event, ds, exceptionDates);
    case Range(startDate, endDate) =>
      if event.summary.None? {
        return Err(MissingKey("summary"));
      }
      var span := SpanOf(startDate, endDate, Timing(event));
      if span.Err? {
        return Err(span.error);
      }
      var exdates := RangeExdates(exceptionDates, startDate, endDate);
      return Ok(cal + [Component(event.summary.value, span.value.start, span.value.end, None, exdates)]);
    case Recurring(recurrence) =>
      if event.summary.None? {
        return Err(MissingKey("summary"));
      }
      if event.date.None? {
        return Err(MissingKey("date"));
      }
      var eventDate := event.date.value;
      var span := SpanOf(eventDate, eventDate, Timing(event));
      if span.Err? {
        return Err(span.error);
      }
      var rrule := RecurrenceRule(recurrence);
      if rrule.Err? {
        return Err(rrule.error);
      }
      var exdates := RecurrenceExdates(exceptionDates, eventDate);
      return Ok(cal + [Component(event.summary.value, span.value.start, span.value.end, Some(rrule.value), exdates)]);
    case Single =>
      if event.date.None? {
        return Err(MissingKey("date"));
      }
      var eventDate := event.date.value;
      if eventDate in exceptionDates {
        assert cal + [] == cal;
        return Ok(cal);
      }
      if event.summary.None? {
        return Err(MissingKey("summary"));
      }
      var span := SpanOf(eventDate, eventDate, Timing(event));
      if span.Err? {
        return Err(span.error);
      }
      return Ok(cal + [Component(event.summary.value, span.value.start, span.value.end, None, None)]);
  }

  /** `create_ics` without its file write: build the exception set, then
      walk the events, appending each event's components to the calendar. */
  method CreateIcs(events: seq<EventRecord>, exceptions: seq<ExceptionRecord>) returns (r: Result<seq<Component>, Error>)
    requires WellFormedEvents(events) && WellFormedExceptions(exceptions)
    ensures r == Compile(events, exceptions)
  {
    var built := BuildExceptionDates(exceptions);
    if built.Err? {
      return Err(built.error);
    }
    var exceptionDates := built.value;
    var cal: seq<Component> := [];
    for i := 0 to |events|
      invariant CompileEvents(events[..i], exceptionDates) == Ok(cal)
    {
      assert events[..i + 1][..i] == events[..i];
      var added := AddEvent(cal, events[i], exceptionDates);
      if added.Err? {
        CompileEventsErrorPrefix(events, exceptionDates, i + 1);
        return Err(added.error);
      }
      cal := added.value;
    }
    assert events[..|events|] == events;
    return Ok(cal);
  }
}
