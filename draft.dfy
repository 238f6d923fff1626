/** The older draft of the compiler, `create_ics` in generate-ics.py (lines
    9-31): every event becomes one all-day component, a range when both
    `date_start` and `date_end` are present and a single day otherwise. It
    knows nothing of exceptions, times, multiple dates or recurrence. */
module DraftCompiler {
  import opened Wrappers
  import opened Dates
  import opened Calendar
  import opened EventCompiler

  /** The one component the draft builds for an event (lines 13-29). It
      reads `summary` first, then the dates. */
  function DraftEvent(e: EventRecord): Result<Component, Error>
    requires WellFormedEvent(e)
  {
    if e.summary.None? then Err(MissingKey("summary"))
    else if e.dateStart.Some? && e.dateEnd.Some? then
      match AddOneDay(e.dateEnd.value)
      case Err(err) => Err(err)
      case Ok(next) => Ok(Component(e.summary.value, AllDay(e.dateStart.value), AllDay(next), None, None))
    else if e.date.None? then Err(MissingKey("date"))
    else
      match AddOneDay(e.date.value)
      case Err(err) => Err(err)
      case Ok(next) => Ok(Component(e.summary.value, AllDay(e.date.value), AllDay(next), None, None))
  }

  /** The draft's calendar: one component per event in order, or the error
      of the first event that raises one. */
  function DraftCompile(events: seq<EventRecord>): Result<seq<Component>, Error>
    requires WellFormedEvents(events)
    decreases |events|
  {
    if events == [] then Ok([])
    else
      match DraftCompile(events[..|events| - 1])
      case Err(err) => Err(err)
      case Ok(cs) =>
        match DraftEvent(events[|events| - 1])
        case Err(err) => Err(err)
        case Ok(c) => Ok(cs + [c])
  }

  lemma {:induction false} DraftErrorPrefix(events: seq<EventRecord>, n: nat)
    requires WellFormedEvents(events) && n <= |events|
    requires DraftCompile(events[..n]).Err?
    ensures DraftCompile(events) == DraftCompile(events[..n])
  {
    if n < |events| {
      var init := events[..|events| - 1];
      assert init[..n] == events[..n];
      DraftErrorPrefix(init, n);
    } else {
      assert events[..n] == events;
    }
  }

  /** The draft's `create_ics` without its file write: a loop that builds
      one component per event and appends it to the calendar. */
  method CreateIcsDraft(events: seq<EventRecord>) returns (r: Result<seq<Component>, Error>)
    requires WellFormedEvents(events)
    ensures r == DraftCompile(events)
  {
    var cal: seq<Component> := [];
    for i := 0 to |events|
      invariant DraftCompile(events[..i]) == Ok(cal)
    {
      var event := events[i];
      assert events[..i + 1][..i] == events[..i];
      assert WellFormedEvent(event);
      if event.summary.None? {
        DraftErrorPrefix(events, i + 1);
        return Err(MissingKey("summary"));
      }
      var startDate, lastDate;
      if event.dateStart.Some? && event.dateEnd.Some? {
        startDate, lastDate := event.dateStart.value, event.dateEnd.value;
      } else {
        if event.date.None? {
          DraftErrorPrefix(events, i + 1);
          return Err(MissingKey("date"));
        }
        startDate, lastDate := event.date.value, event.date.value;
      }
      var endDate := AddOneDay(lastDate);
      if endDate.Err? {
        DraftErrorPrefix(events, i + 1);
        return Err(endDate.error);
      }
      cal := cal + [Component(event.summary.value, AllDay(startDate), AllDay(endDate.value), None, None)];
    }
    assert events[..|events|] == events;
    return Ok(cal);
  }

  /** Nothing is filtered: the draft yields exactly one component per event,
      in order, with the event's summary; a range runs from `date_start` to
      the day after `date_end`, any other event from `date` to the next day. */
  lemma {:induction false} DraftOnePerEvent(events: seq<EventRecord>)
    requires WellFormedEvents(events) && DraftCompile(events).Ok?
    ensures |DraftCompile(events).value| == |events|
    ensures forall k :: 0 <= k < |events| ==>
      var e, c := events[k], DraftCompile(events).value[k];
      && e.summary == Some(c.summary)
      && c.rrule.None? && c.exdate.None?
      && if e.dateStart.Some? && e.dateEnd.Some? then
           e.dateEnd.value != MaxDate && c.start == AllDay(e.dateStart.value) && c.end == AllDay(NextDay(e.dateEnd.value))
         else
           e.date.Some? && e.date.value != MaxDate && c.start == AllDay(e.date.value) && c.end == AllDay(NextDay(e.date.value))
    decreases |events|
  {
    if events != [] {
      var init := events[..|events| - 1];
      var e := events[|events| - 1];
      DraftOnePerEvent(init);
      var cs := DraftCompile(init).value;
      var c := DraftEvent(e).value;
      assert DraftCompile(events).value == cs + [c];
      var last := if e.dateStart.Some? && e.dateEnd.Some? then e.dateEnd.value else e.date.value;
      NextDayOrdinal(last);
      BeforeOrdinal(c.end.date, NextDay(last));
      forall k | 0 <= k < |init|
        ensures events[k] == init[k] && (cs + [c])[k] == cs[k]
      {
      }
    }
  }

  /** Events the two versions share: no `dates`, no `recurrence`, no times. */
  predicate SharedShape(e: EventRecord) {
    e.dates.None? && e.recurrence.None? && Timing(e).None?
  }

  lemma DraftAgreesOnEvent(e: EventRecord)
    requires WellFormedEvent(e) && SharedShape(e)
    ensures DraftEvent(e).Ok? <==> CompileEvent(e, {}).Ok?
    ensures DraftEvent(e).Ok? ==> CompileEvent(e, {}) == Ok([DraftEvent(e).value])
  {
    if Classify(e).Range? {
      assert RangeExdates({}, e.dateStart.value, e.dateEnd.value).None?;
    }
  }

  /** On inputs both versions understand, and with no exceptions, the new
      compiler and the draft produce the same components; they fail on the
      same inputs, though the key named in a `KeyError` may differ, since the
      draft reads `summary` before the date and the new compiler after it. */
  lemma {:induction false} DraftAgrees(events: seq<EventRecord>)
    requires WellFormedEvents(events)
    requires forall i :: 0 <= i < |events| ==> SharedShape(events[i])
    ensures DraftCompile(events).Ok? <==> CompileEvents(events, {}).Ok?
    ensures DraftCompile(events).Ok? ==> DraftCompile(events) == CompileEvents(events, {})
    decreases |events|
  {
    if events != [] {
      var init := events[..|events| - 1];
      var e := events[|events| - 1];
      DraftAgrees(init);
      DraftAgreesOnEvent(e);
    }
  }
}
