/** What the event compiler of generate_ics.py promises, stated over the
    specification functions that `CreateIcs` is proved to compute. */
module CompilerProperties {
  import opened Wrappers
  import opened Dates
  import opened Calendar
  import opened ExceptionDates
  import opened EventCompiler

  // ---------------------------------------------------------------------
  // Shape dispatch

  /** The shape depends only on the keys of higher or equal priority:
      `dates`, then `date_start` with `date_end`, then `recurrence`. */
  lemma ShapePriority(e: EventRecord, o: EventRecord)
    ensures Classify(e).Multi? <==> e.dates.Some?
    ensures Classify(e).Range? <==> e.dates.None? && e.dateStart.Some? && e.dateEnd.Some?
    ensures Classify(e).Recurring? <==>
      e.dates.None? && !(e.dateStart.Some? && e.dateEnd.Some?) && e.recurrence.Some?
    ensures e.dates.Some? && o.dates == e.dates ==> Classify(o) == Classify(e)
    ensures (e.dates.None? && o.dates.None? && e.dateStart.Some? && e.dateEnd.Some?
             && o.dateStart == e.dateStart && o.dateEnd == e.dateEnd) ==> Classify(o) == Classify(e)
  {
  }

  // ---------------------------------------------------------------------
  // One occurrence of a single, multi-date or recurring event

  /** `c` is the component for an occurrence of `e` on day `d`: the event's
      summary, and either the day with the event's two times or the day and
      the day after it. */
  predicate Occurrence(e: EventRecord, d: Date, c: Component)
    requires Valid(d)
  {
    && e.summary.Some?
    && c.summary == e.summary.value
    && match Timing(e)
       case Some(t) => c.start == Timed(d, t.startTime) && c.end == Timed(d, t.endTime)
       case None => d != MaxDate && c.start == AllDay(d) && c.end == AllDay(NextDay(d))
  }

  lemma SpanOccurrence(e: EventRecord, d: Date, c: Component)
    requires Valid(d) && e.summary.Some? && SpanOf(d, d, Timing(e)).Ok?
    requires c.summary == e.summary.value
    requires c.start == SpanOf(d, d, Timing(e)).value.start && c.end == SpanOf(d, d, Timing(e)).value.end
    ensures Occurrence(e, d, c)
  {
    if Timing(e).None? {
      NextDayOrdinal(d);
      BeforeOrdinal(c.end.date, NextDay(d));
    }
  }

  // ---------------------------------------------------------------------
  // Multi-date events

  /** The listed dates that are not exception days, in list order. */
  function Kept(ds: seq<Date>, ex: set<Date>): seq<Date>
    decreases |ds|
  {
    if ds == [] then []
    else Kept(ds[..|ds| - 1], ex) + (if ds[|ds| - 1] in ex then [] else [ds[|ds| - 1]])
  }

  lemma {:induction false} KeptMembers(ds: seq<Date>, ex: set<Date>)
    ensures |Kept(ds, ex)| <= |ds|
    ensures forall d :: d in Kept(ds, ex) <==> d in ds && d !in ex
  {
    if ds != [] {
      var init := ds[..|ds| - 1];
      KeptMembers(init, ex);
      assert ds == init + [ds[|ds| - 1]];
    }
  }

  lemma KeptValid(ds: seq<Date>, ex: set<Date>)
    requires AllValid(ds)
    ensures AllValid(Kept(ds, ex))
  {
    KeptMembers(ds, ex);
    forall k | 0 <= k < |Kept(ds, ex)|
      ensures Valid(Kept(ds, ex)[k])
    {
      assert Kept(ds, ex)[k] in ds;
    }
  }

  /** A multi-date event yields exactly one component per listed date that
      is not an exception day, in list order; it fails only when such a date
      exists and the summary is missing, or when an all-day occurrence falls
      on the last representable date. */
  lemma {:induction false} MultiDates(e: EventRecord, ds: seq<Date>, ex: set<Date>)
    requires AllValid(ds)
    ensures AllValid(Kept(ds, ex))
    ensures MultiComponents(e, ds, ex).Ok? <==>
      (Kept(ds, ex) == [] || e.summary.Some?) && (Timing(e).Some? || MaxDate !in Kept(ds, ex))
    ensures MultiComponents(e, ds, ex).Ok? ==>
      var cs := MultiComponents(e, ds, ex).value;
      && |cs| == |Kept(ds, ex)|
      && forall k :: 0 <= k < |cs| ==>
           Occurrence(e, Kept(ds, ex)[k], cs[k]) && cs[k].rrule.None? && cs[k].exdate.None?
  {
    KeptValid(ds, ex);
    if ds != [] {
      var init := ds[..|ds| - 1];
      var d := ds[|ds| - 1];
      MultiDates(e, init, ex);
      var keptInit := Kept(init, ex);
      if MultiComponents(e, init, ex).Ok? && d !in ex && e.summary.Some? {
        var cs := MultiComponents(e, init, ex).value;
        match SpanOf(d, d, Timing(e))
        case Err(_) =>
        case Ok(span) =>
          var c := Component(e.summary.value, span.start, span.end, None, None);
          SpanOccurrence(e, d, c);
          assert MultiComponents(e, ds, ex).value == cs + [c];
          assert Kept(ds, ex) == keptInit + [d];
          forall k | 0 <= k < |cs| + 1
            ensures Occurrence(e, Kept(ds, ex)[k], (cs + [c])[k])
          {
            if k < |cs| {
              assert (cs + [c])[k] == cs[k];
              assert Kept(ds, ex)[k] == keptInit[k];
            }
          }
      }
      if d !in ex {
        assert Kept(ds, ex) == keptInit + [d];
        assert MaxDate in Kept(ds, ex) <==> MaxDate in keptInit || d == MaxDate;
      } else {
        assert Kept(ds, ex) == keptInit;
      }
    }
  }

  // ---------------------------------------------------------------------
  // Single-date events

  /** A single-date event yields nothing when its date is an exception day
      (without reading its summary), and otherwise exactly one component. */
  lemma SingleDate(e: EventRecord, ex: set<Date>)
    requires WellFormedEvent(e) && Classify(e).Single? && e.date.Some?
    ensures e.date.value in ex ==> CompileEvent(e, ex) == Ok([])
    ensures CompileEvent(e, ex).Ok? <==>
      e.date.value in ex || (e.summary.Some? && (Timing(e).Some? || e.date.value != MaxDate))
    ensures CompileEvent(e, ex).Ok? && e.date.value !in ex ==>
      var cs := CompileEvent(e, ex).value;
      |cs| == 1 && Occurrence(e, e.date.value, cs[0]) && cs[0].rrule.None? && cs[0].exdate.None?
  {
    var d := e.date.value;
    if d !in ex && CompileEvent(e, ex).Ok? {
      var cs := CompileEvent(e, ex).value;
      SpanOccurrence(e, d, cs[0]);
    }
  }

  /** A single-day event without a `date` key fails with a `KeyError`. */
  lemma SingleWithoutDate(e: EventRecord, ex: set<Date>)
    requires WellFormedEvent(e) && Classify(e).Single? && e.date.None?
    ensures CompileEvent(e, ex) == Err(MissingKey("date"))
  {
  }

  // ---------------------------------------------------------------------
  // Ranged events

  /** A ranged event always yields exactly one component, whatever the
      exceptions: DTSTART is the first day, DTEND the day after the last (or
      the two days with the two times), and EXDATE holds exactly the exception
      days within the range, each at midnight, absent when there are none. */
  lemma RangedEvent(e: EventRecord, ex: set<Date>)
    requires WellFormedEvent(e) && Classify(e).Range?
    ensures var first, last := e.dateStart.value, e.dateEnd.value;
      && (CompileEvent(e, ex).Ok? <==> e.summary.Some? && (Timing(e).Some? || last != MaxDate))
      && (CompileEvent(e, ex).Ok? ==>
           var cs := CompileEvent(e, ex).value;
           && |cs| == 1
           && cs[0].summary == e.summary.value
           && cs[0].rrule.None?
           && (match Timing(e)
               case Some(t) => cs[0].start == Timed(first, t.startTime) && cs[0].end == Timed(last, t.endTime)
               case None => cs[0].start == AllDay(first) && cs[0].end == AllDay(NextDay(last)))
           && (cs[0].exdate.None? <==> forall d :: d in ex ==> !(OnOrBefore(first, d) && OnOrBefore(d, last)))
           && (cs[0].exdate.Some? ==> forall x :: x in cs[0].exdate.value <==>
                x == Timed(x.date, Midnight) && x.date in ex && OnOrBefore(first, x.date) && OnOrBefore(x.date, last)))
  {
    var first, last := e.dateStart.value, e.dateEnd.value;
    if CompileEvent(e, ex).Ok? && Timing(e).None? {
      var cs := CompileEvent(e, ex).value;
      NextDayOrdinal(last);
      BeforeOrdinal(cs[0].end.date, NextDay(last));
    }
  }

  // ---------------------------------------------------------------------
  // Recurring events

  /** A recurring event always yields exactly one component, on its `date`,
      carrying the RRULE built from its `recurrence` (FREQ and INTERVAL
      verbatim, COUNT exactly when `count` is given, UNTIL exactly when
      `until` is given) and an EXDATE of every exception day on or after
      its date, at midnight, absent when there is none. */
  lemma RecurringEvent(e: EventRecord, ex: set<Date>)
    requires WellFormedEvent(e) && Classify(e).Recurring?
    ensures var rec := e.recurrence.value;
      && (CompileEvent(e, ex).Ok? <==>
           && e.summary.Some? && e.date.Some?
           && (Timing(e).Some? || e.date.value != MaxDate)
           && rec.freq.Some? && rec.interval.Some?)
      && (CompileEvent(e, ex).Ok? ==>
           var cs := CompileEvent(e, ex).value;
           var d := e.date.value;
           && |cs| == 1
           && Occurrence(e, d, cs[0])
           && cs[0].rrule.Some?
           && cs[0].rrule.value.freq == rec.freq.value
           && cs[0].rrule.value.interval == rec.interval.value
           && (cs[0].rrule.value.count.Some? <==> rec.count.Some?)
           && (rec.count.Some? ==> cs[0].rrule.value.count.value == rec.count.value)
           && (cs[0].rrule.value.until.Some? <==> rec.until.Some?)
           && (rec.until.Some? ==> cs[0].rrule.value.until.value == rec.until.value)
           && (cs[0].exdate.None? <==> forall x :: x in ex ==> !OnOrBefore(d, x))
           && (cs[0].exdate.Some? ==> forall x :: x in cs[0].exdate.value <==>
                x == Timed(x.date, Midnight) && x.date in ex && OnOrBefore(d, x.date)))
  {
    if CompileEvent(e, ex).Ok? {
      var cs := CompileEvent(e, ex).value;
      SpanOccurrence(e, e.date.value, cs[0]);
    }
  }

  // ---------------------------------------------------------------------
  // All-day and timed events

  /** The last day an all-day component covers: the range's end for a
      ranged event, the start day otherwise. */
  function LastCovered(e: EventRecord, c: Component): Date {
    if Classify(e).Range? then e.dateEnd.value else c.start.date
  }

  /** Every component of an all-day event has date-only DTSTART and DTEND,
      and DTEND is one day after the last day covered. DTEND is after DTSTART
      except for a ranged event whose end precedes its start, which the
      source does not reject. */
  lemma AllDayEndIsExclusive(e: EventRecord, ex: set<Date>)
    requires WellFormedEvent(e) && Timing(e).None? && CompileEvent(e, ex).Ok?
    ensures forall c :: c in CompileEvent(e, ex).value ==>
      && c.start.AllDay? && c.end.AllDay?
      && Valid(c.start.date) && Valid(LastCovered(e, c)) && LastCovered(e, c) != MaxDate
      && c.end.date == NextDay(LastCovered(e, c))
      && (Before(c.start.date, c.end.date) <==>
            !(Classify(e).Range? && Before(e.dateEnd.value, e.dateStart.value)))
  {
    var cs := CompileEvent(e, ex).value;
    forall c | c in cs
      ensures c.start.AllDay? && c.end.AllDay?
      ensures Valid(c.start.date) && Valid(LastCovered(e, c)) && LastCovered(e, c) != MaxDate
      ensures c.end.date == NextDay(LastCovered(e, c))
      ensures Before(c.start.date, c.end.date) <==>
        !(Classify(e).Range? && Before(e.dateEnd.value, e.dateStart.value))
    {
      var k :| 0 <= k < |cs| && cs[k] == c;
      match Classify(e)
      case Multi(ds) =>
        MultiDates(e, ds, ex);
      case Range(first, last) =>
        RangedEvent(e, ex);
        NextDayOrdinal(last);
        BeforeOrdinal(first, NextDay(last));
        BeforeOrdinal(last, first);
      case Recurring(_) =>
        RecurringEvent(e, ex);
      case Single =>
        SingleDate(e, ex);
    }
  }

  /** A timed event's components carry date-times with the event's two
      times, and no day is added: the end is on the same day, or on the
      range's last day for a ranged event. */
  lemma TimedNoShift(e: EventRecord, ex: set<Date>)
    requires WellFormedEvent(e) && Timing(e).Some? && CompileEvent(e, ex).Ok?
    ensures forall c :: c in CompileEvent(e, ex).value ==>
      && c.start == Timed(c.start.date, e.startTime.value)
      && c.end == Timed(if Classify(e).Range? then e.dateEnd.value else c.start.date, e.endTime.value)
  {
    var cs := CompileEvent(e, ex).value;
    forall c | c in cs
      ensures c.start == Timed(c.start.date, e.startTime.value)
      ensures c.end == Timed(if Classify(e).Range? then e.dateEnd.value else c.start.date, e.endTime.value)
    {
      var k :| 0 <= k < |cs| && cs[k] == c;
      match Classify(e)
      case Multi(ds) => MultiDates(e, ds, ex);
      case Range(_, _) => RangedEvent(e, ex);
      case Recurring(_) => RecurringEvent(e, ex);
      case Single => SingleDate(e, ex);
    }
  }

  // ---------------------------------------------------------------------
  // The event loop

  /** Compiling two lists one after the other is compiling their
      concatenation: components come out in input-event order, and the
      first error raised wins. */
  lemma {:induction false} CompileEventsAppend(a: seq<EventRecord>, b: seq<EventRecord>, ex: set<Date>)
    requires WellFormedEvents(a) && WellFormedEvents(b)
    ensures WellFormedEvents(a + b)
    ensures CompileEvents(a, ex).Err? ==> CompileEvents(a + b, ex) == CompileEvents(a, ex)
    ensures CompileEvents(a, ex).Ok? && CompileEvents(b, ex).Ok? ==>
      CompileEvents(a + b, ex) == Ok(CompileEvents(a, ex).value + CompileEvents(b, ex).value)
    ensures CompileEvents(a, ex).Ok? && CompileEvents(b, ex).Err? ==>
      CompileEvents(a + b, ex) == CompileEvents(b, ex)
    decreases |b|
  {
    WellFormedConcat(a, b);
    if b == [] {
      assert a + b == a;
      if CompileEvents(a, ex).Ok? {
        assert CompileEvents(a, ex).value + [] == CompileEvents(a, ex).value;
      }
    } else {
      var init := b[..|b| - 1];
      var e := b[|b| - 1];
      WellFormedConcat(a, init);
      CompileEventsAppend(a, init, ex);
      assert (a + b)[..|a + b| - 1] == a + init;
      assert (a + b)[|a + b| - 1] == e;
      var left := CompileEvents(a + init, ex);
      assert CompileEvents(a + b, ex) == if left.Err? then left else Appended(left.value, CompileEvent(e, ex));
      if CompileEvents(a, ex).Ok? && CompileEvents(init, ex).Ok? && CompileEvent(e, ex).Ok? {
        var x, y, z := CompileEvents(a, ex).value, CompileEvents(init, ex).value, CompileEvent(e, ex).value;
        ConcatAssociative(x, y, z);
      }
    }
  }

  lemma ConcatAssociative(x: seq<Component>, y: seq<Component>, z: seq<Component>)
    ensures x + y + z == x + (y + z)
  {
  }

  lemma WellFormedConcat(a: seq<EventRecord>, b: seq<EventRecord>)
    requires WellFormedEvents(a) && WellFormedEvents(b)
    ensures WellFormedEvents(a + b)
  {
    forall i | 0 <= i < |a + b|
      ensures WellFormedEvent((a + b)[i])
    {
      if i >= |a| {
        assert (a + b)[i] == b[i - |a|];
      }
    }
  }

  /** One event on its own compiles to that event's components. */
  lemma CompileOneEvent(e: EventRecord, ex: set<Date>)
    requires WellFormedEvent(e)
    ensures WellFormedEvents([e])
    ensures CompileEvents([e], ex) == CompileEvent(e, ex)
  {
    assert [e][..0] == [];
    if CompileEvent(e, ex).Ok? {
      assert [] + CompileEvent(e, ex).value == CompileEvent(e, ex).value;
    }
  }

  /** Every component carries the summary of the event it came from. */
  lemma {:induction false} SummariesCopied(events: seq<EventRecord>, ex: set<Date>)
    requires WellFormedEvents(events) && CompileEvents(events, ex).Ok?
    ensures forall c :: c in CompileEvents(events, ex).value ==>
      exists i :: 0 <= i < |events| && events[i].summary == Some(c.summary)
    decreases |events|
  {
    if events != [] {
      var init := events[..|events| - 1];
      var e := events[|events| - 1];
      SummariesCopied(init, ex);
      forall c | c in CompileEvents(events, ex).value
        ensures exists i :: 0 <= i < |events| && events[i].summary == Some(c.summary)
      {
        if c in CompileEvents(init, ex).value {
          var i :| 0 <= i < |init| && init[i].summary == Some(c.summary);
          assert events[i] == init[i];
        } else {
          assert c in CompileEvent(e, ex).value;
          ComponentSummary(e, ex, c);
          assert events[|events| - 1] == e;
        }
      }
    }
  }

  lemma ComponentSummary(e: EventRecord, ex: set<Date>, c: Component)
    requires WellFormedEvent(e) && CompileEvent(e, ex).Ok? && c in CompileEvent(e, ex).value
    ensures e.summary == Some(c.summary)
  {
    var cs := CompileEvent(e, ex).value;
    var k :| 0 <= k < |cs| && cs[k] == c;
    match Classify(e)
    case Multi(ds) => MultiDates(e, ds, ex);
    case Range(_, _) =>
    case Recurring(_) =>
    case Single =>
  }

  // ---------------------------------------------------------------------
  // The exception list

  /** With no exception records (the source's `exceptions=None` or an empty
      list) the exception set is empty and nothing is suppressed. */
  lemma NoExceptions(events: seq<EventRecord>)
    requires WellFormedEvents(events)
    ensures ExceptionDatesOf([]) == Ok({})
    ensures Compile(events, []) == CompileEvents(events, {})
  {
    forall d | d in ExceptionSet([])
      ensures false
    {
      ExceptionSetMembers([], d);
    }
    assert ExceptionSet([]) == {};
  }
}
