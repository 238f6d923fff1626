/** The expected outputs of the repository's test suite (generate_ics_test.py)
    and a few worked examples, proved of the model. */
module TestVectors {
  import opened Wrappers
  import opened Dates
  import opened Calendar
  import opened ExceptionDates
  import opened EventCompiler

  lemma NextDayExamples()
    ensures NextDay(Date(2023, 1, 1)) == Date(2023, 1, 2)
    ensures NextDay(Date(2023, 1, 3)) == Date(2023, 1, 4)
    ensures NextDay(Date(2023, 2, 28)) == Date(2023, 3, 1)
    ensures NextDay(Date(2024, 2, 28)) == Date(2024, 2, 29)
    ensures NextDay(Date(1900, 2, 28)) == Date(1900, 3, 1)
    ensures NextDay(Date(2000, 2, 28)) == Date(2000, 2, 29)
    ensures NextDay(Date(2024, 12, 31)) == Date(2025, 1, 1)
  {
  }

  function Record(summary: string): EventRecord {
    EventRecord(Some(summary), None, None, None, None, None, None, None)
  }

  const Jan1: Date := Date(2023, 1, 1)
  const Jan2: Date := Date(2023, 1, 2)
  const Jan3: Date := Date(2023, 1, 3)
  const Jan5: Date := Date(2023, 1, 5)
  const Jan10: Date := Date(2023, 1, 10)

  /** The four events of the test fixture. */
  function SingleDayEvent(): EventRecord { Record("Single Day Event").(date := Some(Jan1)) }
  function MultiDayEvent(): EventRecord { Record("Multi Day Event").(dateStart := Some(Jan1), dateEnd := Some(Jan3)) }
  function RecurringEvent(): EventRecord {
    Record("Recurring Event").(date := Some(Jan1), recurrence := Some(RecurrenceRecord(Some("DAILY"), Some(1), Some(5), None)))
  }
  function SpecificDatesEvent(): EventRecord { Record("Multiple Specific Dates Event").(dates := Some([Jan1, Jan5, Jan10])) }

  /** The two one-day exception ranges of the test fixture. */
  function FixtureExceptions(): seq<ExceptionRecord> {
    [ExceptionRecord(Some(Jan2), Some(Jan2)), ExceptionRecord(Some(Jan5), Some(Jan5))]
  }

  lemma FixtureExceptionSet()
    ensures ExceptionDatesOf(FixtureExceptions()) == Ok({Jan2, Jan5})
  {
    var exs := FixtureExceptions();
    assert exs[..1][..0] == [] && exs[..|exs| - 1] == exs[..1];
    assert FirstError(exs[..1]) == None;
    assert FirstError(exs) == None;
    forall d
      ensures d in ExceptionSet(exs) <==> d in {Jan2, Jan5}
    {
      ExceptionSetMembers(exs, d);
      if d == Jan2 {
        assert Covers(exs[0], d);
      } else if d == Jan5 {
        assert Covers(exs[1], d);
      }
    }
    assert ExceptionSet(exs) == {Jan2, Jan5};
  }

  /** Without exceptions: 20230101/20230102 for the single day and
      20230101/20230104 for the range 01.01-03.01. */
  lemma FixtureWithoutExceptions()
    ensures CompileEvent(SingleDayEvent(), {}) ==
      Ok([Component("Single Day Event", AllDay(Jan1), AllDay(Jan2), None, None)])
    ensures CompileEvent(MultiDayEvent(), {}) ==
      Ok([Component("Multi Day Event", AllDay(Jan1), AllDay(Date(2023, 1, 4)), None, None)])
    ensures CompileEvent(RecurringEvent(), {}) ==
      Ok([Component("Recurring Event", AllDay(Jan1), AllDay(Jan2), Some(Rule("DAILY", 1, Some(5), None)), None)])
  {
    assert RangeExdates({}, Jan1, Jan3).None?;
    assert RecurrenceExdates({}, Jan1).None?;
  }

  /** With the two exception days: the range keeps its span and gains an
      EXDATE for 02.01; the recurring event gains EXDATEs for both days;
      the multi-date event loses 05.01. */
  lemma FixtureWithExceptions()
    ensures CompileEvent(MultiDayEvent(), {Jan2, Jan5}) ==
      Ok([Component("Multi Day Event", AllDay(Jan1), AllDay(Date(2023, 1, 4)), None, Some({Timed(Jan2, Midnight)}))])
    ensures CompileEvent(RecurringEvent(), {Jan2, Jan5}) ==
      Ok([Component("Recurring Event", AllDay(Jan1), AllDay(Jan2), Some(Rule("DAILY", 1, Some(5), None)),
                    Some({Timed(Jan2, Midnight), Timed(Jan5, Midnight)}))])
    ensures CompileEvent(SpecificDatesEvent(), {Jan2, Jan5}) ==
      Ok([Component("Multiple Specific Dates Event", AllDay(Jan1), AllDay(Jan2), None, None),
          Component("Multiple Specific Dates Event", AllDay(Jan10), AllDay(Date(2023, 1, 11)), None, None)])
  {
    var ex := {Jan2, Jan5};
    var r := RangeExdates(ex, Jan1, Jan3);
    assert Timed(Jan2, Midnight) in r.value;
    assert r.value == {Timed(Jan2, Midnight)};
    var q := RecurrenceExdates(ex, Jan1);
    assert Timed(Jan2, Midnight) in q.value && Timed(Jan5, Midnight) in q.value;
    assert q.value == {Timed(Jan2, Midnight), Timed(Jan5, Midnight)};
    var e := SpecificDatesEvent();
    var c1 := Component("Multiple Specific Dates Event", AllDay(Jan1), AllDay(Jan2), None, None);
    var c2 := Component("Multiple Specific Dates Event", AllDay(Jan10), AllDay(Date(2023, 1, 11)), None, None);
    assert Timing(e) == None;
    assert SpanOf(Jan1, Jan1, None) == Ok(Span(AllDay(Jan1), AllDay(Jan2)));
    assert SpanOf(Jan10, Jan10, None) == Ok(Span(AllDay(Jan10), AllDay(Date(2023, 1, 11))));
    assert [Jan1][..0] == [];
    assert [] + [c1] == [c1] && [c1] + [c2] == [c1, c2];
    assert MultiComponents(e, [Jan1], ex) == Ok([c1]);
    assert [Jan1, Jan5][..1] == [Jan1];
    assert MultiComponents(e, [Jan1, Jan5], ex) == Ok([c1]);
    assert [Jan1, Jan5, Jan10][..2] == [Jan1, Jan5];
    assert MultiComponents(e, [Jan1, Jan5, Jan10], ex) == Ok([c1, c2]);
  }

  /** A single day that is an exception day is suppressed. */
  lemma SuppressedSingleDay()
    ensures CompileEvent(Record("Closed").(date := Some(Jan2)), {Jan2}) == Ok([])
  {
  }

  /** A timed single day keeps its date on both ends: 10:00 to 12:00. */
  lemma TimedSingleDay()
    ensures CompileEvent(Record("Market").(date := Some(Jan1), startTime := Some(Time(10, 0)), endTime := Some(Time(12, 0))), {}) ==
      Ok([Component("Market", Timed(Jan1, Time(10, 0)), Timed(Jan1, Time(12, 0)), None, None)])
  {
  }

  /** A timed recurring event still gets its EXDATEs at midnight. */
  lemma TimedRecurringExdateAtMidnight()
    ensures var e := Record("Weekly").(date := Some(Jan1), startTime := Some(Time(18, 30)), endTime := Some(Time(20, 0)),
                                       recurrence := Some(RecurrenceRecord(Some("WEEKLY"), Some(2), None, Some(Date(2023, 6, 1)))));
      CompileEvent(e, {Jan2}) ==
        Ok([Component("Weekly", Timed(Jan1, Time(18, 30)), Timed(Jan1, Time(20, 0)),
                      Some(Rule("WEEKLY", 2, None, Some(Date(2023, 6, 1)))), Some({Timed(Jan2, Midnight)}))])
  {
    var q := RecurrenceExdates({Jan2}, Jan1);
    assert Timed(Jan2, Midnight) in q.value;
    assert q.value == {Timed(Jan2, Midnight)};
  }

  /** Adding a day to the last representable date overflows. */
  lemma OverflowAtLastDate()
    ensures CompileEvent(Record("End of time").(date := Some(MaxDate)), {}) == Err(DateOverflow)
    ensures ExceptionDatesOf([ExceptionRecord(Some(MaxDate), Some(MaxDate))]) == Err(DateOverflow)
  {
    var exs := [ExceptionRecord(Some(MaxDate), Some(MaxDate))];
    assert exs[..|exs| - 1] == [];
    assert ExceptionError(exs[0]) == Some(DateOverflow);
    assert FirstError(exs) == Some(DateOverflow);
  }

  /** An exception range whose end precedes its start is silently empty. */
  lemma InvertedExceptionRange()
    ensures ExceptionDatesOf([ExceptionRecord(Some(Jan5), Some(Jan2))]) == Ok({})
  {
    var exs := [ExceptionRecord(Some(Jan5), Some(Jan2))];
    assert exs[..|exs| - 1] == [];
    assert FirstError(exs) == None;
    forall d | d in ExceptionSet(exs)
      ensures false
    {
      ExceptionSetMembers(exs, d);
    }
    assert ExceptionSet(exs) == {};
  }

  /** A ranged event whose end precedes its start is not rejected: its DTEND
      does not come after its DTSTART. */
  lemma InvertedEventRange()
    ensures CompileEvent(Record("Backwards").(dateStart := Some(Jan5), dateEnd := Some(Jan2)), {}) ==
      Ok([Component("Backwards", AllDay(Jan5), AllDay(Jan3), None, None)])
  {
    assert RangeExdates({}, Jan5, Jan2).None?;
  }
}
