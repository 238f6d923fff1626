/** The set of exception days (generate_ics.py, lines 11-19): every day of
    every inclusive exception range, collected once before any event is read. */
module ExceptionDates {
  import opened Wrappers
  import opened Dates
  import opened Calendar

  /** The error, if any, that reading one exception record raises: a missing
      key, or the overflow of stepping past the last date when a non-empty
      range ends there. A range that ends before it starts raises nothing. */
  function ExceptionError(x: ExceptionRecord): Option<Error> {
    if x.dateStart.None? then Some(MissingKey("date_start"))
    else if x.dateEnd.None? then Some(MissingKey("date_end"))
    else if OnOrBefore(x.dateStart.value, x.dateEnd.value) && x.dateEnd.value == MaxDate then Some(DateOverflow)
    else None
  }

  /** The error of the first exception record that raises one. */
  function FirstError(exs: seq<ExceptionRecord>): Option<Error>
    decreases |exs|
  {
    if exs == [] then None
    else
      match FirstError(exs[..|exs| - 1])
      case Some(err) => Some(err)
      case None => ExceptionError(exs[|exs| - 1])
  }

  /** Record `x` covers day `d`: `date_start <= d <= date_end`. */
  predicate Covers(x: ExceptionRecord, d: Date) {
    x.dateStart.Some? && x.dateEnd.Some? && OnOrBefore(x.dateStart.value, d) && OnOrBefore(d, x.dateEnd.value)
  }

  predicate Excepted(exs: seq<ExceptionRecord>, d: Date) {
    exists i :: 0 <= i < |exs| && Covers(exs[i], d)
  }

  /** Every valid day some exception record covers. */
  ghost function ExceptionSet(exs: seq<ExceptionRecord>): set<Date> {
    set y, m, d | MinYear <= y <= MaxYear && 1 <= m <= 12 && 1 <= d <= 31
                  && Valid(Date(y, m, d)) && Excepted(exs, Date(y, m, d)) :: Date(y, m, d)
  }

  /** What lines 11-19 leave behind: the first error raised, or the set. */
  ghost function ExceptionDatesOf(exs: seq<ExceptionRecord>): Result<set<Date>, Error> {
    match FirstError(exs)
    case Some(err) => Err(err)
    case None => Ok(ExceptionSet(exs))
  }

  lemma ExceptionSetMembers(exs: seq<ExceptionRecord>, d: Date)
    ensures d in ExceptionSet(exs) <==> Valid(d) && Excepted(exs, d)
  {
    if Valid(d) && Excepted(exs, d) {
      assert d == Date(d.year, d.month, d.day);
    }
  }

  /** A day is an exception day exactly when some record's range holds it;
      a range with its end before its start holds none, and overlapping
      ranges simply union. */
  lemma ExceptionSetUnion(exs: seq<ExceptionRecord>, x: ExceptionRecord, d: Date)
    requires Valid(d)
    ensures d in ExceptionSet(exs + [x]) <==> d in ExceptionSet(exs) || Covers(x, d)
    ensures x.dateStart.Some? && x.dateEnd.Some? && Before(x.dateEnd.value, x.dateStart.value) ==>
      ExceptionSet(exs + [x]) == ExceptionSet(exs)
  {
    ExceptedSnoc(exs, x, d);
    ExceptionSetMembers(exs, d);
    ExceptionSetMembers(exs + [x], d);
    if x.dateStart.Some? && x.dateEnd.Some? && Before(x.dateEnd.value, x.dateStart.value) {
      forall e | Valid(e)
        ensures e in ExceptionSet(exs + [x]) <==> e in ExceptionSet(exs)
      {
        ExceptedSnoc(exs, x, e);
        ExceptionSetMembers(exs, e);
        ExceptionSetMembers(exs + [x], e);
        EmptyRangeCoversNothing(x, e);
      }
      forall e | e in ExceptionSet(exs + [x]) || e in ExceptionSet(exs)
        ensures Valid(e)
      {
        ExceptionSetMembers(exs, e);
        ExceptionSetMembers(exs + [x], e);
      }
    }
  }

  lemma EmptyRangeCoversNothing(x: ExceptionRecord, d: Date)
    requires x.dateStart.Some? && x.dateEnd.Some? && Before(x.dateEnd.value, x.dateStart.value)
    ensures !Covers(x, d)
  {
  }

  lemma ExceptedSnoc(exs: seq<ExceptionRecord>, x: ExceptionRecord, d: Date)
    ensures Excepted(exs + [x], d) <==> Excepted(exs, d) || Covers(x, d)
  {
    if Excepted(exs, d) {
      var i :| 0 <= i < |exs| && Covers(exs[i], d);
      assert (exs + [x])[i] == exs[i];
    }
    if Covers(x, d) {
      assert (exs + [x])[|exs|] == x;
    }
    if Excepted(exs + [x], d) {
      var i :| 0 <= i < |exs + [x]| && Covers((exs + [x])[i], d);
      if i < |exs| {
        assert (exs + [x])[i] == exs[i];
      }
    }
  }

  lemma {:induction false} FirstErrorPrefix(exs: seq<ExceptionRecord>, n: nat)
    requires n <= |exs|
    requires FirstError(exs[..n]).Some?
    ensures FirstError(exs) == FirstError(exs[..n])
  {
    if n < |exs| {
      var init := exs[..|exs| - 1];
      assert init[..n] == exs[..n];
      FirstErrorPrefix(init, n);
    } else {
      assert exs[..n] == exs;
    }
  }

  /** The `while` loop of lines 16-19: add every day from `startDate` to
      `endDate` inclusive, one day at a time. Stepping past the last date
      raises the overflow once that day has been added. */
  method AddDays(dates: set<Date>, startDate: Date, endDate: Date) returns (r: Result<set<Date>, Error>)
    requires Valid(startDate) && Valid(endDate)
    ensures r.Err? <==> OnOrBefore(startDate, endDate) && endDate == MaxDate
    ensures r.Err? ==> r.error == DateOverflow
    ensures r.Ok? ==> forall d :: d in r.value <==>
      d in dates || (Valid(d) && OnOrBefore(startDate, d) && OnOrBefore(d, endDate))
  {
    var exceptionDates := dates;
    var current := startDate;
    BeforeOrdinal(startDate, endDate);
    while OnOrBefore(current, endDate)
      invariant Valid(current)
      invariant Ordinal(startDate) <= Ordinal(current)
      invariant OnOrBefore(startDate, endDate) ==> Ordinal(current) <= Ordinal(endDate) + 1
      invariant !OnOrBefore(startDate, endDate) ==> current == startDate
      invariant forall d :: d in exceptionDates <==>
        d in dates || (Valid(d) && Ordinal(startDate) <= Ordinal(d) < Ordinal(current))
      decreases Ordinal(endDate) + 1 - Ordinal(current)
    {
      BeforeOrdinal(current, endDate);
      forall d | Valid(d)
        ensures Ordinal(d) == Ordinal(current) <==> d == current
      {
        BeforeOrdinal(d, current);
      }
      exceptionDates := exceptionDates + {current};
      if current == MaxDate {
        AtMostMaxDate(endDate);
        return Err(DateOverflow);
      }
      NextDayOrdinal(current);
      current := NextDay(current);
    }
    BeforeOrdinal(current, endDate);
    if endDate == MaxDate && OnOrBefore(startDate, endDate) {
      AtMostMaxDate(current);
      assert false;
    }
    forall d | Valid(d)
      ensures Ordinal(startDate) <= Ordinal(d) < Ordinal(current) <==> OnOrBefore(startDate, d) && OnOrBefore(d, endDate)
    {
      BeforeOrdinal(startDate, d);
      BeforeOrdinal(d, endDate);
    }
    return Ok(exceptionDates);
  }

  /** The reading of the exception list, lines 11-19. An empty or absent
      list gives the empty set. */
  method BuildExceptionDates(exs: seq<ExceptionRecord>) returns (r: Result<set<Date>, Error>)
    requires WellFormedExceptions(exs)
    ensures r == ExceptionDatesOf(exs)
  {
    var exceptionDates: set<Date> := {};
    for i := 0 to |exs|
      invariant FirstError(exs[..i]) == None
      invariant exceptionDates == ExceptionSet(exs[..i])
    {
      var x := exs[i];
      assert exs[..i + 1] == exs[..i] + [x];
      assert exs[..i + 1][..i] == exs[..i];
      if x.dateStart.None? {
        FirstErrorPrefix(exs, i + 1);
        return Err(MissingKey("date_start"));
      }
      if x.dateEnd.None? {
        FirstErrorPrefix(exs, i + 1);
        return Err(MissingKey("date_end"));
      }
      var added := AddDays(exceptionDates, x.dateStart.value, x.dateEnd.value);
      if added.Err? {
        FirstErrorPrefix(exs, i + 1);
        return Err(added.error);
      }
      forall d
        ensures d in added.value <==> d in ExceptionSet(exs[..i + 1])
      {
        ExceptionSetMembers(exs[..i], d);
        ExceptionSetMembers(exs[..i + 1], d);
        if Valid(d) {
          ExceptionSetUnion(exs[..i], x, d);
        }
      }
      exceptionDates := added.value;
    }
    assert exs[..|exs|] == exs;
    return Ok(exceptionDates);
  }
}
