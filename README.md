# ical-creator event compiler in Dafny

This project models the event compiler of ical-creator: `create_ics` in
`generate_ics.py`, which turns a list of event dictionaries and an optional
list of exception date ranges into the VEVENT components of an iCalendar
file. It also models the older draft of the same function in
`generate-ics.py`. The model stops where the source hands the calendar to the
`icalendar` library for serialisation and writes the file.

What is modelled:

- **Dates** (`dates.dfy`). Python's `datetime.date` is a proleptic-Gregorian
  date with years 1 to 9999. Dates compare lexicographically. `NextDay` is
  `date + timedelta(days=1)`. `Ordinal` mirrors `date.toordinal()` and is an
  independent reference: `NextDay` is proved to add exactly one to it, and the
  date ordering is proved to agree with the ordinal ordering. Adding a day to
  9999-12-31 raises `OverflowError` in Python; the model returns
  `Err(DateOverflow)` there.
- **Records** (`calendar.dfy`). An input event is a dictionary, so every key
  is an `Option`. Reading an absent key with `[]` raises `KeyError`; the model
  returns `Err(MissingKey(name))`, in the order the source reads the keys.
  Dates and times arrive already parsed. A component carries a summary, DTSTART,
  DTEND, an optional RRULE and an optional EXDATE set. EXDATE is a set because
  the source builds it by iterating a Python set.
- **Exception set** (`exceptions.dfy`). `BuildExceptionDates` and `AddDays` are
  the loops of lines 11-19. They add each day of each inclusive range to a set.
  They are proved to produce `ExceptionSet`, the set of every valid day that
  some record covers.
- **Event compiler** (`compiler.dfy`). `CreateIcs` runs the event loop.
  `AddEvent` dispatches on the event's shape, and `AddDates` is the inner loop
  over a multi-date event. `CreateIcs` is proved to return exactly
  `Compile(events, exceptions)`, the specification function.
- **Properties** (`properties.dfy`). These lemmas are about the
  specification functions: shape priority, suppression against exclusion,
  exclusive all-day ends, timed events, RRULE fields, EXDATE contents,
  ordering and summaries.
- **Draft** (`draft.dfy`). `CreateIcsDraft` models the older compiler. It is
  proved to agree with the new one on the inputs both understand.
- **Test vectors** (`test_vectors.dfy`). These lemmas check the expected
  values of `generate_ics_test.py` and a few worked examples.

Behaviour of the code that the model keeps as it is:

- An exception range or an event range whose end precedes its start raises
  nothing. Such an exception range adds no days (`InvertedExceptionRange`).
  Such an event range gets a DTEND that is not after its DTSTART
  (`InvertedEventRange`, `AllDayEndIsExclusive`).
- EXDATE entries are always at midnight (`datetime.min.time()`), even for a
  timed event (`TimedRecurringExdateAtMidnight`). For a timed recurring
  event, no EXDATE matches an occurrence unless its start time is 00:00.
- COUNT and UNTIL are both set when both keys are present.
- The `interval` key is read with `[]`, so a missing key is a `KeyError`;
  there is no default.
- The test file expects, for the ranged event, a `DTSTART` of 20230103
  (generate_ics_test.py:114). It also expects a date-typed EXDATE for the
  recurring event (generate_ics_test.py:118). The code produces DTSTART
  20230101 / DTEND 20230104 and a midnight date-time EXDATE, and the model
  follows the code.
- One start or end time without the other is ignored, and the event is
  all-day.

## Model

| member | source | states |
|---|---|---|
| `Dates.NextDay` | generate_ics.py:19 | the day after a valid date other than 9999-12-31 is a valid date strictly after it |
| `Dates.NextDayOrdinal` | generate_ics.py:19 | adding a day adds exactly one to the proleptic ordinal, as `timedelta(days=1)` does |
| `Dates.BeforeOrdinal` | generate_ics.py:17 | the lexicographic date comparison used by the source agrees with the ordinal order, in both directions |
| `Dates.NextDayIsSuccessor` | generate_ics.py:17-19 | no valid date lies strictly between a day and the next day |
| `Calendar.AddOneDay` | generate_ics.py:36 | adding a day succeeds exactly below 9999-12-31, and the result is one ordinal later; otherwise an overflow |
| `Calendar.SpanOf` | generate_ics.py:98-105 | timed: both dates with both times, no shift; all-day: the first date and a DTEND one ordinal after the last covered date, overflowing only at 9999-12-31 |
| `ExceptionDates.AddDays` | generate_ics.py:16-19 | the day-by-day loop adds exactly the valid days from start to end inclusive; it fails with an overflow exactly when a non-empty range ends at 9999-12-31 |
| `ExceptionDates.BuildExceptionDates` | generate_ics.py:11-19 | the loop over exception records returns the first error raised, or exactly the set of covered days |
| `ExceptionDates.ExceptionSetMembers` | generate_ics.py:11-19 | a date is an exception day exactly when it is valid and some record has `date_start <= d <= date_end` |
| `ExceptionDates.ExceptionSetUnion` | generate_ics.py:13-19 | adding a record adds exactly the days it covers, so overlapping ranges union; a range whose end precedes its start adds nothing |
| `ExceptionDates.FirstErrorPrefix` | generate_ics.py:13-15 | once an exception record raises, later records do not change the outcome |
| `EventCompiler.RangeExdates` | generate_ics.py:57-59 | a ranged event's EXDATE is exactly the exception days within the range, each at midnight; it is absent exactly when there are none |
| `EventCompiler.RecurrenceExdates` | generate_ics.py:86-88 | a recurring event's EXDATE is exactly the exception days on or after its date, each at midnight; it is absent exactly when there are none |
| `EventCompiler.CompileEventsErrorPrefix` | generate_ics.py:21-107 | once an event raises, the whole run fails with that error |
| `EventCompiler.AddDates` | generate_ics.py:23-38 | the loop over a multi-date event appends exactly the components the specification gives, or fails with its error |
| `EventCompiler.AddEvent` | generate_ics.py:22-107 | one pass of the event loop appends exactly that event's components, or fails with its error |
| `EventCompiler.CreateIcs` | generate_ics.py:8-107 | the compiler returns exactly the specification's result: the exception set's error, or the components of every event in order |
| `CompilerProperties.ShapePriority` | generate_ics.py:22-92 | the shape is chosen in the order `dates`, then `date_start` with `date_end`, then `recurrence`, then single, whatever lower-priority keys hold |
| `CompilerProperties.MultiDates` | generate_ics.py:23-38 | a multi-date event yields one component per listed non-exception date, in list order, each on that date; it fails exactly when such a date exists without a summary, or an all-day one is 9999-12-31 |
| `CompilerProperties.KeptMembers` | generate_ics.py:23-26 | the kept dates are exactly the listed dates that are not exception days, and no more than were listed |
| `CompilerProperties.SingleDate` | generate_ics.py:94-107 | a single-date event on an exception day yields nothing, without reading its summary; otherwise exactly one component on its date |
| `CompilerProperties.SingleWithoutDate` | generate_ics.py:94 | a single-day event with no `date` key fails with a `KeyError` on `date` |
| `CompilerProperties.RangedEvent` | generate_ics.py:40-61 | a ranged event always yields exactly one component: start `date_start`, end the day after `date_end` (or both dates with the times), EXDATE exactly the exception days in range at midnight, absent when none |
| `CompilerProperties.RecurringEvent` | generate_ics.py:63-90 | a recurring event yields exactly one component on its date, with FREQ/INTERVAL copied, COUNT iff `count`, UNTIL iff `until`, and EXDATE exactly the exception days on or after its date |
| `CompilerProperties.AllDayEndIsExclusive` | generate_ics.py:34-105 | every all-day component ends on the day after the last covered day; its end is after its start unless it is a range given end-before-start |
| `CompilerProperties.TimedNoShift` | generate_ics.py:29-102 | every component of a timed event has date-times with the event's times, and the end stays on the start day (or the range's last day) |
| `CompilerProperties.CompileEventsAppend` | generate_ics.py:21-107 | compiling a concatenation is concatenating the compilations, so components follow input-event order and the first error wins |
| `CompilerProperties.CompileOneEvent` | generate_ics.py:21 | a one-event list compiles to that event's components |
| `CompilerProperties.SummariesCopied` | generate_ics.py:28 | every component's summary is the summary of some input event |
| `CompilerProperties.NoExceptions` | generate_ics.py:11-12 | with no exception records the exception set is empty and compilation uses it |
| `DraftCompiler.DraftErrorPrefix` | generate-ics.py:12-31 | once an event raises in the draft, the whole run fails with that error |
| `DraftCompiler.CreateIcsDraft` | generate-ics.py:9-31 | the draft's loop returns exactly the draft specification's result |
| `DraftCompiler.DraftOnePerEvent` | generate-ics.py:12-31 | the draft yields one component per event, in order, with its summary; a range spans `date_start` to the day after `date_end`, anything else `date` to the next day |
| `DraftCompiler.DraftAgreesOnEvent` | generate-ics.py:16-29 | on an event without `dates`, `recurrence` or times, the draft's component is exactly the new compiler's single component, with no exceptions |
| `DraftCompiler.DraftAgrees` | generate-ics.py:12-31 | on such inputs, and with no exceptions, both compilers fail on the same inputs and otherwise produce the same list |
| `TestVectors.NextDayExamples` | generate_ics.py:36 | concrete day-after values across month ends, leap years (2024, 2000) and a non-leap century (1900) |
| `TestVectors.FixtureExceptionSet` | generate_ics_test.py:39-42 | the test's two one-day exceptions give exactly the set {02.01.2023, 05.01.2023} |
| `TestVectors.FixtureWithoutExceptions` | generate_ics_test.py:52-87 | single 20230101/20230102, range 20230101/20230104, recurring with FREQ=DAILY, INTERVAL=1, COUNT=5 |
| `TestVectors.FixtureWithExceptions` | generate_ics_test.py:101-122 | with the exceptions, the range keeps its span and gains EXDATE 02.01, the recurring event gains both days, and the multi-date event drops 05.01 and keeps the rest in order |
| `TestVectors.SuppressedSingleDay` | generate_ics.py:95 | a single day that is an exception day yields no component |
| `TestVectors.TimedSingleDay` | generate_ics.py:98-102 | a timed single day keeps its date on both ends, with 10:00 and 12:00 |
| `TestVectors.TimedRecurringExdateAtMidnight` | generate_ics.py:86 | a timed recurring event's EXDATE is at midnight, not at its start time |
| `TestVectors.OverflowAtLastDate` | generate_ics.py:105 | an all-day event on 9999-12-31, or an exception range ending there, overflows |
| `TestVectors.InvertedExceptionRange` | generate_ics.py:17 | an exception range whose end precedes its start contributes no day and no error |
| `TestVectors.InvertedEventRange` | generate_ics.py:53-54 | an event range whose end precedes its start is accepted, with DTEND before DTSTART |

## Left out

- Writing the file and `cal.to_ical()` (generate_ics.py:109-110, generate-ics.py:33-34). This is I/O and the foreign `icalendar` library, including the text rendering of RRULE, EXDATE and `VALUE=DATE`. The model stops at the component records handed to the library.
- `main` in both files: argument parsing, the existence check, `print`, and the `exec` of the input file. The caller hands the model in-memory lists.
- `strptime` parsing of `dd.mm.YYYY` and `HH:MM` strings. Inputs are already-parsed dates and times, and a precondition requires them to be valid. The parse errors for malformed strings are therefore not modelled.
- The iteration order of the exception set. EXDATE is modelled as a set, so the order of its entries is not captured.
- The `description`, `title` and `reason` keys. The code never reads them.
- Timezones. `pytz` is imported by generate-ics.py but never used. All values are naive local dates and times.
- Values of the wrong Python type in a record (a string where a list is expected, and so on). Record fields have fixed types.
