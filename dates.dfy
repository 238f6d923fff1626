/** Proleptic-Gregorian calendar dates, as Python's `datetime.date` has them:
    years 1 to 9999, lexicographic ordering, and the successor day that
    `date + timedelta(days=1)` computes (which overflows past 9999-12-31). */
module Dates {

  datatype Date = Date(year: int, month: int, day: int)

  const MinYear: int := 1
  const MaxYear: int := 9999

  /** The last representable date; adding a day to it raises an overflow. */
  const MaxDate: Date := Date(9999, 12, 31)

  predicate IsLeapYear(y: int) {
    y % 4 == 0 && (y % 100 != 0 || y % 400 == 0)
  }

  function DaysInYear(y: int): int {
    if IsLeapYear(y) then 366 else 365
  }

  function DaysInMonth(y: int, m: int): (n: int)
    requires 1 <= m <= 12
    ensures 28 <= n <= 31
  {
    if m == 2 then (if IsLeapYear(y) then 29 else 28)
    else if m == 4 || m == 6 || m == 9 || m == 11 then 30
    else 31
  }

  predicate Valid(d: Date) {
    MinYear <= d.year <= MaxYear && 1 <= d.month <= 12 && 1 <= d.day <= DaysInMonth(d.year, d.month)
  }

  /** The strict ordering Python uses to compare dates: by year, then month, then day. */
  predicate Before(a: Date, b: Date) {
    a.year < b.year
    || (a.year == b.year && a.month < b.month)
    || (a.year == b.year && a.month == b.month && a.day < b.day)
  }

  predicate OnOrBefore(a: Date, b: Date) {
    a == b || Before(a, b)
  }

  /** The day after `d`; the source gets it from `d + timedelta(days=1)`. */
  function NextDay(d: Date): (r: Date)
    requires Valid(d) && d != MaxDate
    ensures Valid(r) && Before(d, r)
  {
    if d.day < DaysInMonth(d.year, d.month) then Date(d.year, d.month, d.day + 1)
    else if d.month < 12 then Date(d.year, d.month + 1, 1)
    else Date(d.year + 1, 1, 1)
  }

  // ---------------------------------------------------------------------
  // Ordinal day numbers: an independent description of the calendar.
  // Day 1 is 0001-01-01, as for Python's `date.toordinal`.

  function DaysBeforeYear(y: int): int
    requires y >= 1
  {
    var k := y - 1;
    365 * k + k / 4 - k / 100 + k / 400
  }

  /** Days in the months of year `y` that come before month `m`. */
  function DaysBeforeMonth(y: int, m: int): (n: int)
    requires 1 <= m <= 12
    ensures 0 <= n <= 334 + (if IsLeapYear(y) then 1 else 0)
  {
    var table := [0, 31, 59, 90, 120, 151, 181, 212, 243, 273, 304, 334];
    table[m - 1] + (if m > 2 && IsLeapYear(y) then 1 else 0)
  }

  function Ordinal(d: Date): (n: int)
    requires Valid(d)
    ensures n >= 1
  {
    DaysBeforeYear(d.year) + DaysBeforeMonth(d.year, d.month) + d.day
  }

  lemma YearLength(y: int)
    requires y >= 1
    ensures DaysBeforeYear(y + 1) == DaysBeforeYear(y) + DaysInYear(y)
  {
    var k := y - 1;
    DivSucc(k, 4);
    DivSucc(k, 100);
    DivSucc(k, 400);
    if y % 100 == 0 {
      DivUnique(y, 4, 25 * (y / 100), 0);
    }
    if y % 400 == 0 {
      DivUnique(y, 100, 4 * (y / 400), 0);
    }
  }

  /** A non-zero multiple of `n > 0` is at least `n` in size. */
  lemma MulAtLeast(n: int, t: int)
    requires n > 0
    ensures t >= 1 ==> n * t >= n
    ensures t <= -1 ==> n * t <= -n
  {
    if t >= 1 {
      assert n * t == n * (t - 1) + n;
    } else if t <= -1 {
      assert n * t == n * (t + 1) - n;
    }
  }

  /** Quotient and remainder are determined by `a == n * q + r` with
      `0 <= r < n`. */
  lemma DivUnique(a: int, n: int, q: int, r: int)
    requires n > 0 && 0 <= r < n && a == n * q + r
    ensures a / n == q && a % n == r
  {
    var q0, r0 := a / n, a % n;
    var t := q - q0;
    assert n * q == n * q0 + n * t;
    MulAtLeast(n, t);
  }

  /** The quotient by `n` steps up by one exactly at the multiples of `n`. */
  lemma DivSucc(k: int, n: int)
    requires k >= 0 && n > 0
    ensures (k + 1) / n == k / n + (if (k + 1) % n == 0 then 1 else 0)
  {
    var q, r := k / n, k % n;
    if r + 1 < n {
      DivUnique(k + 1, n, q, r + 1);
    } else {
      assert k + 1 == n * (q + 1) + 0;
      DivUnique(k + 1, n, q + 1, 0);
    }
  }

  lemma MonthLength(y: int, m: int)
    requires 1 <= m <= 12
    ensures m < 12 ==> DaysBeforeMonth(y, m + 1) == DaysBeforeMonth(y, m) + DaysInMonth(y, m)
    ensures m == 12 ==> DaysBeforeMonth(y, m) + DaysInMonth(y, m) == DaysInYear(y)
  {
  }

  lemma {:induction false} YearsMonotone(y1: int, y2: int)
    requires 1 <= y1 < y2
    ensures DaysBeforeYear(y1) + DaysInYear(y1) <= DaysBeforeYear(y2)
    decreases y2 - y1
  {
    YearLength(y1);
    if y1 + 1 < y2 {
      YearsMonotone(y1 + 1, y2);
      YearLength(y1 + 1);
    }
  }

  lemma MonthsMonotone(y: int, m1: int, m2: int)
    requires 1 <= m1 < m2 <= 12
    ensures DaysBeforeMonth(y, m1) + DaysInMonth(y, m1) <= DaysBeforeMonth(y, m2)
  {
  }

  /** Adding a day adds one to the ordinal, which is how Python defines it. */
  lemma NextDayOrdinal(d: Date)
    requires Valid(d) && d != MaxDate
    ensures Ordinal(NextDay(d)) == Ordinal(d) + 1
  {
    MonthLength(d.year, d.month);
    if d.day == DaysInMonth(d.year, d.month) && d.month == 12 {
      YearLength(d.year);
    }
  }

  lemma BeforeOrdinalForward(a: Date, b: Date)
    requires Valid(a) && Valid(b) && Before(a, b)
    ensures Ordinal(a) < Ordinal(b)
  {
    if a.year < b.year {
      MonthLength(a.year, 12);
      if a.month < 12 {
        MonthsMonotone(a.year, a.month, 12);
      }
      YearsMonotone(a.year, b.year);
    } else if a.month < b.month {
      MonthsMonotone(a.year, a.month, b.month);
    }
  }

  /** The date ordering and the ordinal ordering agree. */
  lemma BeforeOrdinal(a: Date, b: Date)
    requires Valid(a) && Valid(b)
    ensures Before(a, b) <==> Ordinal(a) < Ordinal(b)
    ensures OnOrBefore(a, b) <==> Ordinal(a) <= Ordinal(b)
    ensures a == b <==> Ordinal(a) == Ordinal(b)
  {
    if Before(a, b) {
      BeforeOrdinalForward(a, b);
    } else if Before(b, a) {
      BeforeOrdinalForward(b, a);
    }
  }

  /** No date lies strictly between a day and the next: NextDay is the immediate successor. */
  lemma NextDayIsSuccessor(d: Date, x: Date)
    requires Valid(d) && d != MaxDate && Valid(x)
    ensures Before(d, x) <==> OnOrBefore(NextDay(d), x)
  {
    NextDayOrdinal(d);
    BeforeOrdinal(d, x);
    BeforeOrdinal(NextDay(d), x);
  }

  /** Every valid date is on or before the last representable one. */
  lemma AtMostMaxDate(d: Date)
    requires Valid(d)
    ensures OnOrBefore(d, MaxDate)
  {
  }
}
