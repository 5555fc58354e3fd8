/**
 * The part of Python's `datetime` the forum pipeline uses: the
 * constructor's range checks, comparison, the proleptic Gregorian
 * ordinal and stepping back by whole days (`date - timedelta(days=n)`).
 */
module Calendar {
  import opened PyBase

  /** A naive `datetime.datetime`; a `date` is one at midnight. */
  datatype DateTime = DateTime(
    year: int, month: int, day: int,
    hour: int, minute: int, second: int, microsecond: int)

  const MIN_YEAR := 1
  const MAX_YEAR := 9999

  predicate IsLeap(y: int) {
    y % 4 == 0 && (y % 100 != 0 || y % 400 == 0)
  }

  function DaysInYear(y: int): int {
    if IsLeap(y) then 366 else 365
  }

  function DaysInMonth(y: int, m: int): (n: int)
    requires 1 <= m <= 12
    ensures 28 <= n <= 31
  {
    if m == 2 then (if IsLeap(y) then 29 else 28)
    else if m == 4 || m == 6 || m == 9 || m == 11 then 30
    else 31
  }

  /** The checks `datetime(...)` makes before it accepts its fields. */
  predicate Valid(d: DateTime) {
    && MIN_YEAR <= d.year <= MAX_YEAR
    && 1 <= d.month <= 12
    && 1 <= d.day <= DaysInMonth(d.year, d.month)
    && 0 <= d.hour < 24
    && 0 <= d.minute < 60
    && 0 <= d.second < 60
    && 0 <= d.microsecond < 1000000
  }

  /** `datetime(year, month, day, hour, minute, second, microsecond)`. */
  function NewDateTime(year: int, month: int, day: int,
                       hour: int, minute: int, second: int, microsecond: int): (r: Result<DateTime>)
    ensures r.Ok? <==> Valid(DateTime(year, month, day, hour, minute, second, microsecond))
    ensures r.Ok? ==> r.value == DateTime(year, month, day, hour, minute, second, microsecond)
    ensures r.Err? ==> r.error == ValueError
  {
    var d := DateTime(year, month, day, hour, minute, second, microsecond);
    if Valid(d) then Ok(d) else Err(ValueError)
  }

  /** `datetime(year, month, day)`: midnight of that day. */
  function NewDate(year: int, month: int, day: int): (r: Result<DateTime>)
    ensures r.Ok? <==> Valid(DateTime(year, month, day, 0, 0, 0, 0))
    ensures r.Ok? ==> r.value == DateTime(year, month, day, 0, 0, 0, 0)
  {
    NewDateTime(year, month, day, 0, 0, 0, 0)
  }

  /** The same instant with the time of day dropped. */
  function Midnight(d: DateTime): DateTime {
    DateTime(d.year, d.month, d.day, 0, 0, 0, 0)
  }

  // ---------------------------------------------------------------- order

  /** `a < b`: fields compared lexicographically, year first. */
  predicate Before(a: DateTime, b: DateTime) {
    if a.year != b.year then a.year < b.year
    else if a.month != b.month then a.month < b.month
    else if a.day != b.day then a.day < b.day
    else if a.hour != b.hour then a.hour < b.hour
    else if a.minute != b.minute then a.minute < b.minute
    else if a.second != b.second then a.second < b.second
    else a.microsecond < b.microsecond
  }

  /** `a <= b`. */
  predicate AtOrBefore(a: DateTime, b: DateTime) {
    a == b || Before(a, b)
  }

  lemma BeforeIsStrictTotalOrder(a: DateTime, b: DateTime, c: DateTime)
    ensures !Before(a, a)
    ensures Before(a, b) && Before(b, c) ==> Before(a, c)
    ensures a == b || Before(a, b) || Before(b, a)
    ensures !(Before(a, b) && Before(b, a))
  {
  }

  // ---------------------------------------------------------------- ordinal

  /** Days in the years before `y` (Python's `_days_before_year`). */
  function DaysBeforeYear(y: int): int
    requires y >= 1
  {
    var p := y - 1;
    p * 365 + p / 4 - p / 100 + p / 400
  }

  /** Days in the months of year `y` before `m` (Python's `_days_before_month`). */
  function DaysBeforeMonth(y: int, m: int): (n: int)
    requires 1 <= m <= 12
    ensures 0 <= n
  {
    var leap := if IsLeap(y) then 1 else 0;
    if m == 1 then 0
    else if m == 2 then 31
    else [59, 90, 120, 151, 181, 212, 243, 273, 304, 334][m - 3] + leap
  }

  /** `date.toordinal()`: 0001-01-01 is day 1. */
  function ToOrdinal(d: DateTime): int
    requires Valid(d)
  {
    DaysBeforeYear(d.year) + DaysBeforeMonth(d.year, d.month) + d.day
  }

  lemma DaysBeforeNextMonth(y: int, m: int)
    requires 1 <= m < 12
    ensures DaysBeforeMonth(y, m + 1) == DaysBeforeMonth(y, m) + DaysInMonth(y, m)
  {
  }

  lemma DaysBeforeNextYear(y: int)
    requires y >= 1
    ensures DaysBeforeYear(y + 1) == DaysBeforeYear(y) + DaysInYear(y)
  {
    var p := y - 1;
    assert (p + 1) / 4 == p / 4 + (if (p + 1) % 4 == 0 then 1 else 0);
    assert (p + 1) / 100 == p / 100 + (if (p + 1) % 100 == 0 then 1 else 0);
    assert (p + 1) / 400 == p / 400 + (if (p + 1) % 400 == 0 then 1 else 0);
  }

  /** All days of a valid date's year up to and including it fit in that year. */
  lemma DayOfYearBound(d: DateTime)
    requires Valid(d)
    ensures DaysBeforeMonth(d.year, d.month) + d.day <= DaysInYear(d.year)
  {
  }

  /** The first ordinal of year `a` is no later than that of year `b`. */
  lemma {:induction false} DaysBeforeYearMonotone(a: int, b: int)
    requires 1 <= a <= b
    ensures DaysBeforeYear(a) + (b - a) * 365 <= DaysBeforeYear(b)
    decreases b - a
  {
    if a < b {
      DaysBeforeNextYear(a);
      DaysBeforeYearMonotone(a + 1, b);
    }
  }

  /** The ordinal follows date order: an earlier date never has a later ordinal. */
  lemma OrdinalMonotone(a: DateTime, b: DateTime)
    requires Valid(a) && Valid(b) && Before(a, b)
    ensures ToOrdinal(a) <= ToOrdinal(b)
    ensures Before(Midnight(a), Midnight(b)) ==> ToOrdinal(a) < ToOrdinal(b)
  {
    DayOfYearBound(a);
    if a.year < b.year {
      DaysBeforeNextYear(a.year);
      DaysBeforeYearMonotone(a.year + 1, b.year);
    } else if a.month < b.month {
      MonthsMonotone(a.year, a.month, b.month);
    }
  }

  lemma {:induction false} MonthsMonotone(y: int, m: int, n: int)
    requires 1 <= m < n <= 12
    ensures DaysBeforeMonth(y, m) + DaysInMonth(y, m) <= DaysBeforeMonth(y, n)
    decreases n - m
  {
    DaysBeforeNextMonth(y, m);
    if m + 1 < n {
      MonthsMonotone(y, m + 1, n);
    }
  }

  /** Two valid dates with the same ordinal and time of day are equal. */
  lemma OrdinalInjective(a: DateTime, b: DateTime)
    requires Valid(a) && Valid(b) && ToOrdinal(a) == ToOrdinal(b)
    requires a.hour == b.hour && a.minute == b.minute && a.second == b.second
    requires a.microsecond == b.microsecond
    ensures a == b
  {
    if Before(a, b) {
      OrdinalMonotone(a, b);
    } else if Before(b, a) {
      OrdinalMonotone(b, a);
    }
  }

  /** A smaller ordinal means an earlier date. */
  lemma OrdinalOrder(a: DateTime, b: DateTime)
    requires Valid(a) && Valid(b)
    ensures ToOrdinal(a) < ToOrdinal(b) ==> Before(a, b)
  {
    BeforeIsStrictTotalOrder(a, b, a);
    if Before(b, a) {
      OrdinalMonotone(b, a);
    }
  }

  // ---------------------------------------------------------------- stepping back

  /** The day before `d`, at the same time of day. */
  function PrevDay(d: DateTime): (r: DateTime)
    requires Valid(d) && ToOrdinal(d) > 1
    ensures Valid(r) && ToOrdinal(r) == ToOrdinal(d) - 1
    ensures r.hour == d.hour && r.minute == d.minute && r.second == d.second
    ensures r.microsecond == d.microsecond
  {
    if d.day > 1 then
      d.(day := d.day - 1)
    else if d.month > 1 then
      DaysBeforeNextMonth(d.year, d.month - 1);
      d.(month := d.month - 1, day := DaysInMonth(d.year, d.month - 1))
    else
      assert d.year > 1;
      DaysBeforeNextYear(d.year - 1);
      d.(year := d.year - 1, month := 12, day := 31)
  }

  /** `d - timedelta(days=n)`. */
  function SubDays(d: DateTime, n: nat): (r: DateTime)
    requires Valid(d) && ToOrdinal(d) > n
    ensures Valid(r) && ToOrdinal(r) == ToOrdinal(d) - n
    ensures r.hour == d.hour && r.minute == d.minute && r.second == d.second
    ensures r.microsecond == d.microsecond
    ensures n > 0 ==> Before(r, d)
    decreases n
  {
    if n == 0 then d
    else
      var r := SubDays(PrevDay(d), n - 1);
      OrdinalOrder(r, d);
      r
  }
}
