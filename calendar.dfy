/**
 * The parts of Python's `datetime.date` that the contact book uses: dates of
 * the proleptic Gregorian calendar in years 1..9999, their order, `replace`
 * of the year, and the day ordinal (`date.toordinal`) behind `date + timedelta`.
 */
module Calendar {
  import opened Wrappers

  const MinYear := 1
  const MaxYear := 9999

  /** `date.max.toordinal()`. */
  const MaxOrdinal := 3652059

  /** `timedelta.max.days`: the largest day count a `timedelta` can hold. */
  const MaxTimedeltaDays := 999999999

  datatype Date = Date(year: int, month: int, day: int)

  datatype DateError =
    | ValueError     // `date(...)` or `date.replace(...)` of a date that does not exist
    | OverflowError  // a `timedelta` that is too large, or `date + timedelta` outside years 1..9999

  predicate IsLeap(y: int) {
    y % 4 == 0 && (y % 100 != 0 || y % 400 == 0)
  }

  function DaysInMonth(y: int, m: int): (n: int)
    ensures 28 <= n <= 31
    ensures n == 29 <==> m == 2 && IsLeap(y)
  {
    if m == 2 then (if IsLeap(y) then 29 else 28)
    else if m == 4 || m == 6 || m == 9 || m == 11 then 30
    else 31
  }

  function DaysInYear(y: int): int {
    if IsLeap(y) then 366 else 365
  }

  /** A date `datetime.date` can represent. */
  predicate Valid(d: Date) {
    MinYear <= d.year <= MaxYear && 1 <= d.month <= 12 && 1 <= d.day <= DaysInMonth(d.year, d.month)
  }

  /** A value of type `datetime.date`. */
  type ValidDate = d: Date | Valid(d) witness Date(1, 1, 1)

  /** No two years in a row are leap years. */
  lemma LeapThenCommon(y: int)
    requires IsLeap(y)
    ensures !IsLeap(y + 1)
  {
  }

  /** `(a.month, a.day) < (b.month, b.day)`. */
  predicate MonthDayBefore(a: Date, b: Date) {
    a.month < b.month || (a.month == b.month && a.day < b.day)
  }

  /** `a < b` on dates: by year, then by month and day. */
  predicate Before(a: Date, b: Date) {
    a.year < b.year || (a.year == b.year && MonthDayBefore(a, b))
  }

  /** `d.replace(year=y)`: the same month and day in year `y`, if that date exists. */
  function ReplaceYear(d: Date, y: int): (r: Result<Date, DateError>)
    ensures r.Ok? <==> Valid(Date(y, d.month, d.day))
    ensures r.Ok? ==> r.value == Date(y, d.month, d.day)
    ensures Valid(d) && MinYear <= y <= MaxYear ==> (r.Err? <==> d.month == 2 && d.day == 29 && !IsLeap(y))
  {
    var e := Date(y, d.month, d.day);
    if Valid(e) then Ok(e) else Err(ValueError)
  }

  /** Days in the years before `y`. */
  function DaysBeforeYear(y: int): int
    requires y >= 1
  {
    var p := y - 1;
    365 * p + p / 4 - p / 100 + p / 400
  }

  /** Days in year `y` before the first of month `m`. */
  function DaysBeforeMonth(y: int, m: int): int
    requires 1 <= m <= 12
  {
    [0, 31, 59, 90, 120, 151, 181, 212, 243, 273, 304, 334][m - 1] + (if m > 2 && IsLeap(y) then 1 else 0)
  }

  /** `date.toordinal()`: 1 for 1 January of year 1, counting up by one per day. */
  function Ordinal(d: Date): int
    requires Valid(d)
  {
    DaysBeforeYear(d.year) + DaysBeforeMonth(d.year, d.month) + d.day
  }

  /** Each year adds its own length to the count. */
  lemma YearStep(y: int)
    requires y >= 1
    ensures DaysBeforeYear(y + 1) == DaysBeforeYear(y) + DaysInYear(y)
  {
    assert y / 4 - (y - 1) / 4 == if y % 4 == 0 then 1 else 0;
    assert y / 100 - (y - 1) / 100 == if y % 100 == 0 then 1 else 0;
    assert y / 400 - (y - 1) / 400 == if y % 400 == 0 then 1 else 0;
  }

  lemma {:induction false} YearsAhead(y1: int, y2: int)
    requires 1 <= y1 < y2
    ensures DaysBeforeYear(y1) + DaysInYear(y1) <= DaysBeforeYear(y2)
    decreases y2 - y1
  {
    YearStep(y1);
    if y1 + 1 < y2 {
      YearsAhead(y1 + 1, y2);
    }
  }

  /** A month adds its own length to the count. */
  lemma MonthsAhead(y: int, m1: int, m2: int)
    requires 1 <= m1 < m2 <= 12
    ensures DaysBeforeMonth(y, m1) + DaysInMonth(y, m1) <= DaysBeforeMonth(y, m2)
  {
  }

  /** A date's place in its year is within the year's length. */
  lemma DayOfYearBound(d: Date)
    requires Valid(d)
    ensures 1 <= DaysBeforeMonth(d.year, d.month) + d.day <= DaysInYear(d.year)
  {
  }

  /** Ordinals order dates as Python's date comparison does. */
  lemma OrdinalBefore(a: Date, b: Date)
    requires Valid(a) && Valid(b)
    ensures Before(a, b) <==> Ordinal(a) < Ordinal(b)
    ensures a == b <==> Ordinal(a) == Ordinal(b)
  {
    DayOfYearBound(a);
    DayOfYearBound(b);
    if a.year < b.year {
      YearsAhead(a.year, b.year);
    } else if b.year < a.year {
      YearsAhead(b.year, a.year);
    } else if a.month < b.month {
      MonthsAhead(a.year, a.month, b.month);
    } else if b.month < a.month {
      MonthsAhead(a.year, b.month, a.month);
    }
  }

  lemma OrdinalLimits()
    ensures Valid(Date(MinYear, 1, 1)) && Ordinal(Date(MinYear, 1, 1)) == 1
    ensures Valid(Date(MaxYear, 12, 31)) && Ordinal(Date(MaxYear, 12, 31)) == MaxOrdinal
  {
    assert Valid(Date(MaxYear, 12, 31));
    assert DaysBeforeYear(MaxYear) == 3651694;
    assert DaysBeforeMonth(MaxYear, 12) == 334;
  }

  /** Every date has an ordinal between that of `date.min` and that of `date.max`. */
  lemma OrdinalRange(d: Date)
    requires Valid(d)
    ensures 1 <= Ordinal(d) <= MaxOrdinal
  {
    DayOfYearBound(d);
    assert DaysBeforeYear(1) == 0;
    if d.year > 1 {
      YearsAhead(1, d.year);
    }
    assert DaysBeforeYear(MaxYear + 1) == MaxOrdinal;
    YearsAhead(d.year, MaxYear + 1);
  }
}
