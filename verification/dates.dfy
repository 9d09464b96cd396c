/** Calendar dates as Python's `datetime.date` handles them: the proleptic
    Gregorian calendar from 0001-01-01 to 9999-12-31, the day ordinal of
    `toordinal()`, and day steps that fail past either end the way
    `OverflowError` does. */
module Dates {
  import opened SeqUtil

  const MinYear := 1
  const MaxYear := 9999

  datatype Date = Date(year: int, month: int, day: int)

  const MinDate := Date(MinYear, 1, 1)
  const MaxDate := Date(MaxYear, 12, 31)

  predicate IsLeap(y: int) {
    y % 4 == 0 && (y % 100 != 0 || y % 400 == 0)
  }

  function DaysInMonth(y: int, m: int): (n: int)
    requires 1 <= m <= 12
    ensures 28 <= n <= 31
  {
    if m == 2 then (if IsLeap(y) then 29 else 28)
    else if m == 4 || m == 6 || m == 9 || m == 11 then 30
    else 31
  }

  function DaysInYear(y: int): int {
    if IsLeap(y) then 366 else 365
  }

  /** A date `datetime.date` accepts. */
  predicate Valid(d: Date) {
    MinYear <= d.year <= MaxYear && 1 <= d.month <= 12 && 1 <= d.day <= DaysInMonth(d.year, d.month)
  }

  /** Days in the years before `y`. */
  function DaysBeforeYear(y: int): (n: int)
    requires y >= 1
    ensures n >= 365 * (y - 1)
  {
    if y == 1 then 0 else DaysBeforeYear(y - 1) + DaysInYear(y - 1)
  }

  /** Days in the months of year `y` before month `m`. */
  function DaysBeforeMonth(y: int, m: int): int
    requires 1 <= m <= 12
  {
    var table := [0, 31, 59, 90, 120, 151, 181, 212, 243, 273, 304, 334];
    table[m - 1] + (if m > 2 && IsLeap(y) then 1 else 0)
  }

  /** The day number of `toordinal()`: 0001-01-01 is day 1. */
  function Ordinal(d: Date): int
    requires Valid(d)
  {
    DaysBeforeYear(d.year) + DaysBeforeMonth(d.year, d.month) + d.day
  }

  const MaxOrdinal := 3652059

  /** The count of days before year `y` is the leap-year formula of
      Python's `toordinal()`. */
  lemma {:induction false} DaysBeforeYearClosedForm(y: int)
    requires y >= 1
    ensures DaysBeforeYear(y) == (y - 1) * 365 + (y - 1) / 4 - (y - 1) / 100 + (y - 1) / 400
  {
    if y > 1 {
      DaysBeforeYearClosedForm(y - 1);
      DivSteps(y - 1);
      assert DaysInYear(y - 1) == 365 + (if (y - 1) % 4 == 0 then 1 else 0)
                                      - (if (y - 1) % 100 == 0 then 1 else 0)
                                      + (if (y - 1) % 400 == 0 then 1 else 0);
    }
  }

  /** The leap-year counts grow by one exactly at the multiples of 4,
      100 and 400. */
  lemma DivSteps(p: int)
    requires p >= 1
    ensures p / 4 == (p - 1) / 4 + (if p % 4 == 0 then 1 else 0)
    ensures p / 100 == (p - 1) / 100 + (if p % 100 == 0 then 1 else 0)
    ensures p / 400 == (p - 1) / 400 + (if p % 400 == 0 then 1 else 0)
    ensures p % 400 == 0 ==> p % 100 == 0
    ensures p % 100 == 0 ==> p % 4 == 0
  {
  }

  /** One more year adds that year's length. */
  lemma DaysBeforeYearStep(y: int)
    requires y >= 1
    ensures DaysBeforeYear(y + 1) == DaysBeforeYear(y) + DaysInYear(y)
  {
  }

  lemma {:induction false} DaysBeforeYearMonotone(a: int, b: int)
    requires 1 <= a <= b
    ensures DaysBeforeYear(a) + 365 * (b - a) <= DaysBeforeYear(b)
    decreases b - a
  {
    if a < b {
      DaysBeforeYearStep(a);
      DaysBeforeYearMonotone(a + 1, b);
    }
  }

  /** One more month adds that month's length; the months fill the year. */
  lemma DaysBeforeMonthStep(y: int, m: int)
    requires 1 <= m <= 12
    ensures m < 12 ==> DaysBeforeMonth(y, m + 1) == DaysBeforeMonth(y, m) + DaysInMonth(y, m)
    ensures DaysBeforeMonth(y, m) + DaysInMonth(y, m) <= DaysInYear(y)
    ensures DaysBeforeMonth(y, m) + DaysInMonth(y, m) == DaysInYear(y) <==> m == 12
  {
  }

  /** Every valid date lies between day 1 and the last day, 9999-12-31,
      and only the end dates reach the bounds. */
  lemma OrdinalBounds(d: Date)
    requires Valid(d)
    ensures 1 <= Ordinal(d) <= MaxOrdinal
    ensures Ordinal(d) == 1 <==> d == MinDate
    ensures Ordinal(d) == MaxOrdinal <==> d == MaxDate
  {
    OrdinalLower(d);
    OrdinalUpper(d);
  }

  lemma OrdinalLower(d: Date)
    requires Valid(d)
    ensures 1 <= Ordinal(d)
    ensures Ordinal(d) == 1 <==> d == MinDate
  {
    var before := DaysBeforeMonth(d.year, d.month);
    assert before >= 0 && (before == 0 <==> d.month == 1);
    if d.year > 1 {
      DaysBeforeYearMonotone(1, d.year);
      assert DaysBeforeYear(d.year) >= 365;
    }
  }

  lemma OrdinalUpper(d: Date)
    requires Valid(d)
    ensures Ordinal(d) <= MaxOrdinal
    ensures Ordinal(d) == MaxOrdinal <==> d == MaxDate
  {
    var inYear := DaysBeforeMonth(d.year, d.month) + d.day;
    DaysBeforeMonthStep(d.year, d.month);
    assert inYear <= DaysInYear(d.year);
    assert inYear == DaysInYear(d.year) <==> d.month == 12 && d.day == 31;
    DaysBeforeYearStep(d.year);
    DaysBeforeYearClosedForm(MaxYear + 1);
    assert DaysBeforeYear(MaxYear + 1) == MaxOrdinal;
    if d.year < MaxYear {
      DaysBeforeYearMonotone(d.year + 1, MaxYear);
      DaysBeforeYearStep(MaxYear);
      assert DaysBeforeYear(d.year + 1) < MaxOrdinal;
    }
  }

  /** The next day, or None past 9999-12-31. */
  function NextDay(d: Date): (r: Option<Date>)
    requires Valid(d)
    ensures r.None? <==> d == MaxDate
    ensures r.Some? ==> Valid(r.value) && Ordinal(r.value) == Ordinal(d) + 1
  {
    DaysBeforeMonthStep(d.year, d.month);
    DaysBeforeYearStep(d.year);
    if d.day < DaysInMonth(d.year, d.month) then Some(Date(d.year, d.month, d.day + 1))
    else if d.month < 12 then Some(Date(d.year, d.month + 1, 1))
    else if d.year < MaxYear then Some(Date(d.year + 1, 1, 1))
    else None
  }

  /** The previous day, or None before 0001-01-01. */
  function PrevDay(d: Date): (r: Option<Date>)
    requires Valid(d)
    ensures r.None? <==> d == MinDate
    ensures r.Some? ==> Valid(r.value) && Ordinal(r.value) == Ordinal(d) - 1
  {
    if d.day > 1 then Some(Date(d.year, d.month, d.day - 1))
    else if d.month > 1 then
      DaysBeforeMonthStep(d.year, d.month - 1);
      Some(Date(d.year, d.month - 1, DaysInMonth(d.year, d.month - 1)))
    else if d.year > MinYear then
      DaysBeforeMonthStep(d.year - 1, 12);
      DaysBeforeYearStep(d.year - 1);
      Some(Date(d.year - 1, 12, 31))
    else None
  }

  /** `d + timedelta(days=n)`: None when the result would pass 9999-12-31. */
  function AddDays(d: Date, n: nat): (r: Option<Date>)
    requires Valid(d)
    ensures r.None? <==> Ordinal(d) + n > MaxOrdinal
    ensures r.Some? ==> Valid(r.value) && Ordinal(r.value) == Ordinal(d) + n
    decreases n
  {
    OrdinalBounds(d);
    if n == 0 then Some(d)
    else match NextDay(d)
      case None => None
      case Some(e) => AddDays(e, n - 1)
  }

  /** `d - timedelta(days=n)`: None when the result would precede 0001-01-01. */
  function SubDays(d: Date, n: nat): (r: Option<Date>)
    requires Valid(d)
    ensures r.None? <==> Ordinal(d) - n < 1
    ensures r.Some? ==> Valid(r.value) && Ordinal(r.value) + n == Ordinal(d)
    decreases n
  {
    if n == 0 then Some(d)
    else if d == MinDate then None
    else SubDays(PrevDay(d).value, n - 1)
  }

  /** A day step lands on the one valid date with the target ordinal. */
  lemma AddDaysByOrdinal(d: Date, n: nat, e: Date)
    requires Valid(d) && Valid(e) && Ordinal(e) == Ordinal(d) + n
    ensures AddDays(d, n) == Some(e)
  {
    OrdinalBounds(e);
    DateLeIffOrdinal(AddDays(d, n).value, e);
  }

  lemma SubDaysByOrdinal(d: Date, n: nat, e: Date)
    requires Valid(d) && Valid(e) && Ordinal(e) + n == Ordinal(d)
    ensures SubDays(d, n) == Some(e)
  {
    OrdinalBounds(e);
    DateLeIffOrdinal(SubDays(d, n).value, e);
  }

  /** Within a month, adding days only moves the day of the month. */
  lemma AddDaysWithinMonth(d: Date, n: nat)
    requires Valid(d) && d.day + n <= DaysInMonth(d.year, d.month)
    ensures AddDays(d, n) == Some(Date(d.year, d.month, d.day + n))
  {
    AddDaysByOrdinal(d, n, Date(d.year, d.month, d.day + n));
  }

  /** Adding `a + b` days is adding `a` days, then `b` days. */
  lemma AddDaysSplit(d: Date, a: nat, b: nat)
    requires Valid(d)
    requires AddDays(d, a).Some?
    ensures AddDays(d, a + b) == AddDays(AddDays(d, a).value, b)
  {
    var m := AddDays(d, a).value;
    if AddDays(m, b).Some? {
      AddDaysByOrdinal(d, a + b, AddDays(m, b).value);
    }
  }

  /** `date.weekday()`: Monday is 0 and Sunday is 6. */
  function Weekday(d: Date): (w: int)
    requires Valid(d)
    ensures 0 <= w < 7
  {
    (Ordinal(d) + 6) % 7
  }

  /** A moment `datetime.combine(date, time)`: a date and the seconds
      since its midnight. */
  datatype DateTime = DateTime(date: Date, second: nat)

  predicate ValidDateTime(t: DateTime) {
    Valid(t.date) && t.second < 86400
  }

  /** Calendar order of dates: by year, then month, then day. */
  predicate DateLe(a: Date, b: Date) {
    a.year < b.year || (a.year == b.year && (a.month < b.month || (a.month == b.month && a.day <= b.day)))
  }

  /** Order of moments: by date, then by the second of the day. */
  predicate MomentLe(a: DateTime, b: DateTime) {
    (DateLe(a.date, b.date) && a.date != b.date) || (a.date == b.date && a.second <= b.second)
  }

  lemma DaysBeforeMonthMonotone(y: int, m1: int, m2: int)
    requires 1 <= m1 <= m2 <= 12
    ensures DaysBeforeMonth(y, m1) <= DaysBeforeMonth(y, m2)
    ensures m1 < m2 ==> DaysBeforeMonth(y, m1) + DaysInMonth(y, m1) <= DaysBeforeMonth(y, m2)
  {
  }

  /** For valid dates the calendar order is the order of day ordinals:
      `date` comparison in Python compares `toordinal()`. */
  lemma DateLeIffOrdinal(a: Date, b: Date)
    requires Valid(a) && Valid(b)
    ensures DateLe(a, b) <==> Ordinal(a) <= Ordinal(b)
    ensures a == b <==> Ordinal(a) == Ordinal(b)
  {
    if a != b {
      if DateLe(a, b) {
        OrdinalStrictlyIncreasing(a, b);
      } else {
        OrdinalStrictlyIncreasing(b, a);
      }
    }
  }

  lemma OrdinalStrictlyIncreasing(a: Date, b: Date)
    requires Valid(a) && Valid(b) && DateLe(a, b) && a != b
    ensures Ordinal(a) < Ordinal(b)
  {
    DaysBeforeMonthStep(a.year, a.month);
    if a.year < b.year {
      DaysBeforeYearStep(a.year);
      DaysBeforeYearMonotone(a.year + 1, b.year);
    } else if a.month < b.month {
      DaysBeforeMonthMonotone(a.year, a.month, b.month);
    }
  }
}
