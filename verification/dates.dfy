/** Proleptic Gregorian calendar dates as (year, month 1..12, day) triples, with
    the arithmetic the widgets borrow from JavaScript's `Date`: month overflow
    in the constructor, "day 0" meaning the last day of the previous month,
    stepping one day forward, day numbers and the day of the week. */
module Dates {

  datatype Date = Date(year: int, month: int, day: int)

  predicate IsLeap(y: int) { y % 4 == 0 && (y % 100 != 0 || y % 400 == 0) }

  function DaysInMonth(y: int, m: int): (n: int)
    requires 1 <= m <= 12
    ensures 28 <= n <= 31
    ensures n == 29 <==> m == 2 && IsLeap(y)
  {
    if m == 2 then (if IsLeap(y) then 29 else 28)
    else if m == 4 || m == 6 || m == 9 || m == 11 then 30
    else 31
  }

  function DaysInYear(y: int): int { if IsLeap(y) then 366 else 365 }

  predicate Valid(d: Date)
  {
    1 <= d.month <= 12 && 1 <= d.day <= DaysInMonth(d.year, d.month)
  }

  /** Months counted from January of year 0, so that consecutive months have
      consecutive numbers across a year boundary. */
  function AbsMonth(y: int, m: int): int { 12 * y + m - 1 }

  /** How the `Date` constructor reads a year and a 0-based month index that may
      lie outside 0..11: as the (year, 1-based month) with the same absolute month. */
  function MonthOf(y: int, monthIndex: int): (r: (int, int))
    ensures 1 <= r.1 <= 12
    ensures AbsMonth(r.0, r.1) == AbsMonth(y, monthIndex + 1)
  {
    (y + monthIndex / 12, monthIndex % 12 + 1)
  }

  /** MonthOf is the only (year, month) pair with that absolute month. */
  lemma MonthOfUnique(y: int, monthIndex: int, y': int, m': int)
    requires 1 <= m' <= 12 && AbsMonth(y', m') == AbsMonth(y, monthIndex + 1)
    ensures MonthOf(y, monthIndex) == (y', m')
  {
    var r := MonthOf(y, monthIndex);
    assert 12 * (r.0 - y') == m' - r.1;
  }

  /** The Date constructor's reading of a year argument: 0..99 mean 1900..1999. */
  function ConstructorYear(y: int): int
  {
    if 0 <= y <= 99 then 1900 + y else y
  }

  /** `new Date(y, monthIndex, 0)`: day 0 of a month is the last day of the
      month before it, the year argument read as the constructor reads it. */
  function LastDayBefore(y: int, monthIndex: int): (d: Date)
    ensures Valid(d)
    ensures AbsMonth(d.year, d.month) == AbsMonth(ConstructorYear(y), monthIndex)
    ensures d.day == DaysInMonth(d.year, d.month)
  {
    var ym := MonthOf(ConstructorYear(y), monthIndex - 1);
    Date(ym.0, ym.1, DaysInMonth(ym.0, ym.1))
  }

  // ---------------------------------------------------------------------------
  // Day numbers (0001-01-01 is day 0)

  function DaysBeforeYear(y: int): int
  {
    365 * (y - 1) + (y - 1) / 4 - (y - 1) / 100 + (y - 1) / 400
  }

  function DaysBeforeMonth(y: int, m: int): int
    requires 1 <= m <= 12
  {
    var cumulative := [0, 31, 59, 90, 120, 151, 181, 212, 243, 273, 304, 334];
    cumulative[m - 1] + (if m > 2 && IsLeap(y) then 1 else 0)
  }

  function DayNumber(d: Date): int
    requires Valid(d)
  {
    DaysBeforeYear(d.year) + DaysBeforeMonth(d.year, d.month) + d.day - 1
  }

  /** 1970-01-01, the origin of `Date.prototype.getTime`. */
  const EpochDayNumber: int := 719162

  /** Day of the week, Sunday = 0 as `getDay` numbers them (0001-01-01 was a Monday). */
  function WeekDay(d: Date): (w: int)
    requires Valid(d)
    ensures 0 <= w < 7
  {
    (DayNumber(d) + 1) % 7
  }

  lemma DivStep4(y: int)
    ensures y / 4 - (y - 1) / 4 == if y % 4 == 0 then 1 else 0
  {
  }

  lemma DivStep100(y: int)
    ensures y / 100 - (y - 1) / 100 == if y % 100 == 0 then 1 else 0
  {
  }

  lemma DivStep400(y: int)
    ensures y / 400 - (y - 1) / 400 == if y % 400 == 0 then 1 else 0
  {
  }

  lemma YearStep(y: int)
    ensures DaysBeforeYear(y + 1) == DaysBeforeYear(y) + DaysInYear(y)
  {
    DivStep4(y);
    DivStep100(y);
    DivStep400(y);
  }

  /** The day after a valid date. */
  function NextDay(d: Date): (r: Date)
    requires Valid(d)
    ensures Valid(r)
  {
    if d.day < DaysInMonth(d.year, d.month) then Date(d.year, d.month, d.day + 1)
    else if d.month < 12 then Date(d.year, d.month + 1, 1)
    else Date(d.year + 1, 1, 1)
  }

  /** The day after is numbered one more, across month and year ends too. */
  lemma NextDayNumber(d: Date)
    requires Valid(d)
    ensures DayNumber(NextDay(d)) == DayNumber(d) + 1
  {
    if d.day == DaysInMonth(d.year, d.month) && d.month == 12 {
      YearStep(d.year);
    }
  }

  /** `new Date(y, m, d + k)` from a valid date: k days later. */
  function AddDays(d: Date, k: nat): (r: Date)
    requires Valid(d)
    ensures Valid(r)
    decreases k
  {
    if k == 0 then d else AddDays(NextDay(d), k - 1)
  }

  /** k days later is numbered k more. */
  lemma {:induction false} AddDaysNumber(d: Date, k: nat)
    requires Valid(d)
    ensures DayNumber(AddDays(d, k)) == DayNumber(d) + k
    decreases k
  {
    if k > 0 {
      NextDayNumber(d);
      AddDaysNumber(NextDay(d), k - 1);
    }
  }

  lemma {:induction false} AddDaysStep(d: Date, k: nat)
    requires Valid(d)
    ensures AddDays(d, k + 1) == NextDay(AddDays(d, k))
    decreases k
  {
    if k > 0 {
      AddDaysStep(NextDay(d), k - 1);
      assert AddDays(d, k + 1) == AddDays(NextDay(d), k);
      assert AddDays(d, k) == AddDays(NextDay(d), k - 1);
    }
  }

  lemma NextDayInMonth(d: Date)
    requires Valid(d) && d.day < DaysInMonth(d.year, d.month)
    ensures NextDay(d) == Date(d.year, d.month, d.day + 1)
  {
  }

  /** Within one month, k days after day d is day d + k of that month. */
  lemma {:induction false} AddDaysInMonth(d: Date, k: nat)
    requires Valid(d) && d.day + k <= DaysInMonth(d.year, d.month)
    ensures AddDays(d, k) == Date(d.year, d.month, d.day + k)
    decreases k
  {
    if k > 0 {
      NextDayInMonth(d);
      AddDaysInMonth(Date(d.year, d.month, d.day + 1), k - 1);
    }
  }

  /** Each day later moves the weekday one step round the week. */
  lemma WeekDayAdd(d: Date, k: nat)
    requires Valid(d)
    ensures WeekDay(AddDays(d, k)) == (WeekDay(d) + k) % 7
  {
    AddDaysNumber(d, k);
    var n := DayNumber(d) + 1;
    assert n + k == 7 * (n / 7) + (n % 7 + k);
    ModShift(n % 7 + k, n / 7);
  }

  lemma ModShift(a: int, q: int)
    ensures (7 * q + a) % 7 == a % 7
  {
  }

  /** Dates in calendar order: by year, then month, then day. */
  predicate Before(a: Date, b: Date)
  {
    a.year < b.year || (a.year == b.year && (a.month < b.month || (a.month == b.month && a.day < b.day)))
  }
}
