/**
 * The proleptic Gregorian calendar as Python's `datetime` module uses it: dates, their
 * ordinal day numbers (`date.toordinal`), adding a number of days (`date + timedelta(days=n)`),
 * `replace(day=1)`, and timestamps with a whole-day difference (`timedelta.days`).
 * Time zones are not modelled: every timestamp is local and naive.
 */
module Calendar {

  datatype Date = Date(year: int, month: int, day: int)

  /** A moment: a date and the microseconds elapsed since its midnight. */
  datatype Timestamp = Timestamp(date: Date, micros: int)

  const MicrosPerDay: int := 86_400_000_000

  predicate IsLeap(y: int) {
    y % 4 == 0 && (y % 100 != 0 || y % 400 == 0)
  }

  function DaysInMonth(y: int, m: int): int {
    if m == 2 then (if IsLeap(y) then 29 else 28)
    else if m == 4 || m == 6 || m == 9 || m == 11 then 30
    else 31
  }

  /** A date Python can represent (the upper limit `MAXYEAR` is not modelled). */
  predicate Valid(d: Date) {
    1 <= d.year && 1 <= d.month <= 12 && 1 <= d.day <= DaysInMonth(d.year, d.month)
  }

  predicate ValidTimestamp(t: Timestamp) {
    Valid(t.date) && 0 <= t.micros < MicrosPerDay
  }

  /** Python's date order: lexicographic on (year, month, day). */
  predicate DateLe(a: Date, b: Date) {
    a.year < b.year || (a.year == b.year && (a.month < b.month || (a.month == b.month && a.day <= b.day)))
  }

  /** Days in the years before `y`, as `_days_before_year` computes them. */
  function DaysBeforeYear(y: int): int
    requires 1 <= y
  {
    var p := y - 1;
    p * 365 + p / 4 - p / 100 + p / 400
  }

  /** Days in the months of year `y` before month `m`, as `_days_before_month` computes them. */
  function DaysBeforeMonth(y: int, m: int): int
    requires 1 <= m <= 12
  {
    [0, 31, 59, 90, 120, 151, 181, 212, 243, 273, 304, 334][m - 1] + (if m > 2 && IsLeap(y) then 1 else 0)
  }

  /** `date.toordinal()`: 1 January of year 1 is day 1. */
  function Ordinal(d: Date): int
    requires Valid(d)
  {
    DaysBeforeYear(d.year) + DaysBeforeMonth(d.year, d.month) + d.day
  }

  /** `d.replace(day=1)`. */
  function FirstOfMonth(d: Date): (r: Date)
    requires Valid(d)
    ensures Valid(r) && r.day == 1 && r.year == d.year && r.month == d.month
  {
    Date(d.year, d.month, 1)
  }

  /** The first day of the calendar month after the one `d` lies in. */
  function NextMonthStart(d: Date): (r: Date)
    requires Valid(d)
    ensures Valid(r) && r.day == 1
    ensures MonthIndex(r) == MonthIndex(d) + 1
  {
    if d.month == 12 then Date(d.year + 1, 1, 1) else Date(d.year, d.month + 1, 1)
  }

  /** A year has 366 days when it is a leap year and 365 otherwise. */
  lemma YearStep(y: int)
    requires 1 <= y
    ensures DaysBeforeYear(y + 1) == DaysBeforeYear(y) + DaysBeforeMonth(y, 12) + 31
  {
    var p := y - 1;
    assert (p + 1) / 4 == p / 4 + (if (p + 1) % 4 == 0 then 1 else 0);
    assert (p + 1) / 100 == p / 100 + (if (p + 1) % 100 == 0 then 1 else 0);
    assert (p + 1) / 400 == p / 400 + (if (p + 1) % 400 == 0 then 1 else 0);
  }

  /** The next month starts as many days after this month's first as this month has. */
  lemma NextMonthStartOrdinal(d: Date)
    requires Valid(d)
    ensures Ordinal(NextMonthStart(d)) == Ordinal(FirstOfMonth(d)) + DaysInMonth(d.year, d.month)
  {
    if d.month == 12 {
      YearStep(d.year);
    } else {
      assert DaysBeforeMonth(d.year, d.month + 1) == DaysBeforeMonth(d.year, d.month) + DaysInMonth(d.year, d.month);
    }
  }

  /** `d + timedelta(days=n)`, walking month by month. */
  function AddDays(d: Date, n: nat): (r: Date)
    requires Valid(d)
    ensures Valid(r)
    decreases n
  {
    var len := DaysInMonth(d.year, d.month);
    if d.day + n <= len then Date(d.year, d.month, d.day + n)
    else AddDays(NextMonthStart(d), n - (len - d.day + 1))
  }

  /** The defining property of date arithmetic: the ordinal advances by exactly `n`. */
  lemma {:induction false} AddDaysOrdinal(d: Date, n: nat)
    requires Valid(d)
    ensures Ordinal(AddDays(d, n)) == Ordinal(d) + n
    decreases n
  {
    var len := DaysInMonth(d.year, d.month);
    if d.day + n > len {
      NextMonthStartOrdinal(d);
      AddDaysOrdinal(NextMonthStart(d), n - (len - d.day + 1));
    }
  }

  /** Months counted from January of year 0, so that consecutive months differ by one. */
  function MonthIndex(d: Date): int {
    d.year * 12 + d.month - 1
  }

  /** The first day of the month with index `k`. */
  function MonthOfIndex(k: int): (r: Date)
    requires 12 <= k
    ensures Valid(r) && r.day == 1 && MonthIndex(r) == k
  {
    Date(k / 12, k % 12 + 1, 1)
  }

  /** A first-of-month date is determined by its month index. */
  lemma MonthStartByIndex(d: Date)
    requires Valid(d) && d.day == 1
    ensures MonthIndex(d) >= 12 && MonthOfIndex(MonthIndex(d)) == d
  {
  }

  /** For first-of-month dates the date order is the month-index order. */
  lemma MonthStartOrder(a: Date, b: Date)
    requires Valid(a) && Valid(b) && a.day == 1 && b.day == 1
    ensures DateLe(a, b) <==> MonthIndex(a) <= MonthIndex(b)
  {
  }

  /** The date order never puts a later month first. */
  lemma DateLeMonthIndex(a: Date, b: Date)
    requires Valid(a) && Valid(b) && DateLe(a, b)
    ensures MonthIndex(a) <= MonthIndex(b)
  {
  }

  /** Adding days never goes back a month, and adding more than the rest of the month goes forward. */
  lemma {:induction false} AddDaysAdvances(d: Date, n: nat)
    requires Valid(d)
    ensures MonthIndex(AddDays(d, n)) >= MonthIndex(d)
    ensures n > DaysInMonth(d.year, d.month) - d.day ==> MonthIndex(AddDays(d, n)) > MonthIndex(d)
    decreases n
  {
    var len := DaysInMonth(d.year, d.month);
    if d.day + n > len {
      AddDaysAdvances(NextMonthStart(d), n - (len - d.day + 1));
    }
  }

  /** Adding a few days past the end of a month lands in the next month, on the day left over. */
  lemma {:induction false} AddDaysIntoNextMonth(d: Date, n: nat)
    requires Valid(d)
    requires DaysInMonth(d.year, d.month) - d.day < n <= DaysInMonth(d.year, d.month) - d.day + 28
    ensures var next := NextMonthStart(d);
      AddDays(d, n) == Date(next.year, next.month, n - (DaysInMonth(d.year, d.month) - d.day))
  {
    var next := NextMonthStart(d);
    var rest := n - (DaysInMonth(d.year, d.month) - d.day + 1);
    assert AddDays(d, n) == AddDays(next, rest);
    assert 1 + rest <= 28 <= DaysInMonth(next.year, next.month);
  }

  /**
   * Adding 32 days to a first of month lands in the next month, so
   * `(d + timedelta(days=32)).replace(day=1)` is the next month's first day.
   */
  lemma Add32ThenFirst(d: Date)
    requires Valid(d) && d.day == 1
    ensures FirstOfMonth(AddDays(d, 32)) == NextMonthStart(d)
  {
    AddDaysIntoNextMonth(d, 32);
  }

  /** The same holds for 31 days: `(d + timedelta(days=31)).replace(day=1)` when `d` is a first of month. */
  lemma Add31ThenFirst(d: Date)
    requires Valid(d) && d.day == 1
    ensures FirstOfMonth(AddDays(d, 31)) == NextMonthStart(d)
  {
    AddDaysIntoNextMonth(d, 31);
  }

  /**
   * `(a - b).days`: the floor of the difference in days, so that a difference of less
   * than a day backwards is -1.
   */
  function DaysBetween(a: Timestamp, b: Timestamp): (r: int)
    requires ValidTimestamp(a) && ValidTimestamp(b)
    ensures r == Ordinal(a.date) - Ordinal(b.date) - (if a.micros < b.micros then 1 else 0)
  {
    var delta := Ordinal(a.date) - Ordinal(b.date);
    FloorStep(delta, a.micros - b.micros);
    (delta * MicrosPerDay + a.micros - b.micros) / MicrosPerDay
  }

  /** Dividing whole days plus a sub-day offset by the day length. */
  lemma FloorStep(delta: int, off: int)
    requires -MicrosPerDay < off < MicrosPerDay
    ensures (delta * MicrosPerDay + off) / MicrosPerDay == delta - (if off < 0 then 1 else 0)
  {
    var q := delta - (if off < 0 then 1 else 0);
    var rem := off + (if off < 0 then MicrosPerDay else 0);
    assert delta * MicrosPerDay + off == q * MicrosPerDay + rem;
    assert 0 <= rem < MicrosPerDay;
  }
}
