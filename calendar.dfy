/** Proleptic Gregorian calendar dates as Python's `datetime.date` has them:
    years 1 to 9999, a day ordinal with 0001-01-01 as day 1, Monday = 0. */
module Calendar {

  const MinYear := 1
  const MaxYear := 9999

  datatype Date = Date(year: int, month: int, day: int)

  /** The last date Python can represent, 9999-12-31. */
  const LastDate := Date(MaxYear, 12, 31)

  predicate IsLeap(y: int) {
    y % 4 == 0 && (y % 100 != 0 || y % 400 == 0)
  }

  function YearLength(y: int): int {
    if IsLeap(y) then 366 else 365
  }

  function DaysInMonth(y: int, m: int): (n: int)
    requires 1 <= m <= 12
    ensures 28 <= n <= 31
  {
    if m == 2 then (if IsLeap(y) then 29 else 28)
    else if m == 4 || m == 6 || m == 9 || m == 11 then 30
    else 31
  }

  /** The checks `date(year, month, day)` makes before it builds a date. */
  predicate IsCalendarDate(d: Date) {
    MinYear <= d.year <= MaxYear && 1 <= d.month <= 12 && 1 <= d.day <= DaysInMonth(d.year, d.month)
  }

  /** A value of Python's `date` type: it cannot hold an impossible date. */
  type CalendarDate = d: Date | IsCalendarDate(d) witness Date(1, 1, 1)

  /** Days in the years before `y`. */
  function DaysBeforeYear(y: int): int
    requires y >= 1
  {
    var p := y - 1;
    p * 365 + p / 4 - p / 100 + p / 400
  }

  /** Days in the months of year `y` before month `m`. */
  function DaysBeforeMonth(y: int, m: int): int
    requires 1 <= m <= 12
  {
    [0, 0, 31, 59, 90, 120, 151, 181, 212, 243, 273, 304, 334][m] + (if m > 2 && IsLeap(y) then 1 else 0)
  }

  /** `date.toordinal()`: 0001-01-01 is day 1, and the days of a year
      follow the days of the years before it. */
  function Ordinal(d: CalendarDate): (n: int)
    ensures d == Date(1, 1, 1) ==> n == 1
    ensures DaysBeforeYear(d.year) < n <= DaysBeforeYear(d.year) + YearLength(d.year)
  {
    DaysBeforeYear(d.year) + DaysBeforeMonth(d.year, d.month) + d.day
  }

  /** `date.weekday()`: Monday is 0, Saturday 5, Sunday 6. */
  function Weekday(d: CalendarDate): (w: int)
    ensures 0 <= w < 7
  {
    (Ordinal(d) + 6) % 7
  }

  /** `(later - earlier).days`: positive exactly when `earlier < later`,
      zero exactly for the same date. */
  function DaysBetween(earlier: CalendarDate, later: CalendarDate): (n: int)
    ensures n > 0 <==> Before(earlier, later)
    ensures n == 0 <==> earlier == later
  {
    BeforeIsOrdinalOrder(earlier, later);
    BeforeIsOrdinalOrder(later, earlier);
    Ordinal(later) - Ordinal(earlier)
  }

  /** Python's `<` on dates, which compares (year, month, day) in turn:
      strict, and never from a later year to an earlier one. */
  function Before(a: Date, b: Date): (r: bool)
    ensures r ==> a != b && a.year <= b.year
  {
    a.year < b.year || (a.year == b.year && (a.month < b.month || (a.month == b.month && a.day < b.day)))
  }

  /** A year contributes 365 days, 366 when it is a leap year. */
  lemma DaysBeforeNextYear(y: int)
    requires y >= 1
    ensures DaysBeforeYear(y + 1) == DaysBeforeYear(y) + YearLength(y)
  {
    var p := y - 1;
    assert (p + 1) / 4 == p / 4 + (if y % 4 == 0 then 1 else 0);
    assert (p + 1) / 100 == p / 100 + (if y % 100 == 0 then 1 else 0);
    assert (p + 1) / 400 == p / 400 + (if y % 400 == 0 then 1 else 0);
  }

  /** `date + timedelta(days=1)`, defined for every date but the last. */
  function NextDay(d: CalendarDate): (r: CalendarDate)
    requires d != LastDate
    ensures Ordinal(r) == Ordinal(d) + 1
  {
    if d.day < DaysInMonth(d.year, d.month) then Date(d.year, d.month, d.day + 1)
    else if d.month < 12 then Date(d.year, d.month + 1, 1)
    else
      DaysBeforeNextYear(d.year);
      Date(d.year + 1, 1, 1)
  }

  /** Moving one day on moves the weekday one on, Sunday wrapping to Monday. */
  lemma NextDayWeekday(d: CalendarDate)
    requires d != LastDate
    ensures Weekday(NextDay(d)) == (Weekday(d) + 1) % 7
  {
    WeekdayStep(Ordinal(d) + 6, Ordinal(NextDay(d)) + 6);
  }

  lemma WeekdayStep(n: int, m: int)
    requires m == n + 1
    ensures m % 7 == (n % 7 + 1) % 7
  {
    var q, w := n / 7, n % 7;
    assert n == 7 * q + w && 0 <= w < 7;
    if w < 6 {
      assert m == 7 * q + (w + 1);
    } else {
      assert m == 7 * (q + 1);
    }
  }

  /** 9999-12-31 is a Friday, so no weekend day is the last date. */
  lemma LastDateIsFriday()
    ensures Weekday(LastDate) == 4
  {
  }

  /** Later years start at least a year's worth of days later. */
  lemma {:induction false} DaysBeforeYearGrows(a: int, b: int)
    requires 1 <= a < b
    ensures DaysBeforeYear(a) + YearLength(a) <= DaysBeforeYear(b)
    decreases b - a
  {
    DaysBeforeNextYear(a);
    if a + 1 < b {
      DaysBeforeYearGrows(a + 1, b);
    }
  }

  /** Within one year, a later month starts after every day of an earlier one. */
  lemma MonthsInOrder(y: int, m1: int, m2: int)
    requires 1 <= m1 < m2 <= 12
    ensures DaysBeforeMonth(y, m1) + DaysInMonth(y, m1) <= DaysBeforeMonth(y, m2)
  {
  }

  /** Python's tuple order on dates is the order of their ordinals. */
  lemma BeforeIsOrdinalOrder(a: CalendarDate, b: CalendarDate)
    ensures Before(a, b) <==> Ordinal(a) < Ordinal(b)
  {
    if Before(a, b) {
      BeforeMeansEarlier(a, b);
    } else if Before(b, a) {
      BeforeMeansEarlier(b, a);
    } else {
      assert a == b;
    }
  }

  lemma BeforeMeansEarlier(a: CalendarDate, b: CalendarDate)
    requires Before(a, b)
    ensures Ordinal(a) < Ordinal(b)
  {
    if a.year < b.year {
      DaysBeforeYearGrows(a.year, b.year);
    } else if a.month < b.month {
      MonthsInOrder(a.year, a.month, b.month);
    }
  }
}
