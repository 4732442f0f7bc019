/** Calendar dates as Python's datetime module handles them: the proleptic
    Gregorian calendar over the years 1 to 9999, without time of day. */
module Dates {

  const MIN_YEAR := 1
  const MAX_YEAR := 9999

  datatype Date = Date(year: int, month: int, day: int)

  predicate IsLeapYear(y: int) {
    y % 4 == 0 && (y % 100 != 0 || y % 400 == 0)
  }

  function DaysInMonth(y: int, m: int): (n: int)
    requires 1 <= m <= 12
  {
    if m == 2 then (if IsLeapYear(y) then 29 else 28)
    else if m == 4 || m == 6 || m == 9 || m == 11 then 30
    else 31
  }

  function DaysInYear(y: int): int {
    if IsLeapYear(y) then 366 else 365
  }

  /** A date that datetime(year, month, day) accepts. */
  predicate ValidDate(d: Date) {
    && MIN_YEAR <= d.year <= MAX_YEAR
    && 1 <= d.month <= 12
    && 1 <= d.day <= DaysInMonth(d.year, d.month)
  }

  /** Comparison of two datetimes at midnight: year, then month, then day. */
  predicate DateLe(a: Date, b: Date) {
    || a.year < b.year
    || (a.year == b.year && (a.month < b.month || (a.month == b.month && a.day <= b.day)))
  }

  /** A parsed join-date cell: a day, or NaT ("not a time"), which
      `pd.to_datetime` makes of an empty cell without raising an error. */
  datatype Stamp = NaT | Day(date: Date)

  /** A stamp that pandas can hold: NaT, or a day datetime accepts. */
  predicate ValidStamp(s: Stamp) {
    s.NaT? || ValidDate(s.date)
  }

  /** Sort order of stamps: dates by DateLe, NaT after every date (pandas'
      default na_position="last"). */
  predicate StampLe(a: Stamp, b: Stamp) {
    match (a, b)
    case (Day(x), Day(y)) => DateLe(x, y)
    case (Day(_), NaT) => true
    case (NaT, Day(_)) => false
    case (NaT, NaT) => true
  }

  lemma StampLeTotalPreorder(a: Stamp, b: Stamp, c: Stamp)
    ensures StampLe(a, a)
    ensures StampLe(a, b) || StampLe(b, a)
    ensures StampLe(a, b) && StampLe(b, c) ==> StampLe(a, c)
  {
  }

  // ---------------------------------------------------------------------------
  // Day numbers: the independent reference for "one day earlier" and for order.
  // ---------------------------------------------------------------------------

  /** Days in the months of year y that come before month m. */
  function DaysBeforeMonth(y: int, m: int): int
    requires 1 <= m <= 12
  {
    [0, 31, 59, 90, 120, 151, 181, 212, 243, 273, 304, 334][m - 1]
      + (if m > 2 && IsLeapYear(y) then 1 else 0)
  }

  /** Days in the years from MIN_YEAR up to, not including, year y. */
  function DaysBeforeYear(y: int): nat
    decreases y
  {
    if y <= MIN_YEAR then 0 else DaysBeforeYear(y - 1) + DaysInYear(y - 1)
  }

  /** The day number of a date, 0001-01-01 being day 1 (date.toordinal). */
  function Ordinal(d: Date): int
    requires ValidDate(d)
  {
    DaysBeforeYear(d.year) + DaysBeforeMonth(d.year, d.month) + d.day
  }

  lemma MonthStep(y: int, m: int)
    requires 1 <= m <= 12
    ensures m < 12 ==> DaysBeforeMonth(y, m) + DaysInMonth(y, m) == DaysBeforeMonth(y, m + 1)
    ensures m == 12 ==> DaysBeforeMonth(y, m) + DaysInMonth(y, m) == DaysInYear(y)
  {
  }

  /** A valid date's day number lies inside its own year. */
  lemma OrdinalInYear(d: Date)
    requires ValidDate(d)
    ensures DaysBeforeYear(d.year) < Ordinal(d) <= DaysBeforeYear(d.year) + DaysInYear(d.year)
  {
    MonthStep(d.year, d.month);
    if d.month < 12 {
      assert DaysBeforeMonth(d.year, d.month + 1) <= DaysBeforeMonth(d.year, 12);
      MonthStep(d.year, 12);
    }
  }

  /** Every year before y2 ends on or before the day y2 starts. */
  lemma {:induction false} YearsAreOrdered(y1: int, y2: int)
    requires MIN_YEAR <= y1 < y2
    ensures DaysBeforeYear(y1) + DaysInYear(y1) <= DaysBeforeYear(y2)
    decreases y2
  {
    if y1 < y2 - 1 {
      YearsAreOrdered(y1, y2 - 1);
    }
  }

  /** The field-by-field comparison the report uses is chronological order. */
  lemma DateLeIsChronological(a: Date, b: Date)
    requires ValidDate(a) && ValidDate(b)
    ensures DateLe(a, b) <==> Ordinal(a) <= Ordinal(b)
  {
    OrdinalInYear(a);
    OrdinalInYear(b);
    if a.year < b.year {
      YearsAreOrdered(a.year, b.year);
    } else if b.year < a.year {
      YearsAreOrdered(b.year, a.year);
    } else if a.month < b.month {
      MonthStep(a.year, a.month);
      assert DaysBeforeMonth(a.year, a.month + 1) <= DaysBeforeMonth(a.year, b.month);
    } else if b.month < a.month {
      MonthStep(a.year, b.month);
      assert DaysBeforeMonth(a.year, b.month + 1) <= DaysBeforeMonth(a.year, a.month);
    }
  }

  /** `d - pd.Timedelta(days=1)`: the calendar day before d. datetime cannot
      go below 0001-01-01, so that date is excluded. */
  function PrevDay(d: Date): (p: Date)
    requires ValidDate(d) && d != Date(MIN_YEAR, 1, 1)
    ensures ValidDate(p)
    ensures Ordinal(p) == Ordinal(d) - 1
  {
    if d.day > 1 then
      Date(d.year, d.month, d.day - 1)
    else if d.month > 1 then
      MonthStep(d.year, d.month - 1);
      Date(d.year, d.month - 1, DaysInMonth(d.year, d.month - 1))
    else
      MonthStep(d.year - 1, 12);
      Date(d.year - 1, 12, 31)
  }

  // ---------------------------------------------------------------------------
  // get_month_range
  // ---------------------------------------------------------------------------

  /** The first and the last day of a month, as get_month_range computes them:
      December by the literal 31st, every other month as the first of the next
      month minus one day. */
  function MonthRange(year: int, month: int): (r: (Date, Date))
    requires MIN_YEAR <= year <= MAX_YEAR && 1 <= month <= 12
    ensures ValidDate(r.0) && ValidDate(r.1)
    ensures r.0 == Date(year, month, 1)
    ensures r.1 == Date(year, month, DaysInMonth(year, month))
  {
    if month == 12 then
      (Date(year, 12, 1), Date(year, 12, 31))
    else
      (Date(year, month, 1), PrevDay(Date(year, month + 1, 1)))
  }

  /** The first day of the month after (year, month). */
  function FirstOfNextMonth(year: int, month: int): Date {
    if month == 12 then Date(year + 1, 1, 1) else Date(year, month + 1, 1)
  }

  /** The uniform rule "first of next month minus one day" gives the same last
      day as both branches of MonthRange, December included, as long as the
      next January is still a datetime (for year 9999 it is not, and only the
      December branch can be evaluated). */
  lemma UniformRuleAgrees(year: int, month: int)
    requires MIN_YEAR <= year <= MAX_YEAR && 1 <= month <= 12
    requires month == 12 ==> year < MAX_YEAR
    ensures ValidDate(FirstOfNextMonth(year, month))
    ensures PrevDay(FirstOfNextMonth(year, month)) == MonthRange(year, month).1
  {
  }

  /** The range starts no later than it ends, both ends lie in the requested
      month, and it spans exactly the days of that month. */
  lemma MonthRangeSpansMonth(year: int, month: int)
    requires MIN_YEAR <= year <= MAX_YEAR && 1 <= month <= 12
    ensures DateLe(MonthRange(year, month).0, MonthRange(year, month).1)
    ensures MonthRange(year, month).0.year == MonthRange(year, month).1.year == year
    ensures MonthRange(year, month).0.month == MonthRange(year, month).1.month == month
    ensures Ordinal(MonthRange(year, month).1) - Ordinal(MonthRange(year, month).0) + 1
            == DaysInMonth(year, month)
  {
  }

  /** A valid date lies in the inclusive range exactly when it is in that
      year and month: the filter selects "joined this month". */
  lemma InMonthRangeIffSameMonth(d: Date, year: int, month: int)
    requires MIN_YEAR <= year <= MAX_YEAR && 1 <= month <= 12
    requires ValidDate(d)
    ensures DateLe(MonthRange(year, month).0, d) && DateLe(d, MonthRange(year, month).1)
            <==> d.year == year && d.month == month
  {
  }

  /** February ends on the 29th in a leap year and on the 28th otherwise;
      December always ends on the 31st. */
  lemma MonthEndExamples(year: int)
    requires MIN_YEAR <= year <= MAX_YEAR
    ensures MonthRange(2024, 2).1 == Date(2024, 2, 29)
    ensures MonthRange(2023, 2).1 == Date(2023, 2, 28)
    ensures MonthRange(1900, 2).1 == Date(1900, 2, 28)
    ensures MonthRange(2000, 2).1 == Date(2000, 2, 29)
    ensures MonthRange(year, 12).1 == Date(year, 12, 31)
  {
  }
}
