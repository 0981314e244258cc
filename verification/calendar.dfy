/**
  Naive (timezone-free) calendar arithmetic as performed by Python's `datetime`
  and pandas `Timestamp`: proleptic Gregorian dates numbered by their ordinal
  (0001-01-01 is day 1), and instants as whole microseconds.
 */
module Calendar {

  /** Microseconds in one day: the resolution of `datetime` and `timedelta`. */
  const MicrosPerDay: int := 86_400_000_000

  /** A calendar date as read from the "Last Check-up Date" column. */
  datatype Date = Date(year: int, month: int, day: int)

  predicate IsLeapYear(y: int) {
    y % 4 == 0 && (y % 100 != 0 || y % 400 == 0)
  }

  function DaysInYear(y: int): int {
    if IsLeapYear(y) then 366 else 365
  }

  function DaysInMonth(y: int, m: int): (n: int)
    requires 1 <= m <= 12
    ensures 28 <= n <= 31
    ensures n == 29 <==> m == 2 && IsLeapYear(y)
  {
    if m == 2 then (if IsLeapYear(y) then 29 else 28)
    else if m == 4 || m == 6 || m == 9 || m == 11 then 30
    else 31
  }

  /** The years `datetime` supports (MINYEAR = 1, MAXYEAR = 9999). */
  predicate ValidDate(d: Date) {
    && 1 <= d.year <= 9999
    && 1 <= d.month <= 12
    && 1 <= d.day <= DaysInMonth(d.year, d.month)
  }

  /** Days in the years 1 .. y-1. */
  function DaysBeforeYear(y: int): int
    requires y >= 1
  {
    var p := y - 1;
    p * 365 + p / 4 - p / 100 + p / 400
  }

  /** Days in the months 1 .. m-1 of year y. */
  function DaysBeforeMonth(y: int, m: int): int
    requires 1 <= m <= 12
  {
    var common := [0, 31, 59, 90, 120, 151, 181, 212, 243, 273, 304, 334][m - 1];
    if m > 2 && IsLeapYear(y) then common + 1 else common
  }

  /** The proleptic Gregorian ordinal of a date: 0001-01-01 is 1. */
  function Ordinal(d: Date): int
    requires ValidDate(d)
  {
    DaysBeforeYear(d.year) + DaysBeforeMonth(d.year, d.month) + d.day
  }

  /** Moving from y - 1 to y, the quotient by k grows exactly when k divides y. */
  lemma QuotientStep(y: int, k: int)
    requires k == 4 || k == 100 || k == 400
    ensures y / k == (y - 1) / k + (if y % k == 0 then 1 else 0)
  {
    var q := (y - 1) / k;
    var r := (y - 1) % k;
    assert y == q * k + r + 1;
    if r + 1 == k {
      assert y == (q + 1) * k;
    } else {
      assert y == q * k + (r + 1) && 0 <= r + 1 < k;
    }
  }

  /** The leap-year rule and the division formula of DaysBeforeYear agree. */
  lemma YearLength(y: int)
    requires y >= 1
    ensures DaysBeforeYear(y + 1) == DaysBeforeYear(y) + DaysInYear(y)
  {
    QuotientStep(y, 4);
    QuotientStep(y, 100);
    QuotientStep(y, 400);
    if y % 100 == 0 {
      assert y % 4 == 0;
    }
    if y % 400 == 0 {
      assert y % 100 == 0;
    }
  }

  /** Months tile the year: each month begins where the previous one ends. */
  lemma MonthLength(y: int, m: int)
    requires 1 <= m <= 12
    ensures m < 12 ==> DaysBeforeMonth(y, m + 1) == DaysBeforeMonth(y, m) + DaysInMonth(y, m)
    ensures m == 12 ==> DaysBeforeMonth(y, m) + DaysInMonth(y, m) == DaysInYear(y)
  {
  }

  /** The date that follows `d`, carrying over month and year ends. */
  function NextDay(d: Date): (n: Date)
    requires ValidDate(d) && d != Date(9999, 12, 31)
    ensures ValidDate(n)
    ensures Ordinal(n) == Ordinal(d) + 1
  {
    MonthLength(d.year, d.month);
    if d.day < DaysInMonth(d.year, d.month) then
      Date(d.year, d.month, d.day + 1)
    else if d.month < 12 then
      Date(d.year, d.month + 1, 1)
    else
      YearLength(d.year);
      Date(d.year + 1, 1, 1)
  }

  /** Chronological order of dates: year, then month, then day. */
  predicate Before(a: Date, b: Date) {
    || a.year < b.year
    || (a.year == b.year && a.month < b.month)
    || (a.year == b.year && a.month == b.month && a.day < b.day)
  }

  /** Every day of year y lies strictly before the first day of year y + k. */
  lemma {:induction false} YearsAdvance(y: int, k: nat)
    requires y >= 1
    ensures DaysBeforeYear(y + k) >= DaysBeforeYear(y) + 365 * k
    decreases k
  {
    if k > 0 {
      YearsAdvance(y, k - 1);
      YearLength(y + k - 1);
    }
  }

  lemma MonthsAdvance(y: int, m1: int, m2: int)
    requires 1 <= m1 < m2 <= 12
    ensures DaysBeforeMonth(y, m1) + DaysInMonth(y, m1) <= DaysBeforeMonth(y, m2)
  {
  }

  /** The ordinal numbers dates in chronological order, and only them. */
  lemma OrdinalOrder(a: Date, b: Date)
    requires ValidDate(a) && ValidDate(b)
    ensures Before(a, b) <==> Ordinal(a) < Ordinal(b)
    ensures a == b <==> Ordinal(a) == Ordinal(b)
  {
    forall x: Date, z: Date | ValidDate(x) && ValidDate(z) && Before(x, z)
      ensures Ordinal(x) < Ordinal(z)
    {
      if x.year < z.year {
        YearsAdvance(x.year + 1, z.year - x.year - 1);
        YearLength(x.year);
        MonthLength(x.year, 12);
        if x.month < 12 {
          MonthsAdvance(x.year, x.month, 12);
        }
      } else if x.month < z.month {
        MonthsAdvance(x.year, x.month, z.month);
      }
    }
  }

  /** The instant at `microOfDay` microseconds past midnight of `d`. */
  function Instant(d: Date, microOfDay: int): (t: int)
    requires ValidDate(d) && 0 <= microOfDay < MicrosPerDay
    ensures t / MicrosPerDay == Ordinal(d)
    ensures t % MicrosPerDay == microOfDay
  {
    Ordinal(d) * MicrosPerDay + microOfDay
  }

  /** Midnight of `d`: the instant pandas gives a date-only string. */
  function Midnight(d: Date): (t: int)
    requires ValidDate(d)
    ensures t % MicrosPerDay == 0
    ensures t / MicrosPerDay == Ordinal(d)
  {
    Instant(d, 0)
  }
}
