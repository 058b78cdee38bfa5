/**
 * Local calendar and clock arithmetic behind JavaScript's `Date`, as the
 * attendance and report routes use it. Times are integer milliseconds of
 * local time (the local-to-UTC offset is not modelled); day numbers count
 * days from 1 January 1970, following the day-number rules of ECMA-262
 * (DayFromYear, MakeDay, HourFromTime).
 */
module Calendar {

  const HOUR_MS: int := 60 * 60 * 1000
  const DAY_MS: int := 24 * HOUR_MS

  // ---------------------------------------------------------------------
  // Clock: midnight of a timestamp and its hour of the day
  // ---------------------------------------------------------------------

  /** `d.setHours(0, 0, 0, 0)`: the local midnight that starts the day of `t`. */
  function Midnight(t: int): (m: int)
    ensures m % DAY_MS == 0
    ensures m <= t < m + DAY_MS
  {
    (t / DAY_MS) * DAY_MS
  }

  /** `d.getHours()`: the hour of the day of `t`. */
  function HourOf(t: int): (h: int)
    ensures 0 <= h < 24
    ensures Midnight(t) + h * HOUR_MS <= t < Midnight(t) + (h + 1) * HOUR_MS
  {
    (t % DAY_MS) / HOUR_MS
  }

  /** A timestamp lies in the 24-hour bucket that starts at local midnight `day`. */
  predicate InDay(t: int, day: int)
  {
    day <= t < day + DAY_MS
  }

  /** The half-open bucket `[day, day + 24h)` used to look up "today's" record
      holds exactly the timestamps whose midnight is `day`. */
  lemma InDayIffSameMidnight(t: int, day: int)
    requires day % DAY_MS == 0
    ensures InDay(t, day) <==> Midnight(t) == day
  {
    var q := day / DAY_MS;
    assert day == q * DAY_MS;
    if InDay(t, day) {
      assert q * DAY_MS <= t < (q + 1) * DAY_MS;
      DivUnique(t, DAY_MS, q, t - q * DAY_MS);
    }
  }

  /** Euclidean division is determined by quotient and remainder. */
  lemma DivUnique(a: int, k: int, q: int, r: int)
    requires k > 0 && 0 <= r < k && a == q * k + r
    ensures a / k == q && a % k == r
  {
    var q', r' := a / k, a % k;
    assert a == q' * k + r';
    assert (q - q') * k == r' - r;
    if q' < q {
      MulAtLeast(q - q', k);
    } else if q < q' {
      MulAtLeast(q' - q, k);
    }
  }

  lemma {:induction false} MulAtLeast(c: int, k: int)
    requires c >= 1 && k > 0
    ensures c * k >= k
  {
    if c > 1 {
      MulAtLeast(c - 1, k);
      assert c * k == (c - 1) * k + k;
    }
  }

  // ---------------------------------------------------------------------
  // Gregorian calendar
  // ---------------------------------------------------------------------

  predicate IsLeapYear(y: int)
  {
    y % 4 == 0 && (y % 100 != 0 || y % 400 == 0)
  }

  /** The number of days in a 1-based month of year `y`. */
  function DaysInMonth(y: int, m: int): (n: int)
    requires 1 <= m <= 12
    ensures 28 <= n <= 31
  {
    if m == 2 then (if IsLeapYear(y) then 29 else 28)
    else if m == 4 || m == 6 || m == 9 || m == 11 then 30
    else 31
  }

  function DaysInYear(y: int): int
  {
    if IsLeapYear(y) then 366 else 365
  }

  /** ECMA-262 DayFromYear: the day number of 1 January of year `y`; day 0
      is 1 January 1970. */
  function DayFromYear(y: int): (n: int)
    ensures y == 1970 ==> n == 0
    ensures y == 2000 ==> n == 10957
  {
    365 * (y - 1970) + (y - 1969) / 4 - (y - 1901) / 100 + (y - 1601) / 400
  }

  /** The days of year `y` before the first of 1-based month `m` (m = 13
      gives the whole year), as the cumulative table of month lengths. */
  function DaysBeforeMonth(y: int, m: int): (n: int)
    requires 1 <= m <= 13
    ensures 28 * (m - 1) <= n <= 31 * (m - 1)
    ensures m == 13 ==> n == DaysInYear(y)
  {
    var common := [0, 31, 59, 90, 120, 151, 181, 212, 243, 273, 304, 334, 365][m - 1];
    if m > 2 && IsLeapYear(y) then common + 1 else common
  }

  /** The day number of the civil date `y`-`m`-`d` (1-based month and day). */
  function DayNumber(y: int, m: int, d: int): int
    requires 1 <= m <= 12
  {
    DayFromYear(y) + DaysBeforeMonth(y, m) + d - 1
  }

  /** A civil date that exists in the Gregorian calendar. */
  predicate ValidDate(y: int, m: int, d: int)
  {
    1 <= m <= 12 && 1 <= d <= DaysInMonth(y, m)
  }

  /** ECMA-262 MakeDay with a 0-based month that may lie outside 0..11: the
      month overflows into the year and the day of the month may be 0 or
      past the month's end, as `new Date(y, month, day)` allows. */
  function MakeDay(year: int, month: int, date: int): (n: int)
    ensures 0 <= month < 12 ==> n == DayNumber(year, month + 1, date)
  {
    var ym := year + month / 12;
    var mn := month % 12;
    DayFromYear(ym) + DaysBeforeMonth(ym, mn + 1) + date - 1
  }

  /** `new Date(year, month, date)` at local midnight, in milliseconds; a year
      from 0 to 99 is read as 1900 + year. */
  function LocalDate(year: int, month: int, date: int): (t: int)
    ensures Midnight(t) == t
  {
    MakeDay(FullYear(year), month, date) * DAY_MS
  }

  /** The year the `Date` constructor actually uses for `year`. */
  function FullYear(year: int): (y: int)
    ensures !(0 <= y <= 99)
    ensures y % 100 == year % 100
    ensures !(0 <= year <= 99) ==> y == year
    ensures 0 <= year <= 99 ==> 1900 <= y <= 1999
  {
    if 0 <= year <= 99 then 1900 + year else year
  }

  // ---------------------------------------------------------------------
  // Facts about the calendar
  // ---------------------------------------------------------------------

  /** One step of floor division: it increases by one exactly at a multiple. */
  lemma FloorStep(a: int, k: int)
    requires k > 0
    ensures (a + 1) / k - a / k == if (a + 1) % k == 0 then 1 else 0
  {
    var q, r := a / k, a % k;
    if r + 1 < k {
      DivUnique(a + 1, k, q, r + 1);
    } else {
      DivUnique(a + 1, k, q + 1, 0);
    }
  }

  /** Shifting by a multiple of `k` does not change divisibility by `k`. */
  lemma ModShift(a: int, k: int, c: int)
    requires k > 0
    ensures (a + c * k) % k == a % k
  {
    DivUnique(a + c * k, k, a / k + c, a % k);
  }

  /** Consecutive years start `DaysInYear` days apart: DayFromYear agrees with
      the leap-year rule. */
  lemma {:induction false} YearStep(y: int)
    ensures DayFromYear(y + 1) == DayFromYear(y) + DaysInYear(y)
  {
    FloorStep(y - 1969, 4);
    FloorStep(y - 1901, 100);
    FloorStep(y - 1601, 400);
    ModShift(y, 4, -492);
    ModShift(y, 100, -19);
    ModShift(y, 400, -4);
  }

  /** The cumulative table agrees with the month lengths: each month starts
      where the previous one ends, and the twelve fill the year. */
  lemma MonthStep(y: int, m: int)
    requires 1 <= m <= 12
    ensures DaysBeforeMonth(y, m + 1) == DaysBeforeMonth(y, m) + DaysInMonth(y, m)
    ensures DaysBeforeMonth(y, 13) == DaysInYear(y)
  {
  }

  /** The first of the month after `y`-`m` is the day after its last day. */
  lemma {:induction false} NextMonthStart(y: int, m: int)
    requires 1 <= m <= 12
    ensures DayNumber(y, m, DaysInMonth(y, m)) + 1
         == if m == 12 then DayNumber(y + 1, 1, 1) else DayNumber(y, m + 1, 1)
  {
    MonthStep(y, m);
    if m == 12 {
      YearStep(y);
    }
  }

  // ---------------------------------------------------------------------
  // Months in order: a month's days lie between its first and its last day
  // ---------------------------------------------------------------------

  /** Months numbered consecutively across years: month `m` of year `y` is
      `12 * y + m - 1`. */
  function MonthYear(i: int): int { i / 12 }
  function MonthOfIndex(i: int): (m: int)
    ensures 1 <= m <= 12
  {
    i % 12 + 1
  }

  /** The day number of the first day of the month with index `i`. */
  function MonthStart(i: int): int
  {
    DayNumber(MonthYear(i), MonthOfIndex(i), 1)
  }

  function MonthLength(i: int): (n: int)
    ensures 28 <= n <= 31
  {
    DaysInMonth(MonthYear(i), MonthOfIndex(i))
  }

  lemma MonthIndexOf(y: int, m: int)
    requires 1 <= m <= 12
    ensures MonthYear(12 * y + m - 1) == y && MonthOfIndex(12 * y + m - 1) == m
  {
    DivUnique(12 * y + m - 1, 12, y, m - 1);
  }

  /** The month with index `i + 1` starts right after the month `i` ends. */
  lemma MonthIndexStep(i: int)
    ensures MonthStart(i + 1) == MonthStart(i) + MonthLength(i)
  {
    var y, m := MonthYear(i), MonthOfIndex(i);
    NextMonthStart(y, m);
    if m == 12 {
      DivUnique(i + 1, 12, y + 1, 0);
    } else {
      DivUnique(i + 1, 12, y, m);
    }
  }

  /** A month ends before any later month starts. */
  lemma {:induction false} MonthsInOrder(i: int, j: int)
    requires i < j
    ensures MonthStart(i) + MonthLength(i) <= MonthStart(j)
    decreases j - i
  {
    MonthIndexStep(i);
    if i + 1 < j {
      MonthsInOrder(i + 1, j);
    }
  }

  /** The closed range from the first to the last day of `y`-`m` holds the
      day number of a valid date exactly when that date is in `y`-`m`. */
  lemma MonthRangeIsMonth(y: int, m: int, y': int, m': int, d': int)
    requires 1 <= m <= 12
    requires ValidDate(y', m', d')
    ensures DayNumber(y, m, 1) <= DayNumber(y', m', d') <= DayNumber(y, m, DaysInMonth(y, m))
        <==> y' == y && m' == m
  {
    var i, j := 12 * y + m - 1, 12 * y' + m' - 1;
    MonthIndexOf(y, m);
    MonthIndexOf(y', m');
    assert MonthStart(i) == DayNumber(y, m, 1) && MonthLength(i) == DaysInMonth(y, m);
    assert MonthStart(j) == DayNumber(y', m', 1) && MonthLength(j) == DaysInMonth(y', m');
    assert DayNumber(y', m', d') == MonthStart(j) + d' - 1;
    assert DayNumber(y, m, DaysInMonth(y, m)) == MonthStart(i) + MonthLength(i) - 1;
    if j < i {
      MonthsInOrder(j, i);
    } else if i < j {
      MonthsInOrder(i, j);
    } else {
      DivUnique(i, 12, y', m' - 1);
    }
  }

  /** Twelve months past month `month` of `year` is the same month of the next
      year: MakeDay carries months into years. */
  lemma MakeDayCarries(year: int, month: int, date: int)
    ensures MakeDay(year, month + 12, date) == MakeDay(year + 1, month, date)
  {
    DivUnique(month + 12, 12, month / 12 + 1, month % 12);
  }
}
