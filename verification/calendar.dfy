/** Proleptic Gregorian calendar arithmetic as Python's `datetime` and
    `calendar.timegm` do it: day ordinals counted from 0001-01-01 (ordinal 1),
    and seconds since 1970-01-01T00:00:00 UTC. */
module Calendar {

  const MinYear := 1
  const MaxYear := 9999

  /** date(1970, 1, 1).toordinal() */
  const EpochOrdinal := 719163

  const SecondsPerDay := 86400

  datatype Date = Date(year: int, month: int, day: int)

  predicate IsLeap(y: int) {
    y % 4 == 0 && (y % 100 != 0 || y % 400 == 0)
  }

  function DaysInYear(y: int): (n: int)
    ensures n == 365 || n == 366
  {
    if IsLeap(y) then 366 else 365
  }

  function DaysInMonth(y: int, m: int): (n: int)
    requires 1 <= m <= 12
    ensures 28 <= n <= 31
    ensures n == 29 <==> m == 2 && IsLeap(y)
  {
    if m == 2 then (if IsLeap(y) then 29 else 28)
    else if m == 4 || m == 6 || m == 9 || m == 11 then 30
    else 31
  }

  /** Days of a common year before the first of each month (datetime's
      _DAYS_BEFORE_MONTH table). */
  const CommonDaysBefore: seq<int> := [0, 31, 59, 90, 120, 151, 181, 212, 243, 273, 304, 334]

  /** Days of year `y` before the first of month `m`: the table plus the
      leap day after February. */
  function DaysBeforeMonth(y: int, m: int): (n: int)
    requires 1 <= m <= 12
    ensures 0 <= n <= 335
  {
    CommonDaysBefore[m - 1] + (if m > 2 && IsLeap(y) then 1 else 0)
  }

  /** Days before January 1st of year `y`, counted from 0001-01-01: the
      lengths of the years before it. DaysBeforeYearFormula gives the closed
      form datetime computes it by. */
  function DaysBeforeYear(y: int): int
    requires y >= 1
    decreases y
  {
    if y == 1 then 0 else DaysBeforeYear(y - 1) + DaysInYear(y - 1)
  }

  /** A date that `datetime.date` accepts, except that the upper year bound
      is left to the callers that need it. */
  predicate IsCalendarDate(d: Date) {
    d.year >= MinYear && 1 <= d.month <= 12 && 1 <= d.day <= DaysInMonth(d.year, d.month)
  }

  predicate ValidDate(d: Date) {
    IsCalendarDate(d) && d.year <= MaxYear
  }

  /** `date.toordinal()`. */
  function ToOrdinal(d: Date): int
    requires d.year >= 1 && 1 <= d.month <= 12
  {
    DaysBeforeYear(d.year) + DaysBeforeMonth(d.year, d.month) + d.day
  }

  lemma MonthStep(y: int, m: int)
    requires 1 <= m < 12
    ensures DaysBeforeMonth(y, m + 1) == DaysBeforeMonth(y, m) + DaysInMonth(y, m)
  {
  }

  lemma LastMonth(y: int)
    ensures DaysBeforeMonth(y, 12) + DaysInMonth(y, 12) == DaysInYear(y)
  {
  }

  lemma {:induction false} MonthsFitInYear(y: int, m: int)
    requires 1 <= m <= 12
    ensures DaysBeforeMonth(y, m) + DaysInMonth(y, m) <= DaysInYear(y)
    decreases 12 - m
  {
    if m < 12 {
      MonthStep(y, m);
      MonthsFitInYear(y, m + 1);
    } else {
      LastMonth(y);
    }
  }

  lemma DaysBeforeYearStep(y: int)
    requires y >= 1
    ensures DaysBeforeYear(y + 1) == DaysBeforeYear(y) + DaysInYear(y)
  {
  }

  /** `_days_before_year`: 365 days a year plus one for every fourth year,
      except centuries not divisible by 400. */
  lemma {:induction false} DaysBeforeYearFormula(y: int)
    requires y >= 1
    ensures var k := y - 1;
      DaysBeforeYear(y) == k * 365 + k / 4 - k / 100 + k / 400
    decreases y
  {
    if y > 1 {
      DaysBeforeYearFormula(y - 1);
      QuotientStep(y - 1);
    }
  }

  /** The length of year `k` is what the three quotients of the formula gain
      from `k - 1` to `k`. */
  lemma QuotientStep(k: int)
    ensures DaysInYear(k) == 365 + (k / 4 - (k - 1) / 4) - (k / 100 - (k - 1) / 100) + (k / 400 - (k - 1) / 400)
  {
    StepBy4(k);
    StepBy100(k);
    StepBy400(k);
    CenturyDivisibility(k);
  }

  lemma StepBy4(k: int)
    ensures k / 4 - (k - 1) / 4 == (if k % 4 == 0 then 1 else 0)
  {
  }

  lemma StepBy100(k: int)
    ensures k / 100 - (k - 1) / 100 == (if k % 100 == 0 then 1 else 0)
  {
  }

  lemma StepBy400(k: int)
    ensures k / 400 - (k - 1) / 400 == (if k % 400 == 0 then 1 else 0)
  {
  }

  /** A multiple of 400 is a century, and a century is a multiple of 4. */
  lemma CenturyDivisibility(k: int)
    ensures k % 100 == 0 ==> k % 4 == 0
    ensures k % 400 == 0 ==> k % 100 == 0
  {
    if k % 100 == 0 {
      assert k == 4 * (25 * (k / 100));
    }
    if k % 400 == 0 {
      assert k == 100 * (4 * (k / 400));
    }
  }

  lemma {:induction false} DaysBeforeYearMonotone(a: int, b: int)
    requires 1 <= a <= b
    ensures DaysBeforeYear(a) <= DaysBeforeYear(b)
    decreases b - a
  {
    if a < b {
      DaysBeforeYearMonotone(a, b - 1);
      DaysBeforeYearStep(b - 1);
    }
  }

  /** Walks through the months of year `y` from month `m`: `n` is the day
      (1-based) counted from the first of month `m`. */
  function MonthWalk(y: int, m: int, n: int): (d: Date)
    requires y >= 1 && 1 <= m <= 12
    requires 1 <= n <= DaysInYear(y) - DaysBeforeMonth(y, m)
    ensures d.year == y && m <= d.month <= 12 && 1 <= d.day <= DaysInMonth(y, d.month)
    ensures DaysBeforeMonth(y, d.month) + d.day == DaysBeforeMonth(y, m) + n
    decreases 12 - m
  {
    if n > DaysInMonth(y, m) then
      LastMonth(y);
      MonthStep(y, m);
      MonthWalk(y, m + 1, n - DaysInMonth(y, m))
    else
      Date(y, m, n)
  }

  /** Walks year by year from year `y`: `n` is the day (1-based) counted from
      January 1st of year `y`. */
  function YearWalk(y: int, n: int): (d: Date)
    requires y >= 1 && n >= 1
    ensures IsCalendarDate(d) && d.year >= y
    ensures ToOrdinal(d) == DaysBeforeYear(y) + n
    decreases n
  {
    if n > DaysInYear(y) then
      DaysBeforeYearStep(y);
      YearWalk(y + 1, n - DaysInYear(y))
    else
      MonthWalk(y, 1, n)
  }

  /** `date.fromordinal(n)`: the date whose ordinal is `n`. CPython finds it
      through 400-, 100- and 4-year cycles; the walk here reaches the same
      date, which FromOrdinalOfToOrdinal and the ensures below pin down. */
  function FromOrdinal(n: int): (d: Date)
    requires n >= 1
    ensures IsCalendarDate(d)
    ensures ToOrdinal(d) == n
  {
    YearWalk(1, n)
  }

  lemma {:induction false} MonthWalkReaches(y: int, m0: int, d: Date)
    requires IsCalendarDate(d) && d.year == y && 1 <= m0 <= d.month
    ensures 1 <= DaysBeforeMonth(y, d.month) + d.day - DaysBeforeMonth(y, m0) <= DaysInYear(y) - DaysBeforeMonth(y, m0)
    ensures MonthWalk(y, m0, DaysBeforeMonth(y, d.month) + d.day - DaysBeforeMonth(y, m0)) == d
    decreases d.month - m0
  {
    MonthsFitInYear(y, d.month);
    MonthBeforeMonotone(y, m0, d.month);
    if m0 < d.month {
      MonthStep(y, m0);
      MonthWalkReaches(y, m0 + 1, d);
    }
  }

  lemma {:induction false} MonthBeforeMonotone(y: int, a: int, b: int)
    requires 1 <= a <= b <= 12
    ensures DaysBeforeMonth(y, a) <= DaysBeforeMonth(y, b)
    decreases b - a
  {
    if a < b {
      MonthStep(y, a);
      MonthBeforeMonotone(y, a + 1, b);
    }
  }

  /** Within the date's own year the walk goes straight to the month walk. */
  lemma YearWalkInYear(d: Date)
    requires IsCalendarDate(d)
    ensures ToOrdinal(d) - DaysBeforeYear(d.year) >= 1
    ensures YearWalk(d.year, ToOrdinal(d) - DaysBeforeYear(d.year)) == d
  {
    var n := ToOrdinal(d) - DaysBeforeYear(d.year);
    MonthsFitInYear(d.year, d.month);
    MonthWalkReaches(d.year, 1, d);
    assert n == DaysBeforeMonth(d.year, d.month) + d.day - DaysBeforeMonth(d.year, 1);
  }

  /** Walking from an earlier year skips whole years: counting `n` days from
      January 1st of year `y0` reaches what counting `n'` days from January
      1st of year `y1` does, when the years in between make up the difference. */
  lemma {:induction false} YearWalkSkips(y0: int, y1: int, n: int, n': int)
    requires 1 <= y0 <= y1 && n' >= 1
    requires n == DaysBeforeYear(y1) - DaysBeforeYear(y0) + n'
    ensures n >= 1 && YearWalk(y0, n) == YearWalk(y1, n')
    decreases y1 - y0
  {
    if y0 < y1 {
      DaysBeforeYearStep(y0);
      DaysBeforeYearMonotone(y0 + 1, y1);
      YearWalkSkips(y0 + 1, y1, n - DaysInYear(y0), n');
    }
  }

  /** `date.fromordinal(d.toordinal()) == d`: together with the ensures of
      FromOrdinal, ordinals and calendar dates are in one-to-one correspondence. */
  lemma FromOrdinalOfToOrdinal(d: Date)
    requires IsCalendarDate(d)
    ensures ToOrdinal(d) >= 1 && FromOrdinal(ToOrdinal(d)) == d
  {
    YearWalkInYear(d);
    YearWalkSkips(1, d.year, ToOrdinal(d), ToOrdinal(d) - DaysBeforeYear(d.year));
  }

  /** `calendar.timegm` on the first six fields of a time tuple: it takes
      the ordinal of the first of the month and adds `day - 1`, so the day
      (like the hour, minute and second) is not range-checked. */
  function TimeGm(year: int, month: int, day: int, hour: int, minute: int, second: int): (r: int)
    requires MinYear <= year <= MaxYear && 1 <= month <= 12
    ensures 0 <= hour < 24 && 0 <= minute < 60 && 0 <= second < 60 ==>
      && r / SecondsPerDay == ToOrdinal(Date(year, month, 1)) + day - 1 - EpochOrdinal
      && r % SecondsPerDay == hour * 3600 + minute * 60 + second
  {
    var days := ToOrdinal(Date(year, month, 1)) - EpochOrdinal + day - 1;
    DayAndTime(days, hour * 3600 + minute * 60 + second);
    ((days * 24 + hour) * 60 + minute) * 60 + second
  }

  /** Seconds split into whole days and the time of day. */
  lemma DayAndTime(days: int, tod: int)
    ensures 0 <= tod < SecondsPerDay ==>
      (days * SecondsPerDay + tod) / SecondsPerDay == days && (days * SecondsPerDay + tod) % SecondsPerDay == tod
  {
  }

  /** Seconds since the epoch in terms of the date's ordinal and the time of day. */
  lemma TimeGmOrdinal(d: Date, hour: int, minute: int, second: int)
    requires ValidDate(d)
    ensures TimeGm(d.year, d.month, d.day, hour, minute, second)
         == (ToOrdinal(d) - EpochOrdinal) * SecondsPerDay + hour * 3600 + minute * 60 + second
  {
  }

  /** Midnight at the start of 1970-01-01 is second 0. */
  lemma TimeGmEpoch(d: Date)
    requires d == Date(1970, 1, 1)
    ensures ToOrdinal(d) == EpochOrdinal
    ensures TimeGm(d.year, d.month, d.day, 0, 0, 0) == 0
  {
    DaysBeforeYearFormula(d.year);
  }
}
