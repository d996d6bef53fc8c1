/** Naive `datetime.datetime` values: the constructor's range check, adding a
    whole number of seconds (a `timedelta`), and `calendar.timegm` of the
    value's `timetuple()`. */
module DateTimes {
  import opened Wrappers
  import opened Calendar

  datatype DateTime = DateTime(year: int, month: int, day: int,
                               hour: int, minute: int, second: int, microsecond: int)
  {
    function Date(): Calendar.Date {
      Calendar.Date(year, month, day)
    }
  }

  /** The ranges `datetime(...)` accepts. */
  predicate Valid(dt: DateTime) {
    ValidDate(dt.Date())
    && 0 <= dt.hour < 24 && 0 <= dt.minute < 60 && 0 <= dt.second < 60
    && 0 <= dt.microsecond < 1000000
  }

  /** Seconds since the epoch that `calendar.timegm` gives for the value's
      time tuple, which has no microseconds. */
  function EpochSeconds(dt: DateTime): int
    requires Valid(dt)
  {
    TimeGm(dt.year, dt.month, dt.day, dt.hour, dt.minute, dt.second)
  }

  /** Days after the first ordinal and up to the last one of year 9999 are
      exactly the dates `datetime` accepts (OrdinalWithinRange). */
  const MaxOrdinal := 3652059

  /** The first and the last whole second a `datetime` can hold, in seconds
      since the epoch: the start of ordinal 1 and the end of MaxOrdinal
      (InstantBounds gives them as `timegm` of 0001-01-01T00:00:00 and
      9999-12-31T23:59:59). */
  const MinInstant := (1 - EpochOrdinal) * SecondsPerDay
  const MaxInstant := (MaxOrdinal - EpochOrdinal + 1) * SecondsPerDay - 1

  /** `datetime(year, month, day, hour, minute, second, microsecond)`. */
  function NewDateTime(year: int, month: int, day: int, hour: int, minute: int,
                       second: int, microsecond: int): (r: Result<DateTime, PyError>)
    ensures r.Ok? <==> Valid(DateTime(year, month, day, hour, minute, second, microsecond))
    ensures r.Ok? ==> r.value == DateTime(year, month, day, hour, minute, second, microsecond)
    ensures r.Err? ==> r.error == ValueError
  {
    var dt := DateTime(year, month, day, hour, minute, second, microsecond);
    if Valid(dt) then Ok(dt) else Err(ValueError)
  }

  /** Seconds of the day as hour, minute and second. */
  lemma TimeOfDay(tod: int)
    requires 0 <= tod < SecondsPerDay
    ensures 0 <= tod / 3600 < 24 && 0 <= tod % 3600 / 60 < 60 && 0 <= tod % 60 < 60
    ensures tod / 3600 * 3600 + tod % 3600 / 60 * 60 + tod % 60 == tod
  {
  }

  lemma OrdinalWithinRange(d: Date)
    requires IsCalendarDate(d)
    ensures d.year <= MaxYear <==> ToOrdinal(d) <= MaxOrdinal
  {
    MonthsFitInYear(d.year, d.month);
    DaysBeforeYearFormula(MaxYear + 1);
    if d.year <= MaxYear {
      DaysBeforeYearStep(d.year);
      DaysBeforeYearMonotone(d.year + 1, MaxYear + 1);
    } else {
      DaysBeforeYearMonotone(MaxYear + 1, d.year);
    }
  }

  /** Every `datetime` lies between the first and the last whole second, and
      0001-01-01T00:00:00 and 9999-12-31T23:59:59 are those two seconds. */
  lemma InstantBounds(dt: DateTime)
    requires Valid(dt)
    ensures MinInstant <= EpochSeconds(dt) <= MaxInstant
    ensures dt.Date() == Date(MinYear, 1, 1) && dt.hour == 0 && dt.minute == 0 && dt.second == 0
      ==> EpochSeconds(dt) == MinInstant
    ensures dt.Date() == Date(MaxYear, 12, 31) && dt.hour == 23 && dt.minute == 59 && dt.second == 59
      ==> EpochSeconds(dt) == MaxInstant
  {
    TimeGmOrdinal(dt.Date(), dt.hour, dt.minute, dt.second);
    DaysBeforeYearMonotone(1, dt.year);
    OrdinalWithinRange(dt.Date());
    if dt.year == MaxYear {
      LastYearStart(dt.year);
    }
  }

  lemma LastYearStart(y: int)
    requires y == MaxYear
    ensures DaysBeforeYear(y) == MaxOrdinal - 365
  {
    DaysBeforeYearFormula(y);
  }

  /** Carrying `delta` seconds into a day count `o` and `hms` seconds of the
      day: the new day count and time of day describe the same instant, and
      the day count is in range exactly when the instant is. */
  lemma DayCarry(o: int, hms: int, delta: int, ordinal: int, tod: int)
    requires ordinal == o + (hms + delta) / SecondsPerDay
    requires tod == (hms + delta) % SecondsPerDay
    ensures 0 <= tod < SecondsPerDay
    ensures (o - EpochOrdinal) * SecondsPerDay + hms + delta == (ordinal - EpochOrdinal) * SecondsPerDay + tod
    ensures ordinal < 1 <==> (o - EpochOrdinal) * SecondsPerDay + hms + delta < (1 - EpochOrdinal) * SecondsPerDay
    ensures ordinal <= MaxOrdinal <==>
      (o - EpochOrdinal) * SecondsPerDay + hms + delta <= (MaxOrdinal - EpochOrdinal) * SecondsPerDay + SecondsPerDay - 1
  {
    var q := (hms + delta) / SecondsPerDay;
    assert hms + delta == q * SecondsPerDay + tod;
  }

  /** The day count and time of day AddSeconds computes are those of the
      shifted instant, and they are in range exactly when the instant is. */
  lemma ShiftSplit(dt: DateTime, delta: int, ordinal: int, tod: int)
    requires Valid(dt)
    requires ordinal == ToOrdinal(dt.Date()) + (dt.hour * 3600 + dt.minute * 60 + dt.second + delta) / SecondsPerDay
    requires tod == (dt.hour * 3600 + dt.minute * 60 + dt.second + delta) % SecondsPerDay
    ensures 0 <= tod < SecondsPerDay
    ensures EpochSeconds(dt) + delta == (ordinal - EpochOrdinal) * SecondsPerDay + tod
    ensures ordinal < 1 <==> EpochSeconds(dt) + delta < MinInstant
    ensures ordinal <= MaxOrdinal <==> EpochSeconds(dt) + delta <= MaxInstant
  {
    var o := ToOrdinal(dt.Date());
    var hms := dt.hour * 3600 + dt.minute * 60 + dt.second;
    TimeGmOrdinal(dt.Date(), dt.hour, dt.minute, dt.second);
    DayCarry(o, hms, delta, ordinal, tod);
  }

  /** Adding a `timedelta` of `delta` seconds to a datetime. CPython carries the seconds into
      minutes, hours and days and then turns the day count back into a date
      through its ordinal; the model does the same in one step: ordinal plus
      whole days, remainder as the time of day. A result outside years
      1..9999 raises OverflowError. */
  function AddSeconds(dt: DateTime, delta: int): (r: Result<DateTime, PyError>)
    requires Valid(dt)
    ensures r.Ok? <==> MinInstant <= EpochSeconds(dt) + delta <= MaxInstant
    ensures r.Ok? ==> Valid(r.value) && EpochSeconds(r.value) == EpochSeconds(dt) + delta
    ensures r.Ok? ==> r.value.microsecond == dt.microsecond
    ensures r.Err? ==> r.error == OverflowError
  {
    var secs := dt.hour * 3600 + dt.minute * 60 + dt.second + delta;
    var ordinal := ToOrdinal(dt.Date()) + secs / SecondsPerDay;
    var tod := secs % SecondsPerDay;
    ShiftSplit(dt, delta, ordinal, tod);
    if ordinal < 1 then
      Err(OverflowError)
    else
      var d := FromOrdinal(ordinal);
      OrdinalWithinRange(d);
      if d.year > MaxYear then
        Err(OverflowError)
      else
        TimeOfDay(tod);
        var r := DateTime(d.year, d.month, d.day, tod / 3600, tod % 3600 / 60, tod % 60, dt.microsecond);
        TimeGmOrdinal(d, r.hour, r.minute, r.second);
        Ok(r)
  }

  /** Whole-second order of two datetimes, field by field (microseconds are
      not compared). */
  predicate SecondBefore(a: DateTime, b: DateTime) {
    a.year < b.year
    || (a.year == b.year && (a.month < b.month
    || (a.month == b.month && (a.day < b.day
    || (a.day == b.day && (a.hour < b.hour
    || (a.hour == b.hour && (a.minute < b.minute
    || (a.minute == b.minute && a.second < b.second)))))))))
  }

  lemma {:induction false} OrdinalOrder(a: Date, b: Date)
    requires IsCalendarDate(a) && IsCalendarDate(b)
    requires a.year < b.year || (a.year == b.year && (a.month < b.month || (a.month == b.month && a.day < b.day)))
    ensures ToOrdinal(a) < ToOrdinal(b)
  {
    MonthsFitInYear(a.year, a.month);
    if a.year < b.year {
      DaysBeforeYearStep(a.year);
      DaysBeforeYearMonotone(a.year + 1, b.year);
    } else if a.month < b.month {
      MonthStep(a.year, a.month);
      MonthBeforeMonotone(a.year, a.month + 1, b.month);
    }
  }

  /** Epoch seconds order datetimes as their fields do: `timegm` is strictly
      increasing in the whole-second order. */
  lemma EpochSecondsOrder(a: DateTime, b: DateTime)
    requires Valid(a) && Valid(b)
    ensures EpochSeconds(a) < EpochSeconds(b) <==> SecondBefore(a, b)
  {
    TimeGmOrdinal(a.Date(), a.hour, a.minute, a.second);
    TimeGmOrdinal(b.Date(), b.hour, b.minute, b.second);
    if a.Date() != b.Date() {
      var d1, d2 := a.Date(), b.Date();
      if SecondBefore(a, b) {
        OrdinalOrder(d1, d2);
      } else {
        OrdinalOrder(d2, d1);
      }
    }
  }
}
