/**
 * The conversion between epoch seconds and a civil date-time that
 * `time.mktime` and `time.localtime` perform, on the proleptic Gregorian
 * calendar, counted from 1970-01-01T00:00:00. No time zone is involved:
 * callers add their own offset before converting.
 */
module Calendar {

  const EpochYear: int := 1970
  const SecondsPerDay: int := 86400

  /** The first six fields of the tuples `mktime` takes and `localtime` returns. */
  datatype Civil = Civil(year: int, month: int, day: int, hour: int, minute: int, second: int)

  predicate IsLeap(y: int) {
    y % 4 == 0 && (y % 100 != 0 || y % 400 == 0)
  }

  function DaysInYear(y: int): int {
    if IsLeap(y) then 366 else 365
  }

  function DaysInMonth(y: int, m: int): int
    requires 1 <= m <= 12
  {
    if m == 2 then (if IsLeap(y) then 29 else 28)
    else if m == 4 || m == 6 || m == 9 || m == 11 then 30
    else 31
  }

  /** Days of a common year before the first of each month. */
  const MonthOffsets: seq<int> := [0, 31, 59, 90, 120, 151, 181, 212, 243, 273, 304, 334]

  /** Days of year `y` before the first of month `m`. */
  function MonthStart(y: int, m: int): int
    requires 1 <= m <= 12
  {
    MonthOffsets[m - 1] + (if m > 2 && IsLeap(y) then 1 else 0)
  }

  /** A date-time whose fields are all in range. */
  predicate Valid(t: Civil) {
    && 1 <= t.month <= 12
    && 1 <= t.day <= DaysInMonth(t.year, t.month)
    && 0 <= t.hour < 24
    && 0 <= t.minute < 60
    && 0 <= t.second < 60
  }

  /** Days from the epoch to the first of January of year `y` (negative before 1970). */
  function YearStart(y: int): int
    decreases if y < EpochYear then EpochYear - y else y - EpochYear
  {
    if y == EpochYear then 0
    else if y > EpochYear then YearStart(y - 1) + DaysInYear(y - 1)
    else YearStart(y + 1) - DaysInYear(y)
  }

  /**
   * `time.mktime` on the first six fields. An out-of-range month is carried
   * into the year, and out-of-range days, hours, minutes and seconds simply
   * add up, as MicroPython's normalisation does.
   */
  function Mktime(t: Civil): int {
    var y := t.year + (t.month - 1) / 12;
    var m := (t.month - 1) % 12 + 1;
    (YearStart(y) + MonthStart(y, m) + t.day - 1) * SecondsPerDay
      + t.hour * 3600 + t.minute * 60 + t.second
  }

  lemma YearStartStep(y: int)
    ensures YearStart(y + 1) == YearStart(y) + DaysInYear(y)
  {
  }

  lemma MonthStartStep(y: int, m: int)
    requires 1 <= m < 12
    ensures MonthStart(y, m + 1) == MonthStart(y, m) + DaysInMonth(y, m)
  {
  }

  lemma MonthEndIsYearEnd(y: int)
    ensures MonthStart(y, 12) + DaysInMonth(y, 12) == DaysInYear(y)
  {
  }

  /** Later years start after the whole of every earlier year. */
  lemma {:induction false} YearStartMonotone(y: int, z: int)
    requires y < z
    ensures YearStart(y) + DaysInYear(y) <= YearStart(z)
    decreases z - y
  {
    YearStartStep(y);
    if y + 1 < z {
      YearStartMonotone(y + 1, z);
    }
  }

  /** Later months start after the whole of every earlier month. */
  lemma {:induction false} MonthStartMonotone(y: int, m: int, n: int)
    requires 1 <= m < n <= 12
    ensures MonthStart(y, m) + DaysInMonth(y, m) <= MonthStart(y, n)
    decreases n - m
  {
    MonthStartStep(y, m);
    if m + 1 < n {
      MonthStartMonotone(y, m + 1, n);
    }
  }

  /**
   * Starting from year `y`, finds the year that day `YearStart(y) + rel`
   * falls in, and the day's zero-based index within that year.
   */
  function FindYear(rel: int, y: int): (r: (int, int))
    ensures 0 <= r.1 < DaysInYear(r.0)
    ensures YearStart(r.0) + r.1 == YearStart(y) + rel
    decreases if rel < 0 then 366 - rel else rel
  {
    if rel < 0 then
      YearStartStep(y - 1);
      FindYear(rel + DaysInYear(y - 1), y - 1)
    else if rel < DaysInYear(y) then
      (y, rel)
    else
      YearStartStep(y);
      FindYear(rel - DaysInYear(y), y + 1)
  }

  /** The month, searching downwards from `m`, that day-of-year `doy` falls in. */
  function FindMonth(y: int, doy: int, m: int): (r: int)
    requires 1 <= m <= 12
    requires 0 <= doy < MonthStart(y, m) + DaysInMonth(y, m)
    ensures 1 <= r <= m
    ensures MonthStart(y, r) <= doy < MonthStart(y, r) + DaysInMonth(y, r)
    decreases m
  {
    if m == 1 || MonthStart(y, m) <= doy then
      m
    else
      MonthStartStep(y, m - 1);
      FindMonth(y, doy, m - 1)
  }

  /** `time.localtime`: the valid date-time that is `s` seconds after the epoch. */
  function Localtime(s: int): (t: Civil)
    ensures Valid(t)
    ensures Mktime(t) == s
  {
    var days, secs := s / SecondsPerDay, s % SecondsPerDay;
    var yd := FindYear(days, EpochYear);
    MonthEndIsYearEnd(yd.0);
    var m := FindMonth(yd.0, yd.1, 12);
    ClockOfDay(secs);
    Civil(yd.0, m, yd.1 - MonthStart(yd.0, m) + 1, secs / 3600, secs % 3600 / 60, secs % 60)
  }

  /** A second of the day splits into an hour, a minute and a second in range. */
  lemma ClockOfDay(secs: int)
    requires 0 <= secs < SecondsPerDay
    ensures 0 <= secs / 3600 < 24 && 0 <= secs % 3600 / 60 < 60 && 0 <= secs % 60 < 60
    ensures secs == secs / 3600 * 3600 + secs % 3600 / 60 * 60 + secs % 60
  {
    var r := secs % 3600;
    assert secs == secs / 3600 * 3600 + r;
    assert r == r / 60 * 60 + r % 60;
    assert r % 60 == secs % 60;
  }

  /** Division by the length of a day has a unique quotient and remainder. */
  lemma DivModDay(x: int, q: int, r: int)
    requires 0 <= r < SecondsPerDay && x == q * SecondsPerDay + r
    ensures x / SecondsPerDay == q && x % SecondsPerDay == r
  {
  }

  /** Division by the length of an hour has a unique quotient and remainder. */
  lemma DivModHour(x: int, q: int, r: int)
    requires 0 <= r < 3600 && x == q * 3600 + r
    ensures x / 3600 == q && x % 3600 == r
  {
  }

  /** The day and the second within the day a valid date-time denotes. */
  lemma MktimeSplit(t: Civil)
    requires Valid(t)
    ensures Mktime(t) / SecondsPerDay == YearStart(t.year) + MonthStart(t.year, t.month) + t.day - 1
    ensures Mktime(t) % SecondsPerDay == t.hour * 3600 + t.minute * 60 + t.second
  {
    assert (t.month - 1) / 12 == 0 && (t.month - 1) % 12 + 1 == t.month;
    DivModDay(Mktime(t), YearStart(t.year) + MonthStart(t.year, t.month) + t.day - 1,
      t.hour * 3600 + t.minute * 60 + t.second);
  }

  /** Distinct valid date-times are distinct instants. */
  lemma MktimeInjective(t: Civil, u: Civil)
    requires Valid(t) && Valid(u)
    requires Mktime(t) == Mktime(u)
    ensures t == u
  {
    MktimeSplit(t);
    MktimeSplit(u);
    var dt, du := MonthStart(t.year, t.month) + t.day - 1, MonthStart(u.year, u.month) + u.day - 1;
    MonthEndBelowYearEnd(t.year, t.month);
    MonthEndBelowYearEnd(u.year, u.month);
    assert YearStart(t.year) + dt == YearStart(u.year) + du;
    if t.year < u.year {
      YearStartMonotone(t.year, u.year);
    } else if u.year < t.year {
      YearStartMonotone(u.year, t.year);
    }
    assert t.year == u.year;
    if t.month < u.month {
      MonthStartMonotone(t.year, t.month, u.month);
    } else if u.month < t.month {
      MonthStartMonotone(t.year, u.month, t.month);
    }
    assert t.month == u.month && t.day == u.day;
    var st := t.hour * 3600 + t.minute * 60 + t.second;
    DivModHour(st, t.hour, t.minute * 60 + t.second);
    DivModHour(st, u.hour, u.minute * 60 + u.second);
  }

  lemma MonthEndBelowYearEnd(y: int, m: int)
    requires 1 <= m <= 12
    ensures MonthStart(y, m) + DaysInMonth(y, m) <= DaysInYear(y)
  {
    MonthEndIsYearEnd(y);
    if m < 12 {
      MonthStartMonotone(y, m, 12);
    }
  }

  /** `localtime` undoes `mktime` on every valid date-time. */
  lemma LocaltimeMktime(t: Civil)
    requires Valid(t)
    ensures Localtime(Mktime(t)) == t
  {
    MktimeInjective(Localtime(Mktime(t)), t);
  }

  /** `mktime` undoes `localtime` on every instant. */
  lemma MktimeLocaltime(s: int)
    ensures Mktime(Localtime(s)) == s
  {
  }

  /** An instant from the start of year `y` on falls in year `y` or later. */
  lemma LocaltimeFromYear(s: int, y: int)
    requires s >= YearStart(y) * SecondsPerDay
    ensures Localtime(s).year >= y
  {
    var u := Localtime(s);
    MktimeSplit(u);
    MonthEndBelowYearEnd(u.year, u.month);
    if u.year < y {
      YearStartMonotone(u.year, y);
    }
  }

  /** A valid date-time in year `y` or later is at or after the start of year `y`. */
  lemma MktimeFromYear(t: Civil, y: int)
    requires Valid(t) && t.year >= y
    ensures Mktime(t) >= YearStart(y) * SecondsPerDay
  {
    assert (t.month - 1) / 12 == 0 && (t.month - 1) % 12 + 1 == t.month;
    if t.year > y {
      YearStartMonotone(y, t.year);
    }
    var days := YearStart(t.year) + MonthStart(t.year, t.month) + t.day - 1;
    assert days >= YearStart(y);
    assert Mktime(t) == days * SecondsPerDay + t.hour * 3600 + t.minute * 60 + t.second;
  }
}
