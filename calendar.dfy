/**
 * UTC calendar arithmetic behind the warehouse's `timestamp 'epoch' + ts / 1000 * interval '1 second'`
 * and the `extract(hour | day | week | month | year | weekday from ...)` calls of the time
 * derivation. Days are counted from 1970-01-01 (day 0) in the proleptic Gregorian calendar;
 * negative day numbers are dates before the epoch.
 */
module Calendar {

  /** An instant: whole seconds since the epoch (floored) and the leftover milliseconds. */
  datatype Timestamp = Timestamp(epochSeconds: int, millis: int)

  predicate ValidTimestamp(t: Timestamp) {
    0 <= t.millis < 1000
  }

  /** The instant `ts / 1000` seconds after the epoch, for `ts` in epoch milliseconds. */
  function FromEpochMillis(ts: int): (t: Timestamp)
    ensures ValidTimestamp(t)
    ensures t.epochSeconds * 1000 <= ts < (t.epochSeconds + 1) * 1000
    ensures t.epochSeconds * 1000 + t.millis == ts
  {
    Timestamp(ts / 1000, ts % 1000)
  }

  /** Epoch milliseconds of an instant: the inverse of FromEpochMillis. */
  function ToEpochMillis(t: Timestamp): int {
    t.epochSeconds * 1000 + t.millis
  }

  lemma EpochMillisRoundTrip(ts: int, t: Timestamp)
    requires ValidTimestamp(t)
    ensures ToEpochMillis(FromEpochMillis(ts)) == ts
    ensures FromEpochMillis(ToEpochMillis(t)) == t
  {
  }

  /** Two timestamps in milliseconds denote the same instant exactly when they are equal. */
  lemma FromEpochMillisInjective(a: int, b: int)
    ensures FromEpochMillis(a) == FromEpochMillis(b) <==> a == b
  {
    EpochMillisRoundTrip(a, FromEpochMillis(b));
    EpochMillisRoundTrip(b, FromEpochMillis(a));
  }

  // ---------------------------------------------------------------------------
  // Years

  predicate IsLeapYear(y: int) {
    y % 4 == 0 && (y % 100 != 0 || y % 400 == 0)
  }

  function DaysInYear(y: int): (n: int)
    ensures n == 365 || n == 366
  {
    if IsLeapYear(y) then 366 else 365
  }

  /** Leap years in [0, y) for y >= 0, extended to all y so that each step adds IsLeapYear. */
  function LeapYearsBefore(y: int): int {
    (y + 3) / 4 - (y + 99) / 100 + (y + 399) / 400
  }

  /** Day number of January 1st of year y. */
  function DaysBeforeYear(y: int): int {
    365 * (y - 1970) + LeapYearsBefore(y) - LeapYearsBefore(1970)
  }

  /** Floor division by k steps up by one exactly at the multiples of k (k = 4, 100, 400). */
  lemma DivStep4(y: int)
    ensures (y + 4) / 4 - (y + 3) / 4 == (if y % 4 == 0 then 1 else 0)
  {
  }

  lemma DivStep100(y: int)
    ensures (y + 100) / 100 - (y + 99) / 100 == (if y % 100 == 0 then 1 else 0)
  {
  }

  lemma DivStep400(y: int)
    ensures (y + 400) / 400 - (y + 399) / 400 == (if y % 400 == 0 then 1 else 0)
  {
  }

  lemma Multiple400IsMultiple100(y: int)
    requires y % 400 == 0
    ensures y % 100 == 0
  {
    assert y == 100 * (4 * (y / 400));
  }

  lemma Multiple100IsMultiple4(y: int)
    requires y % 100 == 0
    ensures y % 4 == 0
  {
    assert y == 4 * (25 * (y / 100));
  }

  /** Consecutive New Year's days are one year length apart. */
  lemma YearStep(y: int)
    ensures DaysBeforeYear(y + 1) == DaysBeforeYear(y) + DaysInYear(y)
  {
    DivStep4(y);
    DivStep100(y);
    DivStep400(y);
    if y % 400 == 0 {
      Multiple400IsMultiple100(y);
    }
    if y % 100 == 0 {
      Multiple100IsMultiple4(y);
    }
    var step := LeapYearsBefore(y + 1) - LeapYearsBefore(y);
    if y % 400 == 0 {
      assert step == 1;
    } else if y % 100 == 0 {
      assert step == 0;
    } else if y % 4 == 0 {
      assert step == 1;
    } else {
      assert step == 0;
    }
  }

  lemma {:induction false} DaysBeforeYearMonotone(a: int, b: int)
    requires a <= b
    ensures DaysBeforeYear(a) <= DaysBeforeYear(b)
    ensures a < b ==> DaysBeforeYear(a + 1) <= DaysBeforeYear(b)
    decreases b - a
  {
    if a < b {
      DaysBeforeYearMonotone(a, b - 1);
      YearStep(b - 1);
      YearStep(a);
    }
  }

  /** A day number lies in at most one year. */
  lemma YearUnique(z: int, a: int, b: int)
    requires DaysBeforeYear(a) <= z < DaysBeforeYear(a + 1)
    requires DaysBeforeYear(b) <= z < DaysBeforeYear(b + 1)
    ensures a == b
  {
    if a < b {
      DaysBeforeYearMonotone(a, b);
    } else if b < a {
      DaysBeforeYearMonotone(b, a);
    }
  }

  /** Searches from year y for the year holding day z. */
  function YearContaining(z: int, y: int): (r: int)
    ensures DaysBeforeYear(r) <= z < DaysBeforeYear(r + 1)
    decreases if DaysBeforeYear(y) > z then 1 else 0,
              if DaysBeforeYear(y) > z then DaysBeforeYear(y) - z else z - DaysBeforeYear(y)
  {
    YearStep(y - 1);
    YearStep(y);
    if DaysBeforeYear(y) > z then YearContaining(z, y - 1)
    else if DaysBeforeYear(y + 1) <= z then YearContaining(z, y + 1)
    else y
  }

  /**
   * The astronomical year holding day z, in which year 0 is 1 BC (the search starts at an
   * estimate by the mean Gregorian year).
   */
  function YearOfDay(z: int): (r: int)
    ensures DaysBeforeYear(r) <= z < DaysBeforeYear(r + 1)
  {
    YearContaining(z, 1970 + z * 400 / 146097)
  }

  /**
   * The year as `extract(year)` numbers it: there is no year 0, so astronomical year 0 is
   * 1 BC (-1), year -1 is 2 BC (-2), and so on; years from 1 AD on are unchanged.
   */
  function HistoricalYear(y: int): (r: int)
    ensures r != 0
    ensures y >= 1 ==> r == y
    ensures y <= 0 ==> r < 0
  {
    if y <= 0 then y - 1 else y
  }

  /** The astronomical year of a historical year number: the inverse of HistoricalYear. */
  function AstronomicalYear(r: int): int {
    if r < 0 then r + 1 else r
  }

  /** The two numberings are inverse to each other, and renumbering keeps the order of years. */
  lemma YearNumberingRoundTrip(y: int, r: int, y': int)
    ensures AstronomicalYear(HistoricalYear(y)) == y
    ensures r != 0 ==> HistoricalYear(AstronomicalYear(r)) == r
    ensures y < y' ==> HistoricalYear(y) < HistoricalYear(y')
    ensures HistoricalYear(0) == -1
  {
  }

  // ---------------------------------------------------------------------------
  // Months and dates

  function DaysInMonth(y: int, m: int): (n: int)
    requires 1 <= m <= 12
    ensures 28 <= n <= 31
  {
    if m == 2 then (if IsLeapYear(y) then 29 else 28)
    else if m == 4 || m == 6 || m == 9 || m == 11 then 30
    else 31
  }

  /** Days of year y before the first of month m; m == 13 gives the whole year. */
  function DaysBeforeMonth(y: int, m: int): int
    requires 1 <= m <= 13
  {
    var leap := if IsLeapYear(y) then 1 else 0;
    if m == 1 then 0
    else if m == 2 then 31
    else if m == 3 then 59 + leap
    else if m == 4 then 90 + leap
    else if m == 5 then 120 + leap
    else if m == 6 then 151 + leap
    else if m == 7 then 181 + leap
    else if m == 8 then 212 + leap
    else if m == 9 then 243 + leap
    else if m == 10 then 273 + leap
    else if m == 11 then 304 + leap
    else if m == 12 then 334 + leap
    else 365 + leap
  }

  /** The month table and the month lengths agree, and the months fill the year. */
  lemma MonthStep(y: int, m: int)
    requires 1 <= m <= 12
    ensures DaysBeforeMonth(y, m + 1) == DaysBeforeMonth(y, m) + DaysInMonth(y, m)
    ensures DaysBeforeMonth(y, 13) == DaysInYear(y)
  {
  }

  /** Searches from month m for the month holding day-of-year doy. */
  function MonthContaining(y: int, doy: int, m: int): (r: int)
    requires 1 <= m <= 12
    requires DaysBeforeMonth(y, m) <= doy < DaysInYear(y)
    ensures m <= r <= 12
    ensures DaysBeforeMonth(y, r) <= doy < DaysBeforeMonth(y, r + 1)
    decreases 12 - m
  {
    if doy < DaysBeforeMonth(y, m + 1) then m else MonthContaining(y, doy, m + 1)
  }

  lemma MonthUnique(y: int, doy: int, a: int, b: int)
    requires 1 <= a <= 12 && 1 <= b <= 12
    requires DaysBeforeMonth(y, a) <= doy < DaysBeforeMonth(y, a + 1)
    requires DaysBeforeMonth(y, b) <= doy < DaysBeforeMonth(y, b + 1)
    ensures a == b
  {
  }

  datatype Date = Date(year: int, month: int, day: int)

  predicate ValidDate(d: Date) {
    1 <= d.month <= 12 && 1 <= d.day <= DaysInMonth(d.year, d.month)
  }

  /** Day number of a calendar date. */
  function DaysFromCivil(d: Date): int
    requires 1 <= d.month <= 12
  {
    DaysBeforeYear(d.year) + DaysBeforeMonth(d.year, d.month) + d.day - 1
  }

  /** The calendar date of day number z. */
  function CivilFromDays(z: int): (d: Date)
    ensures ValidDate(d)
    ensures DaysFromCivil(d) == z
  {
    var y := YearOfDay(z);
    YearStep(y);
    var doy := z - DaysBeforeYear(y);
    var m := MonthContaining(y, doy, 1);
    MonthStep(y, m);
    Date(y, m, doy - DaysBeforeMonth(y, m) + 1)
  }

  /** The day of year of a valid date lies inside its year. */
  lemma DayOfYearInRange(d: Date)
    requires ValidDate(d)
    ensures 0 <= DaysBeforeMonth(d.year, d.month) + d.day - 1 < DaysInYear(d.year)
  {
    MonthStep(d.year, d.month);
    assert DaysBeforeMonth(d.year, d.month + 1) <= DaysBeforeMonth(d.year, 13);
  }

  lemma MonthContainingFinds(y: int, doy: int, m: int)
    requires 1 <= m <= 12
    requires 0 <= doy < DaysInYear(y)
    requires DaysBeforeMonth(y, m) <= doy < DaysBeforeMonth(y, m + 1)
    ensures MonthContaining(y, doy, 1) == m
  {
    var r := MonthContaining(y, doy, 1);
    MonthUnique(y, doy, m, r);
  }

  /** Every valid date is the decomposition of its own day number. */
  lemma CivilRoundTrip(d: Date)
    requires ValidDate(d)
    ensures CivilFromDays(DaysFromCivil(d)) == d
  {
    var z := DaysFromCivil(d);
    var y, doy := d.year, DaysBeforeMonth(d.year, d.month) + d.day - 1;
    assert doy == z - DaysBeforeYear(y);
    assert YearOfDay(z) == y by {
      DayOfYearInRange(d);
      YearStep(y);
      YearUnique(z, y, YearOfDay(z));
    }
    assert MonthContaining(y, doy, 1) == d.month by {
      DayOfYearInRange(d);
      MonthContainingFinds(y, doy, d.month);
    }
  }

  /** Day number z decomposes to d exactly when d is the valid date numbered z. */
  lemma CivilFromDaysCharacterized(z: int, d: Date)
    ensures CivilFromDays(z) == d <==> ValidDate(d) && DaysFromCivil(d) == z
  {
    if ValidDate(d) && DaysFromCivil(d) == z {
      CivilRoundTrip(d);
    }
  }

  // ---------------------------------------------------------------------------
  // Time of day, weekday and ISO week

  const SecondsPerDay := 86400

  /** Day number of an instant (floor of the seconds). */
  function DayNumber(t: Timestamp): int {
    t.epochSeconds / SecondsPerDay
  }

  function HourOf(t: Timestamp): (h: int)
    ensures 0 <= h <= 23
    ensures DayNumber(t) * SecondsPerDay + h * 3600 <= t.epochSeconds
    ensures t.epochSeconds < DayNumber(t) * SecondsPerDay + (h + 1) * 3600
  {
    (t.epochSeconds % SecondsPerDay) / 3600
  }

  /** Day of the week, 0 = Sunday .. 6 = Saturday; day 0 (1970-01-01) was a Thursday. */
  function Weekday(z: int): (w: int)
    ensures 0 <= w <= 6
  {
    (z + 4) % 7
  }

  lemma WeekdayPeriodic(z: int)
    ensures Weekday(0) == 4
    ensures Weekday(z + 1) == (Weekday(z) + 1) % 7
    ensures Weekday(z + 7) == Weekday(z)
  {
  }

  /** ISO day of the week, 1 = Monday .. 7 = Sunday. */
  function IsoWeekday(z: int): (w: int)
    ensures 1 <= w <= 7
    ensures w == (if Weekday(z) == 0 then 7 else Weekday(z))
  {
    (z + 3) % 7 + 1
  }

  /** The Thursday of the Monday-to-Sunday week holding day z. */
  function WeekThursday(z: int): (r: int)
    ensures z - 3 <= r <= z + 3
    ensures Weekday(r) == 4
  {
    z - IsoWeekday(z) + 4
  }

  /**
   * ISO 8601 week number: a week belongs to the year holding its Thursday, and week 1
   * is the week holding that year's first Thursday.
   */
  function IsoWeek(z: int): (w: int)
    ensures 1 <= w <= 53
  {
    var th := WeekThursday(z);
    var y := YearOfDay(th);
    YearStep(y);
    (th - DaysBeforeYear(y)) / 7 + 1
  }

  /** January 4th always lies in ISO week 1. */
  lemma IsoWeekOfJanuaryFourth(y: int)
    ensures IsoWeek(DaysFromCivil(Date(y, 1, 4))) == 1
  {
    var z := DaysFromCivil(Date(y, 1, 4));
    var th := WeekThursday(z);
    YearStep(y);
    YearUnique(th, y, YearOfDay(th));
  }

  /** Days from Monday to Sunday of one week share their ISO week number. */
  lemma IsoWeekConstantWithinWeek(z: int)
    requires IsoWeekday(z) < 7
    ensures IsoWeek(z + 1) == IsoWeek(z)
  {
    assert WeekThursday(z + 1) == WeekThursday(z);
  }

  /** The instant 1541121934796 ms is 01:25:34.796 on day 17837, a Friday. */
  lemma KnownInstant(ts: int)
    requires ts == 1541121934796
    ensures FromEpochMillis(ts) == Timestamp(1541121934, 796)
    ensures DayNumber(FromEpochMillis(ts)) == 17837
    ensures HourOf(FromEpochMillis(ts)) == 1
    ensures Weekday(DayNumber(FromEpochMillis(ts))) == 5
  {
    var t := FromEpochMillis(ts);
    assert t.epochSeconds == 1541121934;
    assert t.epochSeconds % SecondsPerDay == 5134;
  }

  /** Day 17837 after the epoch is 2018-11-02. */
  lemma KnownCivilDate(z: int)
    requires z == 17837
    ensures CivilFromDays(z) == Date(2018, 11, 2)
  {
    var d := Date(2018, 11, 2);
    var y := 2018;
    assert DaysBeforeYear(y) == 17532;
    assert DaysBeforeMonth(y, 11) == 304;
    assert ValidDate(d);
    assert DaysFromCivil(d) == z;
    CivilRoundTrip(d);
  }

  /** Day 17837 after the epoch lies in ISO week 44: its Thursday is day 17836 of 2018. */
  lemma KnownIsoWeek(z: int)
    requires z == 17837
    ensures IsoWeek(z) == 44
  {
    var th := WeekThursday(z);
    assert th == 17836;
    YearStep(2018);
    assert DaysBeforeYear(2018) == 17532;
    YearUnique(th, 2018, YearOfDay(th));
  }
}
