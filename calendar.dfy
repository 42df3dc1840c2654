/**
 * The local wall clock and the proleptic Gregorian calendar that JavaScript's
 * `Date` exposes through getHours, getDay, getDate, getMonth, getFullYear,
 * setDate and Date.UTC.
 *
 * An instant is a whole number of milliseconds since 1970-01-01 00:00:00.000 on
 * the one local clock of the model (no time zones, no daylight saving time), so a
 * calendar day is an integer day number and the UTC calendar used by
 * getWeekNumber coincides with the local one.
 */
module Calendar {

  const MsPerSecond: int := 1000
  const MsPerMinute: int := 60000
  const MsPerHour: int := 3600000
  const MsPerDay: int := 86400000

  /** Days from 0000-01-01 to 1970-01-01 in the proleptic Gregorian calendar. */
  const EpochOffset: int := 719528

  /** Milliseconds since the epoch on the local clock. */
  type Instant = int

  /** The calendar day an instant falls on (floor division, also before 1970). */
  function DayOf(t: Instant): int {
    t / MsPerDay
  }

  /** Milliseconds elapsed since local midnight. */
  function TimeOfDay(t: Instant): (r: int)
    ensures 0 <= r < MsPerDay
    ensures t == DayOf(t) * MsPerDay + r
  {
    t % MsPerDay
  }

  /** `getHours()`. */
  function HourOf(t: Instant): (h: int)
    ensures 0 <= h < 24
    ensures h * MsPerHour <= TimeOfDay(t) < (h + 1) * MsPerHour
  {
    TimeOfDay(t) / MsPerHour
  }

  /** `getMilliseconds()`: the part of the instant below one second. */
  function Millis(t: Instant): (r: int)
    ensures 0 <= r < MsPerSecond
    ensures (t - r) % MsPerSecond == 0
  {
    t % MsPerSecond
  }

  /** The instant at a given day number and time of day. */
  function At(day: int, timeOfDay: int): (t: Instant)
    requires 0 <= timeOfDay < MsPerDay
    ensures DayOf(t) == day && TimeOfDay(t) == timeOfDay
  {
    day * MsPerDay + timeOfDay
  }

  /** `getDay()`: 0 is Sunday, 1 Monday, ..., 6 Saturday; 1970-01-01 was a Thursday. */
  function Weekday(day: int): (w: int)
    ensures 0 <= w < 7
  {
    (day + 4) % 7
  }

  /** Moving `k` days moves the weekday `k` places round the week. */
  lemma WeekdayShift(day: int, k: int)
    ensures Weekday(day + k) == (Weekday(day) + k) % 7
  {
  }

  predicate IsLeapYear(y: int) {
    y % 4 == 0 && (y % 100 != 0 || y % 400 == 0)
  }

  function DaysInYear(y: int): (n: int)
    ensures n == 365 || n == 366
  {
    if IsLeapYear(y) then 366 else 365
  }

  /**
   * The day number of January 1 of year `y`: 365 days per year before it plus one
   * day per leap year in 0 .. y-1.
   */
  function YearStart(y: int): int {
    365 * y + (y - 1) / 4 - (y - 1) / 100 + (y - 1) / 400 + 1 - EpochOffset
  }

  lemma YearStartStep(y: int)
    ensures YearStart(y + 1) == YearStart(y) + DaysInYear(y)
  {
    assert y / 4 == (y - 1) / 4 + (if y % 4 == 0 then 1 else 0);
    assert y / 100 == (y - 1) / 100 + (if y % 100 == 0 then 1 else 0);
    assert y / 400 == (y - 1) / 400 + (if y % 400 == 0 then 1 else 0);
  }

  lemma {:induction false} YearStartMonotone(a: int, b: int)
    requires a < b
    ensures YearStart(a) + 365 <= YearStart(b)
    decreases b - a
  {
    YearStartStep(a);
    if a + 1 < b {
      YearStartMonotone(a + 1, b);
    }
  }

  /** `getFullYear()`: the year whose days contain `day`. */
  function YearOf(day: int): (y: int)
    ensures YearStart(y) <= day < YearStart(y + 1)
  {
    var e := ((day + EpochOffset) * 400) / 146097;
    if day < YearStart(e) then e - 1
    else if day < YearStart(e + 1) then e
    else e + 1
  }

  /** Years are disjoint: a day lies in exactly one of them. */
  lemma YearOfUnique(day: int, y: int)
    requires YearStart(y) <= day < YearStart(y + 1)
    ensures YearOf(day) == y
  {
    var z := YearOf(day);
    if z < y {
      YearStartMonotone(z, y);
      if z + 1 < y { YearStartMonotone(z + 1, y); }
    } else if y < z {
      YearStartMonotone(y, z);
      if y + 1 < z { YearStartMonotone(y + 1, z); }
    }
  }

  lemma YearOfMonotone(a: int, b: int)
    requires a <= b
    ensures YearOf(a) <= YearOf(b)
  {
    if YearOf(b) < YearOf(a) {
      YearStartMonotone(YearOf(b), YearOf(a));
      if YearOf(b) + 1 < YearOf(a) { YearStartMonotone(YearOf(b) + 1, YearOf(a)); }
    }
  }

  /** Zero-based position of `day` inside its year. */
  function DayOfYear(day: int): (n: int)
    ensures 0 <= n < DaysInYear(YearOf(day))
  {
    YearStartStep(YearOf(day));
    day - YearStart(YearOf(day))
  }

  /** Days of the year before zero-based month `m` (m == 12 gives the whole year). */
  function DaysBeforeMonth(m: int, leap: bool): (n: int)
    requires 0 <= m <= 12
    ensures 0 <= n <= 366
    ensures m == 12 ==> n == if leap then 366 else 365
  {
    var l := if leap then 1 else 0;
    if m == 0 then 0
    else if m == 1 then 31
    else if m == 2 then 59 + l
    else if m == 3 then 90 + l
    else if m == 4 then 120 + l
    else if m == 5 then 151 + l
    else if m == 6 then 181 + l
    else if m == 7 then 212 + l
    else if m == 8 then 243 + l
    else if m == 9 then 273 + l
    else if m == 10 then 304 + l
    else if m == 11 then 334 + l
    else 365 + l
  }

  /** Number of days in zero-based month `m`. */
  function DaysInMonth(m: int, leap: bool): (n: int)
    requires 0 <= m < 12
    ensures 28 <= n <= 31
    ensures n == DaysBeforeMonth(m + 1, leap) - DaysBeforeMonth(m, leap)
  {
    DaysBeforeMonth(m + 1, leap) - DaysBeforeMonth(m, leap)
  }

  /** The month, searched upward from `m`, whose days contain day-of-year `doy`. */
  function MonthSearch(doy: int, leap: bool, m: int): (r: int)
    requires 0 <= m < 12
    requires DaysBeforeMonth(m, leap) <= doy < DaysBeforeMonth(12, leap)
    ensures m <= r < 12
    ensures DaysBeforeMonth(r, leap) <= doy < DaysBeforeMonth(r + 1, leap)
    decreases 12 - m
  {
    if doy < DaysBeforeMonth(m + 1, leap) then m else MonthSearch(doy, leap, m + 1)
  }

  /** `getMonth()`: zero-based month, 0 is January. */
  function MonthOf(day: int): (m: int)
    ensures 0 <= m < 12
    ensures DaysBeforeMonth(m, IsLeapYear(YearOf(day))) <= DayOfYear(day)
    ensures DayOfYear(day) < DaysBeforeMonth(m + 1, IsLeapYear(YearOf(day)))
  {
    MonthSearch(DayOfYear(day), IsLeapYear(YearOf(day)), 0)
  }

  /** `getDate()`: one-based day of the month. */
  function DateOf(day: int): (d: int)
    ensures 1 <= d <= DaysInMonth(MonthOf(day), IsLeapYear(YearOf(day)))
  {
    DayOfYear(day) - DaysBeforeMonth(MonthOf(day), IsLeapYear(YearOf(day))) + 1
  }

  /**
   * `Date.UTC(y, m, date)` as a day number, for a zero-based month; like the
   * original, a `date` outside the month rolls over into the neighbouring months.
   */
  function DayFromCivil(y: int, m: int, date: int): int
    requires 0 <= m < 12
  {
    YearStart(y) + DaysBeforeMonth(m, IsLeapYear(y)) + date - 1
  }

  /** Reading a day's year, month and date and building the day back gives the same day. */
  lemma CivilRoundTrip(day: int)
    ensures DayFromCivil(YearOf(day), MonthOf(day), DateOf(day)) == day
  {
  }

  /** Building a day from a real calendar date and reading it back gives that date. */
  lemma {:induction false} CivilFromDayRoundTrip(y: int, m: int, date: int)
    requires 0 <= m < 12 && 1 <= date <= DaysInMonth(m, IsLeapYear(y))
    ensures YearOf(DayFromCivil(y, m, date)) == y
    ensures MonthOf(DayFromCivil(y, m, date)) == m
    ensures DateOf(DayFromCivil(y, m, date)) == date
  {
    var day := DayFromCivil(y, m, date);
    var leap := IsLeapYear(y);
    YearStartStep(y);
    YearOfUnique(day, y);
    MonthUnique(DayOfYear(day), leap, MonthOf(day), m);
  }

  /** The months of one year are disjoint intervals of days. */
  lemma MonthUnique(doy: int, leap: bool, m1: int, m2: int)
    requires 0 <= m1 < 12 && 0 <= m2 < 12
    requires DaysBeforeMonth(m1, leap) <= doy < DaysBeforeMonth(m1 + 1, leap)
    requires DaysBeforeMonth(m2, leap) <= doy < DaysBeforeMonth(m2 + 1, leap)
    ensures m1 == m2
  {
    if m1 < m2 {
      DaysBeforeMonthMonotone(m1 + 1, m2, leap);
    } else if m2 < m1 {
      DaysBeforeMonthMonotone(m2 + 1, m1, leap);
    }
  }

  lemma DaysBeforeMonthMonotone(a: int, b: int, leap: bool)
    requires 0 <= a <= b <= 12
    ensures DaysBeforeMonth(a, leap) <= DaysBeforeMonth(b, leap)
  {
  }

  /** The first day of the month that `day` is in. */
  function MonthStart(day: int): (s: int)
    ensures day - 30 <= s <= day
    ensures DateOf(s) == 1 && MonthOf(s) == MonthOf(day) && YearOf(s) == YearOf(day)
  {
    var s := DayFromCivil(YearOf(day), MonthOf(day), 1);
    CivilFromDayRoundTrip(YearOf(day), MonthOf(day), 1);
    s
  }

  /**
   * `t.setDate(date)` on an instant: the day becomes `date` counted from the first
   * of t's month (rolling over into other months when out of range); the time of
   * day is kept.
   */
  function SetDate(t: Instant, date: int): (r: Instant)
    ensures DayOf(r) == DayOf(t) + date - DateOf(DayOf(t))
    ensures TimeOfDay(r) == TimeOfDay(t)
  {
    At(MonthStart(DayOf(t)) + date - 1, TimeOfDay(t))
  }

  /** Months in order: year * 12 + month, used to compare months across years. */
  function MonthKey(day: int): int {
    12 * YearOf(day) + MonthOf(day)
  }

  lemma MonthKeyMonotone(a: int, b: int)
    requires a <= b
    ensures MonthKey(a) <= MonthKey(b)
  {
    YearOfMonotone(a, b);
    if YearOf(a) == YearOf(b) && MonthOf(b) < MonthOf(a) {
      DaysBeforeMonthMonotone(MonthOf(b) + 1, MonthOf(a), IsLeapYear(YearOf(a)));
    }
  }

  /** Anchors: day 0 is Thursday 1970-01-01; day 10957 is Saturday 2000-01-01. */
  lemma KnownDays()
    ensures YearStart(1970) == 0 && Weekday(0) == 4
    ensures DayFromCivil(2000, 0, 1) == 10957 && Weekday(10957) == 6
  {
  }
}
