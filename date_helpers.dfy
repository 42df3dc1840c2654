/**
 * The week and month helpers the duty tracker uses to decide when a new
 * schedule week or a new statistics month has begun (helpers/functions.ts).
 */
module DateHelpers {
  import opened Calendar

  /** `getUTCDay() || 7`: Monday 1 ... Saturday 6, Sunday 7. */
  function IsoWeekday(day: int): (n: int)
    ensures 1 <= n <= 7
    ensures n % 7 == Weekday(day)
  {
    if Weekday(day) == 0 then 7 else Weekday(day)
  }

  /**
   * The Thursday of the Monday-to-Sunday week holding `day`, computed as the
   * original does with `setUTCDate(getUTCDate() + 4 - dayNum)`.
   */
  function WeekThursday(day: int): (th: int)
    ensures Weekday(th) == 4
    ensures th - day == 4 - IsoWeekday(day)
  {
    var th := DayOf(SetDate(At(day, 0), DateOf(day) + 4 - IsoWeekday(day)));
    ThursdayIsThursday(day, th);
    th
  }

  lemma ThursdayIsThursday(day: int, th: int)
    requires th - day == 4 - IsoWeekday(day)
    ensures Weekday(th) == 4
  {
    WeekdayShift(day, 4 - IsoWeekday(day));
  }

  /**
   * ISO 8601 week number (section 4.1.4 of ISO 8601:2004): the week of the
   * Thursday of the date's week, counted from that Thursday's year start as
   * `ceil(dayOfYear / 7)`. The date is first rebuilt from its local year, month
   * and day, so only the calendar day of `date` matters.
   */
  function GetWeekNumber(date: Instant): (w: int)
    ensures 1 <= w <= 53
    ensures w == WeekNumberOfDay(DayOf(date))
  {
    var today := DayOf(date);
    var d := DayFromCivil(YearOf(today), MonthOf(today), DateOf(today));
    CivilRoundTrip(today);
    WeekNumberOfDay(d)
  }

  /** The week number of a UTC midnight given as a day number. */
  function WeekNumberOfDay(d: int): (w: int)
    ensures 1 <= w <= 53
  {
    var thursday := WeekThursday(d);
    var yearStart := DayFromCivil(YearOf(thursday), 0, 1);
    YearStartStep(YearOf(thursday));
    // the millisecond difference of two midnights is an exact number of days
    CeilDiv7((thursday - yearStart) + 1)
  }

  /** `Math.ceil(n / 7)` for an integer `n`. */
  function CeilDiv7(n: int): (r: int)
    ensures 7 * (r - 1) < n <= 7 * r
  {
    (n + 6) / 7
  }

  /** The week number depends on the calendar day only, not on the time of day. */
  lemma WeekNumberIgnoresTimeOfDay(a: Instant, b: Instant)
    requires DayOf(a) == DayOf(b)
    ensures GetWeekNumber(a) == GetWeekNumber(b)
  {
  }

  /** The day `k` days after a Monday, for k in 0..6, has ISO weekday k + 1. */
  lemma IsoWeekdayAfterMonday(m: int, k: int, d: int)
    requires Weekday(m) == 1 && 0 <= k <= 6 && d == m + k
    ensures IsoWeekday(d) == k + 1
  {
    WeekdayShift(m, k);
  }

  /** All seven days from a Monday through the next Sunday share one week number. */
  lemma WeekNumberConstantOnWeek(monday: Instant, k: int)
    requires Weekday(DayOf(monday)) == 1 && 0 <= k <= 6
    ensures GetWeekNumber(monday + k * MsPerDay) == GetWeekNumber(monday)
  {
    var m := DayOf(monday);
    var d := DayOf(monday + k * MsPerDay);
    assert d == m + k;
    IsoWeekdayAfterMonday(m, k, d);
    IsoWeekdayAfterMonday(m, 0, m);
    assert WeekThursday(d) == WeekThursday(m);
  }

  /** January 4 is always in week 1 (the ISO 8601 first-week rule). */
  lemma WeekNumberOfJanuaryFourth(y: int, t: Instant)
    requires DayOf(t) == DayFromCivil(y, 0, 4)
    ensures GetWeekNumber(t) == 1
  {
    var th := WeekThursday(DayOf(t));
    assert YearStart(y) <= th <= YearStart(y) + 6;
    YearStartStep(y);
    YearOfUnique(th, y);
  }

  /**
   * Inside one ISO year, the week after a Monday's week has the next number:
   * consecutive weeks are numbered consecutively.
   */
  lemma WeekNumberNextWeek(monday: Instant)
    requires Weekday(DayOf(monday)) == 1
    requires YearOf(DayOf(monday) + 10) == YearOf(DayOf(monday) + 3)
    ensures GetWeekNumber(monday + 7 * MsPerDay) == GetWeekNumber(monday) + 1
  {
    var m := DayOf(monday);
    var n := DayOf(monday + 7 * MsPerDay);
    assert n == m + 7;
    WeekNumberNextWeekOfDay(m, n);
  }

  lemma WeekNumberNextWeekOfDay(m: int, n: int)
    requires Weekday(m) == 1 && n == m + 7
    requires YearOf(n + 3) == YearOf(m + 3)
    ensures WeekNumberOfDay(n) == WeekNumberOfDay(m) + 1
  {
    NextMonday(m, n);
    var y := YearOf(m + 3);
    WeekNumberOfMonday(m, y);
    WeekNumberOfMonday(n, y);
    CeilDiv7Step(m + 3 - YearStart(y) + 1);
  }

  lemma NextMonday(m: int, n: int)
    requires Weekday(m) == 1 && n == m + 7
    ensures Weekday(n) == 1
  {
    WeekdayShift(m, 7);
  }

  /** A Monday's week is numbered by the Thursday three days later. */
  lemma WeekNumberOfMonday(m: int, y: int)
    requires Weekday(m) == 1 && y == YearOf(m + 3)
    ensures WeekNumberOfDay(m) == CeilDiv7(m + 3 - YearStart(y) + 1)
  {
    IsoWeekdayAfterMonday(m, 0, m);
    WeekNumberFromThursday(m, m + 3, y);
  }

  lemma WeekNumberFromThursday(d: int, th: int, y: int)
    requires th == WeekThursday(d) && y == YearOf(th)
    ensures WeekNumberOfDay(d) == CeilDiv7(th - YearStart(y) + 1)
  {
  }

  lemma CeilDiv7Step(n: int)
    ensures CeilDiv7(n + 7) == CeilDiv7(n) + 1
  {
  }

  /**
   * `getMondayOfWeek`: sets the date to `getDate() - getDay() + 1` (or `- 6` on a
   * Sunday) on a copy, keeping the time of day.
   */
  function GetMondayOfWeek(date: Instant): (r: Instant)
    ensures Weekday(DayOf(r)) == 1
    ensures 0 <= DayOf(date) - DayOf(r) <= 6
    ensures TimeOfDay(r) == TimeOfDay(date)
  {
    var day := Weekday(DayOf(date));
    var diff := DateOf(DayOf(date)) - day + (if day == 0 then -6 else 1);
    var r := SetDate(date, diff);
    BackToMonday(DayOf(date), DayOf(r));
    r
  }

  /** Going back `getDay() - 1` days, or six days from a Sunday, lands on a Monday. */
  lemma BackToMonday(d: int, r: int)
    requires r == d - Weekday(d) + (if Weekday(d) == 0 then -6 else 1)
    ensures Weekday(r) == 1 && 0 <= d - r <= 6
  {
    WeekdayShift(d, r - d);
  }

  /** The Monday found is the only Monday among the input's day and the six before it. */
  lemma MondayOfWeekUnique(date: Instant, m: int)
    requires Weekday(m) == 1 && 0 <= DayOf(date) - m <= 6
    ensures DayOf(GetMondayOfWeek(date)) == m
  {
    MondaysApart(DayOf(GetMondayOfWeek(date)), m);
  }

  /** Two Mondays less than a week apart are the same day. */
  lemma MondaysApart(a: int, b: int)
    requires Weekday(a) == 1 && Weekday(b) == 1 && -6 <= a - b <= 6
    ensures a == b
  {
    WeekdayShift(b, a - b);
  }

  /** A Sunday goes back six days to the Monday that started its week. */
  lemma MondayOfSunday(date: Instant)
    requires Weekday(DayOf(date)) == 0
    ensures GetMondayOfWeek(date) == date - 6 * MsPerDay
  {
    MondayOfWeekUnique(date, DayOf(date) - 6);
    WeekdayShift(DayOf(date), -6);
  }

  /** On a Monday the result is the input itself. */
  lemma MondayOfMonday(date: Instant)
    requires Weekday(DayOf(date)) == 1
    ensures GetMondayOfWeek(date) == date
  {
    MondayOfWeekUnique(date, DayOf(date));
  }

  lemma MondayOfWeekIdempotent(date: Instant)
    ensures GetMondayOfWeek(GetMondayOfWeek(date)) == GetMondayOfWeek(date)
  {
    MondayOfMonday(GetMondayOfWeek(date));
  }

  /** `setHours(0, 0, 0)`: midnight of the same day, but the milliseconds are kept. */
  function ClearHoursMinutesSeconds(t: Instant): (r: Instant)
    ensures DayOf(r) == DayOf(t) && TimeOfDay(r) == Millis(t)
  {
    At(DayOf(t), Millis(t))
  }

  /** `isNewWeek`, as written: compares the two cleared instants. */
  function IsNewWeek(lastWeekStart: Instant, currentDate: Instant): bool {
    ClearHoursMinutesSeconds(GetMondayOfWeek(currentDate)) > ClearHoursMinutesSeconds(lastWeekStart)
  }

  lemma MillisOfTimeOfDay(t: Instant)
    ensures Millis(t) == TimeOfDay(t) % MsPerSecond
  {
  }

  /** A later Monday is a new week and an earlier one is not, whatever the times of day. */
  lemma IsNewWeekByCalendarDay(lastWeekStart: Instant, currentDate: Instant)
    ensures DayOf(GetMondayOfWeek(currentDate)) > DayOf(lastWeekStart) ==> IsNewWeek(lastWeekStart, currentDate)
    ensures DayOf(GetMondayOfWeek(currentDate)) < DayOf(lastWeekStart) ==> !IsNewWeek(lastWeekStart, currentDate)
  {
  }

  /**
   * On the same calendar day only the leftover milliseconds decide, because
   * `setHours(0, 0, 0)` does not clear them.
   */
  lemma IsNewWeekSameDay(lastWeekStart: Instant, currentDate: Instant)
    requires DayOf(GetMondayOfWeek(currentDate)) == DayOf(lastWeekStart)
    ensures IsNewWeek(lastWeekStart, currentDate) <==> Millis(currentDate) > Millis(lastWeekStart)
  {
    MillisOfTimeOfDay(currentDate);
    MillisOfTimeOfDay(GetMondayOfWeek(currentDate));
  }

  /**
   * The week start is stored as `getMondayOfWeek(today)` with today's time of day.
   * Later in that same week, a current instant whose millisecond field is larger
   * than the stored one is reported as a new week.
   */
  lemma IsNewWeekWithinStoredWeek(created: Instant, currentDate: Instant)
    requires 0 <= DayOf(currentDate) - DayOf(GetMondayOfWeek(created)) <= 6
    requires Millis(currentDate) > Millis(created)
    ensures IsNewWeek(GetMondayOfWeek(created), currentDate)
  {
    var stored := GetMondayOfWeek(created);
    MondayOfWeekUnique(currentDate, DayOf(stored));
    MillisOfTimeOfDay(created);
    MillisOfTimeOfDay(stored);
    IsNewWeekSameDay(stored, currentDate);
  }

  /** A concrete case: Monday 1970-01-05 at 10:00:00.100 stored, 12:00:00.500 that day. */
  lemma IsNewWeekSameMondayExample(stored: Instant, current: Instant)
    requires stored == 4 * MsPerDay + 10 * MsPerHour + 100
    requires current == 4 * MsPerDay + 12 * MsPerHour + 500
    ensures Weekday(DayOf(stored)) == 1
    ensures DayOf(GetMondayOfWeek(current)) == DayOf(stored)
    ensures IsNewWeek(stored, current)
  {
    assert DayOf(stored) == 4 && DayOf(current) == 4;
    assert Millis(stored) == 100 && Millis(current) == 500;
    MondayOfMonday(stored);
    MondayOfWeekUnique(current, 4);
    IsNewWeekWithinStoredWeek(stored, current);
  }

  /**
   * The comparison the helper is meant to make: the current week's Monday is a
   * later calendar day. Against a stored Monday that is the current date being at
   * least a week after it, and wherever the two Mondays fall on different days it
   * agrees with `IsNewWeek`.
   */
  function IsNewWeekByDay(lastWeekStart: Instant, currentDate: Instant): (r: bool)
    ensures Weekday(DayOf(lastWeekStart)) == 1 ==> (r <==> DayOf(currentDate) >= DayOf(lastWeekStart) + 7)
    ensures DayOf(GetMondayOfWeek(currentDate)) != DayOf(lastWeekStart) ==>
      (r <==> IsNewWeek(lastWeekStart, currentDate))
  {
    var s, m := DayOf(lastWeekStart), DayOf(GetMondayOfWeek(currentDate));
    LaterMonday(s, m);
    IsNewWeekByCalendarDay(lastWeekStart, currentDate);
    m > s
  }

  /**
   * The corrected helper never reports a new week inside the stored week, whatever
   * the times of day of the stored and the current instant.
   */
  lemma IsNewWeekByDayWithinStoredWeek(created: Instant, currentDate: Instant)
    requires 0 <= DayOf(currentDate) - DayOf(GetMondayOfWeek(created)) <= 6
    ensures !IsNewWeekByDay(GetMondayOfWeek(created), currentDate)
  {
  }

  /** Mondays are a whole number of weeks apart, so a later Monday is at least a week later. */
  lemma LaterMonday(a: int, b: int)
    ensures Weekday(a) == 1 && Weekday(b) == 1 && a < b ==> a + 7 <= b
  {
    if a < b {
      WeekdayShift(a, b - a);
    }
  }

  /** `isNewMonth`, with the current date passed in instead of read from the clock. */
  function IsNewMonth(lastDate: Instant, current: Instant): (r: bool)
    ensures r <==> MonthKey(DayOf(lastDate)) != MonthKey(DayOf(current))
  {
    var last, now := DayOf(lastDate), DayOf(current);
    MonthKeyInjective(YearOf(now), MonthOf(now), YearOf(last), MonthOf(last));
    MonthOf(now) != MonthOf(last) || YearOf(now) != YearOf(last)
  }

  lemma MonthKeyInjective(y1: int, m1: int, y2: int, m2: int)
    requires 0 <= m1 < 12 && 0 <= m2 < 12
    ensures 12 * y1 + m1 == 12 * y2 + m2 <==> y1 == y2 && m1 == m2
  {
  }

  /** Months are intervals: two instants of one month have every instant between them in it. */
  lemma IsNewMonthConvex(a: Instant, b: Instant, c: Instant)
    requires a <= b <= c && !IsNewMonth(a, c)
    ensures !IsNewMonth(a, b) && !IsNewMonth(b, c)
  {
    MonthKeyMonotone(DayOf(a), DayOf(b));
    MonthKeyMonotone(DayOf(b), DayOf(c));
  }

  /** No month is longer than 31 days. */
  lemma IsNewMonthAfterThirtyOneDays(a: Instant, b: Instant)
    requires DayOf(b) - DayOf(a) >= 31
    ensures IsNewMonth(a, b)
  {
    CivilRoundTrip(DayOf(a));
    CivilRoundTrip(DayOf(b));
  }

  /** Crossing into the first of a month is a new month. */
  lemma IsNewMonthAtFirstOfMonth(a: Instant, b: Instant)
    requires DateOf(DayOf(b)) == 1 && DayOf(a) < DayOf(b)
    ensures IsNewMonth(a, b)
  {
    CivilRoundTrip(DayOf(a));
    CivilRoundTrip(DayOf(b));
    MonthKeyMonotone(DayOf(a), DayOf(b));
  }
}
