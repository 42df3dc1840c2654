/**
 * The countdown to the daily 23:00 deadline shown on the duty screen
 * (hooks/use-deadline-counter.ts): the time left, split into hours, minutes and
 * seconds, the `HH:MM:SS` text, and the urgency colour class.
 */
module DeadlineCounter {
  import opened Calendar

  /** 23:00:00.000 as milliseconds after midnight. */
  const DeadlineTime: int := 23 * MsPerHour

  /** `TimeRemaining`, without the floating-point `percentageRemaining`. */
  datatype TimeRemaining = TimeRemaining(
    hours: int,
    minutes: int,
    seconds: int,
    isExpired: bool,
    formattedTime: string)

  /**
   * The `deadline` of `calculateTimeRemaining`: 23:00 of today, moved to 23:00 of the next day when `now` has
   * reached it. It is the first 23:00 strictly after `now`.
   */
  function Deadline(now: Instant): (d: Instant)
    ensures TimeOfDay(d) == DeadlineTime
    ensures now < d <= now + MsPerDay
    ensures DayOf(d) == DayOf(now) || DayOf(d) == DayOf(now) + 1
    ensures forall t :: now < t < d ==> TimeOfDay(t) != DeadlineTime
  {
    var today := At(DayOf(now), DeadlineTime);
    var d := if now >= today then SetDate(today, DateOf(DayOf(today)) + 1) else today;
    NoDeadlineBefore(now, d);
    d
  }

  /** Between `now` and the next 23:00 no other instant reads 23:00:00.000. */
  lemma NoDeadlineBefore(now: Instant, d: Instant)
    requires TimeOfDay(d) == DeadlineTime && now < d
    requires d == At(DayOf(now), DeadlineTime) || (d == At(DayOf(now) + 1, DeadlineTime) && TimeOfDay(now) >= DeadlineTime)
    ensures forall t :: now < t < d ==> TimeOfDay(t) != DeadlineTime
  {
  }

  /** The decimal digits of `n`, most significant first (`String(n)`). */
  function DecimalString(n: nat): (s: string)
    ensures |s| >= 1
    ensures forall i :: 0 <= i < |s| ==> '0' <= s[i] <= '9'
    ensures n < 10 ==> |s| == 1
    ensures 10 <= n < 100 ==> |s| == 2
  {
    if n < 10 then [Digit(n)] else DecimalString(n / 10) + [Digit(n % 10)]
  }

  function Digit(d: nat): (c: char)
    requires d < 10
    ensures '0' <= c <= '9'
  {
    "0123456789"[d]
  }

  /** `padStart(2, '0')` on a decimal string. */
  function Pad2(n: nat): (s: string)
    ensures |s| >= 2
    ensures n < 100 ==> |s| == 2
    ensures forall i :: 0 <= i < |s| ==> '0' <= s[i] <= '9'
  {
    var digits := DecimalString(n);
    if |digits| < 2 then ['0'] + digits else digits
  }

  /** The value of a string of decimal digits. */
  function DecimalValue(s: string): (v: nat)
    requires forall i :: 0 <= i < |s| ==> '0' <= s[i] <= '9'
  {
    if s == [] then 0 else 10 * DecimalValue(s[..|s| - 1]) + (s[|s| - 1] - '0') as nat
  }

  lemma {:induction false} DecimalRoundTrip(n: nat)
    ensures DecimalValue(DecimalString(n)) == n
  {
    if n >= 10 {
      DecimalRoundTrip(n / 10);
      var s := DecimalString(n);
      assert s[..|s| - 1] == DecimalString(n / 10);
    }
  }

  /** Reading the padded field back gives the number: padding loses nothing. */
  lemma Pad2RoundTrip(n: nat)
    ensures DecimalValue(Pad2(n)) == n
  {
    DecimalRoundTrip(n);
    var digits := DecimalString(n);
    if |digits| < 2 {
      var s := ['0'] + digits;
      assert s[..|s| - 1] == ['0'];
      assert DecimalValue(['0']) == 0 by {
        assert ['0'][..0] == [];
      }
    }
  }

  /** The `formattedTime` text: the three padded fields joined by ':'. */
  function FormatClock(hours: nat, minutes: nat, seconds: nat): (s: string)
    ensures |s| >= 8
    ensures hours < 100 && minutes < 100 && seconds < 100 ==> |s| == 8 && s[2] == ':' && s[5] == ':'
  {
    Pad2(hours) + ":" + Pad2(minutes) + ":" + Pad2(seconds)
  }

  /** The text of a clock with two-digit fields gives back the three numbers. */
  lemma FormatClockRoundTrip(hours: nat, minutes: nat, seconds: nat)
    requires hours < 100 && minutes < 100 && seconds < 100
    ensures var s := FormatClock(hours, minutes, seconds);
      DecimalValue(s[0..2]) == hours && DecimalValue(s[3..5]) == minutes && DecimalValue(s[6..8]) == seconds
  {
    var s := FormatClock(hours, minutes, seconds);
    assert s[0..2] == Pad2(hours);
    assert s[3..5] == Pad2(minutes);
    assert s[6..8] == Pad2(seconds);
    Pad2RoundTrip(hours);
    Pad2RoundTrip(minutes);
    Pad2RoundTrip(seconds);
  }

  /** The result `calculateTimeRemaining` gives when no time is left. */
  function ExpiredResult(): (r: TimeRemaining)
    ensures r.isExpired && r.hours == 0 && r.minutes == 0 && r.seconds == 0
    ensures r.formattedTime == FormatClock(0, 0, 0)
  {
    assert FormatClock(0, 0, 0) == "00:00:00";
    TimeRemaining(0, 0, 0, true, "00:00:00")
  }

  /** The split of the difference: whole hours, then minutes and seconds of what is left over. */
  function Split(diff: nat): (r: (nat, nat, nat))
    ensures r.0 * MsPerHour + r.1 * MsPerMinute + r.2 * MsPerSecond <= diff
    ensures diff < r.0 * MsPerHour + r.1 * MsPerMinute + r.2 * MsPerSecond + MsPerSecond
    ensures r.1 < 60 && r.2 < 60
  {
    var hours := diff / MsPerHour;
    var minutes := (diff % MsPerHour) / MsPerMinute;
    var seconds := (diff % MsPerMinute) / MsPerSecond;
    SplitExact(diff, hours, minutes);
    (hours, minutes, seconds)
  }

  /** The minutes' remainder is the remainder of the whole difference. */
  lemma SplitExact(diff: nat, hours: nat, minutes: nat)
    requires hours == diff / MsPerHour && minutes == (diff % MsPerHour) / MsPerMinute
    ensures diff == hours * MsPerHour + minutes * MsPerMinute + diff % MsPerMinute
  {
    var rest := diff % MsPerHour;
    assert diff == hours * MsPerHour + rest;
    var rest2 := rest % MsPerMinute;
    assert rest == minutes * MsPerMinute + rest2;
    assert diff == (hours * 60 + minutes) * MsPerMinute + rest2;
    assert diff % MsPerMinute == rest2;
  }

  /** `calculateTimeRemaining` at `now`. */
  function CalculateTimeRemaining(now: Instant): (r: TimeRemaining)
    ensures !r.isExpired
    ensures 0 <= r.hours <= 24 && 0 <= r.minutes < 60 && 0 <= r.seconds < 60
    ensures var diff := Deadline(now) - now;
      r.hours * MsPerHour + r.minutes * MsPerMinute + r.seconds * MsPerSecond <= diff
      < r.hours * MsPerHour + r.minutes * MsPerMinute + r.seconds * MsPerSecond + MsPerSecond
    ensures r.formattedTime == FormatClock(r.hours, r.minutes, r.seconds) && |r.formattedTime| == 8
  {
    var diff := Deadline(now) - now;
    if diff <= 0 then ExpiredResult()
    else
      var parts := Split(diff);
      TimeRemaining(parts.0, parts.1, parts.2, false, FormatClock(parts.0, parts.1, parts.2))
  }

  datatype Urgency = Critical | Warning | Normal

  /** How urgent a level is: Critical 2, Warning 1, Normal 0. */
  function Rank(u: Urgency): nat {
    match u
    case Critical => 2
    case Warning => 1
    case Normal => 0
  }

  function TotalMinutes(t: TimeRemaining): int {
    t.hours * 60 + t.minutes
  }

  /** `getUrgencyLevel`: critical when expired or under an hour, warning under three hours. */
  function GetUrgencyLevel(t: TimeRemaining): (u: Urgency)
    ensures t.isExpired ==> u == Critical
    ensures !t.isExpired ==> (u == Critical <==> TotalMinutes(t) < 60)
    ensures !t.isExpired ==> (u == Warning <==> 60 <= TotalMinutes(t) < 180)
    ensures !t.isExpired ==> (u == Normal <==> 180 <= TotalMinutes(t))
  {
    if t.isExpired then Critical
    else if TotalMinutes(t) < 60 then Critical
    else if TotalMinutes(t) < 180 then Warning
    else Normal
  }

  /** More minutes left never gives a more urgent level. */
  lemma UrgencyMonotone(a: TimeRemaining, b: TimeRemaining)
    requires !a.isExpired && !b.isExpired && TotalMinutes(a) <= TotalMinutes(b)
    ensures Rank(GetUrgencyLevel(b)) <= Rank(GetUrgencyLevel(a))
  {
  }

  /**
   * For the counter itself the levels are bands of the real time left: critical
   * under one hour, warning under three hours, normal from three hours on.
   */
  lemma UrgencyOfCountdown(now: Instant)
    ensures var left := Deadline(now) - now;
      var u := GetUrgencyLevel(CalculateTimeRemaining(now));
      && (u == Critical <==> left < MsPerHour)
      && (u == Warning <==> MsPerHour <= left < 3 * MsPerHour)
      && (u == Normal <==> 3 * MsPerHour <= left)
  {
    var r := CalculateTimeRemaining(now);
    var left := Deadline(now) - now;
    MinutesBand(left, r.hours, r.minutes, r.seconds, 60);
    MinutesBand(left, r.hours, r.minutes, r.seconds, 180);
  }

  /** Whole minutes below `k` is the same as remaining time below `k` minutes. */
  lemma MinutesBand(left: int, h: int, m: int, s: int, k: int)
    requires 0 <= m < 60 && 0 <= s < 60
    requires h * MsPerHour + m * MsPerMinute + s * MsPerSecond <= left
    requires left < h * MsPerHour + m * MsPerMinute + s * MsPerSecond + MsPerSecond
    ensures h * 60 + m < k <==> left < k * MsPerMinute
  {
  }
}
