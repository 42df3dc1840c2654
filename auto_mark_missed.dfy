/**
 * The automatic "missed" check of hooks/use-auto-mark-missed.ts: late in the day,
 * a duty still pending for today is marked missed, the assignee's monthly
 * `missed` counter goes up by one, and the day is stamped as acted on, so that
 * no second action is recorded that day.
 *
 * One call of `checkAndMarkMissed` is modelled. `CheckAndMarkMissed` is the
 * record it writes (the input itself when a guard returns early, which is also
 * the record when nothing is written); `InputAfterCheck` is what the caller's
 * own record looks like afterwards, because the original shares counter objects
 * with it.
 */
module AutoMarkMissed {
  import opened Calendar
  import opened DutyRecords

  /** The hour from which the check acts (`currentHour < 22` returns early). */
  const MissedFromHour: int := 22

  /** `weekSchedule.find(entry => entry.dayOfWeek === day)`, as the index of the first match. */
  function FindDay(s: seq<WeeklyEntry>, day: int): (r: Option<int>)
    ensures r.None? ==> forall i :: 0 <= i < |s| ==> s[i].dayOfWeek != day
    ensures r.Some? ==> 0 <= r.value < |s| && s[r.value].dayOfWeek == day
    ensures r.Some? ==> forall i :: 0 <= i < r.value ==> s[i].dayOfWeek != day
  {
    if s == [] then None
    else if s[0].dayOfWeek == day then Some(0)
    else match FindDay(s[1..], day)
      case None => None
      case Some(i) => Some(i + 1)
  }

  /** One entry of the `weekSchedule.map` that updates today's entry. */
  function MarkEntry(e: WeeklyEntry, day: int, now: Instant): (r: WeeklyEntry)
    ensures r.dayOfWeek == e.dayOfWeek && r.date == e.date && r.person == e.person
    ensures e.dayOfWeek == day ==> r.status == Missed && r.completedAt == Some(now)
    ensures e.dayOfWeek != day ==> r == e
  {
    if e.dayOfWeek == day then e.(status := Missed, completedAt := Some(now)) else e
  }

  /** Every entry on `day` becomes missed at `now`; every other entry is kept. */
  function MarkDayMissed(s: seq<WeeklyEntry>, day: int, now: Instant): (r: seq<WeeklyEntry>)
    ensures |r| == |s|
    ensures forall i :: 0 <= i < |s| && s[i].dayOfWeek == day ==>
      r[i].status == Missed && r[i].completedAt == Some(now) &&
      r[i].dayOfWeek == day && r[i].date == s[i].date && r[i].person == s[i].person
    ensures forall i :: 0 <= i < |s| && s[i].dayOfWeek != day ==> r[i] == s[i]
  {
    if s == [] then [] else [MarkEntry(s[0], day, now)] + MarkDayMissed(s[1..], day, now)
  }

  /** The counters a person starts from: theirs, or `{done: 0, missed: 0}` if absent. */
  function CountsOf(stats: MonthlyStats, person: string): Counts {
    if person in stats then stats[person] else Counts(0, 0)
  }

  /** The monthly-stats update: the person's `missed` goes up by one; nothing else changes. */
  function RecordMiss(stats: MonthlyStats, person: string): (r: MonthlyStats)
    ensures r.Keys == stats.Keys + {person}
    ensures r[person].missed == CountsOf(stats, person).missed + 1
    ensures r[person].done == CountsOf(stats, person).done
    ensures forall p :: p in stats && p != person ==> r[p] == stats[p]
  {
    var c := CountsOf(stats, person);
    stats[person := Counts(c.done, c.missed + 1)]
  }

  /** `isSameDay`: `lastActionDate` is set and on today's calendar day. */
  predicate ActedToday(data: TrashDutyData, now: Instant) {
    data.lastActionDate.Some? && DayOf(data.lastActionDate.value) == DayOf(now)
  }

  /** All early-return guards pass: it is late, today's entry is pending, nothing was done today. */
  predicate Due(data: TrashDutyData, now: Instant) {
    var found := FindDay(data.weekSchedule, Weekday(DayOf(now)));
    && HourOf(now) >= MissedFromHour
    && found.Some?
    && data.weekSchedule[found.value].status == Pending
    && !ActedToday(data, now)
  }

  /** `checkAndMarkMissed`: the record written at `now`, or `data` itself when a guard returns. */
  function CheckAndMarkMissed(data: TrashDutyData, now: Instant): (r: TrashDutyData)
    ensures HourOf(now) < MissedFromHour ==> r == data
    ensures FindDay(data.weekSchedule, Weekday(DayOf(now))).None? ==> r == data
    ensures ActedToday(data, now) ==> r == data
    ensures r == data <==> !Due(data, now)
    ensures Due(data, now) ==>
      var today := Weekday(DayOf(now));
      var person := data.weekSchedule[FindDay(data.weekSchedule, today).value].person;
      && |r.weekSchedule| == |data.weekSchedule|
      && (forall i :: 0 <= i < |data.weekSchedule| && data.weekSchedule[i].dayOfWeek == today ==>
            r.weekSchedule[i] == data.weekSchedule[i].(status := Missed, completedAt := Some(now)))
      && (forall i :: 0 <= i < |data.weekSchedule| && data.weekSchedule[i].dayOfWeek != today ==>
            r.weekSchedule[i] == data.weekSchedule[i])
      && r.monthlyStats.Keys == data.monthlyStats.Keys + {person}
      && r.monthlyStats[person] == Counts(CountsOf(data.monthlyStats, person).done,
                                          CountsOf(data.monthlyStats, person).missed + 1)
      && (forall p :: p in data.monthlyStats && p != person ==> r.monthlyStats[p] == data.monthlyStats[p])
      && r.lastActionDate == Some(now) && r.lastUpdated == now
      && r.weekStartDate == data.weekStartDate && r.weekNumber == data.weekNumber
      && r.currentDayIndex == data.currentDayIndex && r.rotationOffset == data.rotationOffset
  {
    var today := Weekday(DayOf(now));
    if HourOf(now) < MissedFromHour then data
    else match FindDay(data.weekSchedule, today)
      case None => data
      case Some(i) =>
        var entry := data.weekSchedule[i];
        if entry.status != Pending then data
        else if ActedToday(data, now) then data
        else
          var schedule := MarkDayMissed(data.weekSchedule, today, now);
          assert schedule[i].status == Missed;
          data.(weekSchedule := schedule,
                monthlyStats := RecordMiss(data.monthlyStats, entry.person),
                lastActionDate := Some(now),
                lastUpdated := now)
  }

  /**
   * Once the check has acted, any later check on the same calendar day leaves the
   * record alone: one action per day.
   */
  lemma OneActionPerDay(data: TrashDutyData, now: Instant, later: Instant)
    requires DayOf(later) == DayOf(now)
    ensures var r := CheckAndMarkMissed(data, now);
      Due(data, now) ==> CheckAndMarkMissed(r, later) == r
  {
    var r := CheckAndMarkMissed(data, now);
    if Due(data, now) {
      assert ActedToday(r, later);
    }
  }

  /** Running the check twice at the same instant changes nothing the second time. */
  lemma CheckIdempotent(data: TrashDutyData, now: Instant)
    ensures CheckAndMarkMissed(CheckAndMarkMissed(data, now), now) == CheckAndMarkMissed(data, now)
  {
    OneActionPerDay(data, now, now);
  }

  /**
   * Even without the date stamp, today's entry is no longer pending after the
   * check, so the pending guard alone stops a second mark.
   */
  lemma MarkedEntryNotPending(data: TrashDutyData, now: Instant)
    requires Due(data, now)
    ensures var r := CheckAndMarkMissed(data, now);
      !Due(r.(lastActionDate := None), now)
  {
    var today := Weekday(DayOf(now));
    var i := FindDay(data.weekSchedule, today).value;
    var r := CheckAndMarkMissed(data, now);
    var j := FindDay(r.weekSchedule, today);
    assert r.weekSchedule[i].dayOfWeek == today;
    if j.Some? {
      assert j.value == i by {
        assert !(j.value < i);
        assert !(i < j.value);
      }
    }
  }

  /** The check keeps a valid document valid. */
  lemma CheckPreservesValid(data: TrashDutyData, now: Instant)
    requires Valid(data)
    ensures Valid(CheckAndMarkMissed(data, now))
  {
  }

  /** On a valid document today always has an entry, so that guard never returns early. */
  lemma ValidHasTodayEntry(data: TrashDutyData, now: Instant)
    requires Valid(data)
    ensures FindDay(data.weekSchedule, Weekday(DayOf(now))).Some?
  {
    EveryDayScheduled(data, Weekday(DayOf(now)));
  }

  /**
   * The caller's own record after the call. `sharesCounters` is the original's
   * shallow copy of `monthlyStats`: for a person already in `monthlyStats` the
   * `missed += 1` lands on the counter object the input shares, so the input's
   * counter goes up as well, while a person given fresh `{done: 0, missed: 0}`
   * counters is added to the copy only. Without the sharing (the counter copied
   * before the increment) the caller's record is left as it was. Nothing else of
   * the input changes either way.
   */
  function InputAfterCheck(data: TrashDutyData, now: Instant, sharesCounters: bool): (r: TrashDutyData)
    ensures !Due(data, now) || !sharesCounters ==> r == data
    ensures r == data.(monthlyStats := r.monthlyStats)
    ensures Due(data, now) && sharesCounters ==>
      var person := data.weekSchedule[FindDay(data.weekSchedule, Weekday(DayOf(now))).value].person;
      && (person !in data.monthlyStats ==> r == data)
      && (person in data.monthlyStats ==>
            r.monthlyStats == data.monthlyStats[person := Counts(data.monthlyStats[person].done,
                                                                 data.monthlyStats[person].missed + 1)])
  {
    if !Due(data, now) || !sharesCounters then data
    else
      var person := data.weekSchedule[FindDay(data.weekSchedule, Weekday(DayOf(now))).value].person;
      if person in data.monthlyStats
      then data.(monthlyStats := RecordMiss(data.monthlyStats, person))
      else data
  }

  /**
   * When the database write fails, the error is swallowed and the five-minute
   * interval runs the check again, at the same captured `today`, on the caller's
   * record: for a person already counted, the second attempt writes `missed` two
   * above the original.
   */
  lemma RetryAfterFailedWriteCountsTwice(data: TrashDutyData, now: Instant)
    requires Due(data, now)
    requires data.weekSchedule[FindDay(data.weekSchedule, Weekday(DayOf(now))).value].person in data.monthlyStats
    ensures var person := data.weekSchedule[FindDay(data.weekSchedule, Weekday(DayOf(now))).value].person;
      var retried := CheckAndMarkMissed(InputAfterCheck(data, now, true), now);
      retried.monthlyStats[person].missed == data.monthlyStats[person].missed + 2
  {
    var after := InputAfterCheck(data, now, true);
    assert after.weekSchedule == data.weekSchedule && after.lastActionDate == data.lastActionDate;
    assert Due(after, now);
  }

  /**
   * With the counter copied before the increment, the retry after a failed write
   * runs on a caller's record the first attempt left alone, so it writes exactly
   * the record the first attempt tried to write, and the miss is counted once,
   * for a person already counted and a new one alike.
   */
  lemma RetryWithCopiedCounterCountsOnce(data: TrashDutyData, now: Instant)
    requires Due(data, now)
    ensures var person := data.weekSchedule[FindDay(data.weekSchedule, Weekday(DayOf(now))).value].person;
      var first := CheckAndMarkMissed(data, now);
      var retried := CheckAndMarkMissed(InputAfterCheck(data, now, false), now);
      && retried == first
      && retried.monthlyStats[person].missed == CountsOf(data.monthlyStats, person).missed + 1
  {
  }
}
