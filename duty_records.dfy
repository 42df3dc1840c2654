/**
 * The shared duty document (interfaces/index.ts): one week of schedule entries,
 * the per-person monthly counters and the bookkeeping dates. ISO date strings
 * are held as local instants.
 */
module DutyRecords {
  import opened Calendar

  datatype Option<T> = None | Some(value: T)

  /** A day's duty is exactly one of these. */
  datatype Status = Pending | Done | Missed

  /** `IWeeklyEntry`: `dayOfWeek` counts 0 = Sunday, 1 = Monday, ... like `getDay()`. */
  datatype WeeklyEntry = WeeklyEntry(
    dayOfWeek: int,
    date: Instant,
    person: string,
    status: Status,
    completedAt: Option<Instant>)

  /** One person's counters in `IMonthlyStats`. */
  datatype Counts = Counts(done: int, missed: int)

  /** `IMonthlyStats`: person to counters. */
  type MonthlyStats = map<string, Counts>

  /** `ITrashDutyData`; `lastActionDate` null and `rotationOffset` absent are `None`. */
  datatype TrashDutyData = TrashDutyData(
    weekStartDate: Instant,
    weekNumber: int,
    currentDayIndex: int,
    weekSchedule: seq<WeeklyEntry>,
    monthlyStats: MonthlyStats,
    lastActionDate: Option<Instant>,
    lastUpdated: Instant,
    rotationOffset: Option<int>)

  const DaysPerWeek: int := 7

  predicate ValidEntry(e: WeeklyEntry) {
    0 <= e.dayOfWeek < DaysPerWeek
  }

  predicate DistinctDays(s: seq<WeeklyEntry>) {
    forall i, j :: 0 <= i < j < |s| ==> s[i].dayOfWeek != s[j].dayOfWeek
  }

  /** What the declared comments promise of a stored document. */
  predicate Valid(d: TrashDutyData) {
    && |d.weekSchedule| == DaysPerWeek
    && (forall i :: 0 <= i < |d.weekSchedule| ==> ValidEntry(d.weekSchedule[i]))
    && DistinctDays(d.weekSchedule)
    && 0 <= d.currentDayIndex < DaysPerWeek
    && Weekday(DayOf(d.weekStartDate)) == 1
    && 1 <= d.weekNumber <= 53
  }

  /** The weekdays of a schedule, in order. */
  function DaysOf(s: seq<WeeklyEntry>): (r: seq<int>)
    ensures |r| == |s| && forall i :: 0 <= i < |s| ==> r[i] == s[i].dayOfWeek
  {
    if s == [] then [] else [s[0].dayOfWeek] + DaysOf(s[1..])
  }

  /** A sequence of distinct values drawn from `pool` is no longer than the pool. */
  lemma {:induction false} DistinctWithin(s: seq<int>, pool: set<int>)
    requires forall i, j :: 0 <= i < j < |s| ==> s[i] != s[j]
    requires forall i :: 0 <= i < |s| ==> s[i] in pool
    ensures |s| <= |pool|
  {
    if s != [] {
      var rest := s[1..];
      assert forall i :: 0 <= i < |rest| ==> rest[i] == s[i + 1];
      DistinctWithin(rest, pool - {s[0]});
    }
  }

  /** Seven entries on seven distinct weekdays cover every weekday: each day has its entry. */
  lemma EveryDayScheduled(d: TrashDutyData, w: int)
    requires Valid(d) && 0 <= w < DaysPerWeek
    ensures exists i :: 0 <= i < |d.weekSchedule| && d.weekSchedule[i].dayOfWeek == w
  {
    var days := DaysOf(d.weekSchedule);
    if forall i :: 0 <= i < |d.weekSchedule| ==> d.weekSchedule[i].dayOfWeek != w {
      var pool := {0, 1, 2, 3, 4, 5, 6} - {w};
      assert |pool| == 6;
      DistinctWithin(days, pool);
      assert false;
    }
  }
}
