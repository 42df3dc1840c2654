# Household duty tracker: daily duty status, week/month helpers, countdown

This project models the daily duty-status logic of a household chore tracker in Dafny and proves properties of it.

- **Auto-miss check** (`AutoMarkMissed`, `auto_mark_missed.dfy`). From 22:00, a duty still pending for today is marked `missed`. The assignee's monthly `missed` counter rises by one. The day is stamped as acted on, so no second action is recorded that day.
- **Record types** (`DutyRecords`, `duty_records.dfy`). The week schedule entries, the monthly counters and the shared duty document, plus the `Valid` predicate their declarations promise.
- **Week and month helpers** (`DateHelpers`, `date_helpers.dfy`). ISO 8601 week number (section 4.1.4 of ISO 8601:2004), Monday of the week, new-week and new-month detection.
- **Countdown** (`DeadlineCounter`, `deadline_counter.dfy`). Time left until the next 23:00, split into hours, minutes and seconds, the `HH:MM:SS` text, and the urgency level.
- **Push-token key** (`PushTokens`, `push_tokens.dfy`). The database path a device token is stored under, with the characters the database refuses in keys replaced by `_`.
- **Calendar** (`Calendar`, `calendar.dfy`). The local clock and the proleptic Gregorian calendar that the JavaScript `Date` methods used above expose.

Time is one local clock. An instant is a whole number of milliseconds since 1970-01-01 00:00:00.000. A calendar day is an integer day number (`DayOf`), and weekdays count 0 = Sunday, like `getDay()`. ISO strings are held as instants. `null` and absent optional fields are `None`.

The code checks `currentHour < 22` (hooks/use-auto-mark-missed.ts:25, 99). A comment in the same file speaks of 23:00, and the countdown's deadline is 23:00. The model follows the code's 22.

## Model

| member | source | states |
|---|---|---|
| `Calendar.HourOf` | hooks/use-auto-mark-missed.ts:21 | `getHours()` is in 0..23 and is the hour that holds the time of day |
| `Calendar.Weekday` | hooks/use-auto-mark-missed.ts:22 | `getDay()` is in 0..6 |
| `Calendar.YearOf` | helpers/functions.ts:2 | `getFullYear()`: the one year whose days contain the day |
| `Calendar.MonthOf` | helpers/functions.ts:2 | `getMonth()` is in 0..11 and its days contain the day |
| `Calendar.DateOf` | helpers/functions.ts:2 | `getDate()` lies between 1 and the length of its month |
| `Calendar.DayFromCivil` | helpers/functions.ts:2-5 | `Date.UTC(y, m, date)` as a day number, a definition without its own contract: `CivilRoundTrip` (a day's own year, month and date rebuild it) and `CivilFromDayRoundTrip` state its meaning |
| `Calendar.CivilFromDayRoundTrip` | helpers/functions.ts:2 | `Date.UTC` of a real year, month and date reads back as that same year, month and date |
| `Calendar.SetDate` | helpers/functions.ts:14 | `setDate(n)` moves the day by `n - getDate()`, rolling over months, and keeps the time of day |
| `Calendar.MonthStart` | helpers/functions.ts:14 | the first of the month is at most 30 days back and in the same month and year |
| `DateHelpers.IsoWeekday` | helpers/functions.ts:3 | `getUTCDay()`, with Sunday as 7, is in 1..7 and agrees with the weekday mod 7 |
| `DateHelpers.WeekThursday` | helpers/functions.ts:3-4 | the shifted day is a Thursday, `4 - dayNum` days from the input |
| `DateHelpers.GetWeekNumber` | helpers/functions.ts:1-7 | the week number is in 1..53 and depends only on the local calendar day |
| `DateHelpers.WeekNumberOfDay` | helpers/functions.ts:4-6 | the week number of a day number is in 1..53 |
| `DateHelpers.CeilDiv7` | helpers/functions.ts:6 | `Math.ceil(n / 7)` is the least `r` with `n <= 7r` |
| `DateHelpers.WeekNumberIgnoresTimeOfDay` | helpers/functions.ts:2 | two instants on one calendar day get one week number |
| `DateHelpers.WeekNumberConstantOnWeek` | helpers/functions.ts:3-4 | Monday through the following Sunday all get the Monday's week number |
| `DateHelpers.WeekNumberOfJanuaryFourth` | helpers/functions.ts:3-6 | January 4 of every year is in week 1 |
| `DateHelpers.WeekNumberNextWeek` | helpers/functions.ts:3-6 | within one ISO year, the next Monday's week number is one higher |
| `DateHelpers.GetMondayOfWeek` | helpers/functions.ts:10-15 | the result is a Monday 0 to 6 days before the input, at the same time of day |
| `DateHelpers.MondayOfWeekUnique` | helpers/functions.ts:10-15 | the result is the only Monday among the input's day and the six days before it |
| `DateHelpers.MondayOfSunday` | helpers/functions.ts:13 | a Sunday goes back exactly six days |
| `DateHelpers.MondayOfMonday` | helpers/functions.ts:10-15 | on a Monday the input comes back unchanged |
| `DateHelpers.MondayOfWeekIdempotent` | helpers/functions.ts:10-15 | applying it twice gives the same instant as once |
| `DateHelpers.ClearHoursMinutesSeconds` | helpers/functions.ts:21-22 | `setHours(0,0,0)` keeps the day and leaves the milliseconds as the time of day |
| `DateHelpers.IsNewWeek` | helpers/functions.ts:18-24 | `isNewWeek` as written, a definition without its own contract: `IsNewWeekByCalendarDay`, `IsNewWeekSameDay` and `IsNewWeekWithinStoredWeek` state what it computes |
| `DateHelpers.IsNewWeekByCalendarDay` | helpers/functions.ts:18-24 | a later Monday day than `lastWeekStart` gives true; an earlier one gives false |
| `DateHelpers.IsNewWeekSameDay` | helpers/functions.ts:21-23 | on the same calendar day the result is true exactly when the current millisecond field is larger |
| `DateHelpers.IsNewWeekWithinStoredWeek` | helpers/functions.ts:18-24 | against a stored `getMondayOfWeek` value, an instant of that same week with a larger millisecond field reads as a new week |
| `DateHelpers.IsNewWeekSameMondayExample` | helpers/functions.ts:18-24 | Monday 1970-01-05 10:00:00.100 stored, 12:00:00.500 that day: reported as a new week |
| `DateHelpers.IsNewWeekByDay` | helpers/functions.ts:17-24 | corrected helper: against a stored Monday it is true exactly when the current date is at least 7 days later; wherever the two Mondays fall on different days it agrees with `isNewWeek` as written |
| `DateHelpers.IsNewWeekByDayWithinStoredWeek` | helpers/functions.ts:17-24 | the corrected helper never reports a new week inside the stored week, whatever the times of day |
| `DateHelpers.IsNewMonth` | helpers/functions.ts:27-31 | true exactly when the year or month of the two days differ |
| `DateHelpers.IsNewMonthConvex` | helpers/functions.ts:27-31 | if the two ends of an interval are in one month, so is every instant between them |
| `DateHelpers.IsNewMonthAfterThirtyOneDays` | helpers/functions.ts:27-31 | two days 31 or more days apart are always in different months |
| `DateHelpers.IsNewMonthAtFirstOfMonth` | helpers/functions.ts:27-31 | any earlier day than the first of a month is in a different month |
| `DutyRecords.Valid` | interfaces/index.ts:16-25 | the stored document's promises: seven entries on distinct weekdays in 0..6, `currentDayIndex` in 0..6, a Monday week start, a week number in 1..53; a predicate whose consequences `EveryDayScheduled`, `ValidHasTodayEntry` and `CheckPreservesValid` state |
| `DutyRecords.EveryDayScheduled` | interfaces/index.ts:20 | seven entries with distinct weekdays in 0..6 give every weekday an entry |
| `AutoMarkMissed.FindDay` | hooks/use-auto-mark-missed.ts:29-31 | returns the first entry with today's weekday; none is returned only when no entry has it |
| `AutoMarkMissed.MarkEntry` | hooks/use-auto-mark-missed.ts:52-60 | an entry on today's weekday becomes missed at `now`; day, date and person are kept; any other entry is returned unchanged |
| `AutoMarkMissed.MarkDayMissed` | hooks/use-auto-mark-missed.ts:52-60 | each entry on today's weekday becomes missed at `now` with its day, date and person kept; every other entry is unchanged; the length is kept |
| `AutoMarkMissed.CountsOf` | hooks/use-auto-mark-missed.ts:64-66 | the person's counters, or `{done: 0, missed: 0}` when absent, a definition without its own contract: `RecordMiss` and `RetryWithCopiedCounterCountsOnce` state the counts built on it |
| `AutoMarkMissed.RecordMiss` | hooks/use-auto-mark-missed.ts:63-67 | the person's `missed` rises by 1 from their counts or from `{0, 0}`; their `done` and everyone else's counts are unchanged |
| `AutoMarkMissed.ActedToday` | hooks/use-auto-mark-missed.ts:41-49 | `isSameDay`: `lastActionDate` is set and on today's calendar day, a predicate whose effect `CheckAndMarkMissed` (an action today leaves the record unchanged) and `OneActionPerDay` state |
| `AutoMarkMissed.Due` | hooks/use-auto-mark-missed.ts:21-49 | all early-return guards pass, a predicate whose meaning `CheckAndMarkMissed` states: the record changes exactly when `Due` holds |
| `AutoMarkMissed.CheckAndMarkMissed` | hooks/use-auto-mark-missed.ts:19-76 | before 22:00, without a today entry, with today's entry not pending, or after an action today, the record is unchanged. Otherwise today's entries become missed, the person's `missed` rises by 1, `lastActionDate` and `lastUpdated` become now, and the other fields are carried over |
| `AutoMarkMissed.OneActionPerDay` | hooks/use-auto-mark-missed.ts:41-74 | after a transition, any later check on the same calendar day changes nothing |
| `AutoMarkMissed.CheckIdempotent` | hooks/use-auto-mark-missed.ts:37-74 | a second check at the same instant gives the same record as the first |
| `AutoMarkMissed.MarkedEntryNotPending` | hooks/use-auto-mark-missed.ts:37-60 | after the transition, today's first entry is no longer pending, so the pending guard alone blocks a second mark |
| `AutoMarkMissed.CheckPreservesValid` | hooks/use-auto-mark-missed.ts:52-76 | a valid document stays valid |
| `AutoMarkMissed.ValidHasTodayEntry` | hooks/use-auto-mark-missed.ts:29-35 | on a valid document the no-entry guard never fires |
| `AutoMarkMissed.InputAfterCheck` | hooks/use-auto-mark-missed.ts:63-67 | the caller's record after the call: with the shared counters as written, only an already-counted person's `missed` rises by 1 and every other field and counter is as before; with copied counters, or when a guard returns, the record is unchanged |
| `AutoMarkMissed.RetryAfterFailedWriteCountsTwice` | hooks/use-auto-mark-missed.ts:63-90 | after a swallowed write failure, a rerun on the caller's record writes `missed` two above the original |
| `AutoMarkMissed.RetryWithCopiedCounterCountsOnce` | hooks/use-auto-mark-missed.ts:63-67 | with the counter copied before the increment, the retry on the caller's record after a failed write writes exactly what the first attempt wrote, with `missed` one above the original |
| `DeadlineCounter.Deadline` | hooks/use-deadline-counter.ts:32-42 | the deadline is 23:00 today or tomorrow; it is the first 23:00 strictly after now, and `0 < diff <= 24 h` |
| `DeadlineCounter.DecimalString` | hooks/use-deadline-counter.ts:61 | `String(n)` is all decimal digits: one digit below 10, two below 100 |
| `DeadlineCounter.DecimalRoundTrip` | hooks/use-deadline-counter.ts:61 | the digits read back as the number |
| `DeadlineCounter.Pad2` | hooks/use-deadline-counter.ts:61 | `padStart(2, '0')` gives digits, at least 2 of them, exactly 2 below 100 |
| `DeadlineCounter.Pad2RoundTrip` | hooks/use-deadline-counter.ts:61 | the padded field reads back as the number |
| `DeadlineCounter.FormatClock` | hooks/use-deadline-counter.ts:61 | the text is 8 characters with ':' at positions 2 and 5 when every field is below 100 |
| `DeadlineCounter.FormatClockRoundTrip` | hooks/use-deadline-counter.ts:61 | the three two-digit fields of the text read back as hours, minutes and seconds |
| `DeadlineCounter.ExpiredResult` | hooks/use-deadline-counter.ts:44-53 | the expired result is all zeros, expired, with text `00:00:00` |
| `DeadlineCounter.Split` | hooks/use-deadline-counter.ts:56-58 | `h·3600000 + m·60000 + s·1000 <= diff` and `diff` is less than that plus 1000, with `m, s < 60` |
| `DeadlineCounter.CalculateTimeRemaining` | hooks/use-deadline-counter.ts:29-75 | the computed result is never expired; its fields split the time to the deadline exactly; hours are at most 24; the text is the padded fields and is 8 characters |
| `DeadlineCounter.GetUrgencyLevel` | hooks/use-deadline-counter.ts:96-110 | expired is critical; otherwise, with total minutes = hours·60 + minutes, below 60 is critical, below 180 is warning, and the rest is normal |
| `DeadlineCounter.UrgencyMonotone` | hooks/use-deadline-counter.ts:101-109 | more minutes left never gives a more urgent level |
| `DeadlineCounter.UrgencyOfCountdown` | hooks/use-deadline-counter.ts:93-109 | for the countdown, critical means under 1 h left, warning means 1 h to under 3 h, and normal means 3 h or more |
| `PushTokens.SanitizeChar` | helpers/notifications.ts:82 | the five reserved characters become '_'; every other character is kept |
| `PushTokens.Sanitize` | helpers/notifications.ts:82 | the length is kept; each reserved character becomes '_' and every other one, '/' included, stays in place |
| `PushTokens.SanitizedHasNoReserved` | helpers/notifications.ts:82 | the key contains none of `.`, `#`, `$`, `[`, `]` |
| `PushTokens.SanitizeIdempotent` | helpers/notifications.ts:82 | sanitising twice is the same as once |
| `PushTokens.SanitizeFixedPoints` | helpers/notifications.ts:82 | a token is its own key exactly when it has no reserved character |
| `PushTokens.TokenPath` | helpers/notifications.ts:79-83 | the path is `pushTokens/` followed by the token's own characters, with only the reserved ones replaced |
| `PushTokens.TokenPathSameKey` | helpers/notifications.ts:79-83 | two tokens share a path exactly when they share a sanitised key |
| `PushTokens.DistinctTokensCanCollide` | helpers/notifications.ts:79-83 | different tokens such as `a.b` and `a_b` can share a path |

## Left out

- React plumbing is left out: `useEffect`, `useState` and the `setInterval` polling (hooks/use-auto-mark-missed.ts:16-17, 93-105; hooks/use-deadline-counter.ts:19-28, 77-88). One call of the inner function is modelled. The retry lemma stands for the next interval tick.
- Database writes are left out (hooks/use-auto-mark-missed.ts:78; helpers/notifications.ts:84-88). The model returns the record to be written. A failed write appears only as "the caller's record is reused".
- Push notification I/O is left out: `sendNotification` (hooks/use-auto-mark-missed.ts:80-87), permissions, Expo token fetch and AsyncStorage (helpers/notifications.ts:8-75). These are foreign calls.
- `percentageRemaining` (hooks/use-deadline-counter.ts:63-65) is left out because it is floating point.
- Time zones, daylight saving time, and ISO string printing and parsing (`toISOString`, `toDateString`, `new Date(string)`) are left out. Dates are local instants, so `toDateString` equality is equality of `DayOf`. An invalid date string is not modelled.
- `DeadlineCounter.CalculateTimeRemaining`: the two clock reads at lines 30 and 33 are one instant. So the `diff <= 0` branch (lines 44-53) cannot be taken in the model, and that result is modelled only as `ExpiredResult`.
- `DateHelpers.IsNewMonth` takes the current date as a parameter instead of reading the clock (helpers/functions.ts:29).
- `Date.UTC` maps years 0-99 to 1900-1999; `DateHelpers.GetWeekNumber` does not model that mapping. JavaScript's date range limit of ±8.64e15 ms is not modelled either.
- Counters are unbounded integers. Precision loss of JavaScript numbers above 2^53 is not modelled.
- `AutoMarkMissed.CheckAndMarkMissed` returns a new value. The in-place mutation of the caller's counter object is modelled separately by `InputAfterCheck`, as a value. Object identity itself is not modelled.
- The weekly rotation generator and the mark-done and undo handlers (app/(tabs)/index.tsx) are not part of this model. Neither is the expense ledger (app/(tabs)/finance.tsx).
- Configuration, layout and the context provider (app.config.js, configs/db.ts, app/_layout.tsx, context/context.tsx) are not part of this model.

## Findings

| source | as written | input that shows it | evidently intended | confidence | as-written member | corrected member |
|---|---|---|---|---|---|---|
| helpers/functions.ts:21-23 | `setHours(0,0,0)` keeps the milliseconds. The week start is stored as `getMondayOfWeek(today)` with today's time of day (app/(tabs)/index.tsx:95, 123). So inside that same week, a current instant with a larger millisecond field reads as a new week. | stored Monday 1970-01-05 10:00:00.100; current 12:00:00.500 that day | a new week only when the current week's Monday is a later calendar day | medium, not executed | `DateHelpers.IsNewWeekWithinStoredWeek` | `DateHelpers.IsNewWeekByDayWithinStoredWeek` |
| hooks/use-auto-mark-missed.ts:63-67 | the stats copy is shallow, so `missed += 1` also bumps the caller's counter object. After a write failure, which the catch at line 88 swallows, the interval reruns on that record and counts the miss again. | person with `{done: 0, missed: 3}` is due; the write at line 78 rejects; the next tick writes `missed: 5` | the miss counted once: `missed: 4` | low, not executed | `AutoMarkMissed.RetryAfterFailedWriteCountsTwice` | `AutoMarkMissed.RetryWithCopiedCounterCountsOnce` |
