# FMC holiday-aware deadline engine, in Dafny

This project models the time-status engine of the FMC holiday planner: the
tool that tells a maritime operator whether the Panama maritime authority
(the FMC) is Working, Non-Working or on Holiday at a given instant, which
non-Working window starts next, and the latest safe submission deadline for
a filing four days before an intended operation.

The model follows the engine's own structure:

- `Instants` (instants.dfy): instants are whole milliseconds since the Unix
  epoch, the value a JavaScript `Date` holds; unit constants; the reading of
  an ISO date-time with a fixed UTC offset (`InstantAt`, `IsoInstant`) on top
  of a proleptic Gregorian day count (`DaysFromCivil`).
- `Zones` (zones.dfy): the three zones of `OFFSETS`, `getZoneTime` as
  `ZoneTime`, and the day-of-week reading used by the weekend rule.
- `Schedule` (schedule.dfy): the `ScheduleEntry` record as `Window`, its
  three statuses, and the closed-interval test the classifier uses.
- `Calendar` (calendar.dfy): the ordered twelve-window table
  `HOLIDAY_WINDOWS`, written with the same Panama wall-clock boundaries as
  the source, plus lemmas on its shape.
- `TimeUtils` (time_utils.dfy): the engine, parameterised by the window
  list. `Classify` is `getFMCStatus`, `UpcomingHolidayInfo` is
  `getUpcomingHolidayInfo` and `SafeDeadline` is `calculateSafeDeadline`.
  Each has an independent reference predicate: `IsFirstMatch`/`Uncovered`
  for the classifier, `IsCandidate` for the finder, `IsStoppingStep` for the
  backward walk.
- `FmcSchedule` (fmc_schedule.dfy): the engine applied to the static table,
  with the concrete behaviours the table produces.

Modelling decisions:

- The zone view of an instant is `t + offset * 3600000`, read as UTC. In the
  source, `getZoneTime` adds the host's `getTimezoneOffset()` and the caller
  then reads the fields in host-local time, so the host offset cancels; only
  the net shift is modelled.
- The weekday is `((local / 86400000) + 4) % 7`, 0 = Sunday, since
  1970-01-01 was a Thursday. Dafny's `/` rounds down for a positive divisor,
  which is what the calendar needs before the epoch too.
- The backward walk of `calculateSafeDeadline` is `WalkSteps`, a recursion
  on the loop's `(deadline, safetyCounter)` state. It returns the number of
  one-hour steps taken, and the deadline is the naive deadline minus that
  many hours. This is the loop's own invariant.
- `getUpcomingHolidayInfo` filters, sorts by start and takes element 0.
  JavaScript's `Array.prototype.sort` is stable, so element 0 is the
  earliest start and, among equal starts, the window listed first.
  `EarliestFrom` makes exactly that choice.
- All instants here are integers far below 2^53, so JavaScript's
  double-precision arithmetic is exact on them, and `Math.floor` of a
  positive quotient is Dafny's `/`.

Behaviour of the code worth stating up front:

- There is no failure path at the 500-step cap: the 500th candidate is
  returned unchecked (`SafeDeadlineCapUnchecked`).
- The code never validates the table; its well-formedness is proved as
  lemmas (`Calendar`).
- A 2026-01-05 12:00 Panama target gives 2025-12-31 21:00, because Shift 2
  is listed before Late Night and wins at its inclusive end
  (`DeadlineWalksOutOfNewYear`).
- The fallback for instants in no window is the generic day-of-week rule.

## Model

| member | source | states |
|---|---|---|
| Instants.UnitsNest | utils/timeUtils.ts:47 | a day is 24 hours of 60 minutes of 60 seconds of 1000 ms, the constants the engine uses |
| Instants.CivilAnchors | constants.ts:15-88 | the calendar days the table names have the epoch-day numbers used to write it (2025-12-24 is day 20446, 2026-01-01 follows 2025-12-31) |
| Zones.ZoneTimeRoundTrip | utils/timeUtils.ts:4-7 | shifting into a zone and back by the opposite offset gives the instant back; shifts compose additively |
| Zones.OffsetsTable | constants.ts:4-8 | the offsets are Panama -5, Taiwan +8, GMT 0; the Taiwan view is 13 hours ahead of the Panama view; GMT is the identity |
| Zones.Weekday | utils/timeUtils.ts:28-29 | the weekday read from a zone view is one of 0 (Sunday) to 6 (Saturday) |
| Zones.WeekdayNextDay | utils/timeUtils.ts:28-29 | one day later is the next weekday, Saturday wrapping to Sunday |
| Zones.WeekdaySameDay | utils/timeUtils.ts:28-29 | every millisecond of a day has the same weekday, counted from a Thursday epoch |
| Calendar.DaysAreCivilDates | constants.ts:13-90 | each table boundary equals the instant its ISO text `YYYY-MM-DDThh:mm:ss-05:00` denotes |
| Calendar.PanamaAtReadsBack | constants.ts:15 | a boundary written with `-05:00`, viewed in the Panama zone, shows exactly the day and wall-clock time it was written with |
| Calendar.WindowsNonEmpty | constants.ts:11-91 | every window starts strictly before it ends |
| Calendar.WindowsAscending | constants.ts:11-91 | the table has twelve windows, listed in strictly ascending order of start |
| Calendar.WindowsWithinPanamaDays | constants.ts:11-91 | no window crosses a Panama-local midnight |
| Calendar.SameDayWindowsTouch | constants.ts:13-82 | within Dec 24 and within Dec 31 each window ends exactly where the next starts |
| Calendar.DaysEndOneSecondEarly | constants.ts:37-90 | Late Night and Holiday windows end at 23:59:59 Panama time and the windows after them start at 00:00:00 |
| Calendar.HolidaysAreWholeDays | constants.ts:44-90 | exactly two windows are Holiday, Dec 25 and Jan 1 from 00:00:00 to 23:59:59, both noted "Full Holiday" |
| Calendar.WorkingShifts | constants.ts:19-76 | exactly four windows are Working: Shift 1 06:00-13:30 and Shift 2 14:00-21:00 on Dec 24 and Dec 31 |
| TimeUtils.FirstMatchFrom | utils/timeUtils.ts:21-25 | the scan returns the first window from the given position that contains the instant, and none before it does; or none contains it |
| TimeUtils.Classify | utils/timeUtils.ts:17-37 | the status and note of the first listed window holding the instant; otherwise Non-Working "Weekend" on a Panama Saturday or Sunday, otherwise Working with no note |
| TimeUtils.ClassifyCases | utils/timeUtils.ts:21-36 | every instant is either covered, with a first match, or uncovered and left to the fallback, never both |
| TimeUtils.FallbackIff | utils/timeUtils.ts:28-36 | an uncovered instant is Working if and only if it is not a Panama weekend day, and otherwise carries the note "Weekend" |
| TimeUtils.EarliestFrom | utils/timeUtils.ts:50-52 | the chosen window is not Working, starts after now, starts no later than any other such window, and is the first listed among equal starts |
| TimeUtils.UpcomingHolidayInfo | utils/timeUtils.ts:45-65 | non-null if and only if some non-Working window starts after now and within 24 hours; then it reports the earliest such start, its status (never Working), and the whole hours to it, from 0 to 24 |
| TimeUtils.WalkSteps | utils/timeUtils.ts:71-76 | the loop stops at its first Working candidate, or at the cap, and every candidate before the stop was not Working |
| TimeUtils.StoppingStepAfterOneStep | utils/timeUtils.ts:73-75 | one non-Working step followed by a walk that stops after k steps is a walk that stops after k + 1 steps |
| TimeUtils.StoppingStepFacts | utils/timeUtils.ts:73-77 | stopping after k steps lands a whole number of hours back, at most 500; before the cap the landing instant is Working and every later step is not |
| TimeUtils.SafeDeadline | utils/timeUtils.ts:67-78 | the deadline is a whole number of hours, 0 to 500, before the target minus four days; before the cap it is Working and every later hour step up to the naive deadline is not, so it is the latest Working hour step |
| TimeUtils.StoppingStepUnique | utils/timeUtils.ts:73-76 | the stopping step of the walk is unique, so the deadline depends on the classifier alone |
| TimeUtils.SafeDeadlineCharacterised | utils/timeUtils.ts:67-78 | the deadline is the k-th hour step back if and only if k is the walk's stopping step |
| TimeUtils.SafeDeadlineKeepsWorking | utils/timeUtils.ts:69-73 | a naive deadline that is already Working is returned unchanged |
| TimeUtils.SafeDeadlineCapUnchecked | utils/timeUtils.ts:73-77 | for any list, when no hour step within the cap is Working, the 500th step is returned even though it is not Working |
| TimeUtils.SafeDeadlineCapExample | utils/timeUtils.ts:73-77 | a single Non-Working window over the whole search range is a list that makes the walk return its non-Working 500th step |
| FmcSchedule.SharedBoundariesGoToEarlierWindow | utils/timeUtils.ts:21-25 | at 06:00, 13:30, 14:00 and 21:00 on Dec 24 and Dec 31 the earlier-listed window wins: Early Morning, Shift 1, Break, Shift 2 |
| FmcSchedule.HolidaysClassified | constants.ts:44-90 | every instant of Dec 25 and Jan 1 up to 23:59:59 is a Holiday with note "Full Holiday" |
| FmcSchedule.MidnightGapIsWorking | constants.ts:37-90 | the 999 ms after 23:59:59 that ends each Late Night or Holiday window are in no window and, being on a weekday, are Working |
| FmcSchedule.WeekendAfterChristmas | utils/timeUtils.ts:28-36 | 2025-12-27 and 2025-12-28 are Non-Working "Weekend" and 2025-12-29 is Working, by the fallback rule |
| FmcSchedule.DeadlineAlreadyWorking | utils/timeUtils.ts:67-78 | a target of 2025-12-28 12:00 Panama gives 2025-12-24 12:00, inside Shift 1, unchanged |
| FmcSchedule.DeadlineWalksOutOfNewYear | utils/timeUtils.ts:67-78 | a target of 2026-01-05 12:00 Panama walks 15 hours back through Holiday and Late Night to 2025-12-31 21:00, the end of Shift 2 |
| FmcSchedule.LateNightAnnounced | utils/timeUtils.ts:45-65 | at 2025-12-24 20:00 Panama the Late Night window at 21:00 is announced, 1 hour ahead |
| FmcSchedule.NothingAnnouncedFourDaysAhead | utils/timeUtils.ts:45-65 | at 2025-12-20 00:00 Panama nothing is announced, since the next non-Working window is four days away |
| FmcSchedule.WindowStartingNowSkipped | utils/timeUtils.ts:50-52 | a window starting exactly now is not announced: at 21:00 on Dec 24 the Dec 25 holiday, 3 hours ahead, is reported instead of Late Night |
| FmcSchedule.BreakAnnouncedInZeroHours | utils/timeUtils.ts:58 | the hours are rounded down: the Break 30 minutes ahead is announced as starting in 0 hours |

## Left out

- `formatTime` and `formatDateShort` (utils/timeUtils.ts:9-15): locale string formatting, a library concern.
- The host's `getTimezoneOffset` and daylight saving: the zone shift is the fixed net offset; a host whose offset changes between the two reads in `getZoneTime` is not modelled.
- The range limit of JavaScript `Date` (±8.64e15 ms) and invalid dates: instants are unbounded integers.
- The user interface (App.tsx, components/*.tsx, index.tsx): rendering, timers, sliders, language toggling and host-local parsing of form input. They call the four engine functions and the two formatting helpers; the day ribbon's host-local hour arithmetic (components/TimeTraveler.tsx:65-75) is not modelled.
- The display copy of the table in components/HolidayScheduleTable.tsx: the engine never reads it.
- The unused `CalculationResult` type in types.ts.
- TimeUtils.UpcomingHolidayInfo: the source's `status` field is a string; the model returns the `Status` value it is copied from.
- Zones.Weekday: states only the range of the result; its meaning is carried by the anchor and next-day lemmas listed with it.
