# MiqSchedule recurrence rules in Dafny

This project models the recurrence core of ManageIQ's `MiqSchedule` and proves properties of it:

- `valid?`, the structural check of a schedule's `run_at` record;
- `next_interval_time`, the next instant at which a schedule fires.

The repository's implementation file is not part of this model. The behaviour is taken from the expectations in `spec/models/miq_schedule_spec.rb`, and each of those expectations is a lemma here.

## Shape

A `run_at` holds a `start_time`, an `interval` with a `unit` (`once`, `hourly`, `daily`, `monthly`) and a `value` (the count N, stored as a string), and an optional `tz`.

Instants are integer seconds since the epoch. The model's rules:

- **Start in the future:** if the start time is after `now`, it is the answer.
- **Once:** a `once` schedule answers its start time.
- **Repeating:** otherwise the points k = 1, 2, … of a grid anchored at the start are searched, and the first point strictly after `now` is the answer.
  - **Hourly:** the k-th point is start + k·N hours, in plain UTC arithmetic.
  - **Daily:** the start's wall-clock reading in the zone is moved forward k·N days. That reading is then resolved back to an instant in the same zone.
  - **Monthly:** the start's local date is moved k·N months, always from the start and never from the previous point (a choice of the model, see "## Left out"). The day of month is clamped to the target month's length, leap years included. The time of day is kept, and the reading is resolved in the zone.
- **No zone:** a schedule without `tz` uses UTC.

Time zones are a parameter `zoneNamed: string -> Zone`. A `Zone` is an offset function from instants to offsets of at most 14 hours. A wall-clock reading is resolved in two passes: first the offset at the reading is read as if it were UTC, then the offset at the instant that first guess gives. The clock (`Timecop`) becomes the explicit parameter `now`.

| file | module | contents |
|---|---|---|
| wrappers.dfy | Wrappers | `Option`, `Result` |
| zones.dfy | Zones | offsets, local↔UTC conversion, how shown, repeated and skipped readings resolve |
| calendar.dfy | Calendar | days-from-civil and back, month arithmetic with clamping, instants to date/hour/minute |
| run_at.dfy | RunAts | the raw record, the validator, decimal counts |
| recurrence.dfy | Recurrence | grid points, the search for the next point, `NextIntervalTime`, `NextTimeOf` |
| recurrence_facts.dfy | RecurrenceFacts | properties of the grid and of the next instant |
| schedule.dfy | Schedules | the schedule record as a class whose attributes are assigned in place |
| scenarios.dfy | Scenarios | the example schedules, in the zones they use |

## Model

| member | source | states |
|---|---|---|
| RunAts.Validate | spec/models/miq_schedule_spec.rb:311-344 | a nil record, a missing start time, a missing interval and a missing unit each fail with their own error, in that order. Past those checks, three errors each hold exactly on their own inputs: an unknown unit gives `UnknownUnit` with that unit; a known repeating unit without a value gives `MissingValue`; and one whose value is not a positive decimal gives `InvalidValue` with that value. A success carries exactly the stored start, zone, unit and parsed count |
| RunAts.ValidIffWellFormed | spec/models/miq_schedule_spec.rb:311-344 | the validator accepts exactly the records that have every field, a known unit and, for a repeating unit, a positive decimal count |
| RunAts.ValidateToRaw | spec/models/miq_schedule_spec.rb:336-344 | storing a validated record and validating it again gives it back |
| RunAts.ParseDecimal | spec/models/miq_schedule_spec.rb:336-339 | a stored `value` parses to a count exactly when it is a non-empty string of decimal digits |
| RunAts.ParseFormatDecimal | spec/models/miq_schedule_spec.rb:336-339 | the decimal count written out parses back to itself |
| Schedules.Schedule.constructor | spec/models/miq_schedule_spec.rb:301-309 | a new schedule holds the given `run_at` and has never run |
| Schedules.Schedule.SetRunAt | spec/models/miq_schedule_spec.rb:311-344 | assigning `run_at` replaces it and keeps the last run |
| Schedules.Schedule.HasValidRunAt | spec/models/miq_schedule_spec.rb:311-344 | `valid?` holds exactly when the stored `run_at` is well formed: every field present, a known unit and, for a repeating unit, a positive decimal count |
| Schedules.Schedule.SetLastRunOn | spec/models/miq_schedule_spec.rb:556-596 | assigning `last_run_on` replaces it and keeps `run_at` |
| Schedules.Schedule.NextIntervalTime | spec/models/miq_schedule_spec.rb:179-299 | there is a next time exactly when the schedule is valid, and otherwise the validation error; a valid one's is `Recurrence.NextIntervalTime` of the validated `run_at`: a future start is returned as is, `once` gives the start, and a started repeating schedule gives the first point of its grid after `now` |
| Recurrence.NextIntervalTime | spec/models/miq_schedule_spec.rb:546-652 | a start after `now` is the answer; `once` answers its start; a repeating schedule answers a grid point k ≥ 1 after `now` such that every earlier point is not after `now` |
| Recurrence.NextTimeOf | spec/models/miq_schedule_spec.rb:311-344 | an invalid record has no next time and reports its validation error; for a valid stored record, a start after `now` or a `once` unit gives the stored start, and any other unit gives, once started, the first point of the validated grid after `now` |
| Recurrence.Candidate | spec/models/miq_schedule_spec.rb:179-299 | the k-th grid point (from `GridOf` and `WallReading`): on a daily or monthly grid it lies within 14 hours of the k-th reading; the RecurrenceFacts rows state what it keeps (elapsed hours, the local time of day, the clamped anchor date) |
| Recurrence.FirstAfter | spec/models/miq_schedule_spec.rb:561-571 | the index found is the first from `k` whose point is after `now` |
| Recurrence.NextIndex | spec/models/miq_schedule_spec.rb:622-638 | the index chosen is at least 1, its point is after `now` and no earlier point is |
| RecurrenceFacts.NextIndexCharacterized | spec/models/miq_schedule_spec.rb:622-638 | an index is the one chosen exactly when it is the first point after `now` |
| RecurrenceFacts.HourlyIncreasing | spec/models/miq_schedule_spec.rb:573-577 | hourly points strictly increase |
| RecurrenceFacts.DailyIncreasing | spec/models/miq_schedule_spec.rb:346-424 | daily points strictly increase in any zone whose offsets differ by less than a day |
| RecurrenceFacts.MonthlyIncreasing | spec/models/miq_schedule_spec.rb:217-299 | monthly points strictly increase in every zone (consecutive points are at least 28 days of wall clock apart) |
| RecurrenceFacts.MonthlyReadingGap | spec/models/miq_schedule_spec.rb:243-281 | readings with the same day and time in two different months are at least 28 days apart, clamping included |
| RecurrenceFacts.NextIsLeastPointAfter | spec/models/miq_schedule_spec.rb:573-577 | on an increasing grid the next instant is a grid point after `now` and is no later than any grid point after `now` |
| RecurrenceFacts.NextAt | spec/models/miq_schedule_spec.rb:561-577 | on an increasing grid, the point at `k` is the answer when it is after `now` and the point before it is not |
| RecurrenceFacts.HourlyNextIsAligned | spec/models/miq_schedule_spec.rb:622-638 | an hourly answer is a whole number of N-hour steps after the start, after `now`, and at most N hours after `now` |
| RecurrenceFacts.HourlyGridsAgree | spec/models/miq_schedule_spec.rb:185-215 | two hourly grids with the same start and count choose the same index, whatever their zones |
| RecurrenceFacts.HourlyIgnoresZone | spec/models/miq_schedule_spec.rb:185-215 | the zone has no effect on an hourly schedule |
| RecurrenceFacts.LastRunOnDoesNotShiftGrid | spec/models/miq_schedule_spec.rb:592-638 | the answer is the same whatever the last run |
| RecurrenceFacts.DailyPointKeepsWallClock | spec/models/miq_schedule_spec.rb:346-424 | where the wall-clock reading exists, the k-th daily point reads the start's time of day, k·N days after the start's local day |
| RecurrenceFacts.DailyKeepsWallClock | spec/models/miq_schedule_spec.rb:346-424 | for the schedule's own zone and start: when some instant shows the k-th reading and the offset changes at most once within 14 hours of it, the k-th point reads the start's local time of day, k·N days after the start's local day |
| RecurrenceFacts.DailyWithoutZone | spec/models/miq_schedule_spec.rb:426-480 | without a zone the k-th daily point is start + k·N days and keeps the UTC time of day |
| RecurrenceFacts.MonthlyReadingIsAddMonths | spec/models/miq_schedule_spec.rb:243-281 | the monthly reading is the local start date moved by whole months with its day clamped, at the start's time |
| RecurrenceFacts.MonthlyPointKeepsAnchor | spec/models/miq_schedule_spec.rb:243-299 | where the reading exists, the k-th monthly point reads the start date moved k·N months and the start's time of day |
| RecurrenceFacts.MonthlyKeepsAnchor | spec/models/miq_schedule_spec.rb:243-299 | for the schedule's own zone and start: when some instant shows the k-th reading and the offset changes at most once within 14 hours of it, the k-th point reads the start's local date moved k·N months (day clamped) and the start's local time of day |
| Calendar.AddMonths | spec/models/miq_schedule_spec.rb:243-281 | moving a date k months gives a valid date k months later whose day is the original or, when that does not exist, the month's last day |
| Calendar.AddMonthsDay | spec/models/miq_schedule_spec.rb:243-281 | the day number of the moved date is the target month's first day plus the clamped day |
| Calendar.DaysInMonth | spec/models/miq_schedule_spec.rb:243-266 | months have 28 to 31 days; February has 29 exactly in leap years |
| Calendar.CivilFromDays | spec/models/miq_schedule_spec.rb:217-299 | every day number is the day number of a valid date |
| Calendar.CivilRoundTrip | spec/models/miq_schedule_spec.rb:217-299 | converting a valid date to its day number and back gives the date |
| Calendar.DaysFromCivilInjective | spec/models/miq_schedule_spec.rb:217-299 | distinct valid dates have distinct day numbers |
| Calendar.DayAndTimeRoundTrip | spec/models/miq_schedule_spec.rb:217-299 | an instant built from a date and a second of the day has that date and that time of day |
| Calendar.InstantOfRoundTrip | spec/models/miq_schedule_spec.rb:185-215 | an instant built from a date, hour and minute reads back that date, hour and minute |
| Zones.SteadyOffsetResolves | spec/models/miq_schedule_spec.rb:346-424 | where a zone's offset is steady around a reading, the reading exists and resolves with that offset |
| Zones.ShownResolves | spec/models/miq_schedule_spec.rb:346-424 | a reading that some instant shows, with at most one offset change within 14 hours of it, resolves to an instant showing it |
| Zones.RepeatedReading | spec/models/miq_schedule_spec.rb:406-424 | a reading shown by two instants resolves to the earlier when the reading taken as UTC is before the change and to the later otherwise: the earlier in zones with negative offsets, the later in zones with positive ones |
| Zones.SkippedReading | spec/models/miq_schedule_spec.rb:366-384 | a reading no instant shows lies where the offset grows, and resolves to an instant reading the skipped span earlier when the reading taken as UTC is before the change (negative offsets) and that span later otherwise (positive offsets) |
| Zones.ToLocal | spec/models/miq_schedule_spec.rb:358-364 | `in_time_zone`: the wall-clock reading of an instant lies within 14 hours of it |
| Zones.ToUtc | spec/models/miq_schedule_spec.rb:346-424 | the instant a reading resolves to lies within 14 hours of it; which instant is stated by `ShownResolves`, `RepeatedReading` and `SkippedReading` |
| Zones.UtcIsIdentity | spec/models/miq_schedule_spec.rb:426-480 | UTC readings are the instants themselves |
| Scenarios.CentralHourlyStandardTime | spec/models/miq_schedule_spec.rb:185-199 | hourly from 01:35Z in Central time, at 3:00 CST the next run is 3:35 CST on 2012-03-10 |
| Scenarios.CentralHourlyIntoDaylightTime | spec/models/miq_schedule_spec.rb:201-215 | the same after the change to CDT: 3:35 CDT on 2012-03-11 |
| Scenarios.MonthlyFromFirstOfMonthBeforeStart | spec/models/miq_schedule_spec.rb:217-224 | before the start the start, 2012-01-01, is next |
| Scenarios.MonthlyFromFirstOfMonth | spec/models/miq_schedule_spec.rb:226-230 | after the start 2012-02-01 is next |
| Scenarios.MonthlyFromFirstOfMonthLongAgo | spec/models/miq_schedule_spec.rb:233-241 | from 2005-01-01, at 2013-01-01 08:31 the next run is 2013-02-01 |
| Scenarios.MonthlyFromEndOfMonthBeforeStart | spec/models/miq_schedule_spec.rb:243-250 | before the start the start, 2012-01-31, is next |
| Scenarios.MonthlyFromEndOfMonth | spec/models/miq_schedule_spec.rb:252-256 | after the start the clamped 2012-02-29 is next |
| Scenarios.MonthlyFromEndOfMonthLongAgo | spec/models/miq_schedule_spec.rb:258-266 | from 2005-01-31, at 2013-01-31 08:31 the next run is 2013-02-28 |
| Scenarios.MonthlyFromThirtiethBeforeStart | spec/models/miq_schedule_spec.rb:268-275 | before the start the start, 2012-01-30, is next |
| Scenarios.MonthlyFromThirtieth | spec/models/miq_schedule_spec.rb:277-281 | after the start the clamped 2012-02-29 is next |
| Scenarios.TwoMonthlyFromFirstOfMonth | spec/models/miq_schedule_spec.rb:283-290 | every two months from 2012-01-01, 2012-03-01 is next |
| Scenarios.TwoMonthlyFromEndOfMonth | spec/models/miq_schedule_spec.rb:292-299 | every two months from 2012-01-31, 2012-03-31 08:30 is next |
| Scenarios.MonthsDoNotAccumulate | spec/models/miq_schedule_spec.rb:243-266 | illustrates the model's counting rule for the end-of-month schedules, which no expectation singles out: two months from 2012-01-31 is 2012-03-31, while a month from the clamped 2012-02-29 is 2012-03-29 |
| Scenarios.HourlyWithLastRun | spec/models/miq_schedule_spec.rb:622-626 | a schedule record whose `last_run_on` is 20 minutes before `now` and whose `run_at` is stored as hourly "1" from 08:00 on 2010-12-02 answers, through the class, 07:00 on 2011-01-01 |
| Scenarios.DailyWithLastRun | spec/models/miq_schedule_spec.rb:604-608 | the same record with daily "1" from 05:00 answers 05:00 on 2011-01-02 |
| Scenarios.ValidityExamples | spec/models/miq_schedule_spec.rb:301-344 | on a schedule whose `run_at` is reassigned in turn, the seven records of the examples are judged invalid five times, then valid twice |
| Scenarios.EasternDailyFromStandardTime | spec/models/miq_schedule_spec.rb:346-364 | daily at 1 AM EST in Eastern time: the start and the next run read 1 AM |
| Scenarios.EasternDailyIntoDaylightTime | spec/models/miq_schedule_spec.rb:366-384 | after the change to EDT the next run still reads 1 AM |
| Scenarios.EasternDailyFromDaylightTime | spec/models/miq_schedule_spec.rb:386-404 | daily at 1 AM EDT: the start and the next run read 1 AM |
| Scenarios.EasternDailyIntoStandardTime | spec/models/miq_schedule_spec.rb:406-424 | after the change to EST the next run still reads 1 AM |
| Scenarios.EasternRepeatedHour | spec/models/miq_schedule_spec.rb:406-424 | 1 AM on 2010-11-07 is shown at 05:00 and at 06:00 UTC in Eastern time and resolves to the daylight-time instant, 05:00 UTC |
| Scenarios.UtcDailyStartHours | spec/models/miq_schedule_spec.rb:439-449 | without a zone the start reads 6 AM UTC and 1 AM EST |
| Scenarios.UtcDailyFromEasternStandardTime | spec/models/miq_schedule_spec.rb:443-453 | the next run reads 6 AM UTC and 1 AM EST |
| Scenarios.UtcDailyAcrossEasternDaylightTime | spec/models/miq_schedule_spec.rb:455-480 | after the change to EDT the next run stays at 06:00 UTC |
| Scenarios.MarchFifteenthHours | spec/models/miq_schedule_spec.rb:469-479 | that next run reads 6 AM UTC and 2 AM EDT |
| Scenarios.AlaskaEveryThreeDays | spec/models/miq_schedule_spec.rb:483-516 | every three days at 1 AM AKDT: the start and the next run, 2010-10-09, read 1 AM Alaska time and 5 AM Eastern time |
| Scenarios.AlaskaEveryThreeDaysIntoStandardTime | spec/models/miq_schedule_spec.rb:518-544 | after both zones return to standard time the next run still reads 1 AM Alaska time and 5 AM Eastern time |
| Scenarios.UtcDaily | spec/models/miq_schedule_spec.rb:561-571 | a daily schedule without zone fires at start + k·N days when that is after `now` and the step before is not |
| Scenarios.UtcDailyFromEightAm | spec/models/miq_schedule_spec.rb:561-565 | daily from 08:00Z, at 2011-01-01 06:00Z the next run is 08:00Z that day, whatever the last run |
| Scenarios.UtcDailyFromFiveAm | spec/models/miq_schedule_spec.rb:567-571 | daily from 05:00Z the next run is 05:00Z the day after |
| Scenarios.UtcFiveDailyFromEightAm | spec/models/miq_schedule_spec.rb:610-614 | every five days from 2010-12-02 08:00Z, 2011-01-01 08:00Z is next |
| Scenarios.UtcFiveDailyFromFiveAm | spec/models/miq_schedule_spec.rb:616-620 | every five days from 2010-12-02 05:00Z, 2011-01-06 05:00Z is next |
| Scenarios.HourlyAt | spec/models/miq_schedule_spec.rb:573-577 | an hourly schedule fires at start + k·N hours when that is after `now` and the step before is not |
| Scenarios.UtcHourlyFromEightAm | spec/models/miq_schedule_spec.rb:573-577 | hourly from 08:00Z, at 06:00Z the next run is 07:00Z, whatever the last run |
| Scenarios.UtcFiveHourlyFromEightAm | spec/models/miq_schedule_spec.rb:628-632 | every five hours from 08:00Z, 08:00Z is next |
| Scenarios.UtcFiveHourlyFromFiveAm | spec/models/miq_schedule_spec.rb:634-638 | every five hours from 05:00Z, 10:00Z is next |
| Scenarios.FutureStartAtNewYear | spec/models/miq_schedule_spec.rb:579-589 | a start after `now` is next, daily and hourly |
| Scenarios.ZonedDaily | spec/models/miq_schedule_spec.rb:346-424 | a daily schedule in a zone fires at the resolved k-th wall-clock step when that is after `now` and the step before is not |
| Scenarios.UtcMonthly | spec/models/miq_schedule_spec.rb:226-299 | a monthly schedule without zone fires at the start date moved k·N months, at the start's time, when that is after `now` and the step before is not |

## Left out

- The implementation file of `MiqSchedule` is not part of this model. The rules above are the ones the expectations fix, except for the modelling choices named below.
- The zone database: zones are the parameter `zoneNamed`. The scenarios give Central (2012), Eastern and Alaska (2010) by their offsets around the instants involved, not by their full rules.
- Parsing of time strings (`Time.parse`) and the `.localtime` display conversion: instants are integers from the start.
- The clock: `Timecop.travel` becomes the `now` parameter. A clock that runs on after travelling is taken to stand at the instant travelled to.
- Import and export of schedules, `queue_scheduled_work` and action dispatch, automation requests and `.updated_since`: they are database records, queue messages and ORM queries.
- lib/ansible/content.rb, lib/extensions/ar_base.rb and lib/extensions/ar_base_model.rb: process spawning, file copies and database connection calls.
- Recurrence.NextIntervalTime: when `now` falls exactly on a grid point, the model answers the following point ("strictly after"). No expectation fixes this case, and it is a modelling choice.
- Recurrence.NextIntervalTime: `last_run_on` is taken and ignored. Measuring hourly steps from the later of the start and the last run would contradict the expectations at spec/models/miq_schedule_spec.rb:622-638 (a run 20 minutes before `now` still giving 07:00, 08:00 and 10:00) which keep the grid anchored at the start.
- Recurrence.NextIntervalTime: the k-th monthly point is `AddMonths(start date, k·N)`, counted from the start each time. No expectation distinguishes this from stepping month by month from the previous, clamped point: on every example schedule both rules give the same answer.
- Recurrence.NextIntervalTime: a `once` schedule returns its start time whatever `now` is. No expectation covers a `once` schedule in the past.
- RunAts.Validate: reports the first problem only. Besides the missing-field cases of the expectations, it also refuses an unknown unit and a count that is not a positive decimal; no expectation exercises these two cases.
- RecurrenceFacts.DailyIncreasing: holds only for zones whose offsets never differ by a day or more (`OffsetsWithinDay`). The scenario zones meet it (`Scenarios.ScenarioZonesWithinDay`); a zone that has crossed the date line, such as Pacific/Apia, does not.
- RecurrenceFacts.DailyPointKeepsWallClock and RecurrenceFacts.MonthlyPointKeepsAnchor: are stated where the grid reading resolves to an instant that shows it (`WallClockExists`). `Zones.ShownResolves` gives that premise for every reading some instant shows, with at most one offset change within 14 hours of it.
- DailyKeepsWallClock: assumes the k-th reading is shown and that the offset changes at most once within 14 hours of it. A zone with two changes that close together is not covered.
- MonthlyKeepsAnchor: makes the same two assumptions as DailyKeepsWallClock.
- Zones.ToUtc: the two-pass resolution does not agree with ActiveSupport for every reading.
  - A repeated reading resolves to the first instant in zones with negative offsets, as in ActiveSupport, but to the second instant in zones with positive offsets, where ActiveSupport picks the first (`Zones.RepeatedReading`).
  - A skipped reading in a zone with negative offsets resolves to an instant that reads the skipped span earlier, one hour before the reading in US zones, where ActiveSupport moves it forward (`Zones.SkippedReading`).
  - No expectation places a daily or monthly point on such a reading.
