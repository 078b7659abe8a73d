# Dosing-time engine of the medication scheduler, in Dafny

This project models the dosing-time engine of a medication-schedule service. A
schedule has a dosing frequency and an optional duration. The engine:

- validates a schedule;
- stamps its validity window when it is created;
- decides whether it is active at a given instant;
- rounds instants up to the quarter-hour;
- lists one day's takings inside the fixed 08:00–22:00 dosing window;
- answers the "next takings" query: for each active schedule of a user, the
  first of today's takings strictly inside `(now, now + period)`.

Files:

- `wrappers.dfy`: `Option` and `Result`.
- `domain.dfy` (module `Domain`): the `Schedule` record and the constants
  `AvailableTime` (14 hours) and `RoundTo` (15 minutes). It also holds
  `Validate`, `IsActive`, `RoundToNearest15` with its properties, and
  `CalculateTakings`. That method is a loop over a cursor, proved equal to the
  function `Takings`.
- `grid_facts.dfy` (module `GridFacts`): lemmas about one day's takings. They
  lie on the quarter-hour grid inside the window and are strictly increasing.
  The lemmas also say exactly which instants are takings, how many there are
  for the pinned frequencies, and that the duplicate guard never fires for a
  valid frequency.
- `service.dfy` (module `Service`): the service class `ScheduleService` with
  `CreateSchedule`, `GetScheduleByIDs` and `GetNextTakings`. Beside it are the
  function `NextTakings` that specifies the next-takings query and the lemmas
  about it.

Instants are integer nanoseconds since 1970-01-01T00:00:00Z, and durations are
integer nanoseconds, like Go's `time.Duration`. Only UTC is modelled. The minute
and the day of an instant therefore come from Euclidean division. Go's
`Truncate` measures from year 1, which is a whole number of days before the
Unix epoch, so truncating relative to the epoch gives the same instant.

The service never reads the clock or the repository in the model. `now` is a
parameter of every operation that calls `time.Now()`. What the repository
answers (a schedule, a list of schedules, an error) is a parameter too. The
calls to the repository's `Create` are recorded in the ghost field
`ScheduleService.createCalls`.

Two behaviours of the code are easy to misread, and the model follows the code
in both:

- Rounding is not a pure ceiling. An instant whose minute is already a multiple
  of 15 is truncated down to that minute, so 09:15:30 becomes 09:15:00
  (`RoundExamples`). `RoundIsMinuteCeiling` states the rule exactly: truncate to
  the minute, then take the quarter-hour ceiling.
- The next-takings query only looks at the current day's takings. It does not
  continue into later days, even when `now + period` reaches past 22:00. Both
  ends of `(now, now + period)` are exclusive.

## Model

| member | source | states |
|---|---|---|
| `Domain.Validate` | internal/domain/schedule_model.go:29-37 | returns the frequency error exactly when the frequency is below 15 minutes, whatever the duration. Otherwise it returns the duration error exactly when the duration is negative, and no error exactly when neither holds. |
| `Domain.ActiveWindow` | internal/domain/schedule_model.go:65-70 | a zero-duration schedule is active at every instant. Otherwise it is active only strictly between its start and end times, and it is inactive at either bound. |
| `Domain.RoundToNearest15` | internal/domain/schedule_model.go:72-79 | the result is a multiple of 15 minutes. It is less than 15 minutes above the input and less than one minute below it. |
| `Domain.RoundIsMinuteCeiling` | internal/domain/schedule_model.go:72-79 | rounding equals an independent definition: drop the seconds, then move up to the next quarter-hour unless already on one. |
| `Domain.RoundedIsQuarterHour` | internal/domain/schedule_model.go:72-79 | the rounded instant's minute of the hour is a multiple of 15, and it has no seconds or sub-seconds. |
| `Domain.RoundWholeMinute` | internal/domain/schedule_model.go:74-78 | an input on a whole minute is never moved down, and it is moved up by less than a quarter-hour. |
| `Domain.RoundFixesQuarter` | internal/domain/schedule_model.go:73-76 | an exact quarter-hour comes back unchanged. |
| `Domain.RoundIdempotent` | internal/domain/schedule_model.go:73-78 | rounding twice gives the same result as rounding once. |
| `Domain.RoundFormula` | internal/domain/schedule_model.go:72-79 | an instant in the first minute of its quarter-hour rounds to the start of that quarter-hour. Any later instant rounds to the start of the next quarter-hour. |
| `Domain.RoundMonotone` | internal/domain/schedule_model.go:72-79 | rounding preserves the order of instants. |
| `Domain.RoundSeparates` | internal/domain/schedule_model.go:72-79 | instants at least 15 minutes apart round to quarter-hours at least 15 minutes apart. |
| `Domain.RoundExamples` | internal/domain/schedule_model_test.go:10-37 | 09:07 → 09:15, 14:52 → 15:00 (crossing the hour), 22:05 → 22:15, and 09:15:30 → 09:15:00 (truncated down). |
| `Domain.DayStart` | internal/domain/schedule_model.go:44 | the result is 08:00 of the UTC day that contains `now`. |
| `Domain.DayStartAt` | internal/domain/schedule_model.go:44 | every instant of a UTC day `d` has its window opening at 08:00 of day `d`. |
| `Domain.WalkIsStaged` | internal/domain/schedule_model.go:47-61 | walking the cursors (round, stop at the first rounded value past 22:00, keep only values later than the last kept one) gives the staged result. The staged result rounds every cursor, cuts the list before the first value past 22:00, and then drops every value not later than the last one kept. |
| `Domain.CalculateTakings` | internal/domain/schedule_model.go:39-63 | the loop's result equals the cursor walk, and by `WalkIsStaged` it is `Takings(s, now)`. That is empty for an inactive schedule. Otherwise the cursors from 08:00 in steps of the frequency while before 22:00 are each rounded, the walk stops at the first rounded value after 22:00, and only values later than the last kept one are kept. |
| `GridFacts.TakingsWithinWindow` | internal/domain/schedule_model.go:44-61 | every taking is a quarter-hour of `now`'s day between 08:00 and 22:00, both included. |
| `GridFacts.TakingsStrictlyIncreasing` | internal/domain/schedule_model.go:56-58 | the takings are strictly increasing, so no taking is repeated. |
| `GridFacts.TakingsMembership` | internal/domain/schedule_model.go:47-61 | an instant is a taking exactly when it is no later than 22:00 and is the rounding of some cursor `08:00 + k·frequency` before 22:00. Stopping at the first rounded value past 22:00 therefore loses nothing. |
| `GridFacts.TakingsStartAtEight` | internal/domain/schedule_model.go:48-58 | for any positive frequency the first taking is 08:00. |
| `GridFacts.AlignedFrequencyTakings` | internal/domain/schedule_model.go:50-60 | with a frequency that is a whole number of quarter-hours, the takings are exactly the cursor positions. |
| `GridFacts.AlignedTakingsAt` | internal/domain/schedule_model.go:47-61 | with a frequency of whole quarter-hours, the k-th taking is 08:00 plus k times the frequency. |
| `GridFacts.AlignedCount` | internal/domain/schedule_model.go:45-61 | with a frequency of whole quarter-hours, the takings fill the window. The last taking is before 22:00, one more step would reach 22:00, and every taking has its hour in [8, 22). |
| `GridFacts.HourlyTakesFourteen` | internal/domain/schedule_model_test.go:47-56 | an hourly schedule has exactly 14 takings a day, each with its hour in [8, 22). |
| `GridFacts.HalfHourlyTakesTwentyEight` | internal/domain/schedule_model_test.go:57-64 | a half-hourly schedule has exactly 28 takings a day, each with its hour in [8, 22). |
| `GridFacts.WindowEndReachable` | internal/domain/schedule_model.go:50-58 | 22:00 itself can be a taking. With a 59-minute frequency, the cursor at 21:46 rounds up to it. |
| `GridFacts.ValidFrequencyNeverCollapses` | internal/domain/schedule_model.go:56-58 | with a frequency of at least 15 minutes, the "later than the last one" guard never drops a value. |
| `GridFacts.ValidFrequencyAtMost56` | internal/domain/schedule_model.go:50-60 | a frequency of at least 15 minutes gives at most 56 takings a day. |
| `Service.StampedActivity` | internal/service/schedule_service.go:32-38 | a valid schedule created at `c` is active at `now` exactly when it is perpetual or `c < now < c + duration`. A perpetual schedule ends at 9999-12-31T23:59:59Z. |
| `Service.FirstDue` | internal/service/schedule_service.go:76-88 | returns an element strictly between the bounds such that no earlier element is. Returns nothing exactly when no element is strictly between them. |
| `Service.FirstDueIsEarliest` | internal/service/schedule_service.go:76-88 | on a strictly increasing sequence, the first element in range is also the smallest element in range. |
| `Service.FirstInWindowOfRounded` | internal/service/schedule_service.go:76-88 | on takings that are already quarter-hours inside the window, the scan with its window check and re-rounding picks exactly what `FirstDue` picks. |
| `Service.ScanTakings` | internal/service/schedule_service.go:76-88 | the loop over one schedule's takings returns the first re-rounded taking inside the window and strictly inside the interval, or nothing when there is none. |
| `Service.NextTakingByFirstDue` | internal/service/schedule_service.go:67-88 | an active schedule's answer is today's first taking strictly inside `(now, now + period)`, carried as its only taking. An inactive schedule gets no answer. |
| `Service.NextTakingSpec` | internal/service/schedule_service.go:67-89 | a schedule gets no answer exactly when it is inactive or none of today's takings is strictly inside `(now, now + period)`. Otherwise the answer is the schedule unchanged except that it carries exactly one taking. That taking is the earliest of today's takings strictly inside the interval. |
| `Service.NextTakingIs` | internal/service/schedule_service.go:67-89 | conversely, a taking inside `(now, now + period)` with no later-than-`now` taking before it is exactly the one reported for an active schedule. |
| `Service.NextTakingsOrigins` | internal/service/schedule_service.go:65-92 | the answer is an order-preserving selection of the repository's schedules. Each answered entry is that schedule's own next taking, and every schedule that has a next taking is answered. |
| `Service.NextTakingsNoLonger` | internal/service/schedule_service.go:65-92 | the answer is never longer than the list of schedules. |
| `Service.ReRoundingKeepsTakings` | internal/service/schedule_service.go:72-82 | rounding a taking again leaves it unchanged, and every taking passes the 08:00–22:00 window check. So lines 77-82 neither change nor drop anything. |
| `Service.NextTakingExamples` | internal/domain/schedule_model_test.go:93-118 | on any day (the test uses 2025-01-01), a perpetual two-hourly schedule asked at 12:15 is next due at 14:00 with a two-hour period, and has no taking with a 30-minute period. |
| `Service.HalfHourlyNextTaking` | internal/service/schedule_service_test.go:93-107 | on any day, a perpetual half-hourly schedule asked at 09:15 with a one-hour period is answered once, for 09:30. |
| `Service.ScheduleService.constructor` | internal/service/schedule_service.go:23-25 | the service keeps the given period, and nothing has been created yet. |
| `Service.ScheduleService.CreateSchedule` | internal/service/schedule_service.go:27-41 | an invalid schedule comes back untouched with the wrapped validation error, and `Create` is not called. A valid schedule is stamped: start at `now`, end at `now + duration`, or at the perpetual end when the duration is zero. It is handed to `Create` exactly once, and `Create`'s error is returned. Every logged schedule keeps the invariant. |
| `Service.ScheduleService.GetScheduleByIDs` | internal/service/schedule_service.go:43-52 | a repository error comes back wrapped. Otherwise the schedule comes back unchanged except that its takings are today's takings. |
| `Service.ScheduleService.GetNextTakings` | internal/service/schedule_service.go:58-93 | the nested scan returns exactly `NextTakings(schedules, now, period)`, and a repository error is passed on. |

## Left out

- HTTP handlers, error-to-status mapping, the SQL repository, database setup, application start-up and configuration loading are not part of this model. The repository's `GetByIDs`, `GetByUserID` and `Create` appear only as parameters (what they answer) and as a ghost log (what `Create` was given).
- `GetSchedulesByUserID` (internal/service/schedule_service.go:54-56) is not modelled: it returns the repository's answer unchanged.
- The repository interface's `Update` and `Delete` are not modelled, because the service never calls them.
- Time zones are left out, and only UTC is modelled. Go's `Truncate` matches wall-clock quarter-hours only in zones whose offset is a multiple of 15 minutes.
- Integer widths are left out: the `int64` nanosecond range of `time.Duration`, and overflow when a duration is added to an instant, are not modelled.
- Aliasing is left out. `CreateSchedule` updates the schedule its caller passes by reference; the model returns the updated record as `stored`. `GetScheduleByIDs` likewise returns the record it fills in, instead of updating the repository's object in place.
- Error values are variants of `ServiceError`; the message text that `fmt.Errorf` builds is not modelled.
- `Domain.CalculateTakings`: requires a positive frequency when the schedule is active. With a zero or negative frequency the Go loop never ends, and a validated schedule always has a frequency of at least 15 minutes.
- The domain test at internal/domain/schedule_model_test.go:93-118 calls a `FindNextTaking` function that the code does not define. Its two expectations are stated instead about `NextTaking`, the per-schedule step of `GetNextTakings`, in `Service.NextTakingExamples`.
- Searching later days for a next taking is not modelled, because the service only ever scans the current day's takings.
