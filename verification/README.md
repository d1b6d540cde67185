# A verified model of the Bridgistic control plane

A tick is computed, enqueued once, executed once and charged once. This Dafny 4.11 project models the four
components that carry that story and proves what each of them keeps:

- **The schedule engine.** Proleptic Gregorian calendar arithmetic, wall clocks in an IANA zone with its gaps and
  folds, the five-field cron parser, the search for the next run, the enumeration of missed runs, and the state
  machine that arms, dispatches, finishes and retries one job.
- **The claim and lock protocols.** The idempotency claims and the per-site locks, one atomic step per SQL statement,
  for any number of callers whose clock readings may be stale.
- **The executor and the meter.** The pipeline that claims, reserves, locks and snapshots before it calls a tool and
  unwinds whatever it took on every way out, and the counter that admits, settles, releases and expires reservations.
- **Canonical JSON, schema validation and paging.** The canonical form behind request digests with a parser that
  undoes its printer, the error-collecting validator against the meaning of its keywords, and the keyset-paged walk.

`dafny verify dfyconfig.toml` checks the whole project.

## How it is laid out

| file | part of the program |
|---|---|
| Calendar, TimeZone | `timezone.ts`: instants, wall clocks, zones |
| Cron, CronParser, CronInterval | `cron.ts`: parsed fields, the parser, the cadence check |
| NextRun, MissedRuns | `next-run.ts`: the search, the outage scan |
| Policy, JobScheduler, SchedulerRuns | `policy.ts` and `job-scheduler.ts`: decisions, one object, whole runs |
| Idempotency, ClaimProtocol | `idempotency.ts`: the statements, any interleaving of them |
| Locks | `locks.ts` |
| Gate, Executor | `validate.ts`, the pricing of `metering.ts` and `catalog.ts`, `executor.ts` |
| UsageCounter, MeterRuns, Metering | `usage-counter.ts`, whole runs of it, and the adapter in `ports/metering.ts` |
| CallCharges | the executor and the meter put together |
| Json, Digest, IndexKeys, Canonicalizer, Encoding | `digest.ts`: the printer and its parser, the canonical form, the loops that build it, the text encoder |
| JsonSchema, ValueText, SchemaValidator, SchemaReports, SchemaChecker | `json-schema.ts`: values and equality, their printed texts, meaning, what is reported where, the traversal |
| Paging | `scope.ts` and the cursor reader of `index.ts` |
| Decimal, Options, Ordering, Sorting, Ticks | numerals, optional values, orders, sorted listings |

Where the source changes state in place (the job scheduler, the claim and lock tables, the usage counter, the
executor, the validator's error list) the model is a class whose methods are proved against functions of the old
state, and the theorems are about those functions and about runs of them. Loops of the source are loops here.

The zone is an arbitrary function from an instant to an offset. A *valid* zone has whole-second offsets smaller than
26 hours; theorems that need more say so (a fixed offset, or at most one transition near the time in question).
Concurrent callers are events of a transition system. Ports of the executor may answer anything or throw at any call.

## What the code does and its documentation does not say

- `next-run.ts:35-44` promises the first instant after a given one and the first occurrence of a repeated local time.
  The search answers the first match in *wall-clock* order. It never passes over the first occurrence of a matching
  minute, but started inside the second pass of a repeated hour it can answer a local time that has already occurred:
  `NextRun.SecondPassFiresAgain` gives such a start. Where changes of offset lie apart and a run is found, the answer is
  the first instant after the start at which a matching minute occurs for the first time exactly when no matching
  minute is left in that pass, a condition on the fields, the zone and the start: `NextRun.FirstOccurrenceIff`.
- The wall-clock helpers (`timezone.ts:75-77`) go through `Date.UTC`, which takes the years 0 to 99 for those of the
  twentieth century. A reading comes back exactly when its year is not one of these: `Calendar.DateUtcReturnsIff` and
  `Calendar.WallClockReturnsIff`.
- `missedRuns` reports `truncated: false` and an incomplete list when a run lies further than 5 * 366 days behind the
  one before it, as leap days do around 2100: `MissedRuns.LeapDayGapIsMissed`. What `truncated` reports is that more
  runs than the cap lie before the first such gap (`MissedRuns.TruncatedIffManyReached`); when a list not reported
  truncated is complete is `MissedRuns.CompleteIffGapsWithinHorizon`.
- A retry alarm can fire before the tick it dispatches, and the tick is then enqueued again under the same key:
  `SchedulerRuns.EarlyRetryRepeatsKey`, with the exact condition for two alarms in a row in
  `SchedulerRuns.ConsecutiveAlarmsRepeatKeyIff`. An alarm handler that throws is retried from its old record, and
  exactly when both get a message out: `SchedulerRuns.ThrowingAlarmRepeatsKeyIff`.
- `settle` and the update half of `sweep` name a key and prove no ownership. Two callers can then be live on one key,
  although each is within its expiry: `ClaimProtocol.SecondSettleBreaksExclusion` (a failed call whose audit throws is
  settled twice, `executor.ts:343-382`) and `ClaimProtocol.SplitSweepBreaksExclusion`. Such a write is harmless
  exactly when it stores a success or no other caller is live on its key: `ClaimProtocol.UnfencedWriteIsSafeIff`.
- A refused call (quota, busy site, no snapshot) returns the promise of its denial without waiting for it, so its lock
  is released before the denial is audited, and an audit that throws rejects `execute` instead of reaching its catch
  block (`executor.ts:202`, `226`, `263`).
- A reservation that has outlived its ten minutes is swept by the next alarm (`usage-counter.ts:129-140`), and the settle of
  a call that takes longer is then lost, or meets a later reservation under the same key:
  `MeterRuns.LateSettleIsRefused`.
  A reservation stands exactly as long as no settle it covers, no release and no alarm after its time to live has
  reached its counter (`MeterRuns.ReservationStandsIff`), and while it stands its close is never refused
  (`CallCharges.EveryCloseCharges`).
- A retry of a failed call re-opens whatever failed row it finds when it gets there (`idempotency.ts:137-146`). After a pause
  longer than a claim lasts that can be the row of another request: `ClaimProtocol.LongPauseReopensAnothersRow`, and the
  exact condition in `ClaimProtocol.ReopenedRowIsOwnIff`.
- A retry whose key still holds a reservation is admitted at the old price while the adapter reports the new one; a
  dearer retry is then never charged: `Metering.ReusedReservationSettlesIff`.
- The request digest hashes UTF-8 (`digest.ts:56-66`), and the encoder replaces a surrogate that stands alone. Arguments
  are printed with such surrogates escaped, a tool name is not, so two names that differ only there are hashed alike:
  `Encoding.EncodedPreimageDeterminesCall`.
- A reservation handle finds the counter that admitted it only in years of four digits: `Metering.HandleRoundTrip`.

## Model

| member | source | states |
|---|---|---|
| Calendar.DayFromYearClosedForm | packages/scheduler-core/src/timezone.ts:75-77 | the recursive day count of a year is the closed form of section 21.4.1 of ECMA-262 |
| Calendar.DaysInMonthTable | packages/scheduler-core/src/timezone.ts:75-89 | every month of every year has the length of the Gregorian calendar |
| Calendar.MonthOf | packages/scheduler-core/src/timezone.ts:79-89 | every day lies in the month found for it |
| Calendar.MonthOfUnique | packages/scheduler-core/src/timezone.ts:79-89 | and in no other month |
| Calendar.DateUtcReturnsIff | packages/scheduler-core/src/timezone.ts:75-89 | every instant reads as a real calendar date and time, and `Date.UTC` takes that reading back to the instant floored to its second exactly when its year is not one of 0 to 99 |
| Calendar.WallClockReturnsIff | packages/scheduler-core/src/timezone.ts:75-89 | a real wall clock survives the conversion to milliseconds and back exactly when its year is not one of 0 to 99 |
| TimeZone.ZoneOffsetOfWholeSecond | packages/scheduler-core/src/timezone.ts:97-99 | the offset recovered from a reading is the zone's own |
| TimeZone.FromWallClock | packages/scheduler-core/src/timezone.ts:124-143 | the two probing loops and the filter give the candidate instants that read as the wall clock, ascending |
| TimeZone.FromWallClockExact | packages/scheduler-core/src/timezone.ts:112-143 | near at most one transition the answers are exactly the whole-second instants whose local reading is the wall clock, ascending, at most two of them |
| TimeZone.FixedOffsetInstants | packages/scheduler-core/src/timezone.ts:112-143 | in a fixed-offset zone every real wall clock occurs exactly once |
| TimeZone.FloorToMinuteAt | packages/scheduler-core/src/timezone.ts:146-149 | flooring gives the start of the local minute of the instant |
| TimeZone.AddMinutesAt | packages/scheduler-core/src/timezone.ts:151-153 | adding minutes moves by as many local minutes, across every calendar boundary |
| TimeZone.StartOfNextDayAt | packages/scheduler-core/src/timezone.ts:156-159 | the next day starts at the next multiple of 1440 local minutes |
| TimeZone.StartOfNextMonthAt | packages/scheduler-core/src/timezone.ts:161-163 | the next month starts at the first minute of the following calendar month |
| TimeZone.StartOfNextHourAt | packages/scheduler-core/src/timezone.ts:165-168 | the next hour starts at the next multiple of 60 local minutes |
| TimeZone.WallAtFields | packages/scheduler-core/src/timezone.ts:79-94 | the fields of a local minute: minute and hour by remainder, date by day number |
| TimeZone.DayOfWeekClosedForm | packages/scheduler-core/src/timezone.ts:91-94 | the day of the week of any date is the one of Sakamoto's closed form, with Sunday as 0 |
| CronParser.SplitJoin | packages/scheduler-core/src/cron.ts:78-81 | splitting undoes joining for parts without the separator |
| CronParser.ParsePrintPart | packages/scheduler-core/src/cron.ts:74-116 | a star, a value or a span, with a step or without, parses to the range it stands for: values outside the field, backward spans and a step of 0 are refused, a value with a step runs to the end of the field |
| CronParser.ParsedPartForm | packages/scheduler-core/src/cron.ts:74-109 | whatever parses is a star, a question mark, a value or a span of two, alone or with one positive step behind it |
| CronParser.NameValue | packages/scheduler-core/src/cron.ts:58-72 | a name, in any case, stands for its place in the list |
| CronParser.ParseField | packages/scheduler-core/src/cron.ts:74-122 | the loops over parts and steps refuse a field with a malformed part and otherwise return exactly the union of what its parts list, Sunday as 0, restricted unless every part is a bare star |
| CronParser.ParsedFieldInRange | packages/scheduler-core/src/cron.ts:114-121 | a parsed field is nonempty and in range, and an unrestricted one is the full range |
| CronParser.ParsePrintField | packages/scheduler-core/src/cron.ts:58-122 | any nonempty value set printed as a comma list parses back to that set |
| CronParser.ParseCron | packages/scheduler-core/src/cron.ts:124-146 | an expression parses exactly when it has five well-formed fields after alias and white space are dealt with |
| CronParser.ParseWords | packages/scheduler-core/src/cron.ts:124-146 | five words of stars and numerals are the minute, hour, day of month, month and day of week, in this order, and a star does not restrict |
| CronParser.AliasMeaning | packages/scheduler-core/src/cron.ts:33-41 | an alias, in any case and with white space around it, fires at the start of its year, month, week, day or hour |
| CronParser.ParsedCronIsValid | packages/scheduler-core/src/cron.ts:124-161 | times of day are nonempty and in range; the day rule is "either" when both day fields are restricted and "both" otherwise |
| CronParser.ParsedCronInRange | packages/scheduler-core/src/cron.ts:50-56 | a parsed expression holds minutes 0 to 59, hours 0 to 23, days 1 to 31, months 1 to 12 and weekdays 0 to 6, and a day field that does not restrict holds all of them |
| CronInterval.Gap | packages/scheduler-core/src/cron.ts:169-175 | the loop computes the least cyclic distance between listed values |
| CronInterval.GapSeparates | packages/scheduler-core/src/cron.ts:169-175 | any two distinct values are at least the gap apart, on the line and around the wrap |
| CronInterval.TightestIsLeastDistance | packages/scheduler-core/src/cron.ts:163-180 | the tightest interval is the least cyclic distance between two minutes when there are several, between two hours when there is one minute but several hours, and otherwise a day |
| CronInterval.RefusedIffTighter | packages/scheduler-core/src/policy.ts:135-143 | a schedule is refused only for being tighter than the floor |
| CronInterval.MatchesAreSpaced | packages/scheduler-core/src/cron.ts:163-180 | two distinct matching wall clocks are at least the tightest interval apart in local time, across hours, days and months |
| CronInterval.AcceptedScheduleKeepsFloor | packages/scheduler-core/src/policy.ts:135-143 | a schedule accepted against the plan's floor never fires twice within that floor in a fixed-offset zone |
| NextRun.MatchesMeaning | packages/scheduler-core/src/cron.ts:149-161 | a wall clock matches exactly when minute, hour and month are listed and its day meets either restricted day field, the day of the week being given in closed form |
| NextRun.Search | packages/scheduler-core/src/next-run.ts:56-89 | the loop with its four skips, step budget and horizon computes the search function |
| NextRun.AdvanceSkipsNoMatch | packages/scheduler-core/src/next-run.ts:61-76 | every skip moves forward and passes no matching minute |
| NextRun.NextCronIsFirstInWallClockOrder | packages/scheduler-core/src/next-run.ts:56-89 | in any zone the answer is later as an instant and as a reading, reads as a matching minute, and no matching minute in between has an occurrence after the start |
| NextRun.ChainStrictlyIncreases | packages/scheduler-core/src/next-run.ts:35-89 | along runs computed one from another, instants and local readings strictly increase: a repeated local time fires once and a skipped one never |
| NextRun.ChainSkipsNothing | packages/scheduler-core/src/next-run.ts:56-89 | no matching wall clock between two consecutive runs has an occurrence after the earlier run |
| NextRun.AdvanceUsesBudget | packages/scheduler-core/src/next-run.ts:23-24 | each skip short of the least match uses up a budget bounded by days, hours and minutes left |
| NextRun.SearchReaches | packages/scheduler-core/src/next-run.ts:24-89 | with enough steps the search reaches the least match |
| NextRun.FixedOffsetSearchExact | packages/scheduler-core/src/next-run.ts:24-89 | in a fixed-offset zone the answer is the least firing minute after the start, and the search fails exactly when there is none within the horizon |
| NextRun.PassesNoFirstOccurrence | packages/scheduler-core/src/next-run.ts:35-44 | where changes of offset lie apart, no instant strictly between the start and the answer shows a matching minute for the first time |
| NextRun.FirstOccurrenceIff | packages/scheduler-core/src/next-run.ts:35-44 | there the answer is the first occurrence of its local time, and the first instant after the start at which a matching minute occurs for the first time, exactly when no matching minute later than the start is left in the second pass of a repeated time |
| NextRun.SecondPassFiresAgain | packages/scheduler-core/src/next-run.ts:35-44 | a zone and two starts answered with the same local time from both passes of a repeated hour: the first answer is the documented one, the second is not |
| MissedRuns.Missed | packages/scheduler-core/src/next-run.ts:115-148 | the scanning loop and its truncation test compute the scan functions |
| MissedRuns.MissedInWindow | packages/scheduler-core/src/next-run.ts:110-137 | in any zone the ticks strictly ascend inside the half-open window and respect the cap |
| MissedRuns.MissedComplete | packages/scheduler-core/src/next-run.ts:115-137 | up to its last tick the scan misses no run, and one that stops short of the cap misses none at all |
| MissedRuns.TruncatedIffManyReached | packages/scheduler-core/src/next-run.ts:139-147 | truncated is reported exactly when more runs than the cap lie in the window before the first gap beyond the horizon, and never unless more than the cap lie in the window |
| MissedRuns.TruncatedExact | packages/scheduler-core/src/next-run.ts:139-147 | without such a gap it is reported exactly when the list is not the runs of the window |
| MissedRuns.CompleteIffGapsWithinHorizon | packages/scheduler-core/src/next-run.ts:115-147 | a scan not reported truncated is complete exactly when no run lies beyond the horizon of the one before it |
| MissedRuns.LeapDayGapIsMissed | packages/scheduler-core/src/next-run.ts:25-33 | between the leap days of 2096 and 2104 the search fails and the scan is empty and not truncated |
| Policy.OverlapMeaning | packages/scheduler-core/src/policy.ts:26-39 | a tick runs when nothing is running; otherwise each policy has its own answer, naming the run in progress |
| Policy.CatchupPartitions | packages/scheduler-core/src/policy.ts:54-72 | whatever order the missed ticks come in, those dropped followed by those to run are the missed ticks in order, and as many run as the policy says |
| Policy.RetryDelayBounds | packages/scheduler-core/src/policy.ts:88-100 | a retry is made exactly while attempts remain, after 1 to 3600 seconds, otherwise the run is dead-lettered |
| Policy.CeilingDoubles | packages/scheduler-core/src/policy.ts:88-100 | the backoff starts at the base and doubles with every attempt, up to an hour |
| Policy.DelayIsJitteredCeiling | packages/scheduler-core/src/policy.ts:88-100 | the delay is the drawn share of that, to the nearest second and at least one |
| JobScheduler.NextIntervalRunIsLeast | packages/scheduler-core/src/next-run.ts:95-103 | the next interval run is the least point of the anchored grid after the given instant |
| JobScheduler.ComputeNextMeaning | apps/scheduler/src/job-scheduler.ts:217-228 | an interval job runs next at the least later point of the grid anchored at its creation, a single run at its own time while that is to come, a cron job when the search says; computing it throws only for an interval of zero or less and a search without result |
| JobScheduler.ComputeNextIsLater | apps/scheduler/src/job-scheduler.ts:217-228 | whatever the kind of schedule, the next run lies strictly in the future |
| JobScheduler.TicksToRunInWindow | apps/scheduler/src/job-scheduler.ts:230-239 | for any record and any tick, the ticks ascend and end with the current one, and the others lie after the last dispatched one |
| JobScheduler.TicksToRunMeaning | apps/scheduler/src/job-scheduler.ts:230-239 | beside the current tick run all, the last or none of the missed ones, as the catch-up policy says |
| JobScheduler.AlarmSkipsIff | apps/scheduler/src/job-scheduler.ts:152-172 | under skip, an alarm that finds a run on record sends nothing, keeps run lock and last dispatch, and logs one skip of its tick; in every other case nothing is logged and the ticks go out |
| JobScheduler.Scheduler.Arm | apps/scheduler/src/job-scheduler.ts:106-125 | the new record and alarm; nothing changes when computing the next run throws; an old alarm stays when there is none |
| JobScheduler.Scheduler.Disarm | apps/scheduler/src/job-scheduler.ts:127-133 | the record and the alarm are gone, the queue is not |
| JobScheduler.Scheduler.Send | apps/scheduler/src/job-scheduler.ts:158-168 | the sending loop enqueues one message for each tick, in order, up to the first that the queue refuses |
| JobScheduler.Scheduler.Alarm | apps/scheduler/src/job-scheduler.ts:139-180 | the ticks are enqueued in order or a skip is logged; a handler that throws leaves the record and keeps what it sent |
| JobScheduler.Scheduler.Finish | apps/scheduler/src/job-scheduler.ts:183-215 | the run lock, the attempt and the earlier of retry and scheduled alarm |
| SchedulerRuns.StepKeepsInvariant | apps/scheduler/src/job-scheduler.ts:106-215 | every timely step keeps the enqueued ticks ascending and everything still to come after the last of them |
| SchedulerRuns.RunKeepsInvariant | apps/scheduler/src/job-scheduler.ts:106-215 | so does every run of any length |
| SchedulerRuns.NoKeyEnqueuedTwice | apps/scheduler/src/job-scheduler.ts:158-167 | in every run whose alarms are not early, for any zone, policies, re-arming and failing finishes, ticks strictly increase and no idempotency key of a job is enqueued twice |
| SchedulerRuns.RunKeyDeterminesTick | apps/scheduler/src/job-scheduler.ts:165 | a printed key determines its tick and attempt |
| SchedulerRuns.NextRunStandsUntilReached | apps/scheduler/src/job-scheduler.ts:175-178 | asked again before the run it named a schedule names the same run, and only then |
| SchedulerRuns.ConsecutiveAlarmsRepeatKeyIff | apps/scheduler/src/job-scheduler.ts:146-178 | two alarms in a row enqueue a common key exactly when the first fires before its tick |
| SchedulerRuns.EarlyRetryRepeatsKey | apps/scheduler/src/job-scheduler.ts:205-212 | a run of arm, alarm, failed finish and two alarms in which a retry alarm fires early and a key is enqueued twice |
| SchedulerRuns.ThrowingAlarmRepeatsKeyIff | apps/scheduler/src/job-scheduler.ts:158-178 | a handler that throws and its retry enqueue a common key exactly when each of them gets a message out |
| SchedulerRuns.SkipNeverOverlaps | packages/scheduler-core/src/policy.ts:21-39 | in any run, of two alarms that enqueue under skip a finish of the run the first one started, or a disarm, lies between them |
| SchedulerRuns.RunKeepsCoverage | apps/scheduler/src/job-scheduler.ts:127-172 | at every point between two disarms the ticks enqueued since the first of them are exactly the schedule's runs from the first such tick to the last |
| SchedulerRuns.EveryRunEnqueuedOnce | apps/scheduler/src/job-scheduler.ts:106-239 | in any timely run, armed, re-armed and disarmed at will: while one cron schedule under run_all in a fixed-offset zone is in force, however late alarms are and whatever overlap skips, the ticks enqueued between two disarms are exactly its runs from the first dispatch to the latest, each once and after all earlier ticks, provided no scan is cut short |
| Idempotency.ClaimStore.UpdateStale | apps/api/src/db/idempotency.ts:56-63 | only a pending row past its expiry becomes expired |
| Idempotency.ClaimStore.Insert | apps/api/src/db/idempotency.ts:74-105 | one change exactly when the key was free or its row expired: the row is then pending and this claim's, with a fresh expiry, no result and the organisation and site first recorded; otherwise, and in every other row, nothing changes |
| Idempotency.ClaimStore.UpdateFailed | apps/api/src/db/idempotency.ts:137-146 | one change exactly when the row had failed: it is pending again with a fresh expiry and keeps its request, result and owner; otherwise, and in every other row, nothing changes |
| Idempotency.ClaimStore.Claim | apps/api/src/db/idempotency.ts:50-155 | the four statements with nothing in between give the table and answer of an uninterrupted claim |
| Idempotency.ClaimStore.SettleClaim | apps/api/src/db/idempotency.ts:157-171 | only a pending row settles, and a result is stored for a success only |
| Idempotency.ClaimStore.Sweep | apps/api/src/db/idempotency.ts:179-200 | every selected stale row expires and no other row changes |
| Idempotency.DecideMeaning | apps/api/src/db/idempotency.ts:107-154 | what a claim is told on reading its row back, in whatever state it finds it, and whether or not it won the insert |
| Idempotency.ClaimAnswers | apps/api/src/db/idempotency.ts:50-155 | every answer of a claim: a free, expired or stale key is claimed; the same request waits for a pending claim, replays a success and re-opens a failure; a different one conflicts; only a granted claim changes the table, and then only its own row |
| Idempotency.SucceededClaimReplays | apps/api/src/db/idempotency.ts:120-128 | after a success the same request replays exactly the stored result, a different one conflicts, and the table does not change |
| Idempotency.FailedClaimReopens | apps/api/src/db/idempotency.ts:129-147 | after a failure the key can be claimed again by its own request and by no other |
| ClaimProtocol.EventKeepsExclusion | apps/api/src/db/idempotency.ts:50-171 | every event keeps each live caller the only one on its key and the owner of its pending row |
| ClaimProtocol.AtMostOneLiveClaimant | apps/api/src/db/idempotency.ts:50-171 | in any interleaving of statements with stale clock readings at most one caller is live on a key, if callers settle before their expiry, only live callers settle a pending row, and a sweep re-selects what it updates |
| ClaimProtocol.UnfencedWriteIsSafeIff | apps/api/src/db/idempotency.ts:157-198 | after a settle by a caller that is not live, or a sweep update, every disciplined continuation keeps at most one live caller on the key it names exactly when it stores a success or no other caller is live there |
| ClaimProtocol.SuccessIsFinal | apps/api/src/db/idempotency.ts:163-198 | a row that has succeeded never changes again, under any interleaving and without any assumption |
| ClaimProtocol.LaterReadIsReplayOrConflict | apps/api/src/db/idempotency.ts:107-128 | every claim that reads it later is answered by exactly the stored result, or by a conflict for another request |
| ClaimProtocol.RowCarriesLastTaken | apps/api/src/db/idempotency.ts:50-200 | in any interleaving a row carries the request of the last insert that took it |
| ClaimProtocol.ReopenedRowIsOwnIff | apps/api/src/db/idempotency.ts:107-147 | a caller answered as claimant on its read holds a row of its own request; one that re-opens does so exactly when no insert has taken the key since its read, or the last that did was for the same request |
| ClaimProtocol.LiveRowKeepsRequest | apps/api/src/db/idempotency.ts:50-171 | in a disciplined run within expiry the row goes on carrying that request while its claimant is live |
| ClaimProtocol.LongPauseReopensAnothersRow | apps/api/src/db/idempotency.ts:129-147 | a caller that pauses for longer than a claim lasts re-opens the failed row of another request |
| ClaimProtocol.SecondSettleBreaksExclusion | packages/executor/src/executor.ts:343-382 | a second failed settle of one call puts two callers live on one key |
| ClaimProtocol.SplitSweepBreaksExclusion | apps/api/src/db/idempotency.ts:179-198 | a sweep that selects, waits and updates puts two callers live on one key |
| Locks.ExpiresAt | apps/api/src/ports/locks.ts:53-54 | the expiry is later than now whatever was asked for, and exact for a usable time to live |
| Locks.LockTable.TryAcquire | apps/api/src/ports/locks.ts:44-78 | the row is inserted or taken over exactly when free or expired, and the answer says whether it was |
| Locks.LockTable.ReleaseLock | apps/api/src/ports/locks.ts:72-77 | only the recorded holder's row is deleted |
| Locks.LockTable.SweepExpired | apps/api/src/ports/locks.ts:87-93 | exactly the expired rows are deleted, and counted |
| Locks.HoldersExcludeEachOther | apps/api/src/ports/locks.ts:44-93 | in every interleaving with stale clock readings an unreleased unexpired holder is the one in the row, so two never coexist on a key |
| Locks.LateReleaseIsHarmless | apps/api/src/ports/locks.ts:72-93 | no release, however late, and no sweep removes another holder's lock |
| Locks.RefusedIffHeld | apps/api/src/ports/locks.ts:56-70 | after any interleaving, an acquire is refused while somebody holds the key, however stale its clock, changing nothing; a refusal is always for an unreleased lock unexpired when the caller looked; by the current clock it is refused exactly when somebody holds the key |
| Gate.AuthorisedCallHasPrice | packages/tools/src/metering.ts:26-76 | a call the gate lets through costs nothing when it is not metered, and otherwise 1 for a safe read, 5 for what destroys, holds secrets or runs code, and 2 for the rest, by the class the site's own scopes give it |
| Gate.CallableIff | packages/contracts/src/validate.ts:85-218 | a call is let through exactly when every term holds: known and not disabled, on the plan, a scope carried by vocabulary, plan, site and key, a person where one is needed, opted in to code execution, arguments matching, re-authenticated, approved, and keyed when it writes |
| Gate.DenialNamesFailure | packages/contracts/src/validate.ts:72-218 | a denial names a term that fails, and one about arguments, re-authentication or approval is given only to a caller entitled to the tool |
| Executor.UnflaggedEffectIsAllowed | packages/executor/src/executor.ts:80-397 | every effect of a trace not astray was in its place: prices, keys, lock times and amounts are those of the request and of what was admitted |
| Executor.UnflaggedEffectsNameTheRequest | packages/executor/src/executor.ts:131-278 | whatever is claimed, reserved, locked, saved, called or asked is the request's own: its key and digest, its price under its key or an id of its own, its site for as long as the tool may take and five seconds more |
| Executor.UnflaggedCallsAreSafe | packages/executor/src/executor.ts:131-278 | and a tool is called only while the claim of its key, a reservation admitted and not closed since, the lock of its own site and a snapshot are held as far as it needs them, and is handed the snapshot that was taken |
| Executor.MonitorTracksLock | packages/executor/src/executor.ts:220-236 | the monitor says held only when the lock of the request's own site was granted and not released since |
| Executor.MonitorTracksReservation | packages/executor/src/executor.ts:194-215 | and a reservation only when that very one was admitted and neither settled nor released since |
| Executor.MonitorTracksSnapshot | packages/executor/src/executor.ts:241-267 | and a snapshot only when that very one was taken |
| Executor.OneCallOneRelease | packages/executor/src/executor.ts:80-397 | a trace not astray calls the tool at most once and releases the lock at most once |
| Executor.UnflaggedTakingsInOrder | packages/executor/src/executor.ts:190-267 | the lock is asked for only by a call that holds the reservation it needs, and a snapshot is taken only under the lock of its site |
| Executor.ClosedOnceAndForAReason | packages/executor/src/executor.ts:282-397 | once a settle or release has got through no other follows, and a reservation is given back, unless a close of it failed before, only when the tool has not answered or its site was never reached |
| Executor.SettledAgainAfterThrow | packages/executor/src/executor.ts:343-382 | a claim is settled a second time only as failed and after an audit that threw, and never a third time |
| Executor.UnflaggedEffectsCloseTheirOwn | packages/executor/src/executor.ts:202-397 | every settle and release names the reservation that was admitted, for its cost after a success and the failed-call weight otherwise; every lock release the lock held; every key settle the claimed key, with the tool's own answer for a success |
| Executor.EverythingTakenIsClosed | packages/executor/src/executor.ts:376-397 | in a trace that ends with nothing open, every granted lock, admitted reservation and claimed key is closed later under the name it was taken by |
| Executor.Execution.Execute | packages/executor/src/executor.ts:80-450 | for every behaviour of the ports no effect is astray and nothing taken is left open; the lock is released at the end; a claimed key is settled once, twice only when an audit threw; the meter closes what it admitted; the result is the tool's answer with what it was charged, the stored result, or a denial for a reason the request or a port gave, and an internal failure only when a port threw; a call the gate denies does nothing but ask for the approval it needs, once and first, and audit the denial |
| Executor.Execution.Screen | packages/executor/src/executor.ts:91-126 | a call goes on exactly when gate, role and site allow it, and otherwise takes nothing; when it is an approval that is missing, it is asked for before the denial is audited |
| Executor.Execution.Claim | packages/executor/src/executor.ts:131-178 | a call with a key goes on exactly when told it holds the claim of that key, and a replay returns the stored data for nothing |
| Executor.Execution.TakeReservation | packages/executor/src/executor.ts:190-215 | the admitted reservation is held exactly when the call needs one, made at its price and under its key, or the pipeline stops with nothing held |
| Executor.Execution.TakeLock | packages/executor/src/executor.ts:217-236 | the lock of the request's site is held exactly when the call needs it; a busy site gives the reservation back |
| Executor.Execution.EnsureSnapshot | packages/executor/src/executor.ts:238-267 | the snapshot kept is the one taken, exactly when the call needs one; a refused one gives the reservation back |
| Executor.Execution.CloseMeter | packages/executor/src/executor.ts:282-341 | the reservation held is settled for its cost after a success, for the failed-call weight after a failure at the site, and released when the site was not reached |
| Executor.Execution.Conclude | packages/executor/src/executor.ts:282-375 | what the tool answered is metered, settled under its key and audited, and reported with what it was charged |
| Executor.Execution.Unwind | packages/executor/src/executor.ts:376-397 | from every way the guarded part can end, the catch and finally blocks leave nothing held, and what they return accounts for it |
| CallCharges.RoomMakesBooking | apps/api/src/ports/metering.ts:59-93 | a meter with that room makes the reservation of an authorised metered call, the one the next two rows speak of |
| CallCharges.EveryCloseCharges | packages/executor/src/executor.ts:187-341 | for an authorised metered call with a fresh reservation, every settle and release in the trace names it and settles at least 1 and at most the amount reserved; delivered at any later time to whatever counters it meets, it touches only the one that admitted it, and charges its amount there exactly when a reservation under the key covers it, changing nothing otherwise; whatever else has reached that counter, the admitted one does so exactly until something has ended it |
| CallCharges.ExecuteBooked | packages/executor/src/executor.ts:80-397 | so does every close in every execution of such a call, whatever its other ports do; what was admitted is always closed, and an answer reports the amount of a close that got through, the price for a success |
| UsageCounter.UsageCounterObject.TotalCost | apps/api/src/usage-counter.ts:286-288 | the loop adds up what is consumed and pending |
| UsageCounter.UsageCounterObject.Reserve | apps/api/src/usage-counter.ts:171-236 | the new record and alarm and the reply, for every malformed, repeated, crowded, refused and admitted request |
| UsageCounter.UsageCounterObject.Settle | apps/api/src/usage-counter.ts:246-267 | the charge is added and the reservation closed, unless malformed, unknown or above the reservation |
| UsageCounter.UsageCounterObject.Release | apps/api/src/usage-counter.ts:270-272 | the reservation is closed for nothing |
| UsageCounter.UsageCounterObject.DropExpired | apps/api/src/usage-counter.ts:132-140 | the deleting loop drops exactly the reservations past their time to live and counts them |
| UsageCounter.UsageCounterObject.Alarm | apps/api/src/usage-counter.ts:129-153 | the alarm adds them to the count of the expired and is set again while any reservation is left |
| UsageCounter.ValidateCost | apps/api/src/usage-counter.ts:300-306 | a cost is accepted exactly when it is a whole number from 0 to 1000000 |
| UsageCounter.QuotaVerdictMeaning | packages/tools/src/metering.ts:89-108 | used and remaining make up the limit while any is left; the limit is soft from four fifths and hard from the whole of it, and only a hard one names when it is lifted |
| UsageCounter.KeptAndDropped | apps/api/src/usage-counter.ts:132-140 | an alarm splits the pending reservations and their cost into what is kept and what expires |
| MeterRuns.StepKeepsInvariant | apps/api/src/usage-counter.ts:129-289 | every request and alarm keeps the counter balanced against a ledger of everything admitted, key by key |
| MeterRuns.RunKeepsInvariant | apps/api/src/usage-counter.ts:129-289 | so does every run |
| MeterRuns.MeterNeverOvercharges | apps/api/src/usage-counter.ts:129-289 | consumed plus pending never exceeds the largest limit admitted against; all that was admitted is consumed, pending, returned or expired; the alarm is set while anything is pending; under each key every admission was settled once, expired once or is pending, and no more is charged than was admitted |
| MeterRuns.ConsumedRisesOnlyBySettling | apps/api/src/usage-counter.ts:246-267 | only settling a held reservation raises the meter, by at most its cost, and closes it |
| MeterRuns.SettlingTwiceIsOnce | apps/api/src/usage-counter.ts:254-256 | a repeated settle or release changes nothing |
| MeterRuns.UnsettledReservationIsReturned | apps/api/src/usage-counter.ts:123-153 | a reservation nobody settles is given back in full by any alarm after its time to live |
| MeterRuns.ReservationStandsIff | apps/api/src/usage-counter.ts:129-289 | through any requests and alarms a reservation stands, unchanged, exactly as long as no settle it covers, no release of its key and no alarm after its time to live has come |
| MeterRuns.EndedReservationIsNotCharged | apps/api/src/usage-counter.ts:246-267 | once it has ended, and until its key is reserved again, a settle of it, late or repeated, changes nothing |
| MeterRuns.LateSettleIsRefused | apps/api/src/usage-counter.ts:129-267 | a settle after the sweep charges nothing, and one that meets a smaller reservation made since is refused |
| Metering.PeriodEndsAtReset | apps/api/src/usage-counter.ts:319-340 | the reset a verdict names is the very instant from which another counter is charged |
| Metering.CounterIsPerOrganisationAndMonth | apps/api/src/usage-counter.ts:308-340 | two requests reach one counter exactly when they are of one organisation and one month |
| Metering.PeriodIsReadable | apps/api/src/usage-counter.ts:336-340 | a printed period is one the handle reader accepts exactly in years of four digits |
| Metering.IsPeriodMeaning | apps/api/src/ports/metering.ts:163-178 | a period is four digits, a dash and the number of a month in two |
| Metering.HandleRoundTrip | apps/api/src/ports/metering.ts:163-178 | a handle read back at any later time names the period and reservation it was made with exactly in years of four digits |
| Metering.FreshReservationAdmittedIff | apps/api/src/usage-counter.ts:171-236 | under a key that holds no reservation one is admitted exactly when cost and key are well formed, fewer than the most are pending, and consumed plus pending leaves room for it in the plan |
| Metering.HandleSettlesIff | apps/api/src/ports/metering.ts:95-108 | whatever has happened since, a handle settles at the counter it was made for: the amount is charged and the reservation closed exactly when one under its key covers it, otherwise nothing changes, and no other counter does |
| Metering.FreshReservationSettlesWhereAdmitted | apps/api/src/ports/metering.ts:59-108 | a fresh reservation stands through any other requests and alarms at its counter exactly as long as none ends it, and any amount up to it is then charged there, even after the month has rolled over |
| Metering.ReleaseSettlesNothing | apps/api/src/ports/metering.ts:95-108 | releasing is settling for nothing at the same counter |
| Metering.AuthorisedPriceIsChargeable | packages/tools/src/metering.ts:57-76 | the price of an authorised metered call is one the counter accepts and covers the failed-call weight |
| Metering.ReusedReservationSettlesIff | apps/api/src/usage-counter.ts:193-203 | as long as nothing has ended the reservation, settling a retry at its own price succeeds exactly when that does not exceed the price first reserved |
| Json.EscapeUnitTable | packages/tools/src/digest.ts:23-25 | each code unit is printed as section 25.5.2.3 of ECMA-262 says: seven two-unit escapes, lower-case hexadecimal for other controls and lone surrogates, everything else as it is |
| Json.EscapeAllLength | packages/tools/src/digest.ts:23-25 | so the text of a string has the length that table gives it, pairs of surrogates being printed as they are |
| Json.ParsePrint | packages/tools/src/digest.ts:23-25 | parsing undoes printing for every canonical value, whatever follows it (sections 2 to 7 of RFC 8259) |
| Json.PrintInjective | packages/tools/src/digest.ts:23-25 | two canonical values with the same text are the same value |
| IndexKeys.ArrayIndexIff | packages/tools/src/digest.ts:42-50 | the keys enumerated first are the numerals of the integers below 2^32 - 1 |
| IndexKeys.IndicesComeFirst | packages/tools/src/digest.ts:42-50 | and they are enumerated by value, before all others, which come in code unit order |
| Digest.CanonicalMembersList | packages/tools/src/digest.ts:42-50 | the canonical members are one for each kept member, in enumeration order |
| Digest.SameFormIffEquivalent | packages/tools/src/digest.ts:27-54 | canonical forms are equal exactly for values equal up to key order, dropped members and undefined as null |
| Digest.SameTextIffEquivalent | packages/tools/src/digest.ts:23-54 | so are canonical texts |
| Digest.CanonicalIffRepresentable | packages/tools/src/digest.ts:35-53 | a value is refused exactly when it holds a number that is not finite or something JSON cannot carry |
| Digest.PrintHasNoNewline | packages/tools/src/digest.ts:64-66 | a canonical text never holds the separator of the preimage |
| Digest.PreimageDeterminesCall | packages/tools/src/digest.ts:64-66 | the preimage, as text, determines the tool and the arguments up to equivalence, and nothing less |
| Encoding.EncodedPreimageDeterminesCall | packages/tools/src/digest.ts:56-66 | encoded for hashing it determines the arguments up to equivalence, and the tool exactly as far as the encoding of its name does |
| Encoding.HashedTextDeterminesCall | packages/tools/src/digest.ts:56-66 | so it determines tool and arguments when no surrogate of a tool name stands alone |
| ValueText.EncoderReadsCharacters | packages/tools/src/digest.ts:56-66 | for a string of characters what is hashed is those very characters |
| Canonicalizer.CanonicalizeValue | packages/tools/src/digest.ts:27-54 | the recursion computes the canonical form or throws where there is none |
| Canonicalizer.MapItems | packages/tools/src/digest.ts:29 | the map over an array, element by element |
| Canonicalizer.BuildObject | packages/tools/src/digest.ts:42-50 | assigning sorted keys one by one gives the canonical members in the order in which a JavaScript object enumerates them |
| JsonSchema.HasTypeMeaning | packages/contracts/src/json-schema.ts:202-216 | every number has type number, a whole one also integer, and any other value the type of its kind alone |
| JsonSchema.TypeAllowedMeaning | packages/contracts/src/json-schema.ts:202-209 | the type keyword holds exactly when one of its types is the value's |
| JsonSchema.IsMultipleMeaning | packages/contracts/src/json-schema.ts:247-252 | a multiple is a whole number of times the divisor up to a billionth, and nothing is a multiple of zero |
| JsonSchema.DeepEqualIffSame | packages/contracts/src/json-schema.ts:381-390 | key-sorted copies are equal exactly for values equal up to key order |
| ValueText.PrintedAlikeIffSame | packages/contracts/src/json-schema.ts:377-390 | so are the texts that `deepEqual` compares, printed in the order in which JavaScript enumerates the copies |
| JsonSchema.ReferenceLowersRank | packages/contracts/src/json-schema.ts:182-191 | where no chain of references outside the value closes, following one leaves strictly fewer definitions to reach, which is why the traversal ends |
| SchemaValidator.ItemsUniqueIff | packages/contracts/src/json-schema.ts:287-290 | as many distinct copies as items means no two items are equal |
| SchemaValidator.ListedValuesMeaning | packages/contracts/src/json-schema.ts:194-200 | `const` and `enum` hold exactly for values equal up to key order |
| SchemaValidator.ValidIffSatisfies | packages/contracts/src/json-schema.ts:174-342 | the traversal reports nothing exactly when the value satisfies the schema, at any path, so the boolean test behind anyOf, oneOf and not agrees with it; a reference stands for its definition alone |
| SchemaValidator.RootValidIffSatisfies | packages/contracts/src/json-schema.ts:168-172 | so it is for the root schema, whenever no chain of references outside the value returns to its start |
| SchemaReports.OneLevel | packages/contracts/src/json-schema.ts:174-342 | an error reported at a place is of a keyword that fails right there, or is reported at a place the traversal goes on to, and the other way round |
| SchemaReports.ReportedIffFound | packages/contracts/src/json-schema.ts:174-342 | so the errors, with their paths and kinds, are exactly those of the keywords that fail at the places that references, allOf, items, declared and additional members lead to |
| SchemaChecker.Validate | packages/contracts/src/json-schema.ts:168-172 | the verdict is the meaning of the schema, and the error list is empty exactly when it is valid |
| SchemaChecker.Check | packages/contracts/src/json-schema.ts:174-232 | the traversal appends exactly the reported errors, in order, to what the list held |
| SchemaChecker.ValidateAgainst | packages/contracts/src/json-schema.ts:338-342 | the boolean test tries the schema on a list of its own and leaves the caller's alone |
| SchemaChecker.CheckNumber | packages/contracts/src/json-schema.ts:234-253 | the errors of the number keywords, in order |
| SchemaChecker.CheckString | packages/contracts/src/json-schema.ts:255-272 | the errors of the string keywords, in order |
| SchemaChecker.CheckArray | packages/contracts/src/json-schema.ts:274-294 | the errors of the array keywords and of every item at its index |
| SchemaChecker.CheckObject | packages/contracts/src/json-schema.ts:296-336 | the errors of the object keywords, of required, declared and additional members |
| Paging.Actions | apps/api/src/db/scope.ts:402-427 | the page holds only visible rows after the cursor, newest first and at most the limit; rows left out are older than all shown and leave the page full; a cursor is given exactly while some are left, and names the last row shown |
| Paging.PageOptionsRoundTrip | apps/api/src/index.ts:301-323 | of the printed limits exactly 1 to 100 are accepted, and with them exactly the cursors of readable rows |
| Paging.AcceptedLimit | apps/api/src/index.ts:301-323 | whatever the texts, accepted options ask for 1 to 100 rows, 50 by default, and a limit is accepted exactly when it is one to three digits of such a number |
| Paging.RowIdMeaning | apps/api/src/index.ts:311-322 | an id is 1 to 128 digits, letters, dashes and underscores |
| Paging.CursorRoundTrip | apps/api/src/index.ts:311-322 | a printed cursor reads back to its pair exactly when the time has at most thirteen digits and the id only permitted characters |
| Paging.ListingStaysInScope | apps/api/src/db/scope.ts:402-427 | the listing is exactly the organisation's rows, those of one site for a caller restricted to it, and no page shows any other |
| Paging.QueryAfterRow | apps/api/src/db/scope.ts:402-427 | what the query after a row of the original listing sees is the rest of that listing, whatever newer rows have arrived |
| Paging.WalkShowsPrefix | apps/api/src/db/scope.ts:402-527 | after any number of pages the rows shown are a prefix of the listing, and a cursor is given exactly while rows remain |
| Paging.CompleteWalkShowsEverything | apps/api/src/db/scope.ts:402-527 | following the cursors until there is none yields every visible row of the original table once, newest first, while newer rows arrive |
| Paging.WalkEnds | apps/api/src/db/scope.ts:519-527 | no page is asked for once the listing has been shown |

## Left out

- Real zone data and `Intl`: a zone is any function to whole-second offsets; `Date` range limits and an unknown zone name are not modelled.
- TimeZone: `Date.UTC` is read without its substitution of the years 0 to 99, which `Calendar.DateUtcReturnsIff` shows to matter in those years only.
- HTTP routing, D1, Durable Object storage and queue delivery: only atomic steps on a row, a record or a port result.
- Error message texts: an error is its kind and, for the validator, its path.
- The cron text inside a stored job: a job holds its parsed fields or none, so a stored expression that does not parse is not modelled as a throw.
- Failing writes to `job_runs` from the skip log, and the retry alarm the platform sets after a handler throws, beyond the alarm staying due.
- Policy.RetryDelayBounds: jitter is a real from 0 to 1, so floating-point rounding is not modelled.
- SchedulerRuns.EveryRunEnqueuedOnce: stated for fixed-offset zones, because elsewhere the search is not the least later instant.
- ClaimProtocol.AtMostOneLiveClaimant: a crash is an event, and the claim's result after it is not modelled.
- Idempotency.ClaimStore.Sweep: which stale keys the LIMIT selects is an argument; stored results are text and a result that does not parse is not modelled.
- SHA-256 and the bytes of UTF-8: the digest is represented by the scalar values that are encoded and hashed.
- Digest.SameTextIffEquivalent: numbers are the text JavaScript prints for them, so -0 and 0 are one value; getters, `toJSON`, sparse arrays and cyclic values are not modelled.
- ValueText.PrintedAlikeIffSame: numbers are reals with a numeral that tells them apart; undefined and numbers that are not finite do not occur in values, and strings hold no surrogate that stands alone.
- SchemaValidator.ValidIffSatisfies: pattern and format are arbitrary predicates, numbers are reals (so `multipleOf` has no floating-point error); a schema whose references form a cycle outside the value sends the source into unbounded recursion and is not modelled; nor are references to names that every object inherits, such as `constructor`, which the source takes for definitions that accept everything; `compileSchema` is left out.
- The counter's `pending` record is a map, so keys inherited from `Object.prototype` are not modelled; nor is an unreachable counter, whose reservation is denied and whose settlements are lost until they expire, nor the choice of a plan from the subscription row.
- Gate: roles and permissions are one boolean, and the contract of a tool is an argument; entitlement and snapshot target tables are left out.
- Executor.Execution.Execute: clock, logs, audit contents, messages, retry hints and the class named in a snapshot's reason are left out, and so is the actual transport; a failing dry run reports a charge although it holds no reservation, as in the source.
- Paging.Actions: `jobRuns` is the same query with one more equality on the job and is not repeated; columns that are only carried through are left out.
- Console, dashboard, pay, site and legacy code, URL guarding, redaction, API keys and PKCE.
