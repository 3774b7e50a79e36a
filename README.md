# Mentor availability, report lifecycle and compensation: a Dafny model

This project models the part of the mentoring-platform backend that has real logic.
The backend matches mentors with cadets, records meetings as mentoring logs and pays
mentors for their session reports. The model covers three pieces of it.

- **Weekly availability** (`availability.dfy`, module `Availability`). A mentor submits a
  week as seven buckets of time slots. `isValidTime` checks each slot. `validateTimeOverlap`
  tests a pair of slots. `validateAvailableTime` checks every slot of every bucket, then
  every ordered pair of distinct slots within each of days 0..6. It stops at the first
  error and returns the week unchanged. The loop method `ValidateAvailableTime` is proved
  equal to the function `ValidateSchedule`. That function's contract states exactly which
  weeks pass.
- **Mentor update** (`mentors.dfy`, class `Mentors.Mentor`). `updateMentorDetails` copies
  the submitted profile fields. A mentor who turns active must submit a schedule, and it
  must pass validation. A mentor who stays inactive keeps the stored schedule. The class
  invariant `Valid()` says that an active mentor's stored schedule is one that validation
  accepted. The update preserves this invariant.
- **Compensation** (`compensation.dfy`, module `Compensation`). `calculateTotalHour` counts
  a meeting's whole hours. It then applies a 4-hour daily cap and a 10-hour monthly cap,
  both computed over the mentor's completed meetings. The loop method `CalculateTotalHour`
  is proved equal to the function `TotalHour`. The lemmas state each cap, the bounds on
  the result, and how the day's sum relates to the month's.
- **Report lifecycle** (`reports.dfy`, module `Reports`). The log's `reportStatus` moves from
  "작성가능" (writable) to "작성중" (in progress) to "작성완료" (complete). The classes
  `MentoringLog` and `Report` hold the mutable state. `CreateReport`, `UpdateReport` and
  `ReportDone` state each gate, each error, and the full new state.
  `Report.IsEntered` is the completeness predicate.

`common.dfy` (module `Common`) holds `Option`, `Result`, `Outcome` and the error
enumeration. The enumeration has one constructor per exception of the modelled operations,
apart from the persistence errors (not-found and conflict) listed under Left out.

Inputs in place of collaborators:
- Repository lookups are replaced by the entity objects themselves.
- The history query is replaced by a sequence of `Compensation.Meeting` records: month,
  day of month, start and end in milliseconds.
- The report-status policy object is replaced by a total function `verify: string -> bool`.
- Uploaded file paths and the signature path are `Option` inputs.
- JavaScript `Date` values are replaced by the month and day-of-month fields of the meeting
  record.

Behaviour of the code that callers may not expect:
- `createReport` rejects with a "method not allowed" error.
- `updateReport` rejects a locked status with an "unauthorized" error.
- `reportDone` does not check the current status. Only the policy in `updateReport`
  guards a completed report.
- `updateReport` saves the edit before it attempts completion, so a failed completion
  keeps the edit (`Reports.UpdateReport`, `Reports.LifecycleScenario`).
- The daily sum does not exclude the meeting being paid. It includes whatever the history
  contains.
- The monthly clamp subtracts the day's hours (see Findings).

## Model

| member | source | states |
|---|---|---|
| `Availability.IsValidTime` | src/v1/mentors/service/mentors.service.ts:118-136 | An accepted slot lies on the half-hour grid within one day and lasts at least 60 minutes. A slot whose start hour is not below its end hour is rejected, whatever its minutes. |
| `Availability.ValidTimeShapes` | src/v1/mentors/service/mentors.service.ts:118-136 | On the grid with start hour below end hour, the 60-minute rule rejects exactly one shape: h:30 to (h+1):00. |
| `Availability.ValidateTimeOverlap` | src/v1/mentors/service/mentors.service.ts:138-159 | The rule fails only with the overlap error. Which pairs it rejects is stated by `OverlapCharacterized` and the lemmas below it. |
| `Availability.OverlapCharacterized` | src/v1/mentors/service/mentors.service.ts:138-159 | For valid slots the rule fails exactly when the hour ranges intersect, or when the slots are adjacent and the boundary test (first ends at :30, second ENDS at :00) fires in either direction. Slots separated by a gap always pass. |
| `Availability.OverlapSymmetric` | src/v1/mentors/service/mentors.service.ts:138-159 | Swapping the two slots gives the same outcome: clauses 1/3 and 2/4 mirror each other. |
| `Availability.HourIntersectionRejected` | src/v1/mentors/service/mentors.service.ts:139-141 | For any two slots, `a.startHour <= b.startHour < a.endHour` is rejected in both argument orders. |
| `Availability.SameSlotRejected` | src/v1/mentors/service/mentors.service.ts:127-141 | A valid slot clashes with itself, because its start hour is below its end hour. |
| `Availability.AdjacentSlots` | src/v1/mentors/service/mentors.service.ts:142-159 | Take valid slots where the second starts in the hour the first ends. They are rejected exactly when the first ends at :30 and the second ENDS at :00. An adjacent slot after a whole-hour end is accepted. |
| `Availability.ScanDays` | src/v1/mentors/service/mentors.service.ts:169-177 | The day pass from a given day succeeds exactly when there are at least seven buckets and every day from there to 6 is free of clashes. On failure the error is the missing-day one or the overlap one. |
| `Availability.ScanDaysError` | src/v1/mentors/service/mentors.service.ts:169-177 | The day pass gives the overlap error exactly when some present day from the start day on has a clashing pair. It gives the missing-day error exactly when there are fewer than seven buckets and every present day is free of clashes. |
| `Availability.ValidateSchedule` | src/v1/mentors/service/mentors.service.ts:161-179 | A week is accepted exactly when every slot in every bucket is valid, there are at least seven buckets, and days 0..6 have no clashing pair. An invalid slot gives the format error before any overlap test. On success the week comes back unchanged. |
| `Availability.ValidateAvailableTime` | src/v1/mentors/service/mentors.service.ts:161-179 | The slot loop and the nested day/i/j loops, with early exit, return exactly `ValidateSchedule(time)`. |
| `Availability.ValidationIdempotent` | src/v1/mentors/service/mentors.service.ts:178 | Validating an accepted week again gives the same result. |
| `Availability.DuplicateSlotRejected` | src/v1/mentors/service/mentors.service.ts:169-177 | A slot that appears at two positions of one of days 0..6 makes the week fail. |
| `Availability.OneSlotPerDayAccepted` | src/v1/mentors/service/mentors.service.ts:169-177 | Only slots in the same bucket are compared. Valid slots with at most one per day always pass. |
| `Availability.MondayScenario` | src/v1/mentors/service/mentors.service.ts:161-179 | 9:00-10:00 and 9:30-10:30 are rejected on the same Monday and accepted on Monday and Tuesday. |
| `Availability.AsWrittenMissesHalfHourOverlap` | src/v1/mentors/service/mentors.service.ts:142-148 | 9:00-10:30 and 10:00-11:30 share half an hour, yet the rule accepts them. |
| `Availability.AsWrittenRejectsTouchingSlots` | src/v1/mentors/service/mentors.service.ts:142-148 | 9:00-10:30 and 10:30-12:00 only touch, yet the rule rejects them. |
| `Availability.ValidateTimeOverlapIntended` | src/v1/mentors/service/mentors.service.ts:142-148 | The corrected rule, which reads the later slot's start minute, fails only with the overlap error. |
| `Availability.IntendedOverlapIsIntervalOverlap` | src/v1/mentors/service/mentors.service.ts:138-159 | For valid slots, the corrected rule rejects exactly the pairs whose half-open minute intervals intersect. |
| `Mentors.Mentor.CreateUser` | src/v1/mentors/service/mentors.service.ts:22-31 | A new mentor is inactive, so the invariant holds. |
| `Mentors.Mentor.UpdateMentorDetails` | src/v1/mentors/service/mentors.service.ts:89-116 | Succeeds exactly when the mentor stays inactive, or submits a schedule that validation accepts. Active with no schedule fails with the missing-schedule error. A rejected schedule fails with validation's error. A failure changes nothing. A success stores the submitted fields. The schedule is replaced only when active and kept when inactive. The invariant is preserved. |
| `Compensation.Hours` | src/v1/reports/service/reports.service.ts:142-144 | The whole hours `h` of a span satisfy `h*3600000 <= end-start < (h+1)*3600000`, so the fraction is floored. A span of non-negative length has non-negative hours. |
| `Compensation.SameMonthSelects` | src/v1/reports/service/reports.service.ts:156-159 | The month list holds exactly the history meetings that start in the same month. No year is compared. |
| `Compensation.SameDaySelects` | src/v1/reports/service/reports.service.ts:161-164 | The day list holds exactly the listed meetings that start on the same day of the month. |
| `Compensation.SumHoursNonNegative` | src/v1/reports/service/reports.service.ts:166-183 | Summed whole hours of meetings of non-negative length are non-negative. |
| `Compensation.SameDayBelowAll` | src/v1/reports/service/reports.service.ts:161-172 | Filtering by day never raises the summed hours of meetings of non-negative length. |
| `Compensation.DaySumAtMostMonthSum` | src/v1/reports/service/reports.service.ts:156-183 | With non-negative durations, `0 <= dailySum <= monthlySum`, since the day's meetings are drawn from the month's. |
| `Compensation.DailyCapReached` | src/v1/reports/service/reports.service.ts:173 | A daily sum of 4 or more pays 0, whatever the month holds. |
| `Compensation.DailyCapClamps` | src/v1/reports/service/reports.service.ts:174-175 | Below the cap, `dailySum + base >= 4` clamps the result to `4 - dailySum` when the month cap does not then bite. |
| `Compensation.MonthlyCapReached` | src/v1/reports/service/reports.service.ts:184 | A monthly sum of 10 or more pays 0. |
| `Compensation.MonthlyClampUsesDaySum` | src/v1/reports/service/reports.service.ts:185-186 | When the monthly clamp fires, the result is `10 - dailySum`, not `10 - monthlySum`. |
| `Compensation.BelowCapsPaysBase` | src/v1/reports/service/reports.service.ts:142-188 | Below both caps, the meeting pays its whole hours. |
| `Compensation.TotalHourNonNegative` | src/v1/reports/service/reports.service.ts:142-188 | A meeting of non-negative length never pays negative hours. |
| `Compensation.TotalHourAtMostMonthlyCap` | src/v1/reports/service/reports.service.ts:142-188 | With no history meeting of negative length, the result is at most 10. |
| `Compensation.DailyCapExample` | src/v1/reports/service/reports.service.ts:166-175 | With 3 hours logged that day, a 2-hour meeting pays 1 hour. |
| `Compensation.AsWrittenOverpays` | src/v1/reports/service/reports.service.ts:184-186 | With 9 hours earlier that month, none that day, and a 3-hour meeting, the result is 10 hours. |
| `Compensation.IntendedRespectsCaps` | src/v1/reports/service/reports.service.ts:166-188 | The corrected clamp pays between 0 and the meeting's whole hours. It never lifts the day past 4 or the month past 10. |
| `Compensation.IntendedExample` | src/v1/reports/service/reports.service.ts:184-186 | On the overpaying input, the corrected clamp pays 1 hour. |
| `Compensation.CalculateTotalHour` | src/v1/reports/service/reports.service.ts:133-189 | The filter loops, the sum loops and the two caps with early returns give exactly `TotalHour(history, span)`. |
| `Reports.Report.IsEntered` | src/v1/reports/service/reports.service.ts:115-131 | A report counts as entered only when cadet, mentor and log are present, there is at least one image, topic, place and content are non-empty, and the three scores are non-zero. `ReportDone` makes this the completion gate. |
| `Reports.Report.Create` | src/v1/reports/service/reports.service.ts:262-266 | The new report carries the log's cadet, mentor and log. Every other field is empty. |
| `Reports.CreateReport` | src/v1/reports/service/reports.service.ts:245-277 | An existing report gives the "already has a report" error. Otherwise a status other than writable gives the not-writable error. Either failure leaves the log unchanged. A success links a fresh, empty, not-yet-entered report and moves the status to in progress. Money and the meeting are untouched. |
| `Reports.ReportDone` | src/v1/reports/service/reports.service.ts:325-350 | An incomplete report fails and leaves the log unchanged. A complete one sets `money = TotalHour(history, meeting) * 100000` and the status to complete. The status either stays or becomes complete, never anything else. |
| `Reports.UpdateReport` | src/v1/reports/service/reports.service.ts:282-323 | Checks in the source's order: missing log, status refused by `verify`, missing mentor, foreign mentor. Each fails with nothing changed. Otherwise each sent field replaces the stored one, and a score is kept when the incoming one is absent or 0. Without `isDone` the log is untouched. With it, the result is the completion gate applied to the edited report. On every path the log's cadet, mentor, meeting and report link stay as they were. |

## Findings

| source | as written | input that shows it | evidently intended | confidence | as-written member | corrected member |
|---|---|---|---|---|---|---|
| src/v1/mentors/service/mentors.service.ts:142-148 | the boundary clause tests `time2.endMinute === 0` (and, mirrored, `time1.endMinute`) | 9:00-10:30 with 10:00-11:30 is accepted although both cover 10:00-10:30; 9:00-10:30 with 10:30-12:00 is rejected although they only touch | testing the later slot's start minute, which makes the rule exactly the intersection of half-open minute intervals for valid slots | medium, not executed | `Availability.AsWrittenMissesHalfHourOverlap` | `Availability.IntendedOverlapIsIntervalOverlap` |
| src/v1/reports/service/reports.service.ts:185-186 | the monthly clamp sets `result = 10 - mentoringTimePerDay` | 9 hours earlier in the month, none that day, a 3-hour meeting: pays 10 hours for a 3-hour meeting | `10 - mentoringTimePerMonth`, which pays 1 hour and keeps the month at 10 | high, not executed | `Compensation.AsWrittenOverpays` | `Compensation.IntendedRespectsCaps` |

The validator (`ValidateAvailableTime`) and the payout (`ReportDone`) keep the as-written
behaviour, because they model what the service does. The corrected definitions
`ValidateTimeOverlapIntended` and `TotalHourIntended` stand beside them with their
properties proved.

## Left out

- Repository calls (`findOne`, `find`, `findOneBy`, `save`, `create`) and the not-found
  and conflict exceptions they raise: entities and the history are inputs, and a save is
  taken to succeed.
- The paginated report listing (reports.service.ts:201-240), `getReport`, and the lookups
  `findReport*`/`findMentoringLogById`: they only query persistence.
- The history query's filter on mentor id and on meeting status "완료": the caller supplies
  a history already filtered. Whether that history contains the meeting being paid is up
  to the caller.
- Whether `findMentoringLogById` loads the `reports` relation: `CreateReport` tests the
  log's `report` field as written.
- The repeated "already has a report" test at reports.service.ts:257-261: it is
  unreachable after line 247, so it is modelled once.
- `ReportStatus.verify()`: its class is not part of this model. It is the parameter
  `verify`.
- JavaScript `Date`: local time zone, `getMonth`/`getDate` and year wrap are replaced by
  the meeting record's month and day fields.
- JSON parse/stringify of the stored schedule and `validateInfo`
  (mentors.service.ts:71-87): the schedule is stored as a structured week.
- `getImagesPath`/`getSignaturePath`: upload plumbing. Their results are the
  `filePaths`/`signature` options.
- JavaScript number semantics: slot fields, scores and timestamps are integers. NaN,
  fractions and non-numeric JSON values are not modelled.
- A `null` `imageUrl` (a TypeError in `isEnteredReport`): the report's image list is
  always a sequence.
- Concurrency: the un-awaited `save` at reports.service.ts:304, and races between
  concurrent `createReport` or `reportDone` calls. Each method runs atomically here.
- The profile assignments in `updateMentorDetails` that precede its throw: the source assigns the profile fields before it
  throws. Those assignments are never saved, so the model leaves the stored mentor
  unchanged on failure rather than modelling the discarded in-memory entity.
- Controllers, module wiring, guards and DTO decorators.
