# A verified model of the compliance-deadline and correspondence service

This project models the parts of the service whose behaviour is hard to see from
reading it, and proves what they promise over all inputs and all runs:

* **Deadline engine.** Calendar arithmetic, observed federal holidays (section 6103 of
  title 5 of the United States Code), business-day stepping, recurrence expansion,
  milestone scaling, planning and escalation (`Dates`, `Holidays`, `BusinessDays`,
  `Recurrence`, `RecurrenceProperties`, `RecurrenceEdges`, `RecurrenceInputs`, `Rules`, `Calculator`,
  `MaterializationKeys`, `Escalation`).
* **Durable job queue.** The table with its unique indexes, each operation as an atomic
  step, invariants, counting and timing over every interleaving, and the repository class
  whose methods take those steps (`JobQueue`, `JobQueueRuns`, `JobQueueTimes`,
  `JobRepository`).
* **Compliance-case stage machine.** The transition matrix, its guards and every run of
  it (`Stages`), and where runs can miss the signature stages (`Signatures`).
* **Byte movers and retry loops.** The ranged attachment upload, the multipart evidence
  upload and the request retry loop, against an arbitrary remote side (`DraftUpload`,
  `EvidenceStore`, `GraphClient`).
* **Evidence-bound classification.** Request extraction, the model merge, validation and
  the fallback, down to concrete string operations (`Text`, `Classification`, `RequestLines`).
* **Ciphertext envelope.** Printer and parser around an authenticated cipher (AES-GCM,
  NIST SP 800-38D) and base64url (section 5 of RFC 4648) (`Base64Url`, `Envelope`).

A date is a day ordinal; `today`, `now`, the random jitter and the nonce are parameters;
a server, a store or a stream of replies is a function the loop is verified against for
every value; regular expressions and character classes are arbitrary functions.
Loops and objects that change in place are methods and classes proved against
specification functions, and the lemmas are about those functions.

## Where the code departs from its description

The model follows the code. Each point below is a theorem, with the exact condition where the
code meets its description and an input where it does not.

* `expand` with EXPIRATION_ANNIVERSARY returns the renewed date over and over, or swings
  between two dates if the interval is negative (`RecurrenceEdges.ExpirationRepeats`,
  example `RenewalRepeats`); `next_occurrence` is not after its argument from those dates
  on (`ExpirationIsBeyond`), and the plan's keys are distinct exactly while no date is
  listed twice (`MaterializationKeys.ExpirationKeysDiffer`, example `RenewalPlanCollides`).
* ISSUE_ANNIVERSARY with an interval above one year counts from the window, not from the
  issue year, and with an interval of zero or less does not advance and can leave the
  window (`RecurrenceProperties.IssueExpansion`, examples
  `RecurrenceEdges.RenewalIsMisaligned` and `ZeroIntervalStandsStill`).
* CUSTOM_INTERVAL searches 400 steps from its anchor, so, with no negative part, due dates
  further on are lost exactly when the limit is not met before them
  (`RecurrenceEdges.ForwardExpansionIsComplete`, example `DailyIntervalGivesUp`).
* RELATIVE_TO_CASE_EVENT can yield a date before the window (`RelativeExpansion`, example
  `OldEventIsListed`).
* A Saturday 1 January is observed on 31 December, and that day is then not found to be a
  holiday; it is the only observance missed (`Holidays.MissedObservance`, example
  `BusinessDays.NewYearsEve2021`).
* The scaled ladder merges its first two steps for leads of one to seven days
  (`Rules.ScaledLadder`, `FirstStepTies`).
* With nothing running, a lone worker never claims again exactly when every row it could
  claim sorts behind a due row whose slot is taken (`JobQueueRuns.ShadowedQueueIsStuck`,
  reachable by `ShadowedIsReachable`).
* An enqueue whose insert was rejected can raise the database's error after all, when the
  job that blocked it ends before the second lookup (`JobQueueRuns.LookupMissesOnlyEnded`,
  example `RejectedInsertCanMiss`); it does so exactly when the table it then finds holds
  neither the key nor an active target (`JobRepository.GraphJobRepository.InsertOrJoin`).
* A required signature that is only flagged as recorded lets a case into submission past
  the signature stages, by three moves directly and by two through the vendor's validation;
  the signature stages are passed exactly when these are cut
  (`Signatures.SignatureForcedExactly`, examples `FlagReplacesSignature`).
* A case can complete without ever being submitted, and so without the signature check, in
  two ways: resumed from BLOCKED into REGULATOR_REVIEW, or validated by the vendor after
  its packet was merely sent (`Stages.BlockedCaseSkipsSubmission`,
  `SentPacketSkipsSubmission`). Submission is forced exactly when moves on both ways are
  forbidden (`SubmissionForcedExactly`).
* A line that asks for something named in fewer than two characters makes the whole
  classification fail, and nothing is stored (`Classification.ClassifyEmail`, example
  `SendXAsksTooBriefly`).
* `decrypt` ends in another error than its own for exactly the well-formed envelopes whose
  nonce the cipher does not take (`Envelope.NonceRejectedExactly`, example
  `ShortNonceIsRejected`).
* Entity types that contain a colon can share associated data with another row
  (`Envelope.OwnersClashExactly`, `ColonsConfuseOwners`).

## Model

| member | source | states |
|---|---|---|
| Dates.OrdinalRoundTrip | app/deadlines/recurrence.py:38-41 | reading a valid year/month/day back from its day ordinal gives the same date |
| Dates.OrdinalOrder | app/deadlines/recurrence.py:44-48 | comparing dates is comparing ordinals, in both directions |
| Holidays.NthWeekday | app/deadlines/business_days.py:24-28 | the n-th weekday has that weekday and lies in the month's n-th block of seven days |
| Holidays.LastWeekday | app/deadlines/business_days.py:31-35 | the last weekday has that weekday and is among the month's last seven days |
| Holidays.FederalExactly | app/deadlines/business_days.py:38-65 | for every year the computed holidays are exactly the days that civil date and weekday call for: five fixed dates, kept on the Friday before a Saturday and the Monday after a Sunday, and six floating ones |
| Holidays.HolidaysAreWeekdays | app/deadlines/business_days.py:38-65 | no computed holiday falls on a weekend |
| Holidays.FederalSpacing | app/deadlines/business_days.py:48-65 | two federal holidays are at least six days apart, ten within one year, in every year |
| Holidays.FederalTriple | app/deadlines/business_days.py:48-65 | no three federal holidays fit in fifteen days |
| Holidays.MissedObservance | app/deadlines/business_days.py:38-90 | the own-year lookup misses an observed holiday exactly when it is the 31 December before a Saturday New Year |
| BusinessDays.NewYearsEve2021 | app/deadlines/business_days.py:87-93 | an observed holiday that counts as a business day |
| BusinessDays.OpenExactly | app/deadlines/business_days.py:87-93 | a business day of any calendar, told from weekday, extra holidays and civil date alone |
| BusinessDays.DefaultOpenExactly | app/deadlines/business_days.py:147 | a business day of the default calendar: Monday to Friday and no federal holiday |
| BusinessDays.IndependenceDay2021 | app/deadlines/business_days.py:42-43 | the Monday after a Sunday holiday is closed |
| BusinessDays.FindNextBusinessDay | app/deadlines/business_days.py:95-102 | the capped forward loop computes the search that the lemmas below characterise |
| BusinessDays.FindPreviousBusinessDay | app/deadlines/business_days.py:104-110 | the capped backward loop, likewise |
| BusinessDays.DefaultGap | app/deadlines/business_days.py:24-93 | every four consecutive days hold a business day of the default calendar |
| BusinessDays.DefaultNextIsLeast | app/deadlines/business_days.py:95-102 | on the default calendar the result is the least business day from the start on, at most three days away |
| BusinessDays.DefaultPreviousIsGreatest | app/deadlines/business_days.py:104-110 | the mirror image for the previous business day |
| BusinessDays.NextIsMonotone | app/deadlines/business_days.py:95-102 | on every calendar, cap hit or not, the forward search keeps dates in order |
| BusinessDays.PreviousIsMonotone | app/deadlines/business_days.py:104-110 | the backward search keeps dates in order |
| BusinessDays.GivesUpAfterThirty | app/deadlines/business_days.py:95-110 | after thirty closed days the searches stop thirty days out |
| BusinessDays.AddBusinessDays | app/deadlines/business_days.py:112-123 | terminates on every calendar with an open weekday, on a business day with exactly `count` business days crossed |
| BusinessDays.ClosedForever | app/deadlines/business_days.py:112-123 | without an open weekday there is no business day, so the loop could not end |
| BusinessDays.LandsIsUnique | app/deadlines/business_days.py:112-123 | the count determines the landing day |
| BusinessDays.LandsComposes | app/deadlines/business_days.py:112-123 | add(add(d, a), b) is add(d, a + b) for counts of one sign |
| BusinessDays.LandsInverts | app/deadlines/business_days.py:112-123 | from a business day, adding n and then -n comes back |
| BusinessDays.AdjustmentMovesOnlyClosedDays | app/deadlines/business_days.py:125-144 | a date moves if and only if it is closed and the policy shifts |
| BusinessDays.AdjustmentReported | app/deadlines/business_days.py:125-144 | the policy is reported as applied exactly when the date is closed and it has something to do, and shifts only its own way |
| BusinessDays.DefaultAdjustment | app/deadlines/business_days.py:125-144 | shifting policies go to the nearest business day on their side, within three days |
| Recurrence.FindIntervalOccurrence | app/deadlines/recurrence.py:147-158 | the 400-step loop computes the bounded search |
| Recurrence.ExpandWith | app/deadlines/recurrence.py:198-216 | the expansion loop over cursor, flag and list computes the recursive expansion, errors included |
| RecurrenceProperties.AnniversaryOrder | app/deadlines/recurrence.py:38-41 | clamped anniversaries are ordered exactly as their years, 29 February included |
| RecurrenceProperties.AnniversaryReads | app/deadlines/recurrence.py:38-41 | an anniversary reads back as its year, month and day, or as the last day of a shorter month |
| RecurrenceProperties.ClampedIsLatest | app/deadlines/recurrence.py:38-41 | that is the latest day of the month not after the day asked for, and no other |
| RecurrenceProperties.MonthStepReads | app/deadlines/recurrence.py:151-153 | a month step lands that many calendar months on, clamped the same way |
| RecurrenceProperties.IntervalStepReads | app/deadlines/recurrence.py:151-155 | an interval step goes by the months first and then by the days |
| RecurrenceProperties.NextAnnualIsFirst | app/deadlines/recurrence.py:44-48 | the result is the first anniversary beyond the date, over all years |
| RecurrenceProperties.AnnualExpansion | app/deadlines/recurrence.py:68-105 | FIXED_ANNUAL_DATE, the NMLS window and yearly ISSUE_ANNIVERSARY expand to exactly the first `limit` anniversaries in the window, strictly increasing, one per calendar year |
| RecurrenceProperties.AnnualDatesRead | app/deadlines/recurrence.py:38-48 | every date of a yearly expansion is that month and day of some year, clamped only where the month is shorter |
| RecurrenceProperties.IssueExpansion | app/deadlines/recurrence.py:74-82 | for every interval, zero and negative included, the dates follow one another from the window's first year; that they are distinct, that they lie in the window, and (for positive intervals) that they are whole intervals after issue each hold if and only if a stated condition on interval, limit, horizon and window does |
| RecurrenceEdges.SearchFindsFirst | app/deadlines/recurrence.py:147-158 | the bounded search finds the first iterate beyond the date, or none within the cap |
| RecurrenceEdges.SearchResumes | app/deadlines/recurrence.py:131-158 | restarting from the anchor neither skips nor repeats an iterate |
| RecurrenceEdges.MonthStepAdvances | app/deadlines/recurrence.py:151-153 | a positive month step lands on a later date in spite of clamping |
| RecurrenceEdges.IntervalExpansion | app/deadlines/recurrence.py:131-216 | for every accepted months and days, mixed signs included, CUSTOM_INTERVAL expands in order to exactly the first `limit` iterates in the window later than all before them, among those within 400 steps |
| RecurrenceEdges.ForwardExpansion | app/deadlines/recurrence.py:131-216 | with no negative part, to exactly the first `limit` iterates in the window, one after another |
| RecurrenceEdges.ForwardExpansionIsComplete | app/deadlines/recurrence.py:148-158 | over all iterates, in reach or not, that expansion is exact if and only if nothing is listed, no iterate past the 400th lies in the window, or the limit is met before it |
| RecurrenceEdges.DailyIntervalGivesUp | app/deadlines/recurrence.py:148-158 | a daily interval anchored over 400 days before the window lists nothing |
| RecurrenceEdges.DailyIntervalReaches | app/deadlines/recurrence.py:148-158 | up to 400 days the first day of the window is listed |
| RecurrenceEdges.ForwardIteratesAreRecords | app/deadlines/recurrence.py:147-158 | when every step goes forward no iterate is passed over |
| RecurrenceEdges.ExpirationExpansion | app/deadlines/recurrence.py:84-91 | the complete expansion of EXPIRATION_ANNIVERSARY, for every interval |
| RecurrenceEdges.ExpirationRepeats | app/deadlines/recurrence.py:84-91 | for every interval its dates are strictly increasing, and in the window, exactly under conditions on the first two dates, the horizon and the limit |
| RecurrenceEdges.RenewalRepeats | app/deadlines/recurrence.py:84-91 | a licence whose renewal date is listed twice |
| RecurrenceEdges.RenewalIsMisaligned | app/deadlines/recurrence.py:74-82 | a two-year licence that comes due five years after issue |
| RecurrenceEdges.ZeroIntervalStandsStill | app/deadlines/recurrence.py:74-82 | a licence with an interval of zero years listed twice on one day before the window |
| RecurrenceEdges.OldEventIsListed | app/deadlines/recurrence.py:124-129 | a case event listed years before the window |
| RecurrenceEdges.OccurrenceIsBeyond | app/deadlines/recurrence.py:51-175 | every other type returns a date beyond the one asked about |
| RecurrenceEdges.IssueIsBeyond | app/deadlines/recurrence.py:74-82 | ISSUE_ANNIVERSARY does so exactly when its interval is positive or this year's date is still ahead |
| RecurrenceEdges.ExpirationIsBeyond | app/deadlines/recurrence.py:84-91 | EXPIRATION_ANNIVERSARY does so exactly while the expiry, or the date one interval from it, is still beyond the date asked about, inclusively or not, for every interval |
| RecurrenceEdges.RelativeExpansion | app/deadlines/recurrence.py:124-129 | RELATIVE_TO_CASE_EVENT yields its one date up to the horizon, before the window too |
| RecurrenceInputs.AnchorsInOrder | app/deadlines/recurrence.py:75-137 | which date a case's issue anniversaries and custom intervals go by |
| RecurrenceInputs.GivenExpansion | app/deadlines/recurrence.py:93-173 | a regulator's, bond's or manual date is listed exactly if it is given and in the window |
| RecurrenceInputs.AnnualReportOccurs | app/deadlines/recurrence.py:113-122 | the report date while it is ahead, then the first configured anniversary, or else its own next year |
| RecurrenceInputs.RefusedExactly | app/deadlines/recurrence.py:68-175 | a rule raises an error exactly when its type is unknown or its configuration names no date or step |
| Rules.RoundHalfEven | app/deadlines/rules.py:99 | the result is a nearest integer, and even on a tie |
| Rules.ResolveOffsets | app/deadlines/rules.py:83-105 | the scaling loop computes the resolved ladder, explicit milestones and non-positive leads included |
| Rules.GivenMilestones | app/deadlines/rules.py:90-95 | explicit milestones are used as given, and no lead time means none |
| Rules.ScaledLadder | app/deadlines/rules.py:27-105 | for every positive lead the scaled ladder stays in [1, lead], keeps its order, starts with the lead, and is strictly decreasing exactly from a lead of eight days on |
| Rules.ScaledIsNearest | app/deadlines/rules.py:98-104 | every scaled offset is the nearest to its share of the lead, ties to even, but at least one day |
| Calculator.PlanDeadlines | app/deadlines/calculator.py:149-217 | the nested loops compute the plan, occurrence by occurrence |
| Calculator.SortIsStable | app/deadlines/calculator.py:192 | ordering the offsets sorts, permutes and is stable |
| Calculator.PlannedFrom | app/deadlines/calculator.py:192-200 | a milestone is planned if and only if its target is within the horizon |
| Calculator.MilestonesInOrder | app/deadlines/calculator.py:192-215 | on every calendar milestones come in non-decreasing date order |
| Calculator.MilestoneBeforeDue | app/deadlines/calculator.py:192-215 | a milestone is never after a business-day statutory date, nor, three days ahead on the default calendar, after any |
| Calculator.OccurrencePlan | app/deadlines/calculator.py:149-215 | each occurrence plans its adjusted statutory date, then milestones in order and ahead of it |
| Calculator.SeverityExactly | app/deadlines/calculator.py:76-89 | each severity, by the days left and whether the deadline is statutory |
| Calculator.StatutoryFields | app/deadlines/calculator.py:150-188 | the statutory deadline field by field, with its lead time and what the policy did |
| Calculator.MilestoneFields | app/deadlines/calculator.py:192-215 | a milestone field by field |
| Calculator.PlanHoldsEveryBlock | app/deadlines/calculator.py:149-215 | every occurrence's block appears whole in the plan, after those before it |
| MaterializationKeys.SpreadKeysDiffer | app/deadlines/calculator.py:92-106 | on the default calendar, with every type once, occurrences more than nine days apart, in any order, give pairwise distinct keys |
| MaterializationKeys.AnnualKeysDiffer | app/deadlines/calculator.py:92-217 | so does every yearly rule, 29 February included |
| MaterializationKeys.RepeatedOccurrenceCollides | app/deadlines/calculator.py:92-217 | an occurrence listed twice is planned twice under one key |
| MaterializationKeys.ExpirationKeysDiffer | app/deadlines/recurrence.py:84-91 | on the default calendar, with every type once, EXPIRATION_ANNIVERSARY gives distinct keys if and only if the horizon cuts off one of its two dates or the limit stops it before either comes again |
| MaterializationKeys.ExpirationKeysCollide | app/deadlines/recurrence.py:84-91 | on every calendar it collides as soon as a date is listed twice |
| MaterializationKeys.RenewalPlanCollides | app/deadlines/calculator.py:92-217 | a plan of two dates under one key |
| Escalation.NotifiesExactlyOnEscalation | app/deadlines/escalation.py:59-150 | a notification is due exactly when the level called for outranks the recorded one |
| Escalation.WindowIsTightest | app/deadlines/escalation.py:75-150 | the window is the tightest entered, or the furthest threshold passed; none exactly when there is none |
| Escalation.EscalatedSeverity | app/deadlines/escalation.py:75-150 | the decision's severity, by the days left and whether a window is reached |
| Escalation.LevelsRise | app/deadlines/escalation.py:25-57 | the levels rise from the owner to the executive |
| Escalation.NotifiedRanksRise | app/services/deadline_service.py:256-319 | any run of sweeps notifies at strictly rising ranks, so at most six times |
| Escalation.FinalRankIsHighest | app/services/deadline_service.py:256-319 | under any ladders and times the recorded rank ends at the highest called for |
| Escalation.DefaultLaddersRank | app/deadlines/rules.py:39-48 | the two default ladders, entered window by window, give one schedule of ranks |
| Escalation.SkippedSweepsLoseNothing | app/deadlines/escalation.py:18-150 | with default ladders and times that do not go back, only the last sweep matters |
| JobQueueRuns.StepKeepsInv | app/jobs/repository.py:50-265 | every step keeps the unique indexes, the lease rule and the hand-over rule; a claim may abort to do so |
| JobQueueRuns.RowStep | app/jobs/repository.py:145-265 | which step may change a row's status and attempts, and to what |
| JobQueueRuns.ReachableIsCoalesced | app/models/job.py:21-47 | in every reachable state a key names one job, a folder or email has at most one active job per kind, and a lease exists exactly while RUNNING |
| JobQueueRuns.AttemptsAreClaims | app/jobs/service.py:128-177 | over every run attempts equal claims, and exceed max_attempts (or one) by at most the lease recoveries |
| JobQueueRuns.LeaseStep | app/jobs/repository.py:182-265 | while a lease is held no claim returns the job, and only its holder or an overdue recovery ends it |
| JobQueueRuns.LeaseLasts | app/jobs/repository.py:182-193 | an unreleased lease is still held after any number of steps |
| JobQueueRuns.LeaseExcludesOtherClaims | app/jobs/repository.py:145-265 | between two claims of a job the first holder finished it or its lease ran out and was recovered |
| JobQueueTimes.ClaimGrants | app/jobs/repository.py:173-179 | a claim sets owner, expiry `now` plus lease, attempts and start time, and leaves all else alone |
| JobQueueTimes.LeaseExcludesUntil | app/jobs/repository.py:145-265 | between two claims of a job its holder ended it, or the clock had passed the claim's time plus its lease, or the last extension's plus its own |
| JobQueueTimes.SelectedComesFirst | app/jobs/repository.py:150-164 | the row selected has the lowest priority number, then the earliest availability, then the earliest creation |
| JobQueueTimes.EndingWrites | app/jobs/repository.py:197-237 | what completing, retrying and giving up write, with the error cut to its columns and the hand-over row |
| JobQueueTimes.OverdueIsRecovered | app/jobs/repository.py:241-265 | recovery returns every overdue row and no other |
| JobQueueTimes.RetryWaits | app/jobs/repository.py:206-226 | a job to be retried is not claimed again before its delay is over |
| JobQueueTimes.InsertWrites | app/jobs/repository.py:77-91 | a new row, field by field |
| JobQueueTimes.LookupWrites | app/jobs/repository.py:66-75 | the lookups of an enqueue change only the job they coalesce into |
| JobQueueTimes.TargetsServe | app/jobs/repository.py:113-134 | which active jobs serve a request |
| JobQueueRuns.ClaimAbortsExactly | app/jobs/repository.py:145-180 | a claim is turned down exactly when the row selected is a FAILED_RETRYABLE one whose slot is held by an active job |
| JobQueueRuns.ShadowedQueueIsStuck | app/jobs/repository.py:145-180 | with nothing running, a lone worker for any job types never claims again if and only if every unblocked claimable row has a blocked one strictly before it that is due whenever it is |
| JobQueueRuns.ShadowedIsReachable | app/jobs/repository.py:66-180 | such a queue, with a due PENDING job in it, is reached by failing a folder sync and enqueueing the folder again |
| JobQueueRuns.InsertIsKeptExactly | app/models/job.py:21-47 | an insert is kept exactly when no row has its key and no active row its slot |
| JobQueueRuns.RowsLast | app/jobs/repository.py:145-265 | over any steps no row or key is lost, and an active row stays active unless its holder ends it |
| JobQueueRuns.LookupMissesOnlyEnded | app/jobs/repository.py:92-111 | whatever happens between a rejected insert and the second lookup, it misses only if no row had the key and every job that blocked the insert was completed or failed meanwhile |
| JobQueueRuns.RejectedInsertCanMiss | app/jobs/repository.py:99-110 | a reachable queue in which that happens and the error is raised again |
| JobRepository.RejectedMeansServed | app/jobs/repository.py:99-110 | on the table that rejected an insert, its key or an active target is there to be found |
| JobRepository.InsertAfterMiss | app/jobs/repository.py:66-98 | after both lookups missed, the insert cannot be rejected |
| JobRepository.CoalescingIsIdempotent | app/jobs/repository.py:136-143 | coalescing a request again changes nothing, never lowers urgency, and loses a reason only to the length limit |
| JobRepository.GraphJobRepository.FindOrCoalesce | app/jobs/repository.py:66-143 | key first, then an active job of the target, which is the only row changed |
| JobRepository.GraphJobRepository.Insert | app/jobs/repository.py:94-110 | the savepoint keeps the row or restores the table |
| JobRepository.GraphJobRepository.InsertOrJoin | app/jobs/repository.py:92-111 | for every table others leave between rejection and lookup: its own row, the job joined, or the error raised again, each exactly in its case |
| JobRepository.GraphJobRepository.Enqueue | app/jobs/repository.py:50-111 | created, coalesced or existing, each exactly in its case, with the table it leaves |
| JobRepository.GraphJobRepository.ClaimNext | app/jobs/repository.py:145-180 | claims a row the ordering puts first among unlocked due rows and gives it owner, expiry, attempt and start, changing nothing else; or aborts and changes nothing |
| JobRepository.GraphJobRepository.ExtendLease | app/jobs/repository.py:182-193 | only a running job's own holder moves its expiry |
| JobRepository.GraphJobRepository.MarkCompleted | app/jobs/repository.py:197-204 | the whole new table |
| JobRepository.GraphJobRepository.MarkRetryableFailure | app/jobs/repository.py:206-226 | the whole new table |
| JobRepository.GraphJobRepository.MarkReviewFailure | app/jobs/repository.py:228-237 | the whole new table |
| JobRepository.GraphJobRepository.RecoverExpiredLeases | app/jobs/repository.py:241-265 | every expired row goes back to PENDING, whatever its attempts; the count is theirs |
| JobRepository.GraphJobService.RecordFailure | app/jobs/service.py:128-177 | the retry policy is exactly the queue's Fail step, with what the audit event and outbox row record of the job |
| Stages.AcceptedExactly | app/licensing/stages.py:235-362 | a transition is accepted if and only if the matrix, the evidence of its stage, the signature and the closing rule allow it |
| Stages.AllowedExactly | app/licensing/stages.py:27-231 | the matrix read the other way: where every stage can be entered from |
| Stages.StatusExactly | app/licensing/stages.py:247-279 | the status an accepted transition results in, with the stages grouped by status |
| Stages.Predecessors | app/licensing/stages.py:27-231 | what the stages before the last ones can be |
| Stages.CompletionNeedsEvidence | app/licensing/stages.py:207-244 | every completed run ends in the three closing stages with a renewed-evidence document recorded, close reason or not |
| Stages.NoUnsignedSubmission | app/licensing/stages.py:283-351 | no run enters a submission stage while a required signature is unrecorded, from BLOCKED or not |
| Signatures.SignatureForcedExactly | app/licensing/stages.py:6-231 | over sets of forbidden moves sparing the rest of four runs: a required signature is never skipped if and only if the three moves straight into submission and one of the two by way of validation are cut |
| Signatures.CutsForceSignature | app/licensing/stages.py:6-231 | every accepted run avoiding them asked for the signature and then received the signed form before it entered submission |
| Signatures.FlagReplacesSignature | app/licensing/stages.py:343-351 | four accepted runs into submission past the signature stages, signature required |
| Signatures.NothingStartsWithoutFirstMove | app/licensing/stages.py:27-28 | why the proviso is needed |
| Stages.TerminalEnds | app/licensing/stages.py:319-322 | nothing follows a terminal stage, and no run returns to the first |
| Stages.CompletionNeedsSubmission | app/licensing/stages.py:1-231 | a completed run that does not close from a review begun by one of the two skipping moves went through a submission, signed if required |
| Stages.UnsubmittedSkipsTwice | app/licensing/stages.py:1-231 | a completed run never submitted both came under review and closed by such a move |
| Stages.BlockedCaseSkipsSubmission | app/licensing/stages.py:214-228 | an accepted run from BLOCKED that completes unsigned and unsubmitted |
| Stages.SentPacketSkipsSubmission | app/licensing/stages.py:107-206 | an accepted run, never blocked, that completes unsigned and unsubmitted by way of vendor validation |
| Stages.SubmissionForcedExactly | app/licensing/stages.py:1-231 | over sets of forbidden moves sparing the rest of those two runs: every completed run was submitted if and only if both ways are cut |
| Stages.NothingCompletesWithoutClosing | app/licensing/stages.py:210-212 | why the proviso is needed |
| Stages.CompletionIsReachable | app/licensing/stages.py:27-231 | from every non-terminal stage some accepted run reaches COMPLETED without blocking |
| DraftUpload.UploadLarge | app/graph/draft_attachments.py:78-130 | against any server: at most len/chunk + 8 PUTs from byte 0 at rising offsets, each exactly a chunk, each at the byte the answer before it prints, everything below the offset sent if no answer skips ahead, success exactly on a final id, and what the last answer is on every failure |
| DraftUpload.NextStartIsAsked | app/graph/draft_attachments.py:119-124 | the client reads exactly what an answer asks for: the number it prints, leading zeros included, before nothing or a dash, and otherwise the byte after the last sent |
| DraftUpload.CapIsBeyondContent | app/graph/draft_attachments.py:85-86 | the iteration cap covers the content with room to spare |
| EvidenceStore.StreamingSha256.Update | app/evidence/hashing.py:8-19 | the hash covers all bytes fed in, in order, with their count |
| EvidenceStore.PartsAreTheStream | app/evidence/r2.py:139-178 | for every chunking the parts join up to the stream, there is at least one, and all but the last are full |
| EvidenceStore.PartIsCut | app/evidence/r2.py:153-162 | a part is cut at the first chunk that fills it |
| EvidenceStore.RestGoesOut | app/evidence/r2.py:163-164 | what never fills a part goes out once, even if it is nothing |
| EvidenceStore.PartSizeExactly | app/evidence/r2.py:141 | the part size is the setting or five mebibytes, whichever is more |
| EvidenceStore.SendFullParts | app/evidence/r2.py:153-163 | the buffering loop sends exactly the full parts, or says why it stopped |
| EvidenceStore.PutStream | app/evidence/r2.py:126-184 | stored exactly when nothing fails within the limit, with the parts numbered in order and the digest and count of the stored bytes; otherwise aborted, and completed only if the completion itself failed |
| EvidenceStore.UploadIsWholeOrNothing | app/evidence/r2.py:143-205 | played against a store in which failed calls may still take effect, the calls of one upload leave the whole stream, or the object as it was, or, if the completion failed for the client, one of the two |
| GraphClient.BackoffIsBounded | app/graph/retry.py:50-61 | no delay is negative or above the maximum |
| GraphClient.DelayIsSleep | app/graph/retry.py:50-61 | a delay is what Retry-After says, or a random draw up to a doubling second, capped |
| GraphClient.TransientStatuses | app/graph/retry.py:14-15 | which statuses are retried |
| GraphClient.SendWithRetry | app/graph/client.py:123-227 | at most max_attempts + 1 requests, all but the last tolerated, one 401 free, the result decided by the last reply, one sleep after every retried reply and of the length it calls for, the code after the loop unreached |
| GraphClient.PacedTotal | app/graph/client.py:139-227 | total sleeping is at most the number of sleeps times the maximum delay |
| GraphClient.DownloadToStore | app/graph/client.py:360-437 | over all calls of all attempts the store ends with exactly the last attempt's stream, or unchanged, or, if the last completion failed for the client, one of the two |
| Text.NormalizedKeepsPieces | app/classification/validation.py:7-14 | a piece of a text stays a piece of it after whitespace normalization and case folding of both |
| Text.CasefoldOne | app/classification/validation.py:11-13 | case folding goes character by character |
| Text.JoinedWordsAreSqueezed | app/classification/validation.py:10-13 | splitting and joining is squeezing runs of whitespace |
| Text.SplitUndoesLines | app/classification/deterministic.py:182 | lines written out and split again are the same lines |
| Text.StripUndoesPadding | app/classification/deterministic.py:183 | stripping undoes padding, and only that |
| Classification.RouteIsConfigured | app/classification/deterministic.py:281-287 | every route is a configured destination |
| Classification.CollectRequests | app/classification/deterministic.py:176-215 | nothing if the schema refuses a line's request; otherwise every line's request, each once and in order |
| RequestLines.LineReadsExactly | app/classification/deterministic.py:183-213 | which lines are passed over, refused or requests, and what a request carries |
| RequestLines.PaddingIsDropped | app/classification/deterministic.py:183 | a line is read without the blanks and list marks around it |
| RequestLines.ItemReads | app/classification/deterministic.py:199 | what is asked for is the phrase without white space around it and full stops after it |
| Classification.RouteExactly | app/classification/deterministic.py:281-287 | which destination every vendor's and type's messages get |
| Classification.DeterministicFields | app/classification/deterministic.py:84-122 | the rules' output carries the extractors' results, field by field |
| Classification.RequestsFailExactly | app/classification/deterministic.py:176-215 | the extraction fails if and only if some line that is not passed over asks for something of fewer than two characters |
| Classification.BriefRequestFails | app/classification/deterministic.py:176-215 | every one-line message read as a request for fewer than two characters fails |
| Classification.SendXAsksTooBriefly | app/classification/schema.py:39-44 | a one-line message that cannot be classified |
| Classification.RequestsAreTraceable | app/classification/deterministic.py:176-215 | every extracted quote, stripped and truncated, is found in the message |
| Classification.ValidateEvidence | app/classification/validation.py:7-20 | the two loops and the destination test compute the error list |
| Classification.NoErrorsMeansBound | app/classification/validation.py:7-20 | no errors if and only if quotes, files and destination are bound to the message |
| Classification.ErrorsListed | app/classification/validation.py:10-20 | each error is reported exactly when it is there, a quote by its index and a file by its name |
| Classification.DeterministicIsBound | app/classification/deterministic.py:70-123 | the rules' own output always validates |
| Classification.ClassifyEmail | app/classification/orchestration.py:107-114 | whatever is stored is within the schema, bound to the message and flagged for review, holds every line's request in order, and is the merge exactly if it validates; nothing is stored exactly when a line asks too briefly or the rules' summary or confidence is out of range |
| Classification.MergeFitsSchema | app/classification/orchestration.py:206-232 | merging two outputs the schema accepts gives one it accepts, so re-validation never raises |
| Classification.DeterministicFitsSchema | app/classification/schema.py:39-71 | the rules' output is refused only for its summary or its confidence |
| Classification.VerifiedFieldsWin | app/classification/orchestration.py:206-232 | whatever the model says, verified fields are kept, no reason is dropped and confidence is capped |
| Classification.ModelFillsGaps | app/classification/orchestration.py:206-232 | where the rules found nothing the model's finding is taken, with its wording and all its reasons |
| Classification.DeduplicateKeeps | app/classification/orchestration.py:229-231 | removing repeats keeps every entry, once |
| Base64Url.DecodeEncode | app/core/crypto.py:59-65 | decoding what was encoded, padding restored, gives the bytes back |
| Base64Url.EncodedIsPlain | app/core/crypto.py:59-60 | encoded text is ASCII without a colon |
| Base64Url.DigitsExactly | app/core/crypto.py:59-60 | the URL-safe alphabet, in order |
| Base64Url.DecodesLeniently | app/core/crypto.py:63-65 | the standard alphabet is read as well, and other characters are passed over |
| Envelope.MakeKeyring | app/core/crypto.py:93-106 | a keyring is accepted exactly when its active key is present and every id and key is well formed |
| Envelope.UsableExactly | app/core/crypto.py:93-106 | what a usable keyring is |
| Envelope.KeyIdExactly | app/core/crypto.py:39 | 1 to 64 characters of the alphabet, with one line feed allowed after them |
| Envelope.EncryptRefuses | app/core/crypto.py:159-167 | encryption is refused exactly without an owner or without the active key |
| Envelope.EnvelopeSplits | app/core/crypto.py:159-175 | every envelope splits into exactly its four parts |
| Envelope.MalformedExactly | app/core/crypto.py:172-174 | a text is malformed exactly when it is not the version and three colon-free parts |
| Envelope.NonceRejectedExactly | app/core/crypto.py:170-187 | the cipher's own error escapes exactly for well-formed envelopes under a known key whose nonce it does not take |
| Envelope.ShortNonceIsRejected | app/core/crypto.py:180-183 | an envelope with a nonce of one byte |
| Envelope.DecryptEncrypt | app/core/crypto.py:159-187 | under any later keyring: the plain bytes exactly when the key remains and the owner agrees, else which of the two failed |
| Envelope.OwnerNamesTheRow | app/core/crypto.py:155-157 | with colon-free entity types the associated data determines the row |
| Envelope.OnlyTheOwnerOpens | app/core/crypto.py:159-187 | then an envelope opens for its own row and for no other |
| Envelope.OwnersClashExactly | app/core/crypto.py:155-157 | two types can share associated data exactly when one followed by a colon begins the other |
| Envelope.ColonsConfuseOwners | app/core/crypto.py:155-187 | a concrete pair of rows for which one opens the other's envelope |
| Envelope.IdealIsSatisfiable | app/core/crypto.py:165-167 | what is assumed of the cipher contradicts nothing |

## Left out

- Dates.OrdinalRoundTrip: years are unbounded, so the overflow of dates outside years 1 to 9999 is not modelled.
- Rules.ResolveOffsets: scaling is exact rational arithmetic; the source divides in floating point before rounding.
- Calculator.PlanDeadlines: due instants in a timezone, plan rationale texts and the digest of the materialization key are not modelled; the key is the tuple that is hashed.
- JobQueueRuns.StepKeepsInv: each operation is one atomic step, and only the lease holder completes or fails a job; sessions, commits, row-lock syntax, stale holders and cancellation are not part of this model.
- JobRepository.GraphJobRepository.Enqueue: mailbox, payload and correlation columns are not modelled; several active subscription jobs of one folder are possible, since only the lookup coalesces them.
- JobRepository.GraphJobService.RecordFailure: the audit event and the outbox row are one record, without their constant columns, timestamps and correlation id.
- Stages.AcceptedExactly: evidence is the set of keys with a truthy value; the refusal texts are not modelled.
- DraftUpload.UploadLarge: creating the session and checking its address are not modelled, nor are digits outside ASCII in a returned range or a chunk size that is not positive.
- EvidenceStore.PutStream: key checks, the object store's own behaviour and the computation of SHA-256 are not modelled; the digest is represented by the bytes it is taken over, and a failing abort by the abort call.
- GraphClient.SendWithRetry: building headers, tokens, logging and metrics are not modelled.
- GraphClient.DownloadToStore: only errors from reading the body can be retryable here; the store's own errors are not of the retryable kinds. Sleeping between attempts is not modelled.
- Classification.CollectRequests: the regular expressions are arbitrary functions; the cleanup of the message body and carriage-return line endings are not modelled.
- Classification.ClassifyEmail: the vendor, state, license, date and confidence extractors are arbitrary results; the classification of types and categories by the schema is by datatype, and the rows written around the result are not modelled.
- Envelope.DecryptEncrypt: values arrive as their canonical bytes; AES-GCM is an assumption about a function, and its failure on a nonce of unacceptable length is a separate error.
- Timezone conversion, status classification and alert texts: easy or dependent on the zone database.
- Policy resolution and configuration validators: flat checks without depth.
- Fingerprints and redaction: a keyed digest that is not computed here, and display only.
- SharePoint, PDF, spreadsheet, browser and message-provider clients: foreign code.
