/** What each step writes into a row, and what follows in time: how long a lease excludes others, how long
    a retry waits, and what recovery returns. */
module JobQueueTimes {
  import opened Wrappers
  import opened JobQueue
  import opened JobQueueRuns
  import Text

  /** Between the two tables only row `id` differs, if any. */
  ghost predicate OnlyRow(before: Table, after: Table, id: int) {
    after.Keys == before.Keys && forall i :: i in before && i != id ==> after[i] == before[i]
  }

  /** `j` was taken up by `worker` at `now` for `lease` seconds, and is otherwise as it was. */
  predicate TakenUp(j: Job, u: Job, worker: int, now: int, lease: int) {
    && j.status in {Pending, FailedRetryable} && j.availableAt <= now
    && u.status == Running && u.leaseOwner == Some(worker) && u.leaseExpiresAt == Some(now + lease)
    && u.attempts == j.attempts + 1
    && u.startedAt == (if j.startedAt.Some? then j.startedAt else Some(now))
    && SameOrder(j, u) && SameTarget(j, u) && u.availableAt == j.availableAt && u.completedAt == j.completedAt && u.lastError == j.lastError
  }

  predicate SameTarget(j: Job, u: Job) {
    && u.jobType == j.jobType && u.folderId == j.folderId && u.emailId == j.emailId
    && u.key == j.key && u.maxAttempts == j.maxAttempts && u.reason == j.reason
  }

  predicate SameOrder(j: Job, u: Job) {
    u.priority == j.priority && u.createdAt == j.createdAt
  }

  /** `j` was ended: no lease, and the rest as it was but for the status, times and error named. */
  predicate LeftAs(j: Job, u: Job, status: JobStatus, availableAt: int, completedAt: Option<int>, error: Option<JobError>) {
    && u.status == status && u.leaseOwner == None && u.leaseExpiresAt == None
    && u.availableAt == availableAt && u.completedAt == completedAt && u.lastError == error
    && u.attempts == j.attempts && u.startedAt == j.startedAt && SameOrder(j, u) && SameTarget(j, u)
  }

  /** The error as stored: the first 100 characters of its code, the first 500 of its message. */
  predicate Stores(error: JobError, stored: Option<JobError>) {
    && stored.Some?
    && stored.value.code <= error.code && |stored.value.code| == Min(|error.code|, 100)
    && stored.value.message <= error.message && |stored.value.message| == Min(|error.message|, 500)
  }

  /** A claim grants the lease it was asked for; any other row is left alone. */
  lemma ClaimGrants(s: State, e: Event, id: int)
    requires Claims(s, e, id)
    ensures var u := Apply(s, e).jobs;
            OnlyRow(s.jobs, u, id) && TakenUp(s.jobs[id], u[id], e.worker, s.now, e.lease)
    ensures id !in e.locked && (e.types == {} || s.jobs[id].jobType in e.types)
  {
  }

  /** Of the rows due, unlocked and of the types asked for, the one selected has the lowest priority number,
      then the earliest availability, then the earliest creation. */
  lemma SelectedComesFirst(t: Table, now: int, types: set<JobType>, locked: set<int>, id: int, i: int)
    requires Selects(t, now, types, locked, id)
    requires i in t && i !in locked && t[i].status in {Pending, FailedRetryable} && t[i].availableAt <= now
    requires types == {} || t[i].jobType in types
    ensures t[id].priority <= t[i].priority
    ensures t[id].priority == t[i].priority ==> t[id].availableAt <= t[i].availableAt
    ensures t[id].priority == t[i].priority && t[id].availableAt == t[i].availableAt ==> t[id].createdAt <= t[i].createdAt
  {
    assert i in DueJobs(t, now, types, locked);
  }

  /** What ends a job writes its row, and hands it over unless it may be retried. */
  lemma EndingWrites(s: State, e: Event)
    requires Enabled(s, e) && (e.Complete? || e.Fail?)
    ensures var j, u, v := s.jobs[e.id], Apply(s, e).jobs, Apply(s, e);
            && OnlyRow(s.jobs, u, e.id)
            && (e.Complete? ==> LeftAs(j, u[e.id], Completed, j.availableAt, Some(s.now), None) && v.outbox == s.outbox)
            && (e.Fail? && e.retryable && j.attempts < j.maxAttempts ==>
                  && LeftAs(j, u[e.id], FailedRetryable, s.now + e.delay, j.completedAt, u[e.id].lastError)
                  && Stores(e.error, u[e.id].lastError) && v.outbox == s.outbox)
            && (e.Fail? && !(e.retryable && j.attempts < j.maxAttempts) ==>
                  var code := if e.retryable then "max_attempts_exhausted" else e.error.code;
                  && LeftAs(j, u[e.id], FailedReview, j.availableAt, Some(s.now), u[e.id].lastError)
                  && Stores(JobError(code, e.error.message), u[e.id].lastError)
                  && v.outbox == s.outbox + [ReviewRow(e.id, j.jobType, j.attempts, code, j.reason, j.leaseOwner)])
  {
    if e.Fail? {
      StoresRecorded(e.error);
      StoresRecorded(FinalError(e.error, e.retryable));
    }
  }

  lemma StoresRecorded(error: JobError)
    ensures Stores(error, Some(Recorded(error)))
  {
    Text.CutIsPrefix(error.code, 100);
    Text.CutIsPrefix(error.message, 500);
  }

  /** Recovery returns every row whose lease has run out, and only those, to the queue. */
  lemma OverdueIsRecovered(s: State, id: int)
    requires id in s.jobs
    ensures var j, u := s.jobs[id], Apply(s, Recover).jobs;
            && u.Keys == s.jobs.Keys
            && if j.status == Running && j.leaseExpiresAt.Some? && j.leaseExpiresAt.value < s.now
               then LeftAs(j, u[id], Pending, j.availableAt, j.completedAt, u[id].lastError)
                    && u[id].lastError.Some? && u[id].lastError.value.code == "lease_expired"
               else u[id] == j
  {
  }

  /** An active job that does what the request asks for: of its type, for the same email if it is about an
      email and otherwise for the same folder, neither of them missing. */
  predicate Serves(j: Job, req: Request) {
    && j.status in {Pending, Running} && j.jobType == req.jobType
    && (req.jobType in {IngestEmail, ClassifyEmail} ==> req.emailId.Some? && j.emailId == req.emailId)
    && (req.jobType !in {IngestEmail, ClassifyEmail} ==> req.folderId.Some? && j.folderId == req.folderId)
  }

  lemma TargetsServe(t: Table, req: Request, i: int)
    ensures i in Targets(t, req) <==> i in t && Serves(t[i], req)
  {
  }

  /** The lookup changes nothing when the key is there or no job serves the request; otherwise only the job
      found, which takes up the reason and the more urgent priority. */
  lemma LookupWrites(t: Table, req: Request, hit: Option<int>)
    requires hit.Some? ==> hit.value in t
    ensures (exists i :: i in t && t[i].key == req.key) ==> Lookup(t, req, hit) == t
    ensures hit.None? ==> Lookup(t, req, hit) == t
    ensures hit.Some? && (forall i :: i in t ==> t[i].key != req.key) ==>
              var u := Lookup(t, req, hit);
              OnlyRow(t, u, hit.value)
              && u[hit.value] == t[hit.value].(reason := CoalescedReason(t[hit.value].reason, req.reason),
                                               priority := Min(t[hit.value].priority, req.priority))
  {
  }

  /** A new row is PENDING from its delay on, and otherwise carries what was asked for. */
  lemma InsertWrites(t: Table, req: Request, id: int, now: int)
    ensures var j := Inserted(t, req, id, now)[id];
            && j.status == Pending && j.attempts == 0 && j.availableAt == now + req.delay && j.createdAt == now
            && j.jobType == req.jobType && j.key == req.key && j.folderId == req.folderId && j.emailId == req.emailId
            && j.reason == req.reason && j.priority == req.priority && j.maxAttempts == req.maxAttempts
            && j.leaseOwner == None && j.leaseExpiresAt == None && j.startedAt == None && j.completedAt == None && j.lastError == None
  {
  }

  // ------------------------------------------------------------------------------- leases in time

  /** The time at step `m` of the run. */
  ghost function NowAt(run: seq<Event>, m: nat): int
    requires m <= |run|
  {
    if StateAfter(run[..m]).Some? then StateAfter(run[..m]).value.now else 0
  }

  predicate Renews(e: Event, id: int, worker: int) {
    e.Extend? && e.id == id && e.worker == worker
  }

  /** Until when the lease claimed at step `i` stands, as of step `m`: the claim's time plus its lease, or the
      last extension's time plus its own. */
  ghost function GrantedUntil(run: seq<Event>, i: nat, m: nat, id: int): int
    requires i < m <= |run| && run[i].Claim?
    decreases m
  {
    if m == i + 1 then NowAt(run, i) + run[i].lease
    else if Renews(run[m - 1], id, run[i].worker) then NowAt(run, m - 1) + run[m - 1].lease
    else GrantedUntil(run, i, m - 1, id)
  }

  ghost predicate ExpiresAt(run: seq<Event>, m: nat, id: int, until: int)
    requires m <= |run|
  {
    StateAfter(run[..m]).Some? && id in StateAfter(run[..m]).value.jobs && StateAfter(run[..m]).value.jobs[id].leaseExpiresAt == Some(until)
  }

  lemma GrantStep(run: seq<Event>, m: nat, id: int, worker: int, until: int)
    requires StateAfter(run).Some? && m < |run| && HoldsAt(run, m, id, worker) && !ReleasesAt(run, m, id, worker)
    requires ExpiresAt(run, m, id, until)
    ensures ExpiresAt(run, m + 1, id, if Renews(run[m], id, worker) then NowAt(run, m) + run[m].lease else until)
  {
    Prefixes(run, m);
    RunKeepsInv(run[..m]);
    LeaseStep(StateAfter(run[..m]).value, run[m], id, worker);
  }

  lemma GrantStarts(run: seq<Event>, i: nat, id: int)
    requires StateAfter(run).Some? && i < |run| && ClaimsAt(run, i, id)
    ensures ExpiresAt(run, i + 1, id, NowAt(run, i) + run[i].lease)
  {
    Prefixes(run, i);
    ClaimGrants(StateAfter(run[..i]).value, run[i], id);
  }

  /** While it is not released the lease is held, and stands until its grant or last extension says. */
  lemma {:induction false} GrantLasts(run: seq<Event>, i: nat, m: nat, id: int)
    requires StateAfter(run).Some? && i < m <= |run| && ClaimsAt(run, i, id)
    requires forall l :: i < l < m ==> !ReleasesAt(run, l, id, run[i].worker)
    ensures HoldsAt(run, m, id, run[i].worker) && ExpiresAt(run, m, id, GrantedUntil(run, i, m, id))
    decreases m
  {
    if m == i + 1 {
      ClaimHolds(run, i, id);
      GrantStarts(run, i, id);
    } else {
      GrantLasts(run, i, m - 1, id);
      LeaseStepAt(run, m - 1, id, run[i].worker);
      GrantStep(run, m - 1, id, run[i].worker, GrantedUntil(run, i, m - 1, id));
    }
  }

  lemma {:induction false} FirstRelease(run: seq<Event>, i: nat, m: nat, id: int, worker: int) returns (first: nat)
    requires i < m < |run| && ReleasesAt(run, m, id, worker)
    ensures i < first <= m && ReleasesAt(run, first, id, worker)
    ensures forall l :: i < l < first ==> !ReleasesAt(run, l, id, worker)
    decreases m
  {
    first := m;
    if l :| i < l < m && ReleasesAt(run, l, id, worker) {
      first := FirstRelease(run, i, l, id, worker);
    }
  }

  ghost predicate EndsJobAt(run: seq<Event>, m: int, id: int, worker: int)
    requires 0 <= m < |run|
  {
    (run[m].Complete? || run[m].Fail?) && run[m].id == id && run[m].worker == worker
  }

  /** Between two claims of a job the first holder ended it, or the clock had passed the time its lease was
      granted or last extended until. */
  lemma LeaseExcludesUntil(run: seq<Event>, i: nat, k: nat, id: int) returns (m: nat)
    requires StateAfter(run).Some? && i < k < |run| && ClaimsAt(run, i, id) && ClaimsAt(run, k, id)
    ensures i < m < k
    ensures EndsJobAt(run, m, id, run[i].worker) || GrantedUntil(run, i, m, id) < NowAt(run, m)
  {
    LeaseExcludesOtherClaims(run, i, k, id);
    var any: nat :| i < any < k && ReleasesAt(run, any, id, run[i].worker);
    m := FirstRelease(run, i, any, id, run[i].worker);
    GrantLasts(run, i, m, id);
  }

  // ------------------------------------------------------------------------------ retries in time

  ghost predicate FailsAt(run: seq<Event>, m: int, id: int)
    requires 0 <= m < |run|
  {
    run[m].Fail? && run[m].id == id
  }

  ghost predicate NoFailure(run: seq<Event>, i: nat, k: nat, id: int)
    requires k <= |run|
  {
    forall m :: i <= m < k ==> !FailsAt(run, m, id)
  }

  ghost predicate DueFrom(run: seq<Event>, m: nat, id: int, from: int)
    requires m <= |run|
  {
    StateAfter(run[..m]).Some? && id in StateAfter(run[..m]).value.jobs && StateAfter(run[..m]).value.jobs[id].availableAt == from
  }

  lemma AvailabilityStep(s: State, e: Event, id: int)
    requires Enabled(s, e) && id in s.jobs && !(e.Fail? && e.id == id)
    ensures id in Apply(s, e).jobs && Apply(s, e).jobs[id].availableAt == s.jobs[id].availableAt
  {
  }

  lemma {:induction false} AvailabilityLasts(run: seq<Event>, i: nat, k: nat, id: int, from: int)
    requires StateAfter(run).Some? && i <= k <= |run| && DueFrom(run, i, id, from)
    requires NoFailure(run, i, k, id)
    ensures DueFrom(run, k, id, from)
    decreases k
  {
    if i < k {
      AvailabilityLasts(run, i, k - 1, id, from);
      Prefixes(run, k - 1);
      assert !FailsAt(run, k - 1, id);
      AvailabilityStep(StateAfter(run[..k - 1]).value, run[k - 1], id);
    }
  }

  /** After the failure at step `i` the job may be retried. */
  ghost predicate RetriesAt(run: seq<Event>, i: nat, id: int)
    requires i < |run|
  {
    && FailsAt(run, i, id) && StateAfter(run[..i + 1]).Some?
    && id in StateAfter(run[..i + 1]).value.jobs && StateAfter(run[..i + 1]).value.jobs[id].status == FailedRetryable
  }

  lemma RetryWrites(s: State, e: Event)
    requires Enabled(s, e) && e.Fail? && Apply(s, e).jobs[e.id].status == FailedRetryable
    ensures Apply(s, e).jobs[e.id].availableAt == s.now + e.delay
  {
    EndingWrites(s, e);
  }

  lemma RetryIsDueFrom(run: seq<Event>, i: nat, id: int)
    requires StateAfter(run).Some? && i < |run| && RetriesAt(run, i, id)
    ensures DueFrom(run, i + 1, id, NowAt(run, i) + run[i].delay)
  {
    Prefixes(run, i);
    RetryWrites(StateAfter(run[..i]).value, run[i]);
  }

  lemma ClaimIsDue(run: seq<Event>, k: nat, id: int, from: int)
    requires k < |run| && ClaimsAt(run, k, id) && DueFrom(run, k, id, from)
    ensures from <= NowAt(run, k)
  {
    ClaimGrants(StateAfter(run[..k]).value, run[k], id);
  }

  /** A job that failed and may be retried is not claimed again before its delay is over. */
  lemma RetryWaits(run: seq<Event>, i: nat, k: nat, id: int)
    requires StateAfter(run).Some? && i < k < |run| && RetriesAt(run, i, id) && ClaimsAt(run, k, id)
    requires NoFailure(run, i + 1, k, id)
    ensures NowAt(run, i) + run[i].delay <= NowAt(run, k)
  {
    RetryIsDueFrom(run, i, id);
    var from := NowAt(run, i) + run[i].delay;
    ClaimWaits(run, i + 1, k, id, from);
  }

  lemma ClaimWaits(run: seq<Event>, i: nat, k: nat, id: int, from: int)
    requires StateAfter(run).Some? && i <= k < |run| && DueFrom(run, i, id, from) && ClaimsAt(run, k, id)
    requires NoFailure(run, i, k, id)
    ensures from <= NowAt(run, k)
  {
    AvailabilityLasts(run, i, k, id, from);
    ClaimIsDue(run, k, id, from);
  }
}
