/** The repository that updates job rows in place, and the failure policy on top of it. Every method is
    one of the queue's atomic steps, or several of them with nothing in between. */
module JobRepository {
  import opened Wrappers
  import opened JobQueue
  import opened JobQueueRuns
  import opened JobQueueTimes
  import Text

  datatype LookupResult = Existing(id: int) | CoalescedInto(id: int) | Missing

  datatype EnqueueResult = EnqueueResult(id: int, created: bool, coalesced: bool)

  datatype InsertOutcome = Joined(result: EnqueueResult) | Reraised

  datatype ClaimResult = NothingDue | ClaimedRow(id: int) | Aborted(id: int)

  class GraphJobRepository {
    var jobs: Table
    var now: int

    constructor ()
      ensures jobs == map[] && now == 0
    {
      jobs := map[];
      now := 0;
    }

    /** The clock only moves forward. */
    method Advance(to: int)
      requires now <= to
      modifies this`now
      ensures now == to
    {
      now := to;
    }

    /** Lookup by key, then by active target; the database picks which active job when there are several. */
    method FindOrCoalesce(req: Request) returns (r: LookupResult)
      modifies this`jobs
      ensures r.Existing? <==> HasKey(old(jobs), req.key)
      ensures r.Existing? ==> r.id in jobs && jobs[r.id].key == req.key
      ensures r.CoalescedInto? ==> r.id in Targets(old(jobs), req)
      ensures r.Missing? ==> !HasKey(old(jobs), req.key) && Targets(old(jobs), req) == {}
      ensures r.Missing? ==> forall i :: i in old(jobs) ==> !Serves(old(jobs)[i], req)
      ensures r.CoalescedInto? ==> r.id in old(jobs) && Serves(old(jobs)[r.id], req) && OnlyRow(old(jobs), jobs, r.id)
      ensures r.CoalescedInto? ==> jobs == Lookup(old(jobs), req, Some(r.id))
      ensures !r.CoalescedInto? ==> jobs == old(jobs)
    {
      if i :| i in jobs && jobs[i].key == req.key {
        return Existing(i);
      }
      if i :| i in jobs && ActiveForTarget(jobs[i], req) {
        jobs := jobs[i := Coalesced(jobs[i], req)];
        return CoalescedInto(i);
      }
      assert forall i :: i !in Targets(jobs, req);
      r := Missing;
    }

    /** The insert in its savepoint: kept, or undone because it would break an index. */
    method Insert(req: Request, id: int) returns (created: bool)
      requires id !in jobs
      modifies this`jobs
      ensures jobs == Commit(old(jobs), Inserted(old(jobs), req, id, now))
      ensures created == IndexesHold(Inserted(old(jobs), req, id, now))
    {
      var candidate := Inserted(jobs, req, id, now);
      created := IndexesHold(candidate);
      if created {
        jobs := candidate;
      }
    }

    /** The rest of an enqueue whose lookups missed. `meanwhile` is the table that other transactions leave
        between a rejected insert and the second lookup, which then joins the job it finds by key or by
        target; finding none, the caller is handed the database's error. */
    method InsertOrJoin(req: Request, id: int, meanwhile: Table) returns (r: InsertOutcome)
      requires IndexesHold(jobs) && id !in jobs && IndexesHold(meanwhile)
      modifies this`jobs
      ensures IndexesHold(jobs)
      ensures r == Joined(EnqueueResult(id, true, false)) <==> IndexesHold(Inserted(old(jobs), req, id, now))
      ensures r.Joined? && r.result.created ==> r.result == EnqueueResult(id, true, false) && jobs == Inserted(old(jobs), req, id, now)
      ensures r.Joined? && !r.result.created ==>
                && r.result.id in jobs
                && if r.result.coalesced then
                     && !HasKey(meanwhile, req.key) && r.result.id in Targets(meanwhile, req)
                     && jobs == Lookup(meanwhile, req, Some(r.result.id))
                   else jobs == meanwhile && jobs[r.result.id].key == req.key
      ensures r.Reraised? <==> !IndexesHold(Inserted(old(jobs), req, id, now)) && !HasKey(meanwhile, req.key)
                               && Targets(meanwhile, req) == {}
      ensures r.Reraised? ==> jobs == meanwhile
    {
      var created := Insert(req, id);
      if created {
        return Joined(EnqueueResult(id, true, false));
      }
      jobs := meanwhile;
      var found := FindOrCoalesce(req);
      match found
      case Existing(winner) =>
        r := Joined(EnqueueResult(winner, false, false));
      case CoalescedInto(active) =>
        IndexesSurviveCoalescing(meanwhile, active, req);
        r := Joined(EnqueueResult(active, false, true));
      case Missing =>
        r := Reraised;
    }

    /** Enqueue with nothing happening in between: after a miss the insert is never rejected, so the
        caller gets exactly one job that carries the key or serves the target. */
    method Enqueue(req: Request, id: int) returns (r: EnqueueResult)
      requires IndexesHold(jobs) && id !in jobs
      modifies this`jobs
      ensures r.id in jobs && IndexesHold(jobs)
      ensures r.created ==> r.id == id && jobs == Inserted(old(jobs), req, id, now)
      ensures r.coalesced ==> r.id in Targets(old(jobs), req) && jobs == Lookup(old(jobs), req, Some(r.id))
      ensures !r.created && !r.coalesced ==> jobs == old(jobs) && jobs[r.id].key == req.key
      ensures r.created <==> !HasKey(old(jobs), req.key) && Targets(old(jobs), req) == {}
      ensures r.coalesced <==> !HasKey(old(jobs), req.key) && Targets(old(jobs), req) != {}
    {
      var found := FindOrCoalesce(req);
      match found
      case Existing(existing) =>
        r := EnqueueResult(existing, false, false);
      case CoalescedInto(active) =>
        IndexesSurviveCoalescing(old(jobs), active, req);
        r := EnqueueResult(active, false, true);
      case Missing =>
        InsertAfterMiss(jobs, req, id, now);
        var outcome := InsertOrJoin(req, id, jobs);
        r := outcome.result;
    }

    /** Claims a row the ordering puts first among the due rows no other transaction has locked. */
    method ClaimNext(worker: int, lease: int, types: set<JobType>, locked: set<int>) returns (r: ClaimResult)
      modifies this`jobs
      ensures r.NothingDue? <==> DueJobs(old(jobs), now, types, locked) == {}
      ensures r.NothingDue? ==> jobs == old(jobs)
      ensures !r.NothingDue? ==> Selects(old(jobs), now, types, locked, r.id)
      ensures !r.NothingDue? ==> jobs == Commit(old(jobs), Claimed(old(jobs), r.id, worker, now, lease))
      ensures r.ClaimedRow? ==> IndexesHold(Claimed(old(jobs), r.id, worker, now, lease)) && Holds(jobs, r.id, worker)
      ensures r.ClaimedRow? ==> OnlyRow(old(jobs), jobs, r.id) && TakenUp(old(jobs)[r.id], jobs[r.id], worker, now, lease)
      ensures r.Aborted? ==> !IndexesHold(Claimed(old(jobs), r.id, worker, now, lease)) && jobs == old(jobs)
    {
      var due := DueJobs(jobs, now, types, locked);
      if due == {} {
        return NothingDue;
      }
      FirstExists(jobs, due);
      var id :| id in due && forall j :: j in due ==> ComesFirst(jobs[id], jobs[j]);
      var claimed := Claimed(jobs, id, worker, now, lease);
      if IndexesHold(claimed) {
        jobs := claimed;
        r := ClaimedRow(id);
      } else {
        r := Aborted(id);
      }
    }

    method ExtendLease(id: int, worker: int, lease: int) returns (extended: bool)
      modifies this`jobs
      ensures jobs == Extended(old(jobs), id, worker, now, lease)
      ensures extended <==> id in old(jobs) && old(jobs)[id].status == Running && old(jobs)[id].leaseOwner == Some(worker)
      ensures extended ==> OnlyRow(old(jobs), jobs, id) && jobs[id] == old(jobs)[id].(leaseExpiresAt := Some(now + lease))
      ensures !extended ==> jobs == old(jobs)
    {
      extended := Holds(jobs, id, worker);
      if extended {
        jobs := jobs[id := jobs[id].(leaseExpiresAt := Some(now + lease))];
      }
    }

    method MarkCompleted(id: int, ghost worker: int)
      requires Holds(jobs, id, worker)
      modifies this`jobs
      ensures jobs == old(jobs)[id := Finished(old(jobs)[id], Completed, now, None)]
      ensures OnlyRow(old(jobs), jobs, id)
      ensures LeftAs(old(jobs)[id], jobs[id], Completed, old(jobs)[id].availableAt, Some(now), None)
    {
      var job := jobs[id];
      job := job.(status := Completed, completedAt := Some(now));
      job := job.(leaseOwner := None, leaseExpiresAt := None, lastError := None);
      jobs := jobs[id := job];
    }

    method MarkRetryableFailure(id: int, ghost worker: int, error: JobError, delay: int)
      requires Holds(jobs, id, worker)
      modifies this`jobs
      ensures jobs == old(jobs)[id := Retried(old(jobs)[id], now, delay, error)]
      ensures OnlyRow(old(jobs), jobs, id) && Stores(error, jobs[id].lastError)
      ensures LeftAs(old(jobs)[id], jobs[id], FailedRetryable, now + delay, old(jobs)[id].completedAt, jobs[id].lastError)
    {
      StoresRecorded(error);
      var job := jobs[id];
      job := job.(status := FailedRetryable, availableAt := now + delay);
      job := job.(leaseOwner := None, leaseExpiresAt := None, lastError := Some(Recorded(error)));
      jobs := jobs[id := job];
    }

    method MarkReviewFailure(id: int, ghost worker: int, error: JobError)
      requires Holds(jobs, id, worker)
      modifies this`jobs
      ensures jobs == old(jobs)[id := Finished(old(jobs)[id], FailedReview, now, Some(Recorded(error)))]
      ensures OnlyRow(old(jobs), jobs, id) && Stores(error, jobs[id].lastError)
      ensures LeftAs(old(jobs)[id], jobs[id], FailedReview, old(jobs)[id].availableAt, Some(now), jobs[id].lastError)
    {
      StoresRecorded(error);
      var job := jobs[id];
      job := job.(status := FailedReview, leaseOwner := None, leaseExpiresAt := None);
      job := job.(completedAt := Some(now), lastError := Some(Recorded(error)));
      jobs := jobs[id := job];
    }

    /** One UPDATE over every expired row, whatever its attempts. */
    method RecoverExpiredLeases() returns (recovered: nat)
      modifies this`jobs
      ensures jobs == Recovered(old(jobs), now)
      ensures recovered == |set i | i in old(jobs) && Expired(old(jobs)[i], now)|
    {
      recovered := |set i | i in jobs && Expired(jobs[i], now)|;
      jobs := Recovered(jobs, now);
    }
  }

  lemma IndexesSurviveCoalescing(t: Table, id: int, req: Request)
    requires IndexesHold(t) && id in t
    ensures IndexesHold(t[id := Coalesced(t[id], req)])
  {
    var u := t[id := Coalesced(t[id], req)];
    forall i, j | i in u && j in u && i != j ensures !Conflict(u[i], u[j]) {
      assert !Conflict(t[i], t[j]);
    }
  }

  /** Coalescing the same request again changes nothing, truncated or not; it never makes a job less
      urgent, keeps the reason it had in front, and loses the new one only to the length limit. */
  lemma CoalescingIsIdempotent(j: Job, req: Request)
    ensures Coalesced(Coalesced(j, req), req) == Coalesced(j, req)
    ensures Coalesced(j, req) == j.(reason := Coalesced(j, req).reason, priority := Min(j.priority, req.priority))
    ensures |j.reason| <= REASON_LIMIT ==> j.reason <= Coalesced(j, req).reason
    ensures Text.Contains(Coalesced(j, req).reason, req.reason) || |Coalesced(j, req).reason| == REASON_LIMIT
  {
    if req.reason == "" {
      assert req.reason <= j.reason[0..];
    } else if !Text.Contains(j.reason, req.reason) {
      var combined := if j.reason == "" then req.reason else j.reason + "; " + req.reason;
      assert combined == (if j.reason == "" then "" else j.reason + "; ") + req.reason + "";
      Text.ContainsMiddle(if j.reason == "" then "" else j.reason + "; ", req.reason, "");
      if |combined| > REASON_LIMIT {
        var cut := combined[..REASON_LIMIT];
        assert (cut + "; " + req.reason)[..REASON_LIMIT] == cut;
      }
    }
  }

  lemma InsertAfterMiss(t: Table, req: Request, id: int, now: int)
    requires IndexesHold(t) && id !in t
    requires !HasKey(t, req.key) && Targets(t, req) == {}
    ensures IndexesHold(Inserted(t, req, id, now))
  {
    InsertIsKeptExactly(t, req, id, now);
    forall i | i in t && Active(t[i]) ensures !SameSlot(t[i], NewJob(req, now)) {
      assert i !in Targets(t, req);
    }
  }

  /** What beat a rejected insert is there to be found at once; `LookupMissesOnlyEnded` says what may have
      become of it later. */
  lemma RejectedMeansServed(t: Table, req: Request, id: int, now: int)
    requires IndexesHold(t) && id !in t && !IndexesHold(Inserted(t, req, id, now))
    ensures HasKey(t, req.key) || Targets(t, req) != {}
  {
    InsertIsKeptExactly(t, req, id, now);
    if !HasKey(t, req.key) {
      var i :| i in t && Active(t[i]) && SameSlot(t[i], NewJob(req, now));
      assert i in Targets(t, req);
    }
  }

  class GraphJobService {
    const repo: GraphJobRepository
    var outbox: seq<ReviewRow>

    constructor (repo: GraphJobRepository)
      ensures this.repo == repo && outbox == []
    {
      this.repo := repo;
      outbox := [];
    }

    /** The state of the queue model this service and its repository hold. */
    ghost function Snapshot(): State
      reads this, repo
    {
      State(repo.jobs, repo.now, outbox)
    }

    /** Retry while attempts remain, otherwise hand the job to a human exactly once. */
    method RecordFailure(id: int, worker: int, error: JobError, retryable: bool, delay: int)
      requires Holds(repo.jobs, id, worker)
      modifies this`outbox, repo`jobs
      ensures Snapshot() == Apply(old(Snapshot()), Fail(worker, id, error, retryable, delay))
    {
      var job := repo.jobs[id];
      if retryable && job.attempts < job.maxAttempts {
        repo.MarkRetryableFailure(id, worker, error, delay);
        return;
      }
      var finalCode := if !retryable then error.code else "max_attempts_exhausted";
      outbox := outbox + [ReviewRow(id, job.jobType, job.attempts, finalCode, job.reason, job.leaseOwner)];
      repo.MarkReviewFailure(id, worker, JobError(finalCode, error.message));
    }
  }
}
