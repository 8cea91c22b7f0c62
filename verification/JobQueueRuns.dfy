/** What holds of the job queue over every run, under any interleaving of its steps. */
module JobQueueRuns {
  import opened Wrappers
  import opened JobQueue

  // -------------------------------------------------------------------- what every step of a run keeps

  ghost predicate LeasedIffRunning(j: Job) {
    (j.status == Running <==> j.leaseOwner.Some?) && (j.status == Running <==> j.leaseExpiresAt.Some?)
  }

  ghost predicate Escalated(s: State, id: int) {
    exists k :: 0 <= k < |s.outbox| && s.outbox[k].jobId == id
  }

  /** Unique indexes hold, a row has a lease exactly while RUNNING, and a row is FAILED_REVIEW exactly
      when it was handed to a human, which happens once. */
  ghost predicate Inv(s: State) {
    && IndexesHold(s.jobs)
    && (forall i :: i in s.jobs ==> LeasedIffRunning(s.jobs[i]))
    && (forall i :: i in s.jobs ==> (s.jobs[i].status == FailedReview <==> Escalated(s, i)))
    && (forall k :: 0 <= k < |s.outbox| ==> s.outbox[k].jobId in s.jobs)
    && (forall k, l :: 0 <= k < l < |s.outbox| ==> s.outbox[k].jobId != s.outbox[l].jobId)
  }

  /** A change that keeps every row's identity and activates none cannot break an index. */
  lemma IndexesSurvive(t: Table, u: Table)
    requires IndexesHold(t) && u.Keys <= t.Keys
    requires forall i :: i in u ==> && u[i].jobType == t[i].jobType && u[i].folderId == t[i].folderId
                                    && u[i].emailId == t[i].emailId && u[i].key == t[i].key && (Active(u[i]) ==> Active(t[i]))
    ensures IndexesHold(u)
  {
    forall i, j | i in u && j in u && i != j ensures !Conflict(u[i], u[j]) {
      assert !Conflict(t[i], t[j]);
    }
  }

  lemma StepKeepsIndexes(s: State, e: Event)
    requires Inv(s) && Enabled(s, e)
    ensures IndexesHold(Apply(s, e).jobs)
  {
    if !e.EnqueueInsert? && !e.Claim? {
      IndexesSurvive(s.jobs, Apply(s, e).jobs);
    }
  }

  /** What one step may do to one row. */
  lemma RowStep(s: State, e: Event, id: int)
    requires Inv(s) && Enabled(s, e) && id in s.jobs
    ensures var j, u := s.jobs[id], Apply(s, e).jobs;
            && id in u
            && u[id].maxAttempts == j.maxAttempts && u[id].key == j.key && u[id].jobType == j.jobType
            && u[id].folderId == j.folderId && u[id].emailId == j.emailId
            && u[id].attempts == j.attempts + (if Claims(s, e, id) then 1 else 0)
            && LeasedIffRunning(u[id])
            && (u[id].status != j.status ==>
                  || (Claims(s, e, id) && j.status in {Pending, FailedRetryable} && u[id].status == Running)
                  || (Recovers(s, e, id) && j.status == Running && u[id].status == Pending)
                  || (e.Complete? && e.id == id && Holds(s.jobs, id, e.worker) && u[id].status == Completed)
                  || (e.Fail? && e.id == id && Holds(s.jobs, id, e.worker)
                      && u[id].status == if MayRetry(j, e.retryable) then FailedRetryable else FailedReview))
  {
  }

  lemma StepKeepsEscalations(s: State, e: Event)
    requires Inv(s) && Enabled(s, e)
    ensures var u := Apply(s, e);
            && (forall i :: i in u.jobs ==> (u.jobs[i].status == FailedReview <==> Escalated(u, i)))
            && (forall k :: 0 <= k < |u.outbox| ==> u.outbox[k].jobId in u.jobs)
            && (forall k, l :: 0 <= k < l < |u.outbox| ==> u.outbox[k].jobId != u.outbox[l].jobId)
  {
    var u := Apply(s, e);
    forall i | i in s.jobs {
      RowStep(s, e, i);
    }
    forall i | i in u.jobs ensures u.jobs[i].status == FailedReview <==> Escalated(u, i) {
      if u.outbox != s.outbox {
        assert u.outbox[|s.outbox|].jobId == e.id;
        assert forall k :: 0 <= k < |s.outbox| ==> u.outbox[k] == s.outbox[k];
      }
      assert i in s.jobs ==> (s.jobs[i].status == FailedReview <==> Escalated(s, i));
      assert i !in s.jobs ==> !Escalated(s, i);
    }
  }

  /** Every step keeps the invariant; a claim of a FAILED_RETRYABLE row either keeps it or aborts. */
  lemma StepKeepsInv(s: State, e: Event)
    requires Inv(s) && Enabled(s, e)
    ensures Inv(Apply(s, e))
  {
    StepKeepsIndexes(s, e);
    StepKeepsEscalations(s, e);
    forall i | i in Apply(s, e).jobs ensures LeasedIffRunning(Apply(s, e).jobs[i]) {
      if i in s.jobs {
        RowStep(s, e, i);
      }
    }
  }

  // -------------------------------------------------------------------------------------------- runs

  const INITIAL := State(map[], 0, [])

  /** The state a sequence of events leads to, if each is enabled where it happens. */
  ghost function StateAfter(run: seq<Event>): Option<State> {
    if run == [] then Some(INITIAL)
    else
      var before := StateAfter(run[..|run| - 1]);
      if before.Some? && Enabled(before.value, run[|run| - 1]) then Some(Apply(before.value, run[|run| - 1])) else None
  }

  lemma {:induction false} RunKeepsInv(run: seq<Event>)
    requires StateAfter(run).Some?
    ensures Inv(StateAfter(run).value)
  {
    if run != [] {
      RunKeepsInv(run[..|run| - 1]);
      StepKeepsInv(StateAfter(run[..|run| - 1]).value, run[|run| - 1]);
    }
  }

  /** In every reachable state an idempotency key names one job; a folder has at most one PENDING or
      RUNNING SYNC_FOLDER job and an email at most one of each kind; a job has a lease owner and an
      expiry exactly while RUNNING. */
  lemma ReachableIsCoalesced(run: seq<Event>, i: int, j: int)
    requires StateAfter(run).Some? && i in StateAfter(run).value.jobs && j in StateAfter(run).value.jobs && i != j
    ensures var a, b := StateAfter(run).value.jobs[i], StateAfter(run).value.jobs[j];
            && a.key != b.key
            && !(Active(a) && Active(b) && a.jobType == b.jobType == SyncFolder && a.folderId.Some? && a.folderId == b.folderId)
            && !(Active(a) && Active(b) && a.jobType == b.jobType == IngestEmail && a.emailId.Some? && a.emailId == b.emailId)
            && !(Active(a) && Active(b) && a.jobType == b.jobType == ClassifyEmail && a.emailId.Some? && a.emailId == b.emailId)
            && LeasedIffRunning(a)
  {
    RunKeepsInv(run);
    var t := StateAfter(run).value.jobs;
    assert !Conflict(t[i], t[j]);
  }

  // ------------------------------------------------------------------------------ attempts and claims

  ghost function ClaimCount(run: seq<Event>, id: int): nat {
    if run == [] then 0
    else
      var front := run[..|run| - 1];
      ClaimCount(front, id) + if StateAfter(front).Some? && Claims(StateAfter(front).value, run[|run| - 1], id) then 1 else 0
  }

  ghost function RecoveryCount(run: seq<Event>, id: int): nat {
    if run == [] then 0
    else
      var front := run[..|run| - 1];
      RecoveryCount(front, id) + if StateAfter(front).Some? && Recovers(StateAfter(front).value, run[|run| - 1], id) then 1 else 0
  }

  /** The claims a job may have had, given its recoveries; one less while it can still be claimed. */
  ghost function Allowance(j: Job, recoveries: nat): int {
    (if j.maxAttempts < 1 then 1 else j.maxAttempts) + recoveries - if j.status in {Pending, FailedRetryable} then 1 else 0
  }

  /** Over every run a job's attempts are exactly its claims, and exceed max_attempts by no more than its
      lease recoveries: with finitely many recoveries it is claimed finitely often. */
  lemma {:induction false} AttemptsAreClaims(run: seq<Event>, id: int)
    requires StateAfter(run).Some?
    ensures var t := StateAfter(run).value.jobs;
            && (id !in t ==> ClaimCount(run, id) == RecoveryCount(run, id) == 0)
            && (id in t ==> t[id].attempts == ClaimCount(run, id) <= Allowance(t[id], RecoveryCount(run, id)))
  {
    if run != [] {
      var front, e := run[..|run| - 1], run[|run| - 1];
      AttemptsAreClaims(front, id);
      RunKeepsInv(front);
      var s := StateAfter(front).value;
      if id in s.jobs {
        RowStep(s, e, id);
      }
    }
  }

  // --------------------------------------------------------------------------- a lease excludes others

  /** The holder finishes the job, or its lease is recovered after running out. */
  ghost predicate Releases(s: State, e: Event, id: int, worker: int) {
    || ((e.Complete? || e.Fail?) && e.id == id && e.worker == worker)
    || Recovers(s, e, id)
  }

  lemma LeaseStep(s: State, e: Event, id: int, worker: int)
    requires Inv(s) && Enabled(s, e) && Holds(s.jobs, id, worker)
    ensures !Claims(s, e, id)
    ensures Releases(s, e, id, worker) || Holds(Apply(s, e).jobs, id, worker)
    ensures Recovers(s, e, id) ==> s.jobs[id].leaseExpiresAt.value < s.now
    ensures var renews := e.Extend? && e.id == id && e.worker == worker;
            var expiry := if renews then Some(s.now + e.lease) else s.jobs[id].leaseExpiresAt;
            !Releases(s, e, id, worker) ==> Apply(s, e).jobs[id].leaseExpiresAt == expiry
  {
  }

  lemma {:induction false} Prefixes(run: seq<Event>, k: nat)
    requires StateAfter(run).Some? && k <= |run|
    ensures StateAfter(run[..k]).Some?
    ensures k < |run| ==> Enabled(StateAfter(run[..k]).value, run[k]) && StateAfter(run[..k + 1]) == Some(Apply(StateAfter(run[..k]).value, run[k]))
    decreases |run|
  {
    assert run[..|run|] == run;
    if k < |run| {
      assert run[..k + 1][..k] == run[..k];
      if k + 1 < |run| {
        Prefixes(run[..|run| - 1], k);
        assert run[..|run| - 1][..k] == run[..k] && run[..|run| - 1][..k + 1] == run[..k + 1];
      }
    }
  }

  /** Step `m` of the run releases the lease of `worker` on job `id`. */
  ghost predicate ReleasesAt(run: seq<Event>, m: int, id: int, worker: int)
    requires 0 <= m < |run|
  {
    StateAfter(run[..m]).Some? && Releases(StateAfter(run[..m]).value, run[m], id, worker)
  }

  ghost predicate ClaimsAt(run: seq<Event>, m: int, id: int)
    requires 0 <= m < |run|
  {
    StateAfter(run[..m]).Some? && Claims(StateAfter(run[..m]).value, run[m], id)
  }

  ghost predicate HoldsAt(run: seq<Event>, k: int, id: int, worker: int)
    requires 0 <= k <= |run|
  {
    StateAfter(run[..k]).Some? && Holds(StateAfter(run[..k]).value.jobs, id, worker)
  }

  lemma LeaseStepAt(run: seq<Event>, m: nat, id: int, worker: int)
    requires StateAfter(run).Some? && m < |run| && HoldsAt(run, m, id, worker)
    ensures !ClaimsAt(run, m, id)
    ensures ReleasesAt(run, m, id, worker) || HoldsAt(run, m + 1, id, worker)
  {
    Prefixes(run, m);
    RunKeepsInv(run[..m]);
    LeaseStep(StateAfter(run[..m]).value, run[m], id, worker);
  }

  lemma ClaimHolds(run: seq<Event>, m: nat, id: int)
    requires StateAfter(run).Some? && m < |run| && ClaimsAt(run, m, id)
    ensures HoldsAt(run, m + 1, id, run[m].worker)
  {
    Prefixes(run, m);
  }

  /** The holder of an unreleased lease still holds it. */
  lemma {:induction false} LeaseLasts(run: seq<Event>, i: nat, k: nat, id: int, worker: int)
    requires StateAfter(run).Some? && i <= k <= |run| && HoldsAt(run, i, id, worker)
    requires forall m :: i <= m < k ==> !ReleasesAt(run, m, id, worker)
    ensures HoldsAt(run, k, id, worker)
    decreases k
  {
    if i < k {
      LeaseLasts(run, i, k - 1, id, worker);
      LeaseStepAt(run, k - 1, id, worker);
    }
  }

  /** Between two claims of a job the first holder finished it, or its current lease had expired and was
      recovered: in between, no claim returns it. */
  lemma LeaseExcludesOtherClaims(run: seq<Event>, i: nat, k: nat, id: int)
    requires StateAfter(run).Some? && i < k < |run| && ClaimsAt(run, i, id) && ClaimsAt(run, k, id)
    ensures exists m :: i < m < k && ReleasesAt(run, m, id, run[i].worker)
  {
    var worker := run[i].worker;
    ClaimHolds(run, i, id);
    if forall m :: i < m < k ==> !ReleasesAt(run, m, id, worker) {
      LeaseLasts(run, i + 1, k, id, worker);
      LeaseStepAt(run, k, id, worker);
    }
  }

  // ------------------------------------------------------------ between a rejected insert and its lookup

  /** An insert is kept exactly when no row has its key and no active row has its slot. */
  lemma InsertIsKeptExactly(t: Table, req: Request, id: int, now: int)
    requires IndexesHold(t) && id !in t
    ensures IndexesHold(Inserted(t, req, id, now))
            <==> !HasKey(t, req.key) && forall i :: i in t && Active(t[i]) ==> !SameSlot(t[i], NewJob(req, now))
  {
    var u := Inserted(t, req, id, now);
    if IndexesHold(u) {
      forall i | i in t ensures !Conflict(t[i], NewJob(req, now)) {
        assert !Conflict(u[i], u[id]);
      }
    }
    if !HasKey(t, req.key) && forall i :: i in t && Active(t[i]) ==> !SameSlot(t[i], NewJob(req, now)) {
      forall i, j | i in u && j in u && i != j ensures !Conflict(u[i], u[j]) {
        if i != id && j != id {
          assert !Conflict(t[i], t[j]);
        } else {
          assert !Conflict(t[if i == id then j else i], NewJob(req, now));
        }
      }
    }
  }

  /** The events, taken one after another, are all enabled from `s`. */
  ghost function Continue(s: State, es: seq<Event>): Option<State> {
    if es == [] then Some(s)
    else
      var before := Continue(s, es[..|es| - 1]);
      if before.Some? && Enabled(before.value, es[|es| - 1]) then Some(Apply(before.value, es[|es| - 1])) else None
  }

  /** The step ends job `id`: its holder completes or fails it. */
  ghost predicate Ends(s: State, e: Event, id: int) {
    (e.Complete? || e.Fail?) && e.id == id && Enabled(s, e)
  }

  ghost predicate EndsAt(s: State, es: seq<Event>, m: int, id: int)
    requires 0 <= m < |es|
  {
    Continue(s, es[..m]).Some? && Ends(Continue(s, es[..m]).value, es[m], id)
  }

  ghost predicate EndedIn(s: State, es: seq<Event>, id: int) {
    exists m :: 0 <= m < |es| && EndsAt(s, es, m, id)
  }

  /** No row and no key is ever lost, and a row stays active unless its holder ends it. */
  lemma {:induction false} RowsLast(s: State, es: seq<Event>, id: int)
    requires Inv(s) && Continue(s, es).Some? && id in s.jobs
    ensures var j, u := s.jobs[id], Continue(s, es).value;
            && Inv(u) && id in u.jobs && u.jobs[id].key == j.key && u.jobs[id].jobType == j.jobType
            && u.jobs[id].folderId == j.folderId && u.jobs[id].emailId == j.emailId
            && (Active(j) && !EndedIn(s, es, id) ==> Active(u.jobs[id]))
  {
    if es != [] {
      var front, e := es[..|es| - 1], es[|es| - 1];
      RowsLast(s, front, id);
      var before := Continue(s, front).value;
      StepKeepsInv(before, e);
      RowStep(before, e, id);
      if !EndedIn(s, es, id) {
        forall m | 0 <= m < |front| ensures !EndsAt(s, front, m, id) {
          assert front[..m] == es[..m] && !EndsAt(s, es, m, id);
        }
        assert !EndsAt(s, es, |front|, id);
      }
    }
  }

  /** An active row that takes the slot the request asks for. */
  ghost predicate Blocks(s: State, req: Request, id: int) {
    id in s.jobs && Active(s.jobs[id]) && SameSlot(s.jobs[id], NewJob(req, s.now))
  }

  lemma BlockerIsTarget(t: Table, req: Request, id: int, now: int)
    requires id in t && Active(t[id]) && SameSlot(t[id], NewJob(req, now))
    ensures id in Targets(t, req)
  {
  }

  /** Whatever others do between a rejected insert and the lookup that follows it, the lookup finds the key
      or an active target, unless no row had the key and each row that blocked the insert was completed or
      failed meanwhile: only then is the database's error raised again. */
  lemma LookupMissesOnlyEnded(s: State, es: seq<Event>, req: Request, id: int)
    requires Inv(s) && Continue(s, es).Some?
    requires id !in s.jobs && !IndexesHold(Inserted(s.jobs, req, id, s.now))
    requires var u := Continue(s, es).value; !HasKey(u.jobs, req.key) && Targets(u.jobs, req) == {}
    ensures !HasKey(s.jobs, req.key)
    ensures exists b :: Blocks(s, req, b)
    ensures forall b :: Blocks(s, req, b) ==> EndedIn(s, es, b)
  {
    var u := Continue(s, es).value;
    forall i | i in s.jobs ensures s.jobs[i].key != req.key {
      RowsLast(s, es, i);
    }
    InsertIsKeptExactly(s.jobs, req, id, s.now);
    var b :| b in s.jobs && Active(s.jobs[b]) && SameSlot(s.jobs[b], NewJob(req, s.now));
    assert Blocks(s, req, b);
    forall b | Blocks(s, req, b) ensures EndedIn(s, es, b) {
      RowsLast(s, es, b);
      if !EndedIn(s, es, b) {
        BlockerIsTarget(u.jobs, req, b, u.now);
      }
    }
  }

  /** That does happen: a folder sync is running when its folder is enqueued again, the insert is rejected,
      the sync completes, and the lookup finds nothing. */
  lemma RejectedInsertCanMiss()
    ensures var s, req, es := State(map[1 := RUNNING], 0, []), FolderSync("b"), [Complete(7, 1)];
            && StateAfter([EnqueueInsert(FolderSync("a"), 1), Claim(7, 60, {}, {}, 1)]) == Some(s)
            && !IndexesHold(Inserted(s.jobs, req, 2, s.now))
            && Continue(s, es).Some?
            && !HasKey(Continue(s, es).value.jobs, req.key) && Targets(Continue(s, es).value.jobs, req) == {}
  {
    EnqueueThenClaim();
    var s, req, es := State(map[1 := RUNNING], 0, []), FolderSync("b"), [Complete(7, 1)];
    var t := Inserted(s.jobs, req, 2, s.now);
    assert Conflict(t[1], t[2]);
    assert es[..0] == [] && Continue(s, es[..0]) == Some(s);
    var done := Continue(s, es).value.jobs;
    assert done == map[1 := Finished(RUNNING, Completed, 0, None)];
    assert forall i :: i in done ==> !ActiveForTarget(done[i], req);
  }

  // ------------------------------------------------------------------- claims the database turns down

  /** The slot of this FAILED_RETRYABLE row has been taken by an active job since it failed. */
  ghost predicate Blocked(t: Table, id: int)
    requires id in t
  {
    t[id].status == FailedRetryable && exists i :: i in t && i != id && Active(t[i]) && SameSlot(t[i], t[id])
  }

  /** A claim is turned down exactly when the row it selects is blocked. */
  lemma ClaimAbortsExactly(s: State, e: Event)
    requires Inv(s) && e.Claim? && Enabled(s, e)
    ensures Apply(s, e) == s <==> Blocked(s.jobs, e.id)
    ensures Apply(s, e) == s <==> !Claims(s, e, e.id)
  {
    var t := Claimed(s.jobs, e.id, e.worker, s.now, e.lease);
    assert t[e.id].attempts != s.jobs[e.id].attempts;
    if IndexesHold(t) {
      forall i | i in s.jobs && i != e.id ensures !(Active(s.jobs[i]) && SameSlot(s.jobs[i], s.jobs[e.id])) {
        assert !Conflict(t[i], t[e.id]);
      }
    } else {
      var i, j :| i in t && j in t && i != j && Conflict(t[i], t[j]);
      assert !Conflict(s.jobs[i], s.jobs[j]);
      var other := if i == e.id then j else i;
      assert Active(s.jobs[other]) && SameSlot(s.jobs[other], s.jobs[e.id]);
    }
  }

  /** A row a worker of these job types can select, now or later. */
  predicate Claimable(j: Job, types: set<JobType>) {
    (j.status == Pending || j.status == FailedRetryable) && (types == {} || j.jobType in types)
  }

  /** Whenever `r` is due the blocked row `x` is due too, and sorts strictly before it. */
  ghost predicate HiddenBehind(s: State, types: set<JobType>, r: int, x: int)
    requires r in s.jobs
  {
    && x in s.jobs && Claimable(s.jobs[x], types) && Blocked(s.jobs, x)
    && !ComesFirst(s.jobs[r], s.jobs[x])
    && s.jobs[x].availableAt <= Max(s.now, s.jobs[r].availableAt)
  }

  /** Every row that could be claimed is hidden behind one that cannot. */
  ghost predicate Shadowed(s: State, types: set<JobType>) {
    forall r :: r in s.jobs && Claimable(s.jobs[r], types) && !Blocked(s.jobs, r) ==> exists x :: HiddenBehind(s, types, r, x)
  }

  ghost predicate NothingRuns(s: State) {
    forall i :: i in s.jobs ==> s.jobs[i].status != Running
  }

  /** What a lone worker for these job types does with its queue: let time pass, claim with nothing locked
      by others, recover. */
  ghost predicate LoneWorker(e: Event, types: set<JobType>) {
    e.Tick? || (e.Claim? && e.locked == {} && e.types == types) || e.Recover?
  }

  /** However long it goes on, a lone worker never claims a job. */
  ghost predicate NeverClaims(s: State, types: set<JobType>) {
    forall es :: (forall e :: e in es ==> LoneWorker(e, types)) && Continue(s, es).Some? ==> Continue(s, es).value.jobs == s.jobs
  }

  lemma RecoverChangesNothing(s: State)
    requires NothingRuns(s)
    ensures Recovered(s.jobs, s.now) == s.jobs
  {
    forall i | i in s.jobs ensures Recovered(s.jobs, s.now)[i] == s.jobs[i] {}
  }

  lemma LaterStaysShadowed(s: State, types: set<JobType>, later: int)
    requires Shadowed(s, types) && s.now <= later
    ensures Shadowed(s.(now := later), types)
  {
    var u := s.(now := later);
    forall r | r in u.jobs && Claimable(u.jobs[r], types) && !Blocked(u.jobs, r) ensures exists x :: HiddenBehind(u, types, r, x) {
      var x :| HiddenBehind(s, types, r, x);
      assert HiddenBehind(u, types, r, x);
    }
  }

  lemma ShadowedSelectsBlocked(s: State, types: set<JobType>, id: int)
    requires Shadowed(s, types) && Selects(s.jobs, s.now, types, {}, id)
    ensures Blocked(s.jobs, id)
  {
    if !Blocked(s.jobs, id) {
      var x :| HiddenBehind(s, types, id, x);
      HiddenIsPreceded(s, types, id, x);
    }
  }

  lemma HiddenIsPreceded(s: State, types: set<JobType>, r: int, x: int)
    requires r in s.jobs && HiddenBehind(s, types, r, x) && Due(s.jobs[r], s.now, types)
    ensures x in DueJobs(s.jobs, s.now, types, {}) && !ComesFirst(s.jobs[r], s.jobs[x])
  {
  }

  lemma ShadowedStep(s: State, e: Event, types: set<JobType>)
    requires Inv(s) && NothingRuns(s) && Shadowed(s, types) && LoneWorker(e, types) && Enabled(s, e)
    ensures Apply(s, e).jobs == s.jobs && Shadowed(Apply(s, e), types)
  {
    match e {
      case Tick(now) => LaterStaysShadowed(s, types, now);
      case Claim(_, _, _, _, id) =>
        ShadowedSelectsBlocked(s, types, id);
        ClaimAbortsExactly(s, e);
      case _ => RecoverChangesNothing(s);
    }
  }

  lemma {:induction false} ShadowedStays(s: State, types: set<JobType>, es: seq<Event>)
    requires Inv(s) && NothingRuns(s) && Shadowed(s, types) && forall e :: e in es ==> LoneWorker(e, types)
    requires Continue(s, es).Some?
    ensures var u := Continue(s, es).value; u.jobs == s.jobs && Inv(u) && Shadowed(u, types)
  {
    if es != [] {
      var front, e := es[..|es| - 1], es[|es| - 1];
      ShadowedStays(s, types, front);
      assert e in es;
      ShadowedStep(Continue(s, front).value, e, types);
      StepKeepsInv(Continue(s, front).value, e);
    }
  }

  lemma ComesFirstTransitive(a: Job, b: Job, c: Job)
    requires ComesFirst(a, b) && ComesFirst(b, c)
    ensures ComesFirst(a, c)
  {
  }

  /** A row that is neither blocked nor hidden is due at some time, and then some unblocked row may be
      selected. */
  lemma UnhiddenIsSelected(s: State, types: set<JobType>, r: int) returns (later: int, id: int)
    requires r in s.jobs && Claimable(s.jobs[r], types) && !Blocked(s.jobs, r)
    requires forall x :: !HiddenBehind(s, types, r, x)
    ensures s.now <= later && Selects(s.jobs, later, types, {}, id) && !Blocked(s.jobs, id)
  {
    later := Max(s.now, s.jobs[r].availableAt);
    var due := DueJobs(s.jobs, later, types, {});
    assert r in due;
    FirstExists(s.jobs, due);
    id :| id in due && forall j :: j in due ==> ComesFirst(s.jobs[id], s.jobs[j]);
    if Blocked(s.jobs, id) {
      assert !HiddenBehind(s, types, r, id);
      forall j | j in due ensures ComesFirst(s.jobs[r], s.jobs[j]) {
        ComesFirstTransitive(s.jobs[r], s.jobs[id], s.jobs[j]);
      }
      id := r;
    }
  }

  lemma WaitsThenClaims(s: State, types: set<JobType>, later: int, id: int)
    requires Inv(s) && s.now <= later && Selects(s.jobs, later, types, {}, id) && !Blocked(s.jobs, id)
    ensures var es := [Tick(later), Claim(0, 0, types, {}, id)];
            Continue(s, es).Some? && Continue(s, es).value.jobs != s.jobs
  {
    var es := [Tick(later), Claim(0, 0, types, {}, id)];
    var u := s.(now := later);
    assert es[..1] == [Tick(later)] && es[..1][..0] == [];
    assert Continue(s, es[..1]) == Some(u);
    StepKeepsInv(s, Tick(later));
    ClaimAbortsExactly(u, es[1]);
  }

  lemma UnshadowedIsClaimed(s: State, types: set<JobType>)
    requires Inv(s) && !Shadowed(s, types)
    ensures !NeverClaims(s, types)
  {
    var r :| r in s.jobs && Claimable(s.jobs[r], types) && !Blocked(s.jobs, r) && forall x :: !HiddenBehind(s, types, r, x);
    var later, id := UnhiddenIsSelected(s, types, r);
    WaitsThenClaims(s, types, later, id);
  }

  /** With nothing running, a lone worker never claims anything again exactly when every row it could
      claim is hidden behind a blocked one: a single check of the table decides all its future. */
  lemma ShadowedQueueIsStuck(s: State, types: set<JobType>)
    requires Inv(s) && NothingRuns(s)
    ensures NeverClaims(s, types) <==> Shadowed(s, types)
  {
    if Shadowed(s, types) {
      forall es | (forall e :: e in es ==> LoneWorker(e, types)) && Continue(s, es).Some?
        ensures Continue(s, es).value.jobs == s.jobs
      {
        ShadowedStays(s, types, es);
      }
    } else {
      UnshadowedIsClaimed(s, types);
    }
  }

  function FolderSync(key: string): Request {
    Request(SyncFolder, key, 5, Some(1), None, "", 100, 0)
  }

  const NOTED := JobError("x", "")
  const FIRST := NewJob(FolderSync("a"), 0)
  const RUNNING := ClaimedJob(FIRST, 7, 0, 60)
  const FAILED := Retried(RUNNING, 0, 0, NOTED)
  const SECOND := NewJob(FolderSync("b"), 1)

  /** The queue after a folder sync was enqueued, claimed, failed, and its folder enqueued again. */
  const STUCK := State(map[1 := FAILED, 2 := SECOND], 2, [])

  lemma EnqueueThenClaim()
    ensures StateAfter([EnqueueInsert(FolderSync("a"), 1), Claim(7, 60, {}, {}, 1)]) == Some(State(map[1 := RUNNING], 0, []))
  {
    var insert, claim := EnqueueInsert(FolderSync("a"), 1), Claim(7, 60, {}, {}, 1);
    RunExtends([], insert);
    assert Apply(INITIAL, insert).jobs == map[1 := FIRST];
    RunExtends([insert], claim);
    assert DueJobs(map[1 := FIRST], 0, {}, {}) == {1};
    assert Apply(State(map[1 := FIRST], 0, []), claim).jobs == map[1 := RUNNING];
    assert [insert] + [claim] == [insert, claim];
  }

  lemma FailsOnce(run: seq<Event>)
    requires StateAfter(run) == Some(State(map[1 := RUNNING], 0, []))
    ensures StateAfter(run + [Fail(7, 1, NOTED, true, 0)]) == Some(State(map[1 := FAILED], 0, []))
  {
    RunExtends(run, Fail(7, 1, NOTED, true, 0));
    assert Apply(State(map[1 := RUNNING], 0, []), Fail(7, 1, NOTED, true, 0)) == State(map[1 := FAILED], 0, []);
  }

  lemma SecondInsert()
    ensures var s, e := State(map[1 := FAILED], 1, []), EnqueueInsert(FolderSync("b"), 2);
            Enabled(s, e) && Apply(s, e) == State(STUCK.jobs, 1, [])
  {
    assert Inserted(map[1 := FAILED], FolderSync("b"), 2, 1) == STUCK.jobs;
  }

  lemma EnqueueAgain(run: seq<Event>)
    requires StateAfter(run) == Some(State(map[1 := FAILED], 0, []))
    ensures StateAfter(run + [Tick(1)] + [EnqueueInsert(FolderSync("b"), 2)] + [Tick(2)]) == Some(STUCK)
  {
    var insert := EnqueueInsert(FolderSync("b"), 2);
    RunExtends(run, Tick(1));
    RunExtends(run + [Tick(1)], insert);
    SecondInsert();
    RunExtends(run + [Tick(1)] + [insert], Tick(2));
  }

  /** And such a queue is reachable, with a PENDING job due in it: a folder sync fails, its folder is
      enqueued again, time passes. */
  lemma ShadowedIsReachable(types: set<JobType>) returns (run: seq<Event>)
    ensures StateAfter(run) == Some(STUCK)
    ensures NothingRuns(STUCK) && Shadowed(STUCK, types)
    ensures types == {} || SyncFolder in types ==> Due(STUCK.jobs[2], STUCK.now, types) && !Blocked(STUCK.jobs, 2)
  {
    EnqueueThenClaim();
    run := [EnqueueInsert(FolderSync("a"), 1), Claim(7, 60, {}, {}, 1)];
    FailsOnce(run);
    run := run + [Fail(7, 1, NOTED, true, 0)];
    EnqueueAgain(run);
    run := run + [Tick(1)] + [EnqueueInsert(FolderSync("b"), 2)] + [Tick(2)];
    StuckIsShadowed(types);
  }

  lemma StuckIsShadowed(types: set<JobType>)
    ensures NothingRuns(STUCK) && Shadowed(STUCK, types)
  {
    assert STUCK.jobs[2].status == Pending && SameSlot(STUCK.jobs[2], STUCK.jobs[1]);
    assert Blocked(STUCK.jobs, 1);
    if types == {} || SyncFolder in types {
      assert HiddenBehind(STUCK, types, 2, 1);
    }
  }

  lemma RunExtends(run: seq<Event>, e: Event)
    ensures var next := run + [e];
            StateAfter(next) == (
              if StateAfter(run).Some? && Enabled(StateAfter(run).value, e) then Some(Apply(StateAfter(run).value, e)) else None)
  {
    assert (run + [e])[..|run|] == run;
  }
}
