/** The durable job queue: its table, its unique indexes, and each operation as one atomic step. */
module JobQueue {
  import opened Wrappers
  import Text

  datatype JobType = EnsureSubscription | RenewSubscription | RecreateSubscription | SyncFolder | IngestEmail | ClassifyEmail

  datatype JobStatus = Pending | Running | Completed | FailedRetryable | FailedReview | Cancelled

  datatype JobError = JobError(code: string, message: string)

  datatype Job = Job(
    jobType: JobType, folderId: Option<int>, emailId: Option<int>, reason: string, status: JobStatus, priority: int,
    key: string, attempts: nat, maxAttempts: int, availableAt: int, createdAt: int, startedAt: Option<int>,
    completedAt: Option<int>, leaseOwner: Option<int>, leaseExpiresAt: Option<int>, lastError: Option<JobError>)

  type Table = map<int, Job>

  datatype Request = Request(
    jobType: JobType, key: string, maxAttempts: int, folderId: Option<int>, emailId: Option<int>,
    reason: string, priority: int, delay: int)

  const REASON_LIMIT := 500
  const ERROR_CODE_LIMIT: nat := 100
  const ERROR_MESSAGE_LIMIT: nat := 500

  // ------------------------------------------------------------------------------ the unique indexes

  predicate Active(j: Job) {
    j.status == Pending || j.status == Running
  }

  /** Two rows fall in the same slot of one of the partial unique indexes; a missing id never does. */
  predicate SameSlot(a: Job, b: Job) {
    && a.jobType == b.jobType
    && (a.jobType == SyncFolder ==> a.folderId.Some? && a.folderId == b.folderId)
    && (a.jobType != SyncFolder ==> a.jobType in {IngestEmail, ClassifyEmail} && a.emailId.Some? && a.emailId == b.emailId)
  }

  predicate Conflict(a: Job, b: Job) {
    a.key == b.key || (Active(a) && Active(b) && SameSlot(a, b))
  }

  predicate IndexesHold(t: Table) {
    forall i, j :: i in t && j in t && i != j ==> !Conflict(t[i], t[j])
  }

  /** A write that would break an index is rolled back. */
  function Commit(before: Table, after: Table): Table {
    if IndexesHold(after) then after else before
  }

  // --------------------------------------------------------------------------------------- enqueueing

  predicate HasKey(t: Table, key: string) {
    exists i :: i in t && t[i].key == key
  }

  predicate ActiveForTarget(j: Job, req: Request) {
    && j.jobType == req.jobType && Active(j)
    && if req.jobType in {IngestEmail, ClassifyEmail} then req.emailId.Some? && j.emailId == req.emailId
       else req.folderId.Some? && j.folderId == req.folderId
  }

  function Targets(t: Table, req: Request): set<int> {
    set i | i in t && ActiveForTarget(t[i], req)
  }

  function CoalescedReason(current: string, reason: string): string {
    if reason == "" || Text.Contains(current, reason) then current
    else
      var combined := if current == "" then reason else current + "; " + reason;
      if |combined| <= REASON_LIMIT then combined else combined[..REASON_LIMIT]
  }

  function Coalesced(j: Job, req: Request): Job {
    j.(reason := CoalescedReason(j.reason, req.reason), priority := if req.priority < j.priority then req.priority else j.priority)
  }

  /** The two lookups of `enqueue`: an existing key wins, then an active job of the target (`hit`). */
  function Lookup(t: Table, req: Request, hit: Option<int>): Table
    requires hit.Some? ==> hit.value in t
  {
    if HasKey(t, req.key) || hit.None? then t else t[hit.value := Coalesced(t[hit.value], req)]
  }

  function NewJob(req: Request, now: int): Job {
    Job(req.jobType, req.folderId, req.emailId, req.reason, Pending, req.priority, req.key, 0, req.maxAttempts,
        now + req.delay, now, None, None, None, None, None)
  }

  function Inserted(t: Table, req: Request, id: int, now: int): Table {
    t[id := NewJob(req, now)]
  }

  // ----------------------------------------------------------------------------------------- claiming

  predicate Due(j: Job, now: int, types: set<JobType>) {
    && (j.status == Pending || j.status == FailedRetryable)
    && j.availableAt <= now
    && (types == {} || j.jobType in types)
  }

  /** ORDER BY priority, available_at, created_at. */
  predicate ComesFirst(a: Job, b: Job) {
    || a.priority < b.priority
    || (a.priority == b.priority && (a.availableAt < b.availableAt || (a.availableAt == b.availableAt && a.createdAt <= b.createdAt)))
  }

  function DueJobs(t: Table, now: int, types: set<JobType>, locked: set<int>): set<int> {
    set i | i in t && i !in locked && Due(t[i], now, types)
  }

  /** `id` is a row SELECT ... LIMIT 1 FOR UPDATE SKIP LOCKED may return. */
  ghost predicate Selects(t: Table, now: int, types: set<JobType>, locked: set<int>, id: int) {
    id in DueJobs(t, now, types, locked) && forall j :: j in DueJobs(t, now, types, locked) ==> ComesFirst(t[id], t[j])
  }

  lemma {:induction false} FirstExists(t: Table, s: set<int>)
    requires s != {} && s <= t.Keys
    ensures exists i :: i in s && forall j :: j in s ==> ComesFirst(t[i], t[j])
  {
    EmptyOrInhabited(s);
    var x :| x in s;
    var rest := s - {x};
    assert forall j :: j in s ==> j == x || j in rest;
    if rest == {} {
      assert x in s && forall j :: j in s ==> ComesFirst(t[x], t[j]);
    } else {
      FirstExists(t, rest);
      var y :| y in rest && forall j :: j in rest ==> ComesFirst(t[y], t[j]);
      var z := if ComesFirst(t[x], t[y]) then x else y;
      assert z in s && forall j :: j in s ==> ComesFirst(t[z], t[j]);
    }
  }

  function ClaimedJob(j: Job, worker: int, now: int, lease: int): Job {
    j.(status := Running, leaseOwner := Some(worker), leaseExpiresAt := Some(now + lease), attempts := j.attempts + 1,
       startedAt := if j.startedAt.None? then Some(now) else j.startedAt)
  }

  function Claimed(t: Table, id: int, worker: int, now: int, lease: int): Table
    requires id in t
  {
    t[id := ClaimedJob(t[id], worker, now, lease)]
  }

  // ------------------------------------------------------------------------- extending and finishing

  predicate Holds(t: Table, id: int, worker: int) {
    id in t && t[id].status == Running && t[id].leaseOwner == Some(worker)
  }

  function Extended(t: Table, id: int, worker: int, now: int, lease: int): Table {
    if Holds(t, id, worker) then t[id := t[id].(leaseExpiresAt := Some(now + lease))] else t
  }

  /** What of an error fits its columns. */
  function Recorded(e: JobError): JobError {
    JobError(Text.Truncate(e.code, ERROR_CODE_LIMIT), Text.Truncate(e.message, ERROR_MESSAGE_LIMIT))
  }

  function Finished(j: Job, status: JobStatus, now: int, error: Option<JobError>): Job {
    j.(status := status, completedAt := Some(now), leaseOwner := None, leaseExpiresAt := None, lastError := error)
  }

  function Retried(j: Job, now: int, delay: int, error: JobError): Job {
    j.(status := FailedRetryable, availableAt := now + delay, leaseOwner := None, leaseExpiresAt := None,
       lastError := Some(Recorded(error)))
  }

  predicate MayRetry(j: Job, retryable: bool) {
    retryable && j.attempts < j.maxAttempts
  }

  function FinalError(error: JobError, retryable: bool): JobError {
    if retryable then error.(code := "max_attempts_exhausted") else error
  }

  function FailedJob(j: Job, now: int, delay: int, error: JobError, retryable: bool): Job {
    if MayRetry(j, retryable) then Retried(j, now, delay, error)
    else Finished(j, FailedReview, now, Some(Recorded(FinalError(error, retryable))))
  }

  // ----------------------------------------------------------------------------------------- recovery

  predicate Expired(j: Job, now: int) {
    j.status == Running && j.leaseExpiresAt.Some? && j.leaseExpiresAt.value < now
  }

  const LEASE_EXPIRED := JobError("lease_expired", "Worker lease expired; job returned to the queue.")

  function RecoveredJob(j: Job, now: int): Job {
    if Expired(j, now) then j.(status := Pending, leaseOwner := None, leaseExpiresAt := None, lastError := Some(LEASE_EXPIRED)) else j
  }

  function Recovered(t: Table, now: int): Table {
    map i | i in t :: RecoveredJob(t[i], now)
  }

  // ------------------------------------------------------------------------- the queue's transitions

  /** The audit event and outbox row written together when a job is handed to a human; the outbox key is
      the job and its attempts, and the actor is the lease holder if there is one. */
  datatype ReviewRow = ReviewRow(jobId: int, jobType: JobType, attempts: nat, errorCode: string, reason: string, actor: Option<int>)

  function HandOver(id: int, j: Job, error: JobError): ReviewRow {
    ReviewRow(id, j.jobType, j.attempts, error.code, j.reason, j.leaseOwner)
  }

  datatype State = State(jobs: Table, now: int, outbox: seq<ReviewRow>)

  datatype Event =
    | Tick(now: int)
    | EnqueueLookup(req: Request, hit: Option<int>)
    | EnqueueInsert(req: Request, id: int)
    | Claim(worker: int, lease: int, types: set<JobType>, locked: set<int>, id: int)
    | Extend(worker: int, lease: int, id: int)
    | Complete(worker: int, id: int)
    | Fail(worker: int, id: int, error: JobError, retryable: bool, delay: int)
    | Recover

  /** When a step can be taken: time never goes back, a fresh row gets a fresh id, the database picks the
      row, and only the lease holder finishes a job. */
  ghost predicate Enabled(s: State, e: Event) {
    match e
    case Tick(now) => s.now <= now
    case EnqueueLookup(req, hit) => if Targets(s.jobs, req) == {} then hit == None else hit.Some? && hit.value in Targets(s.jobs, req)
    case EnqueueInsert(req, id) => id !in s.jobs
    case Claim(worker, lease, types, locked, id) => Selects(s.jobs, s.now, types, locked, id)
    case Extend(worker, lease, id) => true
    case Complete(worker, id) => Holds(s.jobs, id, worker)
    case Fail(worker, id, error, retryable, delay) => Holds(s.jobs, id, worker)
    case Recover => true
  }

  function Apply(s: State, e: Event): State
    requires Enabled(s, e)
  {
    match e
    case Tick(now) => s.(now := now)
    case EnqueueLookup(req, hit) => s.(jobs := Lookup(s.jobs, req, hit))
    case EnqueueInsert(req, id) => s.(jobs := Commit(s.jobs, Inserted(s.jobs, req, id, s.now)))
    case Claim(worker, lease, types, locked, id) => s.(jobs := Commit(s.jobs, Claimed(s.jobs, id, worker, s.now, lease)))
    case Extend(worker, lease, id) => s.(jobs := Extended(s.jobs, id, worker, s.now, lease))
    case Complete(worker, id) => s.(jobs := s.jobs[id := Finished(s.jobs[id], Completed, s.now, None)])
    case Fail(worker, id, error, retryable, delay) =>
      var j := s.jobs[id];
      s.(jobs := s.jobs[id := FailedJob(j, s.now, delay, error, retryable)],
         outbox := if MayRetry(j, retryable) then s.outbox else s.outbox + [HandOver(id, j, FinalError(error, retryable))])
    case Recover => s.(jobs := Recovered(s.jobs, s.now))
  }

  /** The step is a claim that the database accepts. */
  ghost predicate Claims(s: State, e: Event, id: int) {
    e.Claim? && e.id == id && Enabled(s, e) && IndexesHold(Claimed(s.jobs, id, e.worker, s.now, e.lease))
  }

  ghost predicate Recovers(s: State, e: Event, id: int) {
    e.Recover? && id in s.jobs && Expired(s.jobs[id], s.now)
  }
}
