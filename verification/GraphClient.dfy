/** The retry loops of the HTTP client: which outcomes are retried, how often, and for how long. */
module GraphClient {
  import opened Wrappers
  import EvidenceStore

  /** What one request comes to. */
  datatype Reply = NetworkError(retryable: bool) | Http(status: int, retryAfter: Option<real>)

  datatype Result = Success(status: int) | ApiError(status: int) | NetworkFailure | PersistentUnauthorized | BudgetExhausted

  predicate SuccessStatus(status: int) {
    status in {200, 201, 202, 204}
  }

  predicate RetryableStatus(status: int) {
    status in {408, 429, 500, 502, 503, 504}
  }

  predicate Unauthorized(r: Reply) {
    r.Http? && r.status == 401
  }

  predicate Retryable(r: Reply) {
    if r.NetworkError? then r.retryable else RetryableStatus(r.status)
  }

  function MinReal(a: real, b: real): real {
    if a < b then a else b
  }

  function PowerOfTwo(n: nat): real {
    if n == 0 then 1.0 else 2.0 * PowerOfTwo(n - 1)
  }

  /** `draw(b)` is what the random draw from the interval from 0 to `b` comes to. */
  function BackoffDelay(attempt: int, base: real, maxSeconds: real, retryAfter: Option<real>, draw: real -> real): real {
    if retryAfter.Some? then MinReal(retryAfter.value, maxSeconds)
    else draw(BackoffBound(attempt, base, maxSeconds))
  }

  function BackoffBound(attempt: int, base: real, maxSeconds: real): real {
    MinReal(base * PowerOfTwo(if attempt >= 1 then attempt - 1 else 0), maxSeconds)
  }

  ghost predicate Uniform(draw: real -> real) {
    forall b :: b >= 0.0 ==> 0.0 <= draw(b) <= b
  }

  lemma BackoffIsBounded(attempt: int, base: real, maxSeconds: real, retryAfter: Option<real>, draw: real -> real)
    requires base >= 0.0 && maxSeconds >= 0.0 && Uniform(draw)
    requires retryAfter.Some? ==> retryAfter.value >= 0.0
    ensures 0.0 <= BackoffDelay(attempt, base, maxSeconds, retryAfter, draw) <= maxSeconds
  {
    BoundIsBounded(attempt, base, maxSeconds);
    assert 0.0 <= draw(BackoffBound(attempt, base, maxSeconds)) <= BackoffBound(attempt, base, maxSeconds);
  }

  lemma BoundIsBounded(attempt: int, base: real, maxSeconds: real)
    requires base >= 0.0 && maxSeconds >= 0.0
    ensures 0.0 <= BackoffBound(attempt, base, maxSeconds) <= maxSeconds
  {
    var n: nat := if attempt >= 1 then attempt - 1 else 0;
    PowerIsPositive(n);
    ProductIsNonNegative(base, PowerOfTwo(n));
  }

  lemma ProductIsNonNegative(a: real, b: real)
    requires a >= 0.0 && b >= 0.0
    ensures a * b >= 0.0
  {
  }

  lemma {:induction false} PowerIsPositive(n: nat)
    ensures PowerOfTwo(n) >= 1.0
  {
    if n > 0 {
      PowerIsPositive(n - 1);
    }
  }

  /** How many of the first `n` replies were 401. */
  function Unauthorizeds(replies: nat -> Reply, n: nat): nat {
    if n == 0 then 0 else Unauthorizeds(replies, n - 1) + if Unauthorized(replies(n - 1)) then 1 else 0
  }

  /** The servers' and the clock's side of one call. */
  datatype World = World(replies: nat -> Reply, draws: nat -> (real -> real))

  ghost predicate SaneReply(r: Reply, draw: real -> real) {
    Uniform(draw) && (r.Http? && r.retryAfter.Some? ==> r.retryAfter.value >= 0.0)
  }

  ghost predicate Sane(w: World) {
    forall i {:trigger w.draws(i)} :: SaneReply(w.replies(i), w.draws(i))
  }

  /** Reply `i` lets the loop go on: retryable, or the first 401. */
  predicate Tolerated(w: World, i: nat) {
    Retryable(w.replies(i)) || (Unauthorized(w.replies(i)) && Unauthorizeds(w.replies, i) == 0)
  }

  /** The result a last reply stands for. */
  predicate Concludes(last: Reply, result: Result) {
    match last
    case NetworkError(_) => result == NetworkFailure
    case Http(status, _) =>
      result == if SuccessStatus(status) then Success(status) else if status == 401 then PersistentUnauthorized else ApiError(status)
  }

  /** Replies before the last are tolerated; the last one decides, either because it cannot be retried,
      because it is the second 401, or because it used up the last attempt. One 401 costs no attempt. */
  ghost predicate Decided(w: World, maxAttempts: int, requests: nat, result: Result)
    requires requests >= 1
  {
    var last := w.replies(requests - 1);
    && (forall i :: 0 <= i < requests - 1 ==> Tolerated(w, i))
    && Concludes(last, result)
    && (Retryable(last) ==> requests - Unauthorizeds(w.replies, requests) == maxAttempts)
    && (Unauthorized(last) ==> Unauthorizeds(w.replies, requests) == 2)
  }

  /** At most `n` sleeps, none longer than the maximum delay. */
  predicate Paced(delays: seq<real>, n: int, maxDelay: real) {
    |delays| <= n && forall i :: 0 <= i < |delays| ==> 0.0 <= delays[i] <= maxDelay
  }

  function Total(delays: seq<real>): real {
    if delays == [] then 0.0 else Total(delays[..|delays| - 1]) + delays[|delays| - 1]
  }

  lemma OneMore(k: real, m: real)
    ensures (k + 1.0) * m == k * m + m
  {
  }

  lemma {:induction false} PacedTotal(delays: seq<real>, n: nat, maxDelay: real)
    requires Paced(delays, n, maxDelay) && maxDelay >= 0.0
    ensures 0.0 <= Total(delays) <= n as real * maxDelay
  {
    if delays == [] {
      ProductIsNonNegative(n as real, maxDelay);
    } else {
      PacedTotal(delays[..|delays| - 1], n - 1, maxDelay);
      OneMore((n - 1) as real, maxDelay);
      assert n as real == (n - 1) as real + 1.0;
    }
  }

  /** `n` replies in, the loop is still going. */
  ghost predicate Going(w: World, n: nat, refreshed: bool) {
    && (forall i :: 0 <= i < n ==> Tolerated(w, i))
    && Unauthorizeds(w.replies, n) == if refreshed then 1 else 0
  }

  lemma GoesOn(w: World, n: nat, refreshed: bool)
    requires Going(w, n, refreshed)
    ensures Retryable(w.replies(n)) ==> Going(w, n + 1, refreshed)
    ensures Unauthorized(w.replies(n)) && !refreshed ==> Going(w, n + 1, true)
  {
  }

  lemma Decides(w: World, maxAttempts: int, n: nat, refreshed: bool, result: Result)
    requires Going(w, n, refreshed) && Concludes(w.replies(n), result)
    requires Retryable(w.replies(n)) ==> n + 1 - (if refreshed then 1 else 0) == maxAttempts
    requires Unauthorized(w.replies(n)) ==> refreshed
    ensures Decided(w, maxAttempts, n + 1, result) && result != BudgetExhausted
  {
  }

  /** One flag per request, set once a 401 has been seen. */
  ghost predicate ForcedAfterUnauthorized(w: World, forced: seq<bool>) {
    forall i :: 0 <= i < |forced| ==> forced[i] == (Unauthorizeds(w.replies, i) > 0)
  }

  /** A network error says nothing about when to try again. */
  function RetryAfterOf(reply: Reply): Option<real> {
    if reply.Http? then reply.retryAfter else None
  }

  /** What Retry-After says, and otherwise a random draw up to a second doubled with every attempt before;
      neither above the maximum. */
  function Sleep(retryAfter: Option<real>, draw: real -> real, attemptsBefore: int, maxDelay: real): real {
    match retryAfter
    case Some(seconds) => if seconds < maxDelay then seconds else maxDelay
    case None => draw(SleepBound(attemptsBefore, maxDelay))
  }

  function SleepBound(attemptsBefore: int, maxDelay: real): real {
    var bound := Doubled(attemptsBefore);
    if bound < maxDelay then bound else maxDelay
  }

  /** The sleep after reply `i`; a 401 before it was no attempt. */
  function SleepAfter(w: World, i: nat, maxDelay: real): real {
    Sleep(RetryAfterOf(w.replies(i)), w.draws(i), i - Unauthorizeds(w.replies, i), maxDelay)
  }

  /** 1, 2, 4, ... seconds. */
  function Doubled(n: int): real
    decreases n
  {
    if n <= 0 then 1.0 else Twice(Doubled(n - 1))
  }

  function Twice(x: real): real {
    x + x
  }

  lemma {:induction false} DoubledIsPower(n: nat)
    ensures Doubled(n) == PowerOfTwo(n)
  {
    if n > 0 {
      DoubledIsPower(n - 1);
    }
  }

  /** One sleep after each retried reply, in order. */
  function Sleeps(w: World, n: nat, maxDelay: real): seq<real> {
    if n == 0 then []
    else Sleeps(w, n - 1, maxDelay) + if Retryable(w.replies(n - 1)) then [SleepAfter(w, n - 1, maxDelay)] else []
  }

  lemma {:induction false} FewUnauthorized(w: World, n: nat)
    ensures Unauthorizeds(w.replies, n) <= n
  {
    if n > 0 {
      FewUnauthorized(w, n - 1);
    }
  }

  lemma DelayIsSleep(n: nat, maxDelay: real, retryAfter: Option<real>, draw: real -> real)
    ensures BackoffDelay(n + 1, 1.0, maxDelay, retryAfter, draw) == Sleep(retryAfter, draw, n, maxDelay)
  {
    BoundsAgree(n, maxDelay);
  }

  lemma BoundsAgree(n: nat, maxDelay: real)
    ensures BackoffBound(n + 1, 1.0, maxDelay) == SleepBound(n, maxDelay)
  {
    DoubledIsPower(n);
    OneTimes(PowerOfTwo(n));
  }

  lemma OneTimes(x: real)
    ensures 1.0 * x == x
  {
  }

  lemma SleepIsBounded(w: World, i: nat, maxDelay: real)
    requires maxDelay >= 0.0 && SaneReply(w.replies(i), w.draws(i))
    ensures 0.0 <= SleepAfter(w, i, maxDelay) <= maxDelay
  {
    FewUnauthorized(w, i);
    var n := i - Unauthorizeds(w.replies, i);
    BackoffIsBounded(n + 1, 1.0, maxDelay, RetryAfterOf(w.replies(i)), w.draws(i));
    DelayIsSleep(n, maxDelay, RetryAfterOf(w.replies(i)), w.draws(i));
  }

  /** While the loop goes on there is a sleep for every reply but a 401, and none is too long. */
  lemma {:induction false} SleepsArePaced(w: World, n: nat, refreshed: bool, maxDelay: real)
    requires Going(w, n, refreshed) && Sane(w) && maxDelay >= 0.0
    ensures Paced(Sleeps(w, n, maxDelay), n - if refreshed then 1 else 0, maxDelay)
  {
    if n > 0 {
      assert Tolerated(w, n - 1) && SaneReply(w.replies(n - 1), w.draws(n - 1));
      SleepIsBounded(w, n - 1, maxDelay);
      SleepsArePaced(w, n - 1, Unauthorizeds(w.replies, n - 1) == 1, maxDelay);
    }
  }

  /** The statuses worth another try: a timeout, too many requests, and the server errors but 501; and those
      that need none. */
  lemma TransientStatuses(status: int)
    ensures RetryableStatus(status) <==> status == 408 || status == 429 || (500 <= status <= 504 && status != 501)
    ensures SuccessStatus(status) <==> status == 200 || status == 201 || status == 202 || status == 204
  {
  }

  /** The delay slept after reply `i`, the `attempt`-th that counts. */
  method Backoff(w: World, i: nat, attempt: int, maxDelay: real) returns (delay: real)
    requires maxDelay >= 0.0 && SaneReply(w.replies(i), w.draws(i))
    requires attempt == i - Unauthorizeds(w.replies, i) + 1
    ensures delay == SleepAfter(w, i, maxDelay)
  {
    var retryAfter := RetryAfterOf(w.replies(i));
    FewUnauthorized(w, i);
    DelayIsSleep(attempt - 1, maxDelay, retryAfter, w.draws(i));
    delay := BackoffDelay(attempt, 1.0, maxDelay, retryAfter, w.draws(i));
  }

  /** `forced` is one flag per request sent, telling whether it forced a token refresh. */
  method SendWithRetry(maxAttempts: int, maxDelay: real, w: World) returns (result: Result, forced: seq<bool>, delays: seq<real>)
    requires maxDelay >= 0.0 && Sane(w)
    ensures maxAttempts <= 0 ==> forced == [] && result == BudgetExhausted && delays == []
    ensures maxAttempts >= 1 ==> 1 <= |forced| <= maxAttempts + 1 && Decided(w, maxAttempts, |forced|, result)
    ensures maxAttempts >= 1 ==> result != BudgetExhausted && Paced(delays, maxAttempts - 1, maxDelay)
    ensures maxAttempts >= 1 ==> delays == Sleeps(w, |forced| - 1, maxDelay)
    ensures ForcedAfterUnauthorized(w, forced)
  {
    var attempt := 0;
    var refreshed := false;
    forced := [];
    delays := [];
    while attempt < maxAttempts
      invariant 0 <= attempt && (maxAttempts >= 1 ==> attempt < maxAttempts) && (maxAttempts <= 0 ==> attempt == 0 && forced == [])
      invariant Going(w, |forced|, refreshed)
      invariant |forced| == attempt + if refreshed then 1 else 0
      invariant ForcedAfterUnauthorized(w, forced)
      invariant delays == Sleeps(w, |forced|, maxDelay)
      decreases maxAttempts - attempt, if refreshed then 0 else 1
    {
      attempt := attempt + 1;
      var i := |forced|;
      var reply := w.replies(i);
      GoesOn(w, i, refreshed);
      assert SaneReply(reply, w.draws(i));
      forced := forced + [refreshed];
      if reply.NetworkError? {
        if reply.retryable && attempt < maxAttempts {
          var delay := Backoff(w, i, attempt, maxDelay);
          delays := delays + [delay];
          continue;
        }
        result := NetworkFailure;
      } else if SuccessStatus(reply.status) {
        result := Success(reply.status);
      } else if reply.status == 401 {
        if !refreshed {
          refreshed := true;
          attempt := attempt - 1;
          continue;
        }
        result := PersistentUnauthorized;
      } else {
        if RetryableStatus(reply.status) && attempt < maxAttempts {
          var delay := Backoff(w, i, attempt, maxDelay);
          delays := delays + [delay];
          continue;
        }
        result := ApiError(reply.status);
      }
      Decides(w, maxAttempts, i, refreshed, result);
      SleepsArePaced(w, i, refreshed, maxDelay);
      return;
    }
    result := BudgetExhausted;
  }

  // ------------------------------------------------------------------- downloading into the store

  /** What one download attempt meets: no usable response, or a body to stream into a multipart upload.
      `breakRetryable` says whether an error while reading the body is of a retryable kind. */
  datatype Attempt = NoBody(reply: Reply) | Body(stream: EvidenceStore.Stream, service: EvidenceStore.Service, breakRetryable: bool)

  datatype Download = Downloaded(written: Bytes) | DownloadFailed

  /** These calls leave the stored object as it was. */
  ghost predicate ChangesNothing(log: seq<EvidenceStore.Seen>) {
    forall before :: EvidenceStore.Leaves(before, log).content == before.content
  }

  lemma NothingThen(log: seq<EvidenceStore.Seen>, more: seq<EvidenceStore.Seen>)
    requires ChangesNothing(log)
    ensures forall before :: EvidenceStore.Leaves(before, log + more).content
                          == EvidenceStore.Leaves(EvidenceStore.Leaves(before, log), more).content
    ensures ChangesNothing(more) ==> ChangesNothing(log + more)
  {
    forall before {
      EvidenceStore.LeavesConcat(before, log, more);
    }
  }

  /** Whatever the store held before, it holds afterwards either that or the whole of the last stream. */
  ghost predicate WholeOrUnchanged(log: seq<EvidenceStore.Seen>, chunks: seq<Bytes>) {
    forall before: EvidenceStore.Store ::
      EvidenceStore.Leaves(before, log).content in {before.content, Some(EvidenceStore.Flatten(chunks))}
  }

  ghost predicate Replaces(log: seq<EvidenceStore.Seen>, chunks: seq<Bytes>) {
    forall before :: EvidenceStore.Leaves(before, log).content == Some(EvidenceStore.Flatten(chunks))
  }

  /** One more upload after attempts that changed nothing. */
  lemma UploadAfter(log: seq<EvidenceStore.Seen>, outcome: EvidenceStore.Outcome, calls: seq<EvidenceStore.Call>,
                    service: EvidenceStore.Service, stream: EvidenceStore.Stream, partSize: nat)
    requires ChangesNothing(log)
    requires EvidenceStore.Follows(outcome, calls, service, EvidenceStore.Parts(stream.chunks, partSize))
    ensures var all := log + EvidenceStore.SeenCalls(service, calls);
            && (outcome.Stored? ==> Replaces(all, stream.chunks))
            && (outcome == EvidenceStore.Raised(EvidenceStore.CompleteFailed) ==> WholeOrUnchanged(all, stream.chunks))
            && (outcome.Raised? && outcome.why != EvidenceStore.CompleteFailed ==> ChangesNothing(all))
  {
    var more := EvidenceStore.SeenCalls(service, calls);
    NothingThen(log, more);
    forall before
      ensures EvidenceStore.WholeOrNothing(EvidenceStore.Leaves(before, log), EvidenceStore.Leaves(EvidenceStore.Leaves(before, log), more), outcome, stream.chunks)
    {
      EvidenceStore.UploadIsWholeOrNothing(EvidenceStore.Leaves(before, log), outcome, calls, service, stream, partSize);
    }
  }

  /** The whole download is retried; `log` is every call the store saw, those of abandoned attempts
      included. Whatever the store held, a download leaves exactly the last attempt's stream under the key;
      a failed one leaves what was there, unless the last attempt's completion failed for the client, and
      then what was there or that attempt's whole stream: never a mixture. */
  method DownloadToStore(maxAttempts: int, maxBytes: int, partSetting: int, attempts: nat -> Attempt)
      returns (result: Download, log: seq<EvidenceStore.Seen>, requests: nat)
    ensures 1 <= requests <= Max(maxAttempts, 1) + 1
    ensures var last := attempts(requests - 1);
            && (result.Downloaded? ==> last.Body? && Replaces(log, last.stream.chunks)
                                       && result.written == EvidenceStore.Flatten(last.stream.chunks))
            && (result.Downloaded? ==> !last.stream.breaks && EvidenceStore.WithinLimit(last.stream.chunks, maxBytes))
            && (result.DownloadFailed? ==> ChangesNothing(log)
                                           || (last.Body? && !last.service.completeOk && WholeOrUnchanged(log, last.stream.chunks)))
  {
    var attempt := 0;
    var refreshed := false;
    requests := 0;
    log := [];
    while true
      invariant 0 <= attempt < Max(maxAttempts, 1)
      invariant requests == attempt + if refreshed then 1 else 0
      invariant ChangesNothing(log)
      decreases Max(maxAttempts, 1) - attempt, if refreshed then 0 else 1
    {
      attempt := attempt + 1;
      var met := attempts(requests);
      requests := requests + 1;
      match met
      case NoBody(reply) =>
        if Unauthorized(reply) && !refreshed {
          refreshed := true;
          attempt := attempt - 1;
          continue;
        }
        if Retryable(reply) && attempt < maxAttempts {
          continue;
        }
        return DownloadFailed, log, requests;
      case Body(stream, service, breakRetryable) =>
        var outcome, calls := EvidenceStore.PutStream(stream, maxBytes, partSetting, service);
        UploadAfter(log, outcome, calls, service, stream, EvidenceStore.PartSize(partSetting));
        log := log + EvidenceStore.SeenCalls(service, calls);
        if outcome.Stored? {
          return Downloaded(outcome.hashed), log, requests;
        }
        if outcome.why.StreamBroke? && breakRetryable && attempt < maxAttempts {
          continue;
        }
        return DownloadFailed, log, requests;
    }
  }
}
