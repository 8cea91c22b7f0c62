/** The object-storage evidence backend: a stream goes out as a multipart upload, hashed on the way. */
module EvidenceStore {
  import opened Wrappers

  /** One call to the storage service. */
  datatype Call = Create | UploadPart(number: nat, body: Bytes) | CompleteUpload(numbers: seq<nat>) | Abort

  /** How the service answers: whether the create, each part by number, and the completion succeed; and
      whether the call at a position took effect although the answer was an error. */
  datatype Service = Service(createOk: bool, partOk: nat -> bool, completeOk: bool, tookEffect: nat -> bool)

  /** The chunks a stream yields, and whether it then raises instead of ending. */
  datatype Stream = Stream(chunks: seq<Bytes>, breaks: bool)

  datatype Failure = CreateFailed | OverLimit | PartFailed | StreamBroke | CompleteFailed

  /** `hashed` is what the digest in the result is taken over. */
  datatype Outcome = Stored(bytesWritten: nat, hashed: Bytes) | Raised(why: Failure)

  const MIN_PART_BYTES: nat := 5 * 1024 * 1024

  function PartSize(setting: int): nat {
    if setting > MIN_PART_BYTES then setting else MIN_PART_BYTES
  }

  function Flatten(xs: seq<Bytes>): Bytes {
    if xs == [] then [] else Flatten(xs[..|xs| - 1]) + xs[|xs| - 1]
  }

  /** The parts a run of chunks makes, given what is buffered and whether a part went out before. */
  function PartsFrom(buffer: Bytes, chunks: seq<Bytes>, partSize: nat, started: bool): seq<Bytes>
    decreases |chunks|
  {
    if chunks == [] then if buffer != [] || !started then [buffer] else []
    else
      var filled := buffer + chunks[0];
      if |filled| >= partSize then [filled] + PartsFrom([], chunks[1..], partSize, true)
      else PartsFrom(filled, chunks[1..], partSize, started)
  }

  function Parts(chunks: seq<Bytes>, partSize: nat): seq<Bytes> {
    PartsFrom([], chunks, partSize, false)
  }

  lemma {:induction false} FlattenPrepends(x: Bytes, xs: seq<Bytes>)
    ensures Flatten([x] + xs) == x + Flatten(xs)
  {
    if xs == [] {
      assert [x] + xs == [x];
      assert [x][..0] == [];
    } else {
      FlattenPrepends(x, xs[..|xs| - 1]);
      assert ([x] + xs)[..|xs|] == [x] + xs[..|xs| - 1];
    }
  }

  /** The parts are the stream: joined up they are its bytes, there is at least one, and all but the
      last are full. */
  lemma {:induction false} PartsFromAreTheStream(buffer: Bytes, chunks: seq<Bytes>, partSize: nat, started: bool)
    ensures var ps := PartsFrom(buffer, chunks, partSize, started);
            && Flatten(ps) == buffer + Flatten(chunks)
            && (!started ==> |ps| >= 1)
            && forall i :: 0 <= i < |ps| - 1 ==> |ps[i]| >= partSize
    decreases |chunks|
  {
    if chunks == [] {
      FlattenPrepends(buffer, []);
      assert [buffer] + [] == [buffer];
    } else {
      var filled, rest := buffer + chunks[0], chunks[1..];
      FlattenPrepends(chunks[0], rest);
      assert [chunks[0]] + rest == chunks;
      assert buffer + (chunks[0] + Flatten(rest)) == filled + Flatten(rest);
      if |filled| >= partSize {
        PartsFromAreTheStream([], rest, partSize, true);
        FlattenPrepends(filled, PartsFrom([], rest, partSize, true));
      } else {
        PartsFromAreTheStream(filled, rest, partSize, started);
      }
    }
  }

  lemma PartsAreTheStream(chunks: seq<Bytes>, partSize: nat)
    ensures Flatten(Parts(chunks, partSize)) == Flatten(chunks)
    ensures |Parts(chunks, partSize)| >= 1
    ensures forall i :: 0 <= i < |Parts(chunks, partSize)| - 1 ==> |Parts(chunks, partSize)[i]| >= partSize
  {
    PartsFromAreTheStream([], chunks, partSize, false);
  }

  /** A part is cut as soon as it is full: at the first chunk that fills it. */
  lemma {:induction false} PartIsCut(buffer: Bytes, chunks: seq<Bytes>, partSize: nat, started: bool, n: nat)
    requires 1 <= n <= |chunks| && |buffer| + |Flatten(chunks[..n])| >= partSize
    requires forall k :: 1 <= k < n ==> |buffer| + |Flatten(chunks[..k])| < partSize
    ensures PartsFrom(buffer, chunks, partSize, started)
         == [buffer + Flatten(chunks[..n])] + PartsFrom([], chunks[n..], partSize, true)
    decreases n
  {
    var filled, rest := buffer + chunks[0], chunks[1..];
    FirstOfFlatten(chunks, 1);
    assert chunks[0] + Flatten(chunks[1..][..0]) == chunks[0];
    if n > 1 {
      forall k | 1 <= k < n - 1 ensures |filled| + |Flatten(rest[..k])| < partSize {
        FirstOfFlatten(chunks, k + 1);
        assert |buffer| + |Flatten(chunks[..k + 1])| < partSize;
      }
      FirstOfFlatten(chunks, n);
      assert |buffer| + |Flatten(chunks[..1])| < partSize;
      PartIsCut(filled, rest, partSize, started, n - 1);
      assert buffer + (chunks[0] + Flatten(rest[..n - 1])) == filled + Flatten(rest[..n - 1]);
      assert rest[n - 1..] == chunks[n..];
    }
  }

  lemma FirstOfFlatten(chunks: seq<Bytes>, n: nat)
    requires 1 <= n <= |chunks|
    ensures Flatten(chunks[..n]) == chunks[0] + Flatten(chunks[1..][..n - 1])
  {
    assert chunks[..n] == [chunks[0]] + chunks[1..][..n - 1];
    FlattenPrepends(chunks[0], chunks[1..][..n - 1]);
  }

  /** What never fills a part goes out in the end, even if it is nothing and no part went out before. */
  lemma {:induction false} RestGoesOut(buffer: Bytes, chunks: seq<Bytes>, partSize: nat, started: bool)
    requires forall k :: 1 <= k <= |chunks| ==> |buffer| + |Flatten(chunks[..k])| < partSize
    ensures PartsFrom(buffer, chunks, partSize, started)
         == if buffer + Flatten(chunks) != [] || !started then [buffer + Flatten(chunks)] else []
    decreases |chunks|
  {
    if chunks == [] {
      assert buffer + [] == buffer;
    } else {
      var filled, rest := buffer + chunks[0], chunks[1..];
      forall k | 1 <= k <= |rest| ensures |filled| + |Flatten(rest[..k])| < partSize {
        FirstOfFlatten(chunks, k + 1);
        assert |buffer| + |Flatten(chunks[..k + 1])| < partSize;
      }
      FirstOfFlatten(chunks, 1);
      assert |buffer| + |Flatten(chunks[..1])| < partSize;
      FirstOfFlatten(chunks, |chunks|);
      assert chunks[..|chunks|] == chunks && rest[..|rest|] == rest;
      RestGoesOut(filled, rest, partSize, started);
      assert buffer + (chunks[0] + Flatten(rest)) == filled + Flatten(rest);
    }
  }

  /** The part size asked for, or the service's five mebibytes if that is more. */
  lemma PartSizeExactly(setting: int)
    ensures PartSize(setting) >= 5 * 1024 * 1024 && PartSize(setting) >= setting
    ensures PartSize(setting) == 5 * 1024 * 1024 || PartSize(setting) == setting
  {
  }

  /** The incremental hash: a digest is of everything fed in so far. */
  class StreamingSha256 {
    var seen: Bytes
    var bytesSeen: nat

    constructor ()
      ensures seen == [] && bytesSeen == 0
    {
      seen, bytesSeen := [], 0;
    }

    method Update(chunk: Bytes)
      modifies this
      ensures seen == old(seen) + chunk && bytesSeen == old(bytesSeen) + |chunk|
    {
      seen := seen + chunk;
      bytesSeen := bytesSeen + |chunk|;
    }
  }

  /** The calls that upload these parts, numbered from 1. */
  function Uploads(parts: seq<Bytes>): seq<Call> {
    seq(|parts|, i requires 0 <= i < |parts| => UploadPart(i + 1, parts[i]))
  }

  lemma UploadsAppend(parts: seq<Bytes>, body: Bytes)
    ensures [Create] + Uploads(parts + [body]) == [Create] + Uploads(parts) + [UploadPart(|parts| + 1, body)]
  {
    assert Uploads(parts + [body]) == Uploads(parts) + [UploadPart(|parts| + 1, body)];
  }

  ghost predicate NeverCompletes(calls: seq<Call>) {
    forall c :: c in calls ==> !c.CompleteUpload?
  }

  /** The parts sent so far, the buffer and the chunks still to come make up all the parts. */
  ghost predicate Pending(all: seq<Bytes>, parts: seq<Bytes>, buffer: Bytes, rest: seq<Bytes>, partSize: nat) {
    all == parts + PartsFrom(buffer, rest, partSize, parts != [])
  }

  lemma PendingStep(all: seq<Bytes>, parts: seq<Bytes>, buffer: Bytes, rest: seq<Bytes>, partSize: nat)
    requires Pending(all, parts, buffer, rest, partSize) && rest != []
    ensures var filled := buffer + rest[0];
            if |filled| >= partSize then Pending(all, parts + [filled], [], rest[1..], partSize) && |all| > |parts|
            else Pending(all, parts, filled, rest[1..], partSize)
  {
    var filled := buffer + rest[0];
    if |filled| >= partSize {
      assert parts + ([filled] + PartsFrom([], rest[1..], partSize, true)) == parts + [filled] + PartsFrom([], rest[1..], partSize, true);
    }
  }

  lemma PendingEnd(all: seq<Bytes>, parts: seq<Bytes>, buffer: Bytes, partSize: nat)
    requires Pending(all, parts, buffer, [], partSize)
    ensures all == if buffer != [] || parts == [] then parts + [buffer] else parts
  {
  }

  function Numbers(n: nat): seq<nat> {
    seq(n, i => i + 1)
  }

  /** No chunk takes the running total past the limit. */
  ghost predicate WithinLimit(chunks: seq<Bytes>, maxBytes: int) {
    chunks == [] || |Flatten(chunks)| <= maxBytes
  }

  /** One more chunk hashed: over the limit now means over it in the end. */
  lemma LimitStep(chunks: seq<Bytes>, i: nat, maxBytes: int)
    requires i < |chunks|
    ensures Flatten(chunks[..i + 1]) == Flatten(chunks[..i]) + chunks[i]
    ensures WithinLimit(chunks[..i + 1], maxBytes) <==> |Flatten(chunks[..i + 1])| <= maxBytes
    ensures |Flatten(chunks[..i + 1])| > maxBytes ==> !WithinLimit(chunks, maxBytes)
  {
    assert chunks[..i + 1][..i] == chunks[..i];
    FlattenGrows(chunks, i + 1);
  }

  ghost predicate AllPartsOk(service: Service, n: nat) {
    forall k :: 1 <= k <= n ==> service.partOk(k)
  }

  /** The body of `async for chunk in stream`: hash, check the limit, buffer, and send full parts. */
  method SendFullParts(chunks: seq<Bytes>, maxBytes: int, partSize: nat, service: Service, hasher: StreamingSha256)
      returns (failure: Option<Failure>, parts: seq<Bytes>, buffer: Bytes, calls: seq<Call>)
    requires hasher.seen == [] && hasher.bytesSeen == 0
    modifies hasher
    ensures NeverCompletes(calls)
    ensures failure.None? ==> hasher.seen == Flatten(chunks) && hasher.bytesSeen == |hasher.seen| && WithinLimit(chunks, maxBytes)
    ensures failure.None? ==> Parts(chunks, partSize) == if buffer != [] || parts == [] then parts + [buffer] else parts
    ensures failure.None? ==> AllPartsOk(service, |parts|) && calls == [Create] + Uploads(parts)
    ensures failure in {None, Some(OverLimit), Some(PartFailed)}
    ensures failure == Some(OverLimit) ==> !WithinLimit(chunks, maxBytes)
    ensures failure == Some(PartFailed) ==> !AllPartsOk(service, |Parts(chunks, partSize)|)
  {
    ghost var all := Parts(chunks, partSize);
    calls, parts, buffer := [Create], [], [];
    for i := 0 to |chunks|
      invariant hasher.seen == Flatten(chunks[..i]) && hasher.bytesSeen == |hasher.seen|
      invariant WithinLimit(chunks[..i], maxBytes)
      invariant Pending(all, parts, buffer, chunks[i..], partSize)
      invariant AllPartsOk(service, |parts|)
      invariant calls == [Create] + Uploads(parts) && NeverCompletes(calls)
    {
      hasher.Update(chunks[i]);
      LimitStep(chunks, i, maxBytes);
      if hasher.bytesSeen > maxBytes {
        return Some(OverLimit), parts, buffer, calls;
      }
      PendingStep(all, parts, buffer, chunks[i..], partSize);
      assert chunks[i..][1..] == chunks[i + 1..];
      buffer := buffer + chunks[i];
      if |buffer| >= partSize {
        UploadsAppend(parts, buffer);
        calls := calls + [UploadPart(|parts| + 1, buffer)];
        if !service.partOk(|parts| + 1) {
          return Some(PartFailed), parts, buffer, calls;
        }
        parts := parts + [buffer];
        buffer := [];
      }
    }
    assert chunks[..|chunks|] == chunks && chunks[|chunks|..] == [];
    PendingEnd(all, parts, buffer, partSize);
    failure := None;
  }

  /** The calls of one upload: one create, the parts in order and one completion naming them; the abort after
      that if the completion failed; and no completion at all after any other failure. */
  ghost predicate Follows(outcome: Outcome, calls: seq<Call>, service: Service, bodies: seq<Bytes>) {
    var front := [Create] + Uploads(bodies) + [CompleteUpload(Numbers(|bodies|))];
    match outcome
    case Stored(_, _) => service.createOk && AllPartsOk(service, |bodies|) && service.completeOk && calls == front
    case Raised(CompleteFailed) =>
      service.createOk && AllPartsOk(service, |bodies|) && !service.completeOk && calls == front + [Abort]
    case Raised(_) => NeverCompletes(calls)
  }

  /** A stream is stored exactly when nothing fails and it is within the limit, and its digest and count are
      those of the stored bytes. An upload that was created and not completed is aborted last. */
  method PutStream(stream: Stream, maxBytes: int, partSetting: int, service: Service) returns (outcome: Outcome, calls: seq<Call>)
    ensures var parts := Parts(stream.chunks, PartSize(partSetting));
            && (outcome.Stored? <==> service.createOk && !stream.breaks && WithinLimit(stream.chunks, maxBytes)
                                     && AllPartsOk(service, |parts|) && service.completeOk)
            && (outcome.Stored? ==> outcome.hashed == Flatten(parts) == Flatten(stream.chunks) && outcome.bytesWritten == |Flatten(parts)|)
            && Follows(outcome, calls, service, parts)
    ensures outcome.Raised? ==> calls != [] && (calls[|calls| - 1] == if service.createOk then Abort else Create)
    ensures !WithinLimit(stream.chunks, maxBytes) ==> outcome.Raised? && outcome.why in {CreateFailed, OverLimit, PartFailed}
  {
    if !service.createOk {
      return Raised(CreateFailed), [Create];
    }
    var partSize := PartSize(partSetting);
    PartsAreTheStream(stream.chunks, partSize);
    var hasher := new StreamingSha256();
    var failure, parts, buffer, sent := SendFullParts(stream.chunks, maxBytes, partSize, service, hasher);
    calls := sent;
    if failure.Some? {
      return Raised(failure.value), calls + [Abort];
    }
    if stream.breaks {
      return Raised(StreamBroke), calls + [Abort];
    }
    if buffer != [] || parts == [] {
      UploadsAppend(parts, buffer);
      calls := calls + [UploadPart(|parts| + 1, buffer)];
      if !service.partOk(|parts| + 1) {
        return Raised(PartFailed), calls + [Abort];
      }
      parts := parts + [buffer];
    }
    calls := calls + [CompleteUpload(Numbers(|parts|))];
    if !service.completeOk {
      return Raised(CompleteFailed), calls + [Abort];
    }
    outcome := Stored(hasher.bytesSeen, hasher.seen);
  }

  // ------------------------------------------------------------------------ what the calls leave behind

  /** The object stored under the key, if any, and the parts of the multipart upload in progress. */
  datatype Store = Store(content: Option<Bytes>, parts: map<nat, Bytes>)

  /** A call as the service saw it. */
  datatype Seen = Seen(call: Call, effective: bool)

  /** The answer that says the call took effect; that of an abort is ignored, so it never counts. */
  predicate AnswersOk(service: Service, call: Call) {
    match call
    case Create => service.createOk
    case UploadPart(number, _) => service.partOk(number)
    case CompleteUpload(_) => service.completeOk
    case Abort => false
  }

  function SeenCalls(service: Service, calls: seq<Call>): seq<Seen> {
    seq(|calls|, i requires 0 <= i < |calls| => Seen(calls[i], AnswersOk(service, calls[i]) || service.tookEffect(i)))
  }

  function Assembled(parts: map<nat, Bytes>, numbers: seq<nat>): Bytes
    requires forall n :: n in numbers ==> n in parts
  {
    if numbers == [] then [] else Assembled(parts, numbers[..|numbers| - 1]) + parts[numbers[|numbers| - 1]]
  }

  /** Only a completion naming parts that are there changes the stored object. */
  function Effect(store: Store, seen: Seen): Store {
    if !seen.effective then store
    else
      match seen.call
      case Create => store.(parts := map[])
      case UploadPart(number, body) => store.(parts := store.parts[number := body])
      case CompleteUpload(numbers) =>
        if forall n <- numbers :: n in store.parts then Store(Some(Assembled(store.parts, numbers)), map[]) else store
      case Abort => store.(parts := map[])
  }

  /** What the calls, one after another, leave in the store. */
  function Leaves(store: Store, log: seq<Seen>): Store {
    if log == [] then store else Effect(Leaves(store, log[..|log| - 1]), log[|log| - 1])
  }

  lemma {:induction false} LeavesConcat(store: Store, a: seq<Seen>, b: seq<Seen>)
    ensures Leaves(store, a + b) == Leaves(Leaves(store, a), b)
  {
    if b == [] {
      assert a + b == a;
    } else {
      LeavesConcat(store, a, b[..|b| - 1]);
      assert (a + b)[..|a + b| - 1] == a + b[..|b| - 1];
    }
  }

  lemma {:induction false} NoCompletionKeepsObject(store: Store, log: seq<Seen>)
    requires forall s :: s in log ==> !s.call.CompleteUpload?
    ensures Leaves(store, log).content == store.content
  {
    if log != [] {
      NoCompletionKeepsObject(store, log[..|log| - 1]);
    }
  }

  function Numbered(bodies: seq<Bytes>): (parts: map<nat, Bytes>)
    ensures forall k :: 1 <= k <= |bodies| ==> k in parts && parts[k] == bodies[k - 1]
  {
    if bodies == [] then map[] else Numbered(bodies[..|bodies| - 1])[|bodies| := bodies[|bodies| - 1]]
  }

  function AllEffective(calls: seq<Call>): seq<Seen> {
    seq(|calls|, i requires 0 <= i < |calls| => Seen(calls[i], true))
  }

  lemma AllEffectiveAppend(calls: seq<Call>, last: Call)
    ensures AllEffective(calls + [last]) == AllEffective(calls) + [Seen(last, true)]
  {
  }

  /** A created upload whose parts all arrived holds exactly them, under their numbers. */
  lemma {:induction false} UploadedParts(store: Store, bodies: seq<Bytes>)
    ensures Leaves(store, AllEffective([Create] + Uploads(bodies))) == Store(store.content, Numbered(bodies))
  {
    if bodies == [] {
      assert AllEffective([Create] + Uploads(bodies)) == [Seen(Create, true)];
      assert [Seen(Create, true)][..0] == [];
    } else {
      var last := |bodies| - 1;
      var front := bodies[..last];
      UploadedParts(store, front);
      assert front + [bodies[last]] == bodies;
      UploadsAppend(front, bodies[last]);
      AllEffectiveAppend([Create] + Uploads(front), UploadPart(last + 1, bodies[last]));
      LeavesAppend(store, AllEffective([Create] + Uploads(front)), Seen(UploadPart(last + 1, bodies[last]), true));
    }
  }

  lemma LeavesAppend(store: Store, log: seq<Seen>, last: Seen)
    ensures Leaves(store, log + [last]) == Effect(Leaves(store, log), last)
  {
    assert (log + [last])[..|log|] == log;
  }

  lemma {:induction false} AssembledIsFlat(bodies: seq<Bytes>, n: nat)
    requires n <= |bodies|
    ensures forall k :: k in Numbers(n) ==> k in Numbered(bodies)
    ensures Assembled(Numbered(bodies), Numbers(n)) == Flatten(bodies[..n])
  {
    if n > 0 {
      AssembledIsFlat(bodies, n - 1);
      assert Numbers(n)[..n - 1] == Numbers(n - 1);
      assert bodies[..n][..n - 1] == bodies[..n - 1];
    }
  }

  lemma CompletionAssembles(store: Store, bodies: seq<Bytes>, effective: bool)
    requires store.parts == Numbered(bodies)
    ensures Effect(store, Seen(CompleteUpload(Numbers(|bodies|)), effective)).content
         == if effective then Some(Flatten(bodies)) else store.content
  {
    AssembledIsFlat(bodies, |bodies|);
    assert bodies[..|bodies|] == bodies;
  }

  lemma SeenAppend(service: Service, calls: seq<Call>, last: Call)
    ensures SeenCalls(service, calls + [last])
         == SeenCalls(service, calls) + [Seen(last, AnswersOk(service, last) || service.tookEffect(|calls|))]
  {
  }

  lemma SentPartsAreSeen(service: Service, bodies: seq<Bytes>)
    requires service.createOk && AllPartsOk(service, |bodies|)
    ensures SeenCalls(service, [Create] + Uploads(bodies)) == AllEffective([Create] + Uploads(bodies))
  {
    var sent := [Create] + Uploads(bodies);
    forall i | 0 <= i < |sent| ensures AnswersOk(service, sent[i]) {
      if i > 0 {
        assert sent[i] == UploadPart(i, bodies[i - 1]) && service.partOk(i);
      }
    }
  }

  /** When the create and every part succeed, the completion stores the joined parts if it takes effect,
      and otherwise changes nothing; an abort after it changes no object. */
  lemma CompletedUpload(store: Store, service: Service, bodies: seq<Bytes>, aborted: bool)
    requires service.createOk && AllPartsOk(service, |bodies|)
    ensures var front := [Create] + Uploads(bodies) + [CompleteUpload(Numbers(|bodies|))];
            Leaves(store, SeenCalls(service, if aborted then front + [Abort] else front)).content
            == if service.completeOk || service.tookEffect(|bodies| + 1) then Some(Flatten(bodies)) else store.content
  {
    var sent, completion := [Create] + Uploads(bodies), CompleteUpload(Numbers(|bodies|));
    var effective := service.completeOk || service.tookEffect(|bodies| + 1);
    SentPartsAreSeen(service, bodies);
    UploadedParts(store, bodies);
    SeenAppend(service, sent, completion);
    LeavesAppend(store, SeenCalls(service, sent), Seen(completion, effective));
    CompletionAssembles(Leaves(store, SeenCalls(service, sent)), bodies, effective);
    SeenAppend(service, sent + [completion], Abort);
    LeavesAppend(store, SeenCalls(service, sent + [completion]), Seen(Abort, service.tookEffect(|sent| + 1)));
  }

  /** What one upload leaves: the whole stream if it was stored, the object that was there if it failed
      before completing, and one or the other if the completion itself failed. */
  ghost predicate WholeOrNothing(before: Store, after: Store, outcome: Outcome, chunks: seq<Bytes>) {
    match outcome
    case Stored(_, _) => after.content == Some(Flatten(chunks))
    case Raised(CompleteFailed) => after.content in {before.content, Some(Flatten(chunks))}
    case Raised(_) => after.content == before.content
  }

  lemma UploadIsWholeOrNothing(store: Store, outcome: Outcome, calls: seq<Call>, service: Service, stream: Stream, partSize: nat)
    requires Follows(outcome, calls, service, Parts(stream.chunks, partSize))
    ensures WholeOrNothing(store, Leaves(store, SeenCalls(service, calls)), outcome, stream.chunks)
  {
    var bodies := Parts(stream.chunks, partSize);
    PartsAreTheStream(stream.chunks, partSize);
    match outcome {
      case Stored(_, _) => CompletedUpload(store, service, bodies, false);
      case Raised(CompleteFailed) => CompletedUpload(store, service, bodies, true);
      case Raised(_) => NoCompletionKeepsObject(store, SeenCalls(service, calls));
    }
  }

  lemma {:induction false} FlattenGrows(chunks: seq<Bytes>, i: nat)
    requires i <= |chunks|
    ensures |Flatten(chunks[..i])| <= |Flatten(chunks)|
    decreases |chunks|
  {
    assert chunks[..|chunks|] == chunks;
    if i < |chunks| {
      FlattenGrows(chunks[..|chunks| - 1], i);
      assert chunks[..|chunks| - 1][..i] == chunks[..i];
    }
  }
}
