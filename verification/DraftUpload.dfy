/** The ranged upload of a large attachment, against a server that may answer anything. */
module DraftUpload {
  import opened Wrappers

  /** 'nextExpectedRanges' of a response: absent, not a list or empty; or a list's first entry as text. */
  datatype NextRange = NoRange | First(text: string)

  /** A response body: empty, not JSON, JSON that is not an object, or an object. */
  datatype Body = Empty | NotJson | NotObject | Object(hasId: bool, next: NextRange)

  datatype Response = TransportError | Response(status: int, body: Body)

  /** One PUT: the Content-Range header and the bytes it carries. */
  datatype Put = Put(first: int, last: int, total: int, content: Bytes)

  datatype Failure = NoProgress | RequestFailed | BadStatus | BadJson | BadRange | NoFinalId

  datatype Outcome = Uploaded | Failed(why: Failure)

  // -------------------------------------------------------------------------- reading the next range

  predicate IsDigit(c: char) {
    '0' <= c <= '9'
  }

  /** `text.split("-", 1)[0]` */
  function BeforeDash(text: string): string {
    if text == "" || text[0] == '-' then "" else [text[0]] + BeforeDash(text[1..])
  }

  predicate AllDigits(s: string) {
    s != "" && forall i :: 0 <= i < |s| ==> IsDigit(s[i])
  }

  function Decimal(s: string): nat
    requires forall i :: 0 <= i < |s| ==> IsDigit(s[i])
  {
    if s == "" then 0
    else
      assert IsDigit(s[|s| - 1]);
      10 * Decimal(s[..|s| - 1]) + (s[|s| - 1] as int - '0' as int)
  }

  /** Where the upload goes on after a chunk ending just before `sent`. */
  function NextStart(body: Body, sent: int): int {
    if body.Object? && body.next.First? && AllDigits(BeforeDash(body.next.text)) then Decimal(BeforeDash(body.next.text)) else sent
  }

  // --------------------------------------------------------------- what the text of a range means

  function PowerOfTen(n: nat): nat {
    if n == 0 then 1 else 10 * PowerOfTen(n - 1)
  }

  /** `n` written with `width` decimal digits, leading zeros included. */
  function Printed(n: nat, width: nat): string
    decreases width
  {
    if width == 0 then "" else Printed(n / 10, width - 1) + [('0' as int + n % 10) as char]
  }

  /** The text is the digits of `n`, and then nothing or a dash and anything. */
  ghost predicate Prints(text: string, n: nat) {
    exists width: nat, rest: string :: PrintsWith(text, n, width, rest)
  }

  ghost predicate PrintsWith(text: string, n: nat, width: nat, rest: string) {
    width >= 1 && n < PowerOfTen(width) && text == Printed(n, width) + rest && (rest == "" || rest[0] == '-')
  }

  /** A body asks for byte `n` next by printing it; any other body leaves it at the byte after the last sent. */
  ghost predicate AsksFor(body: Body, sent: int, n: int) {
    if body.Object? && body.next.First? && exists m: nat :: Prints(body.next.text, m)
    then n >= 0 && Prints(body.next.text, n)
    else n == sent
  }

  lemma {:induction false} PrintedReadsBack(n: nat, width: nat)
    requires n < PowerOfTen(width)
    ensures |Printed(n, width)| == width && forall i :: 0 <= i < width ==> IsDigit(Printed(n, width)[i])
    ensures Decimal(Printed(n, width)) == n
    decreases width
  {
    if width > 0 {
      PrintedReadsBack(n / 10, width - 1);
      var s := Printed(n, width);
      assert s[..width - 1] == Printed(n / 10, width - 1);
    }
  }

  lemma {:induction false} DigitsArePrinted(s: string)
    requires forall i :: 0 <= i < |s| ==> IsDigit(s[i])
    ensures Decimal(s) < PowerOfTen(|s|) && s == Printed(Decimal(s), |s|)
  {
    if s != "" {
      var last := |s| - 1;
      DigitsArePrinted(s[..last]);
      assert IsDigit(s[last]);
      LastDigit(Decimal(s[..last]), s[last]);
      assert s == s[..last] + [s[last]];
    }
  }

  lemma LastDigit(head: nat, c: char)
    requires IsDigit(c)
    ensures var n := 10 * head + (c as int - '0' as int);
            n / 10 == head && ('0' as int + n % 10) as char == c
  {
  }

  lemma {:induction false} HeadBeforeDash(head: string, rest: string)
    requires '-' !in head && (rest == "" || rest[0] == '-')
    ensures BeforeDash(head + rest) == head
  {
    if head == "" {
      assert head + rest == rest;
    } else {
      assert (head + rest)[1..] == head[1..] + rest;
      HeadBeforeDash(head[1..], rest);
    }
  }

  lemma {:induction false} DashSplits(text: string) returns (rest: string)
    ensures text == BeforeDash(text) + rest && (rest == "" || rest[0] == '-')
  {
    if text == "" || text[0] == '-' {
      rest := text;
    } else {
      rest := DashSplits(text[1..]);
      assert text == [text[0]] + text[1..];
    }
  }

  lemma PrintsIsRead(text: string, n: nat)
    requires Prints(text, n)
    ensures AllDigits(BeforeDash(text)) && Decimal(BeforeDash(text)) == n
  {
    var width: nat, rest: string :| PrintsWith(text, n, width, rest);
    PrintedReadsBack(n, width);
    HeadBeforeDash(Printed(n, width), rest);
  }

  lemma ReadIsPrinted(text: string)
    requires AllDigits(BeforeDash(text))
    ensures Prints(text, Decimal(BeforeDash(text)))
  {
    var rest := DashSplits(text);
    DigitsArePrinted(BeforeDash(text));
    assert PrintsWith(text, Decimal(BeforeDash(text)), |BeforeDash(text)|, rest);
  }

  /** The client reads exactly what the body asks for. */
  lemma NextStartIsAsked(body: Body, sent: int, n: int)
    ensures AsksFor(body, sent, n) <==> n == NextStart(body, sent)
  {
    if body.Object? && body.next.First? {
      var text := body.next.text;
      if AllDigits(BeforeDash(text)) {
        ReadIsPrinted(text);
      }
      forall m: nat | Prints(text, m) ensures AllDigits(BeforeDash(text)) && Decimal(BeforeDash(text)) == m {
        PrintsIsRead(text, m);
      }
    }
  }

  // --------------------------------------------------------------------------------------- the loop

  function ChunkPut(content: Bytes, start: nat, chunkBytes: nat): (p: Put)
    requires start < |content| && chunkBytes > 0
    ensures WellFormed(p, content, chunkBytes) && p.first == start
  {
    var end := Min(start + chunkBytes, |content|);
    Put(start, end - 1, |content|, content[start..end])
  }

  /** The range is non-empty, within the content, carries exactly those bytes, and is as long as a chunk
      unless the content ends first. */
  predicate WellFormed(p: Put, content: Bytes, chunkBytes: nat) {
    && 0 <= p.first <= p.last < p.total == |content|
    && p.content == content[p.first..p.last + 1]
    && |p.content| <= chunkBytes && (|p.content| == chunkBytes || p.last == |content| - 1)
  }

  /** One PUT and its answer. */
  datatype Exchange = Exchange(put: Put, response: Response)

  predicate Accepted(r: Response) {
    r.Response? && r.status in {200, 201, 202} && !r.body.NotJson?
  }

  predicate Final(r: Response) {
    Accepted(r) && r.body.Object? && r.body.hasId
  }

  /** The offset an accepted answer asks for next. */
  function Asked(x: Exchange): int
    requires x.response.Response?
  {
    NextStart(x.response.body, x.put.last + 1)
  }

  /** The exchanges with `server`, in order: well-formed puts at strictly rising offsets. */
  ghost predicate Transcript(log: seq<Exchange>, content: Bytes, chunkBytes: nat, server: nat -> Response) {
    && (forall k :: 0 <= k < |log| ==> WellFormed(log[k].put, content, chunkBytes) && log[k].response == server(k))
    && (forall k, l :: 0 <= k < l < |log| ==> log[k].put.first < log[l].put.first)
  }

  /** The answer lets the upload go on at `next`. */
  predicate LeadsTo(x: Exchange, next: int) {
    Accepted(x.response) && !Final(x.response) && Asked(x) == next
  }

  /** Each put starts where the answer before it asked. */
  ghost predicate Chained(log: seq<Exchange>) {
    forall k :: 0 <= k < |log| - 1 ==> ChainedAt(log, k)
  }

  ghost predicate ChainedAt(log: seq<Exchange>, k: int)
    requires 0 <= k < |log| - 1
  {
    LeadsTo(log[k], log[k + 1].put.first)
  }

  ghost predicate Sent(log: seq<Exchange>, b: int) {
    exists k :: 0 <= k < |log| && log[k].put.first <= b <= log[k].put.last
  }

  ghost predicate SentBelow(log: seq<Exchange>, n: int) {
    forall b :: 0 <= b < n ==> Sent(log, b)
  }

  /** The server never asked for a byte past the next unsent one. */
  ghost predicate AskedInOrder(log: seq<Exchange>) {
    forall k :: 0 <= k < |log| && Accepted(log[k].response) ==> Asked(log[k]) <= log[k].put.last + 1
  }

  /** The server took every accepted chunk whole, or more. */
  ghost predicate TookWholeChunks(log: seq<Exchange>) {
    forall k :: 0 <= k < |log| && Accepted(log[k].response) ==> Asked(log[k]) > log[k].put.last
  }

  /** What holds after each accepted chunk. */
  ghost predicate Progress(log: seq<Exchange>, start: int, content: Bytes, chunkBytes: nat, server: nat -> Response) {
    && Transcript(log, content, chunkBytes, server)
    && Chained(log) && (log != [] ==> LeadsTo(log[|log| - 1], start))
    && (forall k :: 0 <= k < |log| ==> log[k].put.first < start)
    && (AskedInOrder(log) ==> SentBelow(log, start))
  }

  lemma CapIsBeyondContent(length: nat, chunkBytes: nat)
    requires chunkBytes > 0
    ensures (length / chunkBytes + 8) * chunkBytes > length
  {
    var q := length / chunkBytes;
    assert length == q * chunkBytes + length % chunkBytes;
    assert (q + 8) * chunkBytes == q * chunkBytes + 8 * chunkBytes;
  }

  /** When every answer takes its chunk whole, put `k` starts at least `k` chunks in. */
  lemma {:induction false} ChunksAdvance(log: seq<Exchange>, content: Bytes, chunkBytes: nat, server: nat -> Response, k: nat)
    requires Transcript(log, content, chunkBytes, server) && Chained(log) && TookWholeChunks(log) && k < |log|
    ensures log[k].put.first >= k * chunkBytes
  {
    if k > 0 {
      ChunksAdvance(log, content, chunkBytes, server, k - 1);
      assert ChainedAt(log, k - 1);
      WholeChunk(log[k - 1], log[k], content, chunkBytes);
      assert k * chunkBytes == (k - 1) * chunkBytes + chunkBytes;
    }
  }

  lemma WholeChunk(x: Exchange, y: Exchange, content: Bytes, chunkBytes: nat)
    requires WellFormed(x.put, content, chunkBytes) && WellFormed(y.put, content, chunkBytes)
    requires LeadsTo(x, y.put.first) && Asked(x) > x.put.last
    ensures y.put.first >= x.put.first + chunkBytes
  {
  }

  lemma CapReaches(length: nat, chunkBytes: nat, puts: nat)
    requires chunkBytes > 0 && puts == length / chunkBytes + 8
    ensures puts > 0 && (puts - 1) * chunkBytes >= length
  {
    CapIsBeyondContent(length, chunkBytes);
    assert puts * chunkBytes == (length / chunkBytes + 8) * chunkBytes;
    assert (puts - 1) * chunkBytes == (length / chunkBytes) * chunkBytes + 7 * chunkBytes;
    assert length == length / chunkBytes * chunkBytes + length % chunkBytes;
  }

  /** Then the cap is never what ends the upload. */
  lemma NoStall(log: seq<Exchange>, start: int, content: Bytes, chunkBytes: nat, server: nat -> Response)
    requires Progress(log, start, content, chunkBytes, server) && start < |content|
    requires chunkBytes > 0 && |log| == |content| / chunkBytes + 8
    ensures !TookWholeChunks(log)
  {
    var last := |log| - 1;
    CapReaches(|content|, chunkBytes, |log|);
    if TookWholeChunks(log) {
      ChunksAdvance(log, content, chunkBytes, server, last);
    }
  }

  lemma AppendTranscript(log: seq<Exchange>, x: Exchange, start: int, content: Bytes, chunkBytes: nat, server: nat -> Response)
    requires Progress(log, start, content, chunkBytes, server)
    requires WellFormed(x.put, content, chunkBytes) && x.put.first == start && x.response == server(|log|)
    ensures Transcript(log + [x], content, chunkBytes, server)
    ensures Chained(log + [x])
  {
    var more := log + [x];
    forall k | 0 <= k < |more| - 1 ensures ChainedAt(more, k) {
      assert k < |log| - 1 ==> ChainedAt(log, k);
    }
  }

  lemma AppendCoverage(log: seq<Exchange>, x: Exchange, start: int)
    requires AskedInOrder(log) ==> SentBelow(log, start)
    requires x.put.first == start
    ensures AskedInOrder(log + [x]) ==> SentBelow(log + [x], x.put.last + 1)
  {
    var more := log + [x];
    if AskedInOrder(more) {
      forall k | 0 <= k < |log| && Accepted(log[k].response) ensures Asked(log[k]) <= log[k].put.last + 1 {
        assert more[k] == log[k];
      }
      forall b | 0 <= b < x.put.last + 1 ensures Sent(more, b) {
        if b < start {
          assert Sent(log, b);
          var k :| 0 <= k < |log| && log[k].put.first <= b <= log[k].put.last;
          assert more[k].put.first <= b <= more[k].put.last;
        } else {
          assert more[|log|].put.first <= b <= more[|log|].put.last;
        }
      }
    }
  }

  lemma Append(log: seq<Exchange>, x: Exchange, start: int, content: Bytes, chunkBytes: nat, server: nat -> Response)
    requires Progress(log, start, content, chunkBytes, server)
    requires 0 <= start < |content| && chunkBytes > 0
    requires x == Exchange(ChunkPut(content, start, chunkBytes), server(|log|))
    ensures Transcript(log + [x], content, chunkBytes, server) && Chained(log + [x])
    ensures (log + [x])[|log|] == x && (log + [x])[0] == if log == [] then x else log[0]
    ensures AskedInOrder(log + [x]) ==> SentBelow(log + [x], start)
    ensures Accepted(x.response) && !Final(x.response) && Asked(x) > start ==> Progress(log + [x], Asked(x), content, chunkBytes, server)
  {
    var more := log + [x];
    AppendTranscript(log, x, start, content, chunkBytes, server);
    AppendCoverage(log, x, start);
    if AskedInOrder(more) && Accepted(x.response) {
      assert Asked(more[|log|]) <= x.put.last + 1;
    }
  }

  /** Why the last exchange ended the upload. */
  ghost predicate RefusedFor(why: Failure, last: Exchange, length: nat) {
    match why
    case RequestFailed => last.response.TransportError?
    case BadStatus => last.response.Response? && last.response.status !in {200, 201, 202}
    case BadJson => last.response.Response? && last.response.status in {200, 201, 202} && last.response.body.NotJson?
    case _ => Accepted(last.response) && !Final(last.response) && !(last.put.first < Asked(last) <= length)
  }

  /** What one answer means for the loop. */
  datatype Step = GoOn(next: nat) | Done | Stop(why: Failure)

  method ReadAnswer(x: Exchange, length: nat) returns (step: Step)
    requires 0 <= x.put.first
    ensures step.GoOn? ==> LeadsTo(x, step.next) && x.put.first < step.next <= length
    ensures step.Done? <==> Final(x.response)
    ensures step.Stop? ==> step.why in {RequestFailed, BadStatus, BadJson, BadRange} && RefusedFor(step.why, x, length)
  {
    var response := x.response;
    if response.TransportError? {
      return Stop(RequestFailed);
    }
    if response.status !in {200, 201, 202} {
      return Stop(BadStatus);
    }
    if response.body.NotJson? {
      return Stop(BadJson);
    }
    if response.body.Object? && response.body.hasId {
      return Done;
    }
    var nextStart := NextStart(response.body, x.put.last + 1);
    if nextStart <= x.put.first || nextStart > length {
      return Stop(BadRange);
    }
    step := GoOn(nextStart);
  }

  /** Put the chunk at `start`, and log the exchange. */
  method PutChunk(log: seq<Exchange>, start: nat, content: Bytes, chunkBytes: nat, server: nat -> Response)
      returns (more: seq<Exchange>, x: Exchange)
    requires Progress(log, start, content, chunkBytes, server) && start < |content| && chunkBytes > 0
    ensures |more| == |log| + 1 && more[|log|] == x && more[0] == if log == [] then x else log[0]
    ensures x.put.first == start && Transcript(more, content, chunkBytes, server) && Chained(more)
    ensures AskedInOrder(more) ==> SentBelow(more, start)
    ensures Accepted(x.response) && !Final(x.response) && Asked(x) > start ==> Progress(more, Asked(x), content, chunkBytes, server)
  {
    x := Exchange(ChunkPut(content, start, chunkBytes), server(|log|));
    Append(log, x, start, content, chunkBytes, server);
    more := log + [x];
  }

  /** The loop. `start` is the offset of the next byte wanted when it ended. */
  method PutRanges(content: Bytes, chunkBytes: nat, server: nat -> Response)
      returns (outcome: Outcome, log: seq<Exchange>, start: nat)
    requires chunkBytes > 0
    ensures |log| <= |content| / chunkBytes + 8
    ensures Transcript(log, content, chunkBytes, server)
    ensures Chained(log) && (log != [] ==> log[0].put.first == 0)
    ensures start <= |content| && (AskedInOrder(log) ==> SentBelow(log, start))
    ensures outcome.Uploaded? <==> log != [] && Final(log[|log| - 1].response)
    ensures outcome == Failed(NoProgress) ==> |log| == |content| / chunkBytes + 8 && start < |content| && !TookWholeChunks(log)
    ensures outcome == Failed(NoFinalId) ==> start == |content| && (log != [] ==> LeadsTo(log[|log| - 1], start))
    ensures outcome.Failed? && outcome.why !in {NoProgress, NoFinalId} ==> log != [] && RefusedFor(outcome.why, log[|log| - 1], |content|)
  {
    log := [];
    start := 0;
    var iterations := 0;
    var cap := |content| / chunkBytes + 8;
    while start < |content|
      invariant iterations == |log| <= cap == |content| / chunkBytes + 8
      invariant start <= |content|
      invariant Progress(log, start, content, chunkBytes, server)
      invariant if log == [] then start == 0 else log[0].put.first == 0
      decreases |content| - start
    {
      iterations := iterations + 1;
      if iterations > cap {
        NoStall(log, start, content, chunkBytes, server);
        return Failed(NoProgress), log, start;
      }
      var x: Exchange;
      log, x := PutChunk(log, start, content, chunkBytes, server);
      var step := ReadAnswer(x, |content|);
      if !step.GoOn? {
        return if step.Done? then Uploaded else Failed(step.why), log, start;
      }
      start := step.next;
    }
    outcome := Failed(NoFinalId);
  }

  // ---------------------------------------------------------- the same, in terms of what answers say

  /** The answer is accepted, not final, and says `next`. */
  ghost predicate Says(x: Exchange, next: int) {
    Accepted(x.response) && AsksFor(x.response.body, x.put.last + 1, next)
  }

  /** Each put starts at the byte the answer before it says. */
  ghost predicate FollowsAnswers(log: seq<Exchange>) {
    forall k :: 0 <= k < |log| - 1 ==> FollowsAt(log, k)
  }

  ghost predicate FollowsAt(log: seq<Exchange>, k: int)
    requires 0 <= k < |log| - 1
  {
    Says(log[k], log[k + 1].put.first)
  }

  /** No answer says a byte past the next unsent one. */
  ghost predicate SaysInOrder(log: seq<Exchange>) {
    forall k, n :: 0 <= k < |log| && Says(log[k], n) ==> n <= log[k].put.last + 1
  }

  /** Every answer says a byte past its chunk. */
  ghost predicate SaysWholeChunks(log: seq<Exchange>) {
    forall k, n :: 0 <= k < |log| && Says(log[k], n) ==> n > log[k].put.last
  }

  /** The last answer ends the upload because it says a byte already sent from, or past the end. */
  ghost predicate SaysOutOfRange(x: Exchange, length: nat) {
    exists n :: Says(x, n) && !(x.put.first < n <= length)
  }

  lemma SaysIsAsked(x: Exchange, n: int)
    requires Accepted(x.response)
    ensures Says(x, n) <==> n == Asked(x)
  {
    NextStartIsAsked(x.response.body, x.put.last + 1, n);
  }

  lemma ChainFollows(log: seq<Exchange>)
    requires Chained(log)
    ensures FollowsAnswers(log)
  {
    forall k | 0 <= k < |log| - 1 ensures FollowsAt(log, k) {
      assert ChainedAt(log, k);
      SaysIsAsked(log[k], log[k + 1].put.first);
    }
  }

  lemma OrderIsAsked(log: seq<Exchange>)
    ensures SaysInOrder(log) <==> AskedInOrder(log)
    ensures SaysWholeChunks(log) <==> TookWholeChunks(log)
  {
    forall k, n | 0 <= k < |log| ensures Says(log[k], n) <==> Accepted(log[k].response) && n == Asked(log[k]) {
      if Accepted(log[k].response) {
        SaysIsAsked(log[k], n);
      }
    }
    if SaysInOrder(log) {
      forall k | 0 <= k < |log| && Accepted(log[k].response) ensures Asked(log[k]) <= log[k].put.last + 1 {
        assert Says(log[k], Asked(log[k]));
      }
    }
    if SaysWholeChunks(log) {
      forall k | 0 <= k < |log| && Accepted(log[k].response) ensures Asked(log[k]) > log[k].put.last {
        assert Says(log[k], Asked(log[k]));
      }
    }
  }

  /** Why the last exchange ended the upload, in terms of what it says. */
  ghost predicate Refuses(why: Failure, last: Exchange, length: nat) {
    match why
    case RequestFailed => last.response.TransportError?
    case BadStatus => last.response.Response? && last.response.status !in {200, 201, 202}
    case BadJson => last.response.Response? && last.response.status in {200, 201, 202} && last.response.body.NotJson?
    case BadRange => !Final(last.response) && SaysOutOfRange(last, length)
    case _ => false
  }

  lemma RefusedRefuses(why: Failure, last: Exchange, length: nat)
    requires why !in {NoProgress, NoFinalId} && RefusedFor(why, last, length)
    ensures Refuses(why, last, length)
  {
    if why == BadRange {
      SaysIsAsked(last, Asked(last));
    }
  }

  /** Against any server: at most len/chunk + 8 puts, at rising offsets from 0, each as long as a chunk or to
      the end of the content and exactly those bytes, each where the answer before it says; everything below
      the offset reached has been sent if no answer skips ahead; the upload succeeds exactly on an answer with
      an id, stalls only if some answer does not take its chunk whole, and otherwise fails for what the last
      answer is. */
  method UploadLarge(content: Bytes, chunkBytes: nat, server: nat -> Response)
      returns (outcome: Outcome, log: seq<Exchange>, start: nat)
    requires chunkBytes > 0
    ensures |log| <= |content| / chunkBytes + 8
    ensures Transcript(log, content, chunkBytes, server) && (log != [] ==> log[0].put.first == 0)
    ensures FollowsAnswers(log)
    ensures start <= |content| && (SaysInOrder(log) ==> SentBelow(log, start))
    ensures outcome.Uploaded? <==> log != [] && Final(log[|log| - 1].response)
    ensures outcome == Failed(NoProgress) ==> |log| == |content| / chunkBytes + 8 && start < |content| && !SaysWholeChunks(log)
    ensures outcome == Failed(NoFinalId) ==> start == |content| && (log != [] ==> Says(log[|log| - 1], |content|))
    ensures outcome.Failed? && outcome.why !in {NoProgress, NoFinalId} ==> log != [] && Refuses(outcome.why, log[|log| - 1], |content|)
  {
    outcome, log, start := PutRanges(content, chunkBytes, server);
    ChainFollows(log);
    OrderIsAsked(log);
    if outcome.Failed? && outcome.why !in {NoProgress, NoFinalId} {
      RefusedRefuses(outcome.why, log[|log| - 1], |content|);
    }
    if outcome == Failed(NoFinalId) && log != [] {
      SaysIsAsked(log[|log| - 1], start);
    }
  }
}
