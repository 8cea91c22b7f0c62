/** CUSTOM_INTERVAL, and the recurrence types whose dates do not all lie beyond the date asked about. */
module RecurrenceEdges {
  import opened Wrappers
  import opened Dates
  import opened Recurrence
  import opened RecurrenceProperties

  // ----------------------------------------------------------------------------- CUSTOM_INTERVAL

  /** The step applied `k` times. */
  function Iterate(step: Day -> Day, anchor: Day, k: int): Day
    decreases k, anchor
  {
    if k <= 0 then anchor else step(Iterate(step, anchor, k - 1))
  }

  ghost predicate Advances(step: Day -> Day) {
    forall d :: d < step(d)
  }

  /** The search returns the first iterate beyond `after`, by index, or nothing if none of the next
      `fuel` is. */
  lemma {:induction false} SearchFindsFirst(step: Day -> Day, anchor: Day, k: nat, after: Day, inclusive: bool, fuel: nat) returns (j: int)
    ensures k < j <= k + fuel + 1
    ensures forall i :: k < i < j ==> !Beyond(Iterate(step, anchor, i), after, inclusive)
    ensures j <= k + fuel ==> Beyond(Iterate(step, anchor, j), after, inclusive)
    ensures IntervalSearch(step, Iterate(step, anchor, k), after, inclusive, fuel)
         == if j <= k + fuel then Some(Iterate(step, anchor, j)) else None
    decreases fuel
  {
    j := k + 1;
    if fuel > 0 && !Beyond(Iterate(step, anchor, k + 1), after, inclusive) {
      j := SearchFindsFirst(step, anchor, k + 1, after, inclusive, fuel - 1);
    }
  }

  lemma {:induction false} IteratesRise(step: Day -> Day, anchor: Day, i: nat, j: nat)
    requires Advances(step) && i < j
    ensures Iterate(step, anchor, i) < Iterate(step, anchor, j)
    decreases j - i
  {
    if i < j - 1 {
      IteratesRise(step, anchor, i, j - 1);
    }
    assert Iterate(step, anchor, j) == step(Iterate(step, anchor, j - 1));
  }

  /** Restarting from the anchor on every call, the search neither skips nor repeats an iterate. */
  lemma SearchResumes(step: Day -> Day, anchor: Day, k: nat, cap: nat)
    requires Advances(step) && k <= cap
    ensures IntervalSearch(step, anchor, Iterate(step, anchor, k), false, cap)
         == if k < cap then Some(Iterate(step, anchor, k + 1)) else None
  {
    var at := Iterate(step, anchor, k);
    var j := SearchFindsFirst(step, anchor, 0, at, false, cap);
    if j <= k {
      if j < k {
        IteratesRise(step, anchor, j, k);
      }
    } else if j > k + 1 {
      IteratesRise(step, anchor, k, k + 1);
    }
  }

  lemma FirstFrom(step: Day -> Day, anchor: Day, start: Day, cap: nat) returns (k: int)
    requires Advances(step)
    ensures 1 <= k <= cap + 1
    ensures forall i :: 1 <= i <= cap ==> (start <= Iterate(step, anchor, i) <==> i >= k)
    ensures IntervalSearch(step, anchor, start, true, cap) == if k <= cap then Some(Iterate(step, anchor, k)) else None
  {
    k := SearchFindsFirst(step, anchor, 0, start, true, cap);
    forall i | k < i <= cap ensures start <= Iterate(step, anchor, i) {
      IteratesRise(step, anchor, k, i);
    }
  }

  function Iterates(step: Day -> Day, anchor: Day): int -> Day {
    k => Iterate(step, anchor, k)
  }

  /** Iterates the bounded search can reach from the anchor. */
  function Within(cap: nat): int -> bool {
    k => 1 <= k <= cap
  }

  /** A stepper that searches from the anchor each time expands to exactly the first iterates in the
      window, among those within the cap. */
  lemma ExpandIterates(next: Stepper, step: Day -> Day, anchor: Day, start: Day, horizon: Day, limit: nat, cap: nat) returns (k: int, r: seq<Day>)
    requires Advances(step)
    requires forall d, i :: next(d, i) == Ok(IntervalSearch(step, anchor, d, i, cap))
    ensures ExpandFrom(next, false, start, true, horizon, limit) == Ok(r)
    ensures Run(Iterates(step, anchor), k, r)
    ensures ExactlyFirst(Iterates(step, anchor), Within(cap), start, horizon, limit, r)
  {
    var f := Iterates(step, anchor);
    k := FirstFrom(step, anchor, start, cap);
    AllResume(next, step, anchor, cap);
    IteratesAreRising(step, anchor, cap);
    r := ExpandBounded(next, f, k, start, horizon, limit, cap);
    BoundedIsExactlyFirst(f, k, start, horizon, limit, cap, r);
  }

  lemma ExpandBounded(next: Stepper, f: int -> Day, k: int, start: Day, horizon: Day, limit: nat, cap: nat) returns (r: seq<Day>)
    requires 1 <= k <= cap + 1
    requires next(start, true) == Ok(if k <= cap then Some(f(k)) else None)
    requires forall j :: 1 <= j < cap ==> StepsAt(next, f, j)
    requires next(f(cap), false) == Ok(None)
    ensures ExpandFrom(next, false, start, true, horizon, limit) == Ok(r)
    ensures Run(f, k, r) && |r| <= limit && k + |r| <= cap + 1
    ensures forall x :: x in r ==> x <= horizon
    ensures |r| == limit || k + |r| == cap + 1 || f(k + |r|) > horizon
  {
    if limit == 0 || k > cap || f(k) > horizon {
      r := [];
    } else {
      var rest := ExpandWalks(next, f, k, cap, horizon, limit - 1);
      r := [f(k)] + rest;
    }
  }

  lemma BoundedIsExactlyFirst(f: int -> Day, k: int, start: Day, horizon: Day, limit: nat, cap: nat, r: seq<Day>)
    requires Rising(f, Within(cap))
    requires forall i :: 1 <= i <= cap ==> (start <= f(i) <==> i >= k)
    requires 1 <= k && Run(f, k, r) && |r| <= limit && k + |r| <= cap + 1
    requires forall x :: x in r ==> x <= horizon
    requires |r| == limit || k + |r| == cap + 1 || f(k + |r|) > horizon
    ensures ExactlyFirst(f, Within(cap), start, horizon, limit, r)
  {
    assert forall i :: Within(cap)(i) <==> 1 <= i <= cap;
    RunIsExactlyFirst(f, Within(cap), k, start, horizon, limit, r);
  }

  lemma AllResume(next: Stepper, step: Day -> Day, anchor: Day, cap: nat)
    requires Advances(step)
    requires forall d, i :: next(d, i) == Ok(IntervalSearch(step, anchor, d, i, cap))
    ensures forall j :: 1 <= j < cap ==> StepsAt(next, Iterates(step, anchor), j)
    ensures next(Iterates(step, anchor)(cap), false) == Ok(None)
  {
    forall j | 1 <= j < cap ensures StepsAt(next, Iterates(step, anchor), j) {
      SearchResumes(step, anchor, j, cap);
    }
    SearchResumes(step, anchor, cap, cap);
  }

  lemma IteratesAreRising(step: Day -> Day, anchor: Day, cap: nat)
    requires Advances(step)
    ensures Rising(Iterates(step, anchor), Within(cap))
  {
    forall i, j | 1 <= i < j <= cap ensures Iterates(step, anchor)(i) < Iterates(step, anchor)(j) {
      IteratesRise(step, anchor, i, j);
    }
  }

  lemma MonthStepAdvances(d: Day, months: int)
    requires months > 0
    ensures MonthStep(d, months) > d
  {
    MonthsLater(FromOrdinal(d), months);
  }

  lemma MonthsLater(c: Civil, months: int)
    requires ValidCivil(c) && months > 0
    ensures ToOrdinal(c) < MonthsAfter(c, months)
  {
    var (year, month) := MonthsOn(c, months);
    LaterMonth(c, year, month);
  }

  lemma LaterMonth(c: Civil, year: int, month: int)
    requires ValidCivil(c) && 1 <= month <= 12
    requires year > c.year || (year == c.year && month > c.month)
    ensures ToOrdinal(c) < Anniversary(month, c.day, year)
  {
    var last := DaysInMonth(year, month);
    OrdinalOrder(c, Civil(year, month, if c.day <= last then c.day else last));
  }

  lemma StepByAdvances(months: int, days: int)
    requires months >= 0 && days >= 0 && (months > 0 || days > 0)
    ensures Advances(StepBy(months, days))
  {
    forall d ensures d < StepBy(months, days)(d) {
      if months > 0 {
        MonthStepAdvances(d, months);
      }
    }
  }

  ghost predicate IntervalRule(rule: Rule, anchor: Day, months: int, days: int) {
    && rule.rtype == CustomInterval && IntervalAnchor(rule.context) == Some(anchor)
    && GetOr(rule.config.intervalMonths, 0) == months && GetOr(rule.config.intervalDays, 0) == days
    && (months > 0 || days > 0)
  }

  lemma IntervalStepper(rule: Rule, anchor: Day, months: int, days: int, after: Day, inclusive: bool)
    requires IntervalRule(rule, anchor, months, days)
    ensures StepperOf(rule)(after, inclusive) == Ok(IntervalSearch(StepBy(months, days), anchor, after, inclusive, MAX_INTERVAL_STEPS))
  {
    IntervalOccurs(rule, anchor, months, days, after, inclusive);
  }

  lemma IntervalOccurs(rule: Rule, anchor: Day, months: int, days: int, after: Day, inclusive: bool)
    requires IntervalRule(rule, anchor, months, days)
    ensures NextOccurrence(rule, after, inclusive) == IntervalOccurrence(rule, after, inclusive)
    ensures IntervalOccurrence(rule, after, inclusive)
         == Ok(IntervalSearch(StepBy(months, days), anchor, after, inclusive, MAX_INTERVAL_STEPS))
  {
  }

  /** CUSTOM_INTERVAL with non-negative months and days expands to exactly the first `limit` iterates
      of the month-then-day step in the window, one after another, among those the 400-step search can
      reach. */
  lemma ForwardExpansion(rule: Rule, anchor: Day, months: int, days: int, start: Day, horizon: Day, limit: int) returns (k: int, r: seq<Day>)
    requires IntervalRule(rule, anchor, months, days) && months >= 0 && days >= 0
    ensures Expansion(rule, start, horizon, limit) == Ok(r)
    ensures Run(Iterates(StepBy(months, days), anchor), k, r)
    ensures ExactlyFirst(Iterates(StepBy(months, days), anchor), Within(MAX_INTERVAL_STEPS), start, horizon, Nat(limit), r)
  {
    StepByAdvances(months, days);
    forall d, i {
      IntervalStepper(rule, anchor, months, days, d, i);
    }
    k, r := ExpandIterates(StepperOf(rule), StepBy(months, days), anchor, start, horizon, Nat(limit), MAX_INTERVAL_STEPS);
  }

  /** Every iterate from the first on. */
  function Endless(): int -> bool {
    k => k >= 1
  }

  /** Some iterate the search cannot reach lies in the window. */
  ghost predicate Loses(f: int -> Day, cap: nat, start: Day, horizon: Day) {
    exists k :: k > cap && start <= f(k) <= horizon
  }

  /** Nothing is listed, or nothing is lost, or the last `limit` iterates within the cap all lie at or after
      the start of the window. */
  ghost predicate CapSuffices(f: int -> Day, cap: nat, start: Day, horizon: Day, limit: nat) {
    limit == 0 || !Loses(f, cap, start, horizon) || (limit <= cap && start <= f(cap + 1 - limit))
  }

  /** The cap loses dates exactly when an iterate past it lies in the window and the limit is not already
      met by iterates before. */
  lemma CapIsExact(f: int -> Day, cap: nat, start: Day, horizon: Day, limit: nat, r: seq<Day>)
    requires Rising(f, Endless()) && ExactlyFirst(f, Within(cap), start, horizon, limit, r)
    ensures ExactlyFirst(f, Endless(), start, horizon, limit, r) <==> CapSuffices(f, cap, start, horizon, limit)
  {
    if limit > 0 && Loses(f, cap, start, horizon) {
      var k :| k > cap && start <= f(k) <= horizon;
      BeforeLost(f, cap, start, horizon, limit, r, k);
    } else {
      ReachesAll(f, cap, start, horizon, limit, r);
    }
  }

  lemma EndlessReaches(f: int -> Day, cap: nat, d: Day)
    requires Reached(f, Within(cap), d)
    ensures Reached(f, Endless(), d)
  {
    var k :| Within(cap)(k) && d == f(k);
    assert Endless()(k);
  }

  lemma ReachesAll(f: int -> Day, cap: nat, start: Day, horizon: Day, limit: nat, r: seq<Day>)
    requires ExactlyFirst(f, Within(cap), start, horizon, limit, r)
    requires limit == 0 || !Loses(f, cap, start, horizon)
    ensures ExactlyFirst(f, Endless(), start, horizon, limit, r)
  {
    forall i | 0 <= i < |r| ensures Reached(f, Endless(), r[i]) {
      EndlessReaches(f, cap, r[i]);
    }
    forall k | Endless()(k) && start <= f(k) <= horizon && f(k) !in r
      ensures |r| == limit && forall x :: x in r ==> x < f(k)
    {
      if limit > 0 {
        assert Within(cap)(k);
      }
    }
  }

  /** Elements after one of an increasing list leave it that much further from the cap. */
  lemma {:induction false} IndexOf(f: int -> Day, cap: nat, r: seq<Day>, i: nat) returns (k: int)
    requires Rising(f, Endless()) && StrictlyIncreasing(r) && i < |r|
    requires forall j :: 0 <= j < |r| ==> Reached(f, Within(cap), r[j])
    ensures Within(cap)(k) && r[i] == f(k) && k <= cap - (|r| - 1 - i)
    decreases |r| - i
  {
    assert Reached(f, Within(cap), r[i]);
    k :| Within(cap)(k) && r[i] == f(k);
    if i < |r| - 1 {
      var next := IndexOf(f, cap, r, i + 1);
      assert r[i] < r[i + 1];
      assert Endless()(k) && Endless()(next);
    }
  }

  lemma BeforeLost(f: int -> Day, cap: nat, start: Day, horizon: Day, limit: nat, r: seq<Day>, lost: int)
    requires Rising(f, Endless()) && ExactlyFirst(f, Within(cap), start, horizon, limit, r)
    requires limit > 0 && lost > cap && start <= f(lost) <= horizon
    ensures ExactlyFirst(f, Endless(), start, horizon, limit, r) <==> limit <= cap && start <= f(cap + 1 - limit)
  {
    forall k | Within(cap)(k) ensures Endless()(k) && f(k) < f(lost) {
      assert Endless()(k) && Endless()(lost);
    }
    assert f(lost) !in r;
    if limit <= cap && start <= f(cap + 1 - limit) {
      FullBeforeLost(f, cap, start, horizon, limit, r);
      FullIsExact(f, cap, start, horizon, limit, r);
    } else if |r| == limit {
      forall j | 0 <= j < |r| ensures Reached(f, Within(cap), r[j]) {}
      var k := IndexOf(f, cap, r, 0);
      RisesOrEqual(f, k, cap + 1 - limit);
      assert false;
    } else {
      assert Endless()(lost);
    }
  }

  lemma RisesOrEqual(f: int -> Day, i: int, j: int)
    requires Rising(f, Endless()) && 1 <= i <= j
    ensures f(i) <= f(j)
  {
    assert Endless()(i) && Endless()(j);
  }

  /** The last `limit` reachable iterates are all in the window, so the limit is met. */
  lemma FullBeforeLost(f: int -> Day, cap: nat, start: Day, horizon: Day, limit: nat, r: seq<Day>)
    requires Rising(f, Endless()) && ExactlyFirst(f, Within(cap), start, horizon, limit, r)
    requires 0 < limit <= cap && start <= f(cap + 1 - limit) && f(cap) <= horizon
    ensures |r| == limit
  {
    if |r| != limit {
      AllListed(f, cap, cap + 1 - limit, start, horizon, limit, r);
      ManyListed(f, cap + 1 - limit, cap, r);
    }
  }

  lemma AllListed(f: int -> Day, cap: nat, lo: int, start: Day, horizon: Day, limit: nat, r: seq<Day>)
    requires Rising(f, Endless()) && ExactlyFirst(f, Within(cap), start, horizon, limit, r) && |r| != limit
    requires 1 <= lo <= cap && start <= f(lo) && f(cap) <= horizon
    ensures forall k :: lo <= k <= cap ==> f(k) in r
  {
    forall k | lo <= k <= cap ensures f(k) in r {
      RisesOrEqual(f, lo, k);
      RisesOrEqual(f, k, cap);
      assert Within(cap)(k);
    }
  }

  lemma {:induction false} ManyListed(f: int -> Day, lo: int, hi: int, r: seq<Day>)
    requires Rising(f, Endless()) && StrictlyIncreasing(r) && 1 <= lo
    requires forall k :: lo <= k <= hi ==> f(k) in r
    ensures |r| >= hi - lo + 1
    decreases hi - lo
  {
    if lo <= hi {
      assert f(hi) in r;
      var i :| 0 <= i < |r| && r[i] == f(hi);
      var front := r[..i];
      forall k | lo <= k <= hi - 1 ensures f(k) in front {
        assert Endless()(k) && Endless()(hi);
        var j :| 0 <= j < |r| && r[j] == f(k);
        assert j < i;
        assert front[j] == f(k);
      }
      ManyListed(f, lo, hi - 1, front);
    }
  }

  lemma FullIsExact(f: int -> Day, cap: nat, start: Day, horizon: Day, limit: nat, r: seq<Day>)
    requires Rising(f, Endless()) && ExactlyFirst(f, Within(cap), start, horizon, limit, r) && |r| == limit
    ensures ExactlyFirst(f, Endless(), start, horizon, limit, r)
  {
    forall i | 0 <= i < |r| ensures Reached(f, Endless(), r[i]) {
      EndlessReaches(f, cap, r[i]);
    }
    forall k | Endless()(k) && start <= f(k) <= horizon && f(k) !in r
      ensures |r| == limit && forall x :: x in r ==> x < f(k)
    {
      if k > cap {
        forall x | x in r ensures x < f(k) {
          var i :| 0 <= i < |r| && r[i] == x;
          assert Reached(f, Within(cap), r[i]);
          var l :| Within(cap)(l) && r[i] == f(l);
          assert Endless()(l);
        }
      } else {
        assert Within(cap)(k);
      }
    }
  }

  /** So over all iterates, reachable or not, the forward expansion is exact under that condition on the
      400-step cap. */
  lemma ForwardExpansionIsComplete(rule: Rule, anchor: Day, months: int, days: int, start: Day, horizon: Day, limit: int)
      returns (r: seq<Day>)
    requires IntervalRule(rule, anchor, months, days) && months >= 0 && days >= 0
    ensures var f, cap := Iterates(StepBy(months, days), anchor), MAX_INTERVAL_STEPS;
            && Expansion(rule, start, horizon, limit) == Ok(r)
            && (ExactlyFirst(f, Endless(), start, horizon, Nat(limit), r) <==> CapSuffices(f, cap, start, horizon, Nat(limit)))
  {
    var k: int;
    k, r := ForwardExpansion(rule, anchor, months, days, start, horizon, limit);
    StepByAdvances(months, days);
    CompleteUnderCap(StepBy(months, days), anchor, MAX_INTERVAL_STEPS, start, horizon, Nat(limit), r);
  }

  lemma CompleteUnderCap(step: Day -> Day, anchor: Day, cap: nat, start: Day, horizon: Day, limit: nat, r: seq<Day>)
    requires Advances(step) && ExactlyFirst(Iterates(step, anchor), Within(cap), start, horizon, limit, r)
    ensures ExactlyFirst(Iterates(step, anchor), Endless(), start, horizon, limit, r)
            <==> CapSuffices(Iterates(step, anchor), cap, start, horizon, limit)
  {
    IteratesRiseEndlessly(step, anchor);
    CapIsExact(Iterates(step, anchor), cap, start, horizon, limit, r);
  }

  lemma IteratesRiseEndlessly(step: Day -> Day, anchor: Day)
    requires Advances(step)
    ensures Rising(Iterates(step, anchor), Endless())
  {
    forall i, j | 1 <= i < j ensures Iterates(step, anchor)(i) < Iterates(step, anchor)(j) {
      IteratesRise(step, anchor, i, j);
    }
  }

  lemma {:induction false} DailyIterate(anchor: Day, k: nat)
    ensures Iterate(StepBy(0, 1), anchor, k) == anchor + k
    decreases k
  {
    if k > 0 {
      DailyIterate(anchor, k - 1);
    }
  }

  /** A daily interval anchored more than 400 days before the window lists nothing at all, although every day
      of the window is due. */
  lemma DailyIntervalGivesUp(rule: Rule, anchor: Day, start: Day, horizon: Day, limit: int)
    requires IntervalRule(rule, anchor, 0, 1) && start > anchor + 400
    ensures Expansion(rule, start, horizon, limit) == Ok([])
    ensures forall i: nat :: Iterates(StepBy(0, 1), anchor)(i) == anchor + i
  {
    IntervalStepper(rule, anchor, 0, 1, start, true);
    SearchesInVain(anchor, start, MAX_INTERVAL_STEPS);
    forall i: nat {
      DailyIterate(anchor, i);
    }
  }

  /** Up to 400 days it does list the first day of the window. */
  lemma DailyIntervalReaches(rule: Rule, anchor: Day, start: Day, horizon: Day)
    requires IntervalRule(rule, anchor, 0, 1) && anchor < start <= anchor + 400 && start <= horizon
    ensures Expansion(rule, start, horizon, 1) == Ok([start])
  {
    IntervalStepper(rule, anchor, 0, 1, start, true);
    SearchesUntil(anchor, start, MAX_INTERVAL_STEPS);
    OneDate(StepperOf(rule), start, horizon, start);
  }

  lemma SearchesUntil(anchor: Day, start: Day, cap: nat)
    requires anchor < start <= anchor + cap
    ensures IntervalSearch(StepBy(0, 1), anchor, start, true, cap) == Some(start)
  {
    var j := SearchFindsFirst(StepBy(0, 1), anchor, 0, start, true, cap);
    DailyIterate(anchor, start - anchor);
    if j <= cap {
      DailyIterate(anchor, j);
    }
  }

  lemma SearchesInVain(anchor: Day, start: Day, cap: nat)
    requires start > anchor + cap
    ensures IntervalSearch(StepBy(0, 1), anchor, start, true, cap) == None
  {
    var j := SearchFindsFirst(StepBy(0, 1), anchor, 0, start, true, cap);
    DailyIterate(anchor, j);
  }

  // Months and days of opposite signs are accepted too, and then the iterates may go back and forth.

  /** The indices, within the cap, of values above every value before them. */
  ghost function Records(f: int -> Day, cap: nat): int -> bool {
    k => 1 <= k <= cap && forall i :: 1 <= i < k ==> f(i) < f(k)
  }

  /** The stepper answers with the first of f(1), ..., f(cap) that is beyond `d`. */
  ghost predicate AnswersFirst(next: Stepper, f: int -> Day, cap: nat, d: Day, inclusive: bool) {
    exists j :: AnswersWith(next, f, cap, d, inclusive, j)
  }

  ghost predicate AnswersWith(next: Stepper, f: int -> Day, cap: nat, d: Day, inclusive: bool, j: int) {
    && 1 <= j <= cap + 1
    && (forall i :: 1 <= i < j ==> !Beyond(f(i), d, inclusive))
    && next(d, inclusive) == Ok(if j <= cap then Some(f(j)) else None)
    && (j <= cap ==> Beyond(f(j), d, inclusive))
  }

  /** `r` is exactly the first `limit` records beyond the cursor, up to the horizon. */
  ghost predicate FirstRecords(f: int -> Day, cap: nat, cursor: Day, inclusive: bool, horizon: Day, limit: nat, r: seq<Day>) {
    && |r| <= limit && StrictlyIncreasing(r)
    && (forall x :: x in r ==> RecordBeyond(f, cap, cursor, inclusive, horizon, x))
    && (forall k :: Records(f, cap)(k) && Beyond(f(k), cursor, inclusive) && f(k) <= horizon && f(k) !in r
          ==> |r| == limit && forall x :: x in r ==> x < f(k))
  }

  ghost predicate RecordBeyond(f: int -> Day, cap: nat, cursor: Day, inclusive: bool, horizon: Day, x: Day) {
    Beyond(x, cursor, inclusive) && x <= horizon && Reached(f, Records(f, cap), x)
  }

  lemma NoRecordBefore(next: Stepper, f: int -> Day, cap: nat, d: Day, inclusive: bool, j: int, k: int)
    requires AnswersWith(next, f, cap, d, inclusive, j) && Records(f, cap)(k) && Beyond(f(k), d, inclusive)
    ensures j <= k && (j < k ==> f(j) < f(k))
    ensures j <= cap && Records(f, cap)(j)
  {
    forall i | 1 <= i < j ensures f(i) < f(j) {
      assert !Beyond(f(i), d, inclusive);
    }
  }

  lemma FirstIsRecord(next: Stepper, f: int -> Day, cap: nat, d: Day, inclusive: bool, j: int)
    requires AnswersWith(next, f, cap, d, inclusive, j) && j <= cap
    ensures Records(f, cap)(j)
  {
    NoRecordBefore(next, f, cap, d, inclusive, j, j);
  }

  lemma {:induction false} ExpandRecords(next: Stepper, f: int -> Day, cap: nat, cursor: Day, inclusive: bool, horizon: Day, limit: nat)
      returns (r: seq<Day>)
    requires forall d, i :: AnswersFirst(next, f, cap, d, i)
    ensures ExpandFrom(next, false, cursor, inclusive, horizon, limit) == Ok(r)
    ensures FirstRecords(f, cap, cursor, inclusive, horizon, limit, r)
    decreases limit
  {
    assert AnswersFirst(next, f, cap, cursor, inclusive);
    var j :| AnswersWith(next, f, cap, cursor, inclusive, j);
    r := [];
    if limit > 0 && j <= cap && f(j) <= horizon {
      var rest := ExpandRecords(next, f, cap, f(j), false, horizon, limit - 1);
      r := [f(j)] + rest;
      RecordThenRest(next, f, cap, cursor, inclusive, horizon, limit, j, rest);
    } else {
      forall k | Records(f, cap)(k) && Beyond(f(k), cursor, inclusive) && f(k) <= horizon ensures limit == 0 {
        NoRecordBefore(next, f, cap, cursor, inclusive, j, k);
      }
    }
  }

  lemma RecordThenRest(next: Stepper, f: int -> Day, cap: nat, cursor: Day, inclusive: bool, horizon: Day, limit: nat, j: int, rest: seq<Day>)
    requires AnswersWith(next, f, cap, cursor, inclusive, j) && j <= cap && f(j) <= horizon && limit > 0
    requires FirstRecords(f, cap, f(j), false, horizon, limit - 1, rest)
    ensures FirstRecords(f, cap, cursor, inclusive, horizon, limit, [f(j)] + rest)
  {
    var r := [f(j)] + rest;
    FirstIsRecord(next, f, cap, cursor, inclusive, j);
    forall x | x in r ensures RecordBeyond(f, cap, cursor, inclusive, horizon, x) {
      assert x == f(j) || RecordBeyond(f, cap, f(j), false, horizon, x);
    }
    forall a, b | 0 <= a < b < |r| ensures r[a] < r[b] {
      assert r[b] in rest && RecordBeyond(f, cap, f(j), false, horizon, r[b]);
    }
    forall k | Records(f, cap)(k) && Beyond(f(k), cursor, inclusive) && f(k) <= horizon && f(k) !in r
      ensures |r| == limit && forall x :: x in r ==> x < f(k)
    {
      NoRecordBefore(next, f, cap, cursor, inclusive, j, k);
      assert f(j) == r[0] && Beyond(f(k), f(j), false) && f(k) !in rest;
    }
  }

  lemma IntervalAnswersFirst(rule: Rule, anchor: Day, months: int, days: int, after: Day, inclusive: bool)
    requires IntervalRule(rule, anchor, months, days)
    ensures AnswersFirst(StepperOf(rule), Iterates(StepBy(months, days), anchor), MAX_INTERVAL_STEPS, after, inclusive)
  {
    IntervalStepper(rule, anchor, months, days, after, inclusive);
    SearchAnswers(StepperOf(rule), StepBy(months, days), anchor, after, inclusive, MAX_INTERVAL_STEPS);
  }

  lemma SearchAnswers(next: Stepper, step: Day -> Day, anchor: Day, after: Day, inclusive: bool, cap: nat)
    requires next(after, inclusive) == Ok(IntervalSearch(step, anchor, after, inclusive, cap))
    ensures AnswersFirst(next, Iterates(step, anchor), cap, after, inclusive)
  {
    var j := SearchFindsFirst(step, anchor, 0, after, inclusive, cap);
    assert AnswersWith(next, Iterates(step, anchor), cap, after, inclusive, j);
  }

  /** Whatever the signs, CUSTOM_INTERVAL expands in order, to exactly the first `limit` iterates in the
      window that are later than every iterate before them: those that fall back are passed over. */
  lemma IntervalExpansion(rule: Rule, anchor: Day, months: int, days: int, start: Day, horizon: Day, limit: int) returns (r: seq<Day>)
    requires IntervalRule(rule, anchor, months, days)
    ensures Expansion(rule, start, horizon, limit) == Ok(r)
    ensures var f := Iterates(StepBy(months, days), anchor);
            ExactlyFirst(f, Records(f, MAX_INTERVAL_STEPS), start, horizon, Nat(limit), r)
  {
    var f := Iterates(StepBy(months, days), anchor);
    forall d, i {
      IntervalAnswersFirst(rule, anchor, months, days, d, i);
    }
    r := ExpandRecords(StepperOf(rule), f, MAX_INTERVAL_STEPS, start, true, horizon, Nat(limit));
    RecordsAreExactlyFirst(f, MAX_INTERVAL_STEPS, start, horizon, Nat(limit), r);
  }

  lemma RecordsAreExactlyFirst(f: int -> Day, cap: nat, start: Day, horizon: Day, limit: nat, r: seq<Day>)
    requires FirstRecords(f, cap, start, true, horizon, limit, r)
    ensures ExactlyFirst(f, Records(f, cap), start, horizon, limit, r)
  {
    forall i | 0 <= i < |r| ensures start <= r[i] <= horizon && Reached(f, Records(f, cap), r[i]) {
      assert r[i] in r && RecordBeyond(f, cap, start, true, horizon, r[i]);
    }
  }

  /** When every step goes forward, every iterate within the cap is such a record. */
  lemma ForwardIteratesAreRecords(step: Day -> Day, anchor: Day, cap: nat, k: int)
    requires Advances(step)
    ensures Records(Iterates(step, anchor), cap)(k) <==> Within(cap)(k)
  {
    if Within(cap)(k) {
      forall i | 1 <= i < k ensures Iterates(step, anchor)(i) < Iterates(step, anchor)(k) {
        IteratesRise(step, anchor, i, k);
      }
    }
  }

  // ---------------------------------------------------------------------- EXPIRATION_ANNIVERSARY

  ghost predicate ExpirationRule(rule: Rule, anchor: Day, interval: int) {
    rule.rtype == ExpirationAnniversary && rule.context.expirationDate == Some(anchor) && GetOr(rule.config.intervalYears, 1) == interval
  }

  lemma ExpirationSteps(rule: Rule, anchor: Day, interval: int, after: Day, inclusive: bool)
    requires ExpirationRule(rule, anchor, interval)
    ensures StepperOf(rule)(after, inclusive)
         == Ok(Some(if Beyond(anchor, after, inclusive) then anchor else Renewed(anchor, interval)))
  {
  }

  function Renewed(anchor: Day, interval: int): Day {
    AnchorDates(anchor)(YearOf(anchor) + interval)
  }

  lemma RenewedOrder(anchor: Day, interval: int)
    ensures Renewed(anchor, interval) > anchor <==> interval > 0
    ensures Renewed(anchor, interval) == anchor <==> interval == 0
  {
    AnniversariesRise(FromOrdinal(anchor).month, FromOrdinal(anchor).day);
    OwnAnniversary(anchor);
    RisingOrder(AnchorDates(anchor), YearOf(anchor), interval);
  }

  lemma RisingOrder(f: int -> Day, y: int, k: int)
    requires Rising(f, EveryYear())
    ensures f(y + k) > f(y) <==> k > 0
    ensures f(y + k) == f(y) <==> k == 0
  {
    assert EveryYear()(y) && EveryYear()(y + k);
    assert k > 0 ==> f(y) < f(y + k);
    assert k < 0 ==> f(y + k) < f(y);
  }

  lemma OwnAnniversary(anchor: Day)
    ensures AnchorDates(anchor)(YearOf(anchor)) == anchor
  {
  }

  function Repeat(d: Day, n: nat): seq<Day> {
    seq(n, _ => d)
  }

  lemma {:induction false} ExpandStuck(next: Stepper, d: Day, cursor: Day, inclusive: bool, horizon: Day, limit: nat)
    requires next(cursor, inclusive) == Ok(Some(d)) && next(d, false) == Ok(Some(d))
    ensures ExpandFrom(next, false, cursor, inclusive, horizon, limit) == Ok(if d <= horizon then Repeat(d, limit) else [])
    decreases limit
  {
    if limit == 0 {
      assert Repeat(d, 0) == [];
    } else if d <= horizon {
      ExpandStuck(next, d, d, false, horizon, limit - 1);
      assert [d] + Repeat(d, limit - 1) == Repeat(d, limit);
    }
  }

  /** a, b, a, b, ... */
  function Alternate(a: Day, b: Day, n: nat): (r: seq<Day>)
    ensures |r| == n && forall i :: 0 <= i < n ==> r[i] == if i % 2 == 0 then a else b
    decreases n
  {
    if n == 0 then [] else [a] + Alternate(b, a, n - 1)
  }

  lemma {:induction false} ExpandAlternating(next: Stepper, a: Day, b: Day, cursor: Day, inclusive: bool, horizon: Day, limit: nat)
    requires next(cursor, inclusive) == Ok(Some(a)) && next(a, false) == Ok(Some(b)) && next(b, false) == Ok(Some(a))
    requires a <= horizon && b <= horizon
    ensures ExpandFrom(next, false, cursor, inclusive, horizon, limit) == Ok(Alternate(a, b, limit))
    decreases limit
  {
    if limit > 0 {
      ExpandAlternating(next, b, a, a, false, horizon, limit - 1);
    }
  }

  /** `first`, then `second` again and again, or turn and turn about. */
  function TwoDates(first: Day, second: Day, turns: bool, horizon: Day, limit: nat): seq<Day> {
    if limit == 0 || first > horizon then []
    else if second > horizon then [first]
    else if turns then Alternate(first, second, limit)
    else [first] + Repeat(second, limit - 1)
  }

  lemma ExpandTwoDates(next: Stepper, first: Day, second: Day, turns: bool, start: Day, horizon: Day, limit: nat)
    requires next(start, true) == Ok(Some(first)) && next(first, false) == Ok(Some(second))
    requires next(second, false) == Ok(Some(if turns then first else second))
    ensures ExpandFrom(next, false, start, true, horizon, limit) == Ok(TwoDates(first, second, turns, horizon, limit))
  {
    if limit > 0 && first <= horizon {
      if turns && second <= horizon {
        ExpandAlternating(next, first, second, start, true, horizon, limit);
      } else if !turns {
        ExpandStuck(next, second, first, false, horizon, limit - 1);
        assert [first] + [] == [first];
      } else {
        StopsAtHorizon(next, second, first, horizon, limit - 1);
        assert [first] + [] == [first];
      }
    }
  }

  lemma StopsAtHorizon(next: Stepper, d: Day, cursor: Day, horizon: Day, limit: nat)
    requires next(cursor, false) == Ok(Some(d)) && d > horizon
    ensures ExpandFrom(next, false, cursor, false, horizon, limit) == Ok([])
  {
  }

  lemma TwoDatesOrder(first: Day, second: Day, turns: bool, start: Day, horizon: Day, limit: nat)
    ensures var r := TwoDates(first, second, turns, horizon, limit);
            && (StrictlyIncreasing(r) <==> first > horizon || second > horizon || limit <= if first < second then 2 else 1)
            && ((forall x :: x in r ==> start <= x <= horizon)
                <==> limit == 0 || first > horizon || (start <= first && (limit == 1 || second > horizon || start <= second)))
  {
    var r := TwoDates(first, second, turns, horizon, limit);
    assert forall x :: x in r ==> x == first || x == second;
    if |r| >= 1 {
      assert r[0] == first && first in r;
    }
    if |r| >= 2 {
      assert r[1] == second && second in r;
    }
    if |r| >= 3 {
      assert r[2] == if turns then first else second;
    }
  }

  /** The first date of the expansion, and the one after it. */
  function FirstExpiry(anchor: Day, interval: int, start: Day): Day {
    if start <= anchor then anchor else Renewed(anchor, interval)
  }

  function SecondExpiry(anchor: Day, interval: int, start: Day): Day {
    if FirstExpiry(anchor, interval, start) < anchor then anchor else Renewed(anchor, interval)
  }

  /** EXPIRATION_ANNIVERSARY, for every interval, only ever returns the expiry and the one date an interval
      from it: that date again and again, or, if the interval is negative, the two in turn. */
  lemma ExpirationExpansion(rule: Rule, anchor: Day, interval: int, start: Day, horizon: Day, limit: int)
    requires ExpirationRule(rule, anchor, interval)
    ensures Expansion(rule, start, horizon, limit)
         == Ok(TwoDates(FirstExpiry(anchor, interval, start), SecondExpiry(anchor, interval, start), interval < 0, horizon, Nat(limit)))
  {
    var first, second := FirstExpiry(anchor, interval, start), SecondExpiry(anchor, interval, start);
    ExpirationSteps(rule, anchor, interval, start, true);
    ExpirationSteps(rule, anchor, interval, first, false);
    ExpirationSteps(rule, anchor, interval, second, false);
    RenewedOrder(anchor, interval);
    ExpandTwoDates(StepperOf(rule), first, second, interval < 0, start, horizon, Nat(limit));
  }

  /** So, whatever the interval, its dates are strictly increasing, and lie in the window, exactly when the
      limit or the horizon cuts it off in time. */
  lemma ExpirationRepeats(rule: Rule, anchor: Day, interval: int, start: Day, horizon: Day, limit: int)
    requires ExpirationRule(rule, anchor, interval)
    ensures var first, second := FirstExpiry(anchor, interval, start), SecondExpiry(anchor, interval, start);
            Expansion(rule, start, horizon, limit).Ok? &&
            var r := Expansion(rule, start, horizon, limit).value;
            && (StrictlyIncreasing(r) <==> first > horizon || second > horizon || limit <= if first < second then 2 else 1)
            && ((forall x :: x in r ==> start <= x <= horizon)
                <==> limit <= 0 || first > horizon || (start <= first && (limit == 1 || second > horizon || start <= second)))
  {
    ExpirationExpansion(rule, anchor, interval, start, horizon, limit);
    TwoDatesOrder(FirstExpiry(anchor, interval, start), SecondExpiry(anchor, interval, start), interval < 0, start, horizon, Nat(limit));
  }

  // -------------------------------------------------------------------------------------- examples

  const NO_CONFIG := Config(None, None, None, None, None, None, None, None, NotGiven)
  const NO_CONTEXT := Context(None, None, None, None, None, None, None, None, None)

  function On(year: int, month: int, day: int): Day
    requires ValidCivil(Civil(year, month, day))
  {
    ToOrdinal(Civil(year, month, day))
  }

  lemma OnAnniversary(anchor: Day, year: int, month: int, day: int, later: int)
    requires ValidCivil(Civil(year, month, day)) && day <= 28 && anchor == On(year, month, day)
    ensures YearOf(anchor) == year
    ensures AnniversaryOf(anchor, later) == On(later, month, day)
  {
    OrdinalRoundTrip(Civil(year, month, day));
  }

  lemma RepeatedDate(next: Stepper, start: Day, horizon: Day, due: Day)
    requires next(start, true) == Ok(Some(due)) && next(due, false) == Ok(Some(due)) && due <= horizon
    ensures ExpandFrom(next, false, start, true, horizon, 2) == Ok([due, due])
  {
    ExpandStuck(next, due, start, true, horizon, 2);
    assert Repeat(due, 2) == [due, due];
  }

  lemma RenewedTwice(rule: Rule, anchor: Day, start: Day, horizon: Day, renewed: Day)
    requires ExpirationRule(rule, anchor, 1) && renewed == Renewed(anchor, 1)
    requires anchor < start && anchor < renewed <= horizon
    ensures Expansion(rule, start, horizon, 2) == Ok([renewed, renewed])
  {
    ExpirationSteps(rule, anchor, 1, start, true);
    ExpirationSteps(rule, anchor, 1, renewed, false);
    RepeatedDate(StepperOf(rule), start, horizon, renewed);
  }

  lemma SampleRenewal(anchor: Day, renewed: Day)
    requires anchor == On(2025, 6, 15) && renewed == On(2026, 6, 15)
    ensures renewed == Renewed(anchor, 1)
  {
    RenewedOn(anchor, renewed, 2025, 6, 15);
  }

  lemma RenewedOn(anchor: Day, renewed: Day, year: int, month: int, day: int)
    requires ValidCivil(Civil(year, month, day)) && day <= 28 && anchor == On(year, month, day)
    requires ValidCivil(Civil(year + 1, month, day)) && renewed == On(year + 1, month, day)
    ensures renewed == Renewed(anchor, 1)
  {
    OnAnniversary(anchor, year, month, day, year + 1);
  }

  /** A licence that expired on 15 June 2025 and is planned from 2026 on comes due twice on the same day,
      15 June 2026. */
  lemma RenewalRepeats(rule: Rule, anchor: Day, start: Day, horizon: Day, renewed: Day)
    requires anchor == On(2025, 6, 15) && renewed == On(2026, 6, 15) && start == On(2026, 1, 1) && horizon == On(2026, 12, 31)
    requires ExpirationRule(rule, anchor, 1)
    ensures Expansion(rule, start, horizon, 2) == Ok([renewed, renewed])
  {
    SampleDays();
    SampleRenewal(anchor, renewed);
    RenewedTwice(rule, anchor, start, horizon, renewed);
  }

  lemma SampleDays()
    ensures On(2025, 6, 15) == 739417 && On(2026, 1, 1) == 739617 && On(2026, 6, 15) == 739782
    ensures On(2025, 1, 1) == 739252 && On(2025, 5, 15) == 739386 && On(2026, 12, 31) == 739981
    ensures On(2025, 6, 1) == 739403
  {
  }

  lemma OneDate(next: Stepper, start: Day, horizon: Day, due: Day)
    requires next(start, true) == Ok(Some(due)) && due <= horizon
    ensures ExpandFrom(next, false, start, true, horizon, 1) == Ok([due])
  {
    assert [due] + [] == [due];
  }

  lemma FirstIssue(rule: Rule, anchor: Day, interval: int, start: Day, horizon: Day, due: Day)
    requires IssueRule(rule, anchor, interval)
    requires due == AnniversaryOf(anchor, YearOf(start)) && start <= due <= horizon
    ensures Expansion(rule, start, horizon, 1) == Ok([due])
  {
    IssueNext(rule, anchor, interval, start, true);
    OneDate(StepperOf(rule), start, horizon, due);
  }

  lemma SampleIssue(issued: Day, start: Day, due: Day)
    requires issued == On(2020, 5, 15) && start == On(2025, 1, 1) && due == On(2025, 5, 15)
    ensures due == AnniversaryOf(issued, YearOf(start))
    ensures YearOf(issued) == 2020 && YearOf(due) == 2025
  {
    SameYear(issued, start, due, 2020, 2025, 5, 15, 1, 1);
    OnAnniversary(issued, 2020, 5, 15, 2025);
    OnAnniversary(due, 2025, 5, 15, 2025);
  }

  /** A licence issued on 15 May 2020 for two years at a time, planned from 2025 on, comes due in 2025, five
      years after issue. */
  lemma RenewalIsMisaligned(rule: Rule, issued: Day, start: Day, horizon: Day, due: Day)
    requires issued == On(2020, 5, 15) && start == On(2025, 1, 1) && due == On(2025, 5, 15) && horizon == On(2026, 12, 31)
    requires IssueRule(rule, issued, 2)
    ensures Expansion(rule, start, horizon, 1) == Ok([due])
    ensures !Aligned(due, issued, 2)
  {
    SampleDays();
    SampleIssue(issued, start, due);
    FirstIssue(rule, issued, 2, start, horizon, due);
    SampleIsMisaligned(issued, start, due);
  }

  lemma SampleIsMisaligned(issued: Day, start: Day, due: Day)
    requires issued == On(2020, 5, 15) && start == On(2025, 1, 1) && due == On(2025, 5, 15)
    ensures !Aligned(due, issued, 2)
  {
    SampleIssue(issued, start, due);
    FiveIsOdd(YearOf, due, issued);
  }

  lemma FiveIsOdd(year: Day -> int, a: Day, b: Day)
    requires year(a) - year(b) == 5
    ensures !AlignedBy(year, a, b, 2)
  {
  }

  lemma StandsStill(rule: Rule, anchor: Day, start: Day, horizon: Day, due: Day)
    requires IssueRule(rule, anchor, 0)
    requires due == AnniversaryOf(anchor, YearOf(start)) && YearOf(due) == YearOf(start) && due <= horizon
    ensures Expansion(rule, start, horizon, 2) == Ok([due, due])
  {
    IssueNext(rule, anchor, 0, start, true);
    IssueNext(rule, anchor, 0, due, false);
    RepeatedDate(StepperOf(rule), start, horizon, due);
  }

  lemma SampleStandstill(issued: Day, start: Day, due: Day)
    requires issued == On(2020, 5, 15) && start == On(2025, 6, 1) && due == On(2025, 5, 15)
    ensures due == AnniversaryOf(issued, YearOf(start)) && YearOf(due) == YearOf(start)
  {
    SameYear(issued, start, due, 2020, 2025, 5, 15, 6, 1);
  }

  lemma SameYear(issued: Day, start: Day, due: Day, year: int, later: int, month: int, day: int, startMonth: int, startDay: int)
    requires ValidCivil(Civil(year, month, day)) && day <= 28 && issued == On(year, month, day)
    requires ValidCivil(Civil(later, startMonth, startDay)) && startDay <= 28 && start == On(later, startMonth, startDay)
    requires ValidCivil(Civil(later, month, day)) && due == On(later, month, day)
    ensures due == AnniversaryOf(issued, YearOf(start)) && YearOf(due) == YearOf(start)
  {
    OnAnniversary(issued, year, month, day, later);
    OnAnniversary(start, later, startMonth, startDay, later);
    OnAnniversary(due, later, month, day, later);
  }

  /** A licence issued on 15 May 2020 with an interval of zero years, planned from 1 June 2025 on, comes due
      twice on 15 May 2025: the date does not advance, and lies before the window. */
  lemma ZeroIntervalStandsStill(rule: Rule, issued: Day, start: Day, horizon: Day, due: Day)
    requires issued == On(2020, 5, 15) && start == On(2025, 6, 1) && due == On(2025, 5, 15) && horizon == On(2026, 12, 31)
    requires IssueRule(rule, issued, 0)
    ensures Expansion(rule, start, horizon, 2) == Ok([due, due])
    ensures due < start
  {
    SampleDays();
    SampleStandstill(issued, start, due);
    StandsStill(rule, issued, start, horizon, due);
  }

  /** A case event of 1 March 2020 is still listed when planning from 2025 on. */
  lemma OldEventIsListed()
    ensures var rule := Rule(RelativeToCaseEvent, NO_CONFIG, NO_CONTEXT.(caseEventDate := Some(On(2020, 3, 1))));
            Expansion(rule, On(2025, 1, 1), On(2026, 12, 31), 24) == Ok([On(2020, 3, 1)])
  {
    var rule := Rule(RelativeToCaseEvent, NO_CONFIG, NO_CONTEXT.(caseEventDate := Some(On(2020, 3, 1))));
    RelativeExpansion(rule, On(2020, 3, 1), On(2025, 1, 1), On(2026, 12, 31), 24);
  }

  // ------------------------------------------------------------------ "strictly after", type by type

  lemma NextAnnualIsBeyond(month: int, day: int, after: Day, inclusive: bool)
    requires NextAnnual(month, day, after, inclusive).Ok?
    ensures Beyond(NextAnnual(month, day, after, inclusive).value, after, inclusive)
  {
    NextYearIsBeyond(month, day, after, inclusive, 1);
  }

  /** ISSUE_ANNIVERSARY and EXPIRATION_ANNIVERSARY aside, and RELATIVE_TO_CASE_EVENT, every type returns
      a date beyond the one asked about. */
  lemma OccurrenceIsBeyond(rule: Rule, after: Day, inclusive: bool, r: Day)
    requires NextOccurrence(rule, after, inclusive) == Ok(Some(r))
    requires rule.rtype !in {IssueAnniversary, ExpirationAnniversary, RelativeToCaseEvent}
    ensures Beyond(r, after, inclusive)
  {
    var config, context := rule.config, rule.context;
    match rule.rtype {
      case FixedAnnualDate => NextAnnualIsBeyond(config.month.value, config.day.value, after, inclusive);
      case NmlsAnnualRenewalWindow =>
        NextAnnualIsBeyond(GetOr(config.windowEndMonth, 12), GetOr(config.windowEndDay, 31), after, inclusive);
      case AnnualReportDate =>
        if IfBeyond(context.annualReportDate, after, inclusive).None? {
          if config.month.Some? && config.day.Some? {
            NextAnnualIsBeyond(config.month.value, config.day.value, after, inclusive);
          } else {
            var c := FromOrdinal(context.annualReportDate.value);
            LaterYearIsLater(c.month, c.day, after, YearOf(after) + 1);
          }
        }
      case CustomInterval =>
        var step := StepBy(GetOr(config.intervalMonths, 0), GetOr(config.intervalDays, 0));
        var j := SearchFindsFirst(step, IntervalAnchor(context).value, 0, after, inclusive, MAX_INTERVAL_STEPS);
      case _ =>
    }
  }

  /** ISSUE_ANNIVERSARY does so exactly when its interval is at least one year or this year's
      anniversary is still ahead. */
  lemma IssueIsBeyond(rule: Rule, anchor: Day, interval: int, after: Day, inclusive: bool)
    requires IssueRule(rule, anchor, interval)
    ensures var y := NextYear(FromOrdinal(anchor).month, FromOrdinal(anchor).day, after, inclusive, interval);
            && NextOccurrence(rule, after, inclusive) == Ok(Some(AnniversaryOf(anchor, y)))
            && (Beyond(AnniversaryOf(anchor, y), after, inclusive)
                <==> interval >= 1 || Beyond(AnniversaryOf(anchor, YearOf(after)), after, inclusive))
  {
    var c := FromOrdinal(anchor);
    IssueYearIsBeyond(c.month, c.day, after, inclusive, interval);
  }

  lemma IssueYearIsBeyond(month: int, day: int, after: Day, inclusive: bool, interval: int)
    requires 1 <= month <= 12 && 1 <= day
    ensures Beyond(Anniversary(month, day, NextYear(month, day, after, inclusive, interval)), after, inclusive)
            <==> interval >= 1 || Beyond(Anniversary(month, day, YearOf(after)), after, inclusive)
  {
    if interval >= 1 {
      NextYearIsBeyond(month, day, after, inclusive, interval);
    } else {
      AnniversaryOrder(month, day, YearOf(after) + interval, YearOf(after));
    }
  }

  /** EXPIRATION_ANNIVERSARY does so exactly while the expiry, or the date one interval from it, is still
      beyond the date asked about: it is never advanced a second time. */
  lemma ExpirationIsBeyond(rule: Rule, anchor: Day, interval: int, after: Day, inclusive: bool)
    requires ExpirationRule(rule, anchor, interval)
    ensures NextOccurrence(rule, after, inclusive).Ok? && NextOccurrence(rule, after, inclusive).value.Some?
    ensures Beyond(NextOccurrence(rule, after, inclusive).value.value, after, inclusive)
            <==> Beyond(anchor, after, inclusive) || Beyond(Renewed(anchor, interval), after, inclusive)
  {
    ExpirationSteps(rule, anchor, interval, after, inclusive);
  }

  /** RELATIVE_TO_CASE_EVENT yields its one date whenever the horizon allows, even before the window. */
  lemma RelativeExpansion(rule: Rule, event: Day, start: Day, horizon: Day, limit: int)
    requires rule.rtype == RelativeToCaseEvent && rule.context.caseEventDate == Some(event)
    ensures var due := event + GetOr(rule.config.offsetDays, 0);
            Expansion(rule, start, horizon, limit) == Ok(if limit >= 1 && due <= horizon then [due] else [])
  {
  }
}
