/** What expansion promises for the repeating recurrence types, and where the code departs from it. */
module RecurrenceProperties {
  import opened Wrappers
  import opened Dates
  import opened Recurrence

  ghost predicate StrictlyIncreasing(r: seq<Day>) {
    forall i, j :: 0 <= i < j < |r| ==> r[i] < r[j]
  }

  /** `r` is f(lo), f(lo + 1), ... */
  ghost predicate Run(f: int -> Day, lo: int, r: seq<Day>) {
    forall i :: 0 <= i < |r| ==> r[i] == f(lo + i)
  }

  /** Asked for a date after f(j), the stepper answers f(j + 1). */
  ghost predicate StepsAt(next: Stepper, f: int -> Day, j: int) {
    next(f(j), false) == Ok(Some(f(j + 1)))
  }

  /** Expansion of a stepper that walks a sequence f from index i: it returns the next values of f,
      stopping at the limit, at the horizon, or where the stepper gives up after index `cap`. */
  lemma {:induction false} ExpandWalks(next: Stepper, f: int -> Day, i: int, cap: int, horizon: Day, limit: nat)
      returns (r: seq<Day>)
    requires i <= cap
    requires forall j :: i <= j < cap ==> StepsAt(next, f, j)
    requires limit <= cap - i || next(f(cap), false) == Ok(None)
    ensures ExpandFrom(next, false, f(i), false, horizon, limit) == Ok(r)
    ensures Run(f, i + 1, r) && |r| <= limit && i + |r| <= cap
    ensures forall x :: x in r ==> x <= horizon
    ensures |r| == limit || i + |r| == cap || f(i + 1 + |r|) > horizon
    decreases limit
  {
    r := [];
    if limit > 0 && i < cap {
      assert StepsAt(next, f, i);
      if f(i + 1) <= horizon {
        var rest := ExpandWalks(next, f, i + 1, cap, horizon, limit - 1);
        r := [f(i + 1)] + rest;
      }
    }
  }

  // -------------------------------------------------------------------------- what clamping means

  /** `x` is day `day` of that year and month, or the month's last day if the month is shorter. */
  predicate Clamped(x: Day, year: int, month: int, day: int) {
    ClampedBy(FromOrdinal, x, year, month, day)
  }

  /** The same for any reading of days as civil dates. */
  predicate ClampedBy(civil: Day -> Civil, x: Day, year: int, month: int, day: int) {
    && civil(x).year == year && civil(x).month == month && civil(x).day <= day
    && (civil(x).day == day || civil(x + 1).day == 1)
  }

  lemma ReadsAs(x: Day, c: Civil)
    requires ValidCivil(c) && x == ToOrdinal(c)
    ensures FromOrdinal(x) == c
  {
    OrdinalRoundTrip(c);
  }

  function NextMonth(year: int, month: int): Civil {
    if month == 12 then Civil(year + 1, 1, 1) else Civil(year, month + 1, 1)
  }

  lemma MonthEnds(year: int, month: int, x: Day)
    requires 1 <= month <= 12 && x == ToOrdinal(Civil(year, month, DaysInMonth(year, month)))
    ensures x + 1 == ToOrdinal(NextMonth(year, month))
  {
    YearStep(year);
  }

  lemma DayAfterMonth(year: int, month: int, x: Day)
    requires 1 <= month <= 12 && x == ToOrdinal(Civil(year, month, DaysInMonth(year, month)))
    ensures FromOrdinal(x + 1).day == 1
  {
    MonthEnds(year, month, x);
    ReadsAs(x + 1, NextMonth(year, month));
  }

  lemma ClampedReads(civil: Day -> Civil, x: Day, year: int, month: int, day: int, last: int)
    requires civil(x) == Civil(year, month, if day <= last then day else last)
    requires day > last ==> civil(x + 1).day == 1
    ensures ClampedBy(civil, x, year, month, day)
  {
  }

  /** An anniversary is that day of its year and month, or the last day of a month that is shorter. */
  lemma AnniversaryReads(month: int, day: int, year: int, x: Day)
    requires 1 <= month <= 12 && 1 <= day && x == Anniversary(month, day, year)
    ensures Clamped(x, year, month, day)
  {
    var last := DaysInMonth(year, month);
    ReadsAs(x, Civil(year, month, if day <= last then day else last));
    if day > last {
      DayAfterMonth(year, month, x);
    }
    ClampedReads(FromOrdinal, x, year, month, day, last);
  }

  lemma Successive(c: Civil, next: Civil, e: Civil)
    requires c.year == e.year && c.month == e.month && 1 <= c.day < e.day && Earlier(c, next) && (next == e || Earlier(next, e))
    ensures next.day > 1
  {
  }

  /** And there is no other: it is the latest day of that month not after `day`. */
  lemma ClampedIsLatest(x: Day, z: Day, year: int, month: int, day: int)
    requires Clamped(x, year, month, day)
    requires FromOrdinal(z).year == year && FromOrdinal(z).month == month && FromOrdinal(z).day <= day
    ensures z <= x
  {
    forall a, b | a < b {
      DaysAreOrdered(a, b);
    }
    LatestBy(FromOrdinal, x, z, year, month, day);
  }

  lemma LatestBy(civil: Day -> Civil, x: Day, z: Day, year: int, month: int, day: int)
    requires forall a, b :: a < b ==> Earlier(civil(a), civil(b))
    requires forall a :: civil(a).day >= 1
    requires ClampedBy(civil, x, year, month, day)
    requires civil(z).year == year && civil(z).month == month && civil(z).day <= day
    ensures z <= x
  {
    if x < z {
      assert Earlier(civil(x), civil(z)) && Earlier(civil(x), civil(x + 1));
      assert x + 1 < z ==> Earlier(civil(x + 1), civil(z));
      Successive(civil(x), civil(x + 1), civil(z));
    }
  }

  lemma DaysAreOrdered(x: Day, z: Day)
    requires x < z
    ensures Earlier(FromOrdinal(x), FromOrdinal(z))
  {
    OrdinalOrder(FromOrdinal(x), FromOrdinal(z));
  }

  /** The date `months` months on, reckoned in months since year 0. */
  lemma MonthStepReads(d: Day, months: int, year: int, month: int, x: Day)
    requires 1 <= month <= 12 && x == MonthStep(d, months)
    requires 12 * year + month == 12 * FromOrdinal(d).year + FromOrdinal(d).month + months
    ensures Clamped(x, year, month, FromOrdinal(d).day)
  {
    MonthsAfterReads(FromOrdinal(d), months, year, month, x);
  }

  lemma MonthsAfterReads(c: Civil, months: int, year: int, month: int, x: Day)
    requires ValidCivil(c) && 1 <= month <= 12 && x == MonthsAfter(c, months)
    requires 12 * year + month == 12 * c.year + c.month + months
    ensures Clamped(x, year, month, c.day)
  {
    var r := MonthsOn(c, months);
    MonthsAreUnique(year, month, r.0, r.1);
    AnniversaryReads(month, c.day, year, x);
  }

  lemma MonthsAreUnique(y: int, m: int, z: int, n: int)
    requires 1 <= m <= 12 && 1 <= n <= 12 && 12 * y + m == 12 * z + n
    ensures y == z && m == n
  {
  }

  /** One step of a custom interval goes on by the months first, to `moved`, and then by the days. */
  lemma IntervalStepReads(d: Day, months: int, days: int, year: int, month: int, moved: Day)
    requires 1 <= month <= 12 && IntervalStep(d, months, days) == moved + days
    requires 12 * year + month == 12 * FromOrdinal(d).year + FromOrdinal(d).month + months
    ensures months == 0 ==> moved == d
    ensures months != 0 ==> Clamped(moved, year, month, FromOrdinal(d).day)
  {
    IntervalStepSplits(d, months, days, moved);
    if months != 0 {
      MonthStepReads(d, months, year, month, moved);
    }
  }

  lemma IntervalStepSplits(d: Day, months: int, days: int, moved: Day)
    requires IntervalStep(d, months, days) == moved + days
    ensures moved == if months == 0 then d else MonthStep(d, months)
  {
  }

  /** So every date of a yearly expansion is that month and day, 29 February being the 28th in other years. */
  lemma AnnualDatesRead(rule: Rule, month: int, day: int, start: Day, horizon: Day, limit: int, r: seq<Day>, x: Day)
    requires Annual(rule, month, day) && Expansion(rule, start, horizon, limit) == Ok(r) && x in r
    ensures exists y :: Clamped(x, y, month, day)
  {
    var s := AnnualExpansion(rule, month, day, start, horizon, limit);
    ListedIsAnniversary(month, day, start, horizon, Nat(limit), r, x);
  }

  lemma ListedIsAnniversary(month: int, day: int, start: Day, horizon: Day, limit: nat, r: seq<Day>, x: Day)
    requires 1 <= month <= 12 && 1 <= day && x in r
    requires ExactlyFirst(Anniversaries(month, day), EveryYear(), start, horizon, limit, r)
    ensures exists y :: Clamped(x, y, month, day)
  {
    var i :| 0 <= i < |r| && r[i] == x;
    assert Reached(Anniversaries(month, day), EveryYear(), r[i]);
    var y :| EveryYear()(y) && x == Anniversaries(month, day)(y);
    AnniversaryReads(month, day, y, x);
  }

  // ------------------------------------------------------------------------- annual recurrences

  lemma AnniversaryYear(month: int, day: int, y: int)
    requires 1 <= month <= 12 && 1 <= day
    ensures YearOf(Anniversary(month, day, y)) == y
  {
    var last := DaysInMonth(y, month);
    OrdinalRoundTrip(Civil(y, month, if day <= last then day else last));
  }

  /** Clamping never makes two years' anniversaries meet or cross. */
  lemma AnniversaryOrder(month: int, day: int, y: int, z: int)
    requires 1 <= month <= 12 && 1 <= day
    ensures Anniversary(month, day, y) < Anniversary(month, day, z) <==> y < z
  {
    AnniversaryYear(month, day, y);
    AnniversaryYear(month, day, z);
    YearOrders(Anniversary(month, day, y), Anniversary(month, day, z));
  }

  lemma YearOrders(a: Day, b: Day)
    ensures YearOf(a) < YearOf(b) ==> a < b
    ensures YearOf(b) < YearOf(a) ==> b < a
  {
    if YearOf(a) < YearOf(b) {
      YearsIncrease(YearOf(a) + 1, YearOf(b));
    }
    if YearOf(b) < YearOf(a) {
      YearsIncrease(YearOf(b) + 1, YearOf(a));
    }
  }

  /** The year whose anniversary `_next_annual` returns. */
  function NextYear(month: int, day: int, after: Day, inclusive: bool, interval: int): int
    requires 1 <= month <= 12 && 1 <= day
  {
    YearOf(after) + if Beyond(Anniversary(month, day, YearOf(after)), after, inclusive) then 0 else interval
  }

  /** `_next_annual` returns the first anniversary beyond `after`, over all years. */
  lemma NextAnnualIsFirst(month: int, day: int, after: Day, inclusive: bool)
    requires 1 <= month <= 12 && 1 <= day
    ensures NextAnnual(month, day, after, inclusive) == Ok(Anniversary(month, day, NextYear(month, day, after, inclusive, 1)))
    ensures forall y :: Beyond(Anniversary(month, day, y), after, inclusive) <==> y >= NextYear(month, day, after, inclusive, 1)
  {
    forall y {
      BeyondFromNextYear(month, day, after, inclusive, y);
    }
  }

  lemma BeyondFromNextYear(month: int, day: int, after: Day, inclusive: bool, y: int)
    requires 1 <= month <= 12 && 1 <= day
    ensures Beyond(Anniversary(month, day, y), after, inclusive) <==> y >= NextYear(month, day, after, inclusive, 1)
  {
    var a := Anniversary(month, day, y);
    AnniversaryYear(month, day, y);
    YearOrders(after, a);
  }

  lemma YearAfter(month: int, day: int, y: int, interval: int)
    requires 1 <= month <= 12 && 1 <= day
    ensures NextYear(month, day, Anniversary(month, day, y), false, interval) == y + interval
  {
    AnniversaryYear(month, day, y);
  }

  /** The rules that recur every year on one month and day. */
  ghost predicate Annual(rule: Rule, month: int, day: int) {
    && 1 <= month <= 12 && 1 <= day
    && match rule.rtype {
       case FixedAnnualDate => rule.config.month == Some(month) && rule.config.day == Some(day)
       case NmlsAnnualRenewalWindow => month == GetOr(rule.config.windowEndMonth, 12) && day == GetOr(rule.config.windowEndDay, 31)
       case IssueAnniversary =>
         && IssueAnchor(rule.context).Some?
         && FromOrdinal(IssueAnchor(rule.context).value) == Civil(YearOf(IssueAnchor(rule.context).value), month, day)
         && GetOr(rule.config.intervalYears, 1) == 1
       case _ => false
     }
  }

  lemma AnnualSteps(rule: Rule, month: int, day: int, after: Day, inclusive: bool)
    requires Annual(rule, month, day)
    ensures StepperOf(rule)(after, inclusive)
         == Ok(Some(Anniversary(month, day, NextYear(month, day, after, inclusive, 1))))
  {
    NextAnnualIsFirst(month, day, after, inclusive);
  }

  ghost predicate Rising(f: int -> Day, dom: int -> bool) {
    forall i, j :: dom(i) && dom(j) && i < j ==> f(i) < f(j)
  }

  /** `d` is one of the dates f(k), k in `dom`. */
  ghost predicate Reached(f: int -> Day, dom: int -> bool, d: Day) {
    exists k :: dom(k) && d == f(k)
  }

  /** `r` is exactly the first `limit` of the dates f(k), k in `dom`, that fall in [start, horizon]:
      increasing, in the window, and none left out unless the limit was reached before it. */
  ghost predicate ExactlyFirst(f: int -> Day, dom: int -> bool, start: Day, horizon: Day, limit: nat, r: seq<Day>) {
    && |r| <= limit
    && StrictlyIncreasing(r)
    && (forall i :: 0 <= i < |r| ==> start <= r[i] <= horizon && Reached(f, dom, r[i]))
    && (forall k :: dom(k) && start <= f(k) <= horizon && f(k) !in r ==> |r| == limit && forall x :: x in r ==> x < f(k))
  }

  /** A run of consecutive values from the first one at or after `start`, cut at the limit, the
      horizon or the end of the domain, is exactly that. */
  lemma RunIsExactlyFirst(f: int -> Day, dom: int -> bool, lo: int, start: Day, horizon: Day, limit: nat, r: seq<Day>)
    requires Rising(f, dom)
    requires forall k :: dom(k) ==> (start <= f(k) <==> k >= lo)
    requires Run(f, lo, r) && |r| <= limit && forall i :: lo <= i < lo + |r| ==> dom(i)
    requires forall x :: x in r ==> x <= horizon
    requires |r| == limit || (dom(lo + |r|) && f(lo + |r|) > horizon) || forall k :: dom(k) ==> k < lo + |r|
    ensures ExactlyFirst(f, dom, start, horizon, limit, r)
  {
    forall i | 0 <= i < |r| ensures start <= r[i] <= horizon && Reached(f, dom, r[i]) {
      assert dom(lo + i) && r[i] == f(lo + i) && r[i] in r;
    }
    forall k | lo <= k < lo + |r| ensures f(k) in r {
      assert r[k - lo] == f(k);
    }
    forall k | dom(k) && start <= f(k) <= horizon && f(k) !in r
      ensures |r| == limit && forall x :: x in r ==> x < f(k)
    {
    }
  }

  /** One date in every calendar year. */
  function Anniversaries(month: int, day: int): int -> Day
    requires 1 <= month <= 12 && 1 <= day
  {
    y => Anniversary(month, day, y)
  }

  function EveryYear(): int -> bool {
    y => true
  }

  lemma AnniversariesRise(month: int, day: int)
    requires 1 <= month <= 12 && 1 <= day
    ensures Rising(Anniversaries(month, day), EveryYear())
    ensures forall y :: YearOf(Anniversaries(month, day)(y)) == y
  {
    forall y ensures YearOf(Anniversaries(month, day)(y)) == y {
      AnniversaryYear(month, day, y);
    }
    forall i, j | i < j ensures Anniversaries(month, day)(i) < Anniversaries(month, day)(j) {
      AnniversaryOrder(month, day, i, j);
    }
  }

  /** A stepper that starts at f(lo) and always moves on to the next value. */
  lemma ExpandEndless(next: Stepper, f: int -> Day, lo: int, start: Day, horizon: Day, limit: nat) returns (r: seq<Day>)
    requires next(start, true) == Ok(Some(f(lo)))
    requires forall i :: i >= lo ==> StepsAt(next, f, i)
    ensures ExpandFrom(next, false, start, true, horizon, limit) == Ok(r)
    ensures Run(f, lo, r) && |r| <= limit && forall x :: x in r ==> x <= horizon
    ensures |r| == limit || f(lo + |r|) > horizon
  {
    if limit == 0 || f(lo) > horizon {
      r := [];
    } else {
      var rest := ExpandWalks(next, f, lo, lo + limit, horizon, limit - 1);
      r := [f(lo)] + rest;
    }
  }

  /** FIXED_ANNUAL_DATE, NMLS_ANNUAL_RENEWAL_WINDOW and yearly ISSUE_ANNIVERSARY expand to exactly the
      first `limit` clamped anniversaries in the window, one per calendar year, 29 February included. */
  lemma AnnualExpansion(rule: Rule, month: int, day: int, start: Day, horizon: Day, limit: int) returns (r: seq<Day>)
    requires Annual(rule, month, day)
    ensures Expansion(rule, start, horizon, limit) == Ok(r)
    ensures ExactlyFirst(Anniversaries(month, day), EveryYear(), start, horizon, Nat(limit), r)
    ensures forall i :: 0 <= i < |r| ==> YearOf(r[i]) == YearOf(r[0]) + i
  {
    var f := Anniversaries(month, day);
    var y0 := NextYear(month, day, start, true, 1);
    AnniversariesRise(month, day);
    YearlySteps(rule, month, day, start);
    r := ExpandEndless(StepperOf(rule), f, y0, start, horizon, Nat(limit));
    assert EveryYear()(y0 + |r|);
    RunIsExactlyFirst(f, EveryYear(), y0, start, horizon, Nat(limit), r);
    forall i | 0 <= i < |r| ensures YearOf(r[i]) == y0 + i {
      assert r[i] == f(y0 + i);
    }
  }

  lemma YearlySteps(rule: Rule, month: int, day: int, start: Day)
    requires Annual(rule, month, day)
    ensures var f, y0 := Anniversaries(month, day), NextYear(month, day, start, true, 1);
            && (forall y :: start <= f(y) <==> y >= y0)
            && StepperOf(rule)(start, true) == Ok(Some(f(y0)))
            && forall y :: StepsAt(StepperOf(rule), f, y)
    ensures !SingleShot(rule.rtype)
  {
    AnnualSteps(rule, month, day, start, true);
    NextAnnualIsFirst(month, day, start, true);
    var f := Anniversaries(month, day);
    forall y ensures StepsAt(StepperOf(rule), f, y) {
      AnnualSteps(rule, month, day, f(y), false);
      YearAfter(month, day, y, 1);
    }
  }

  // -------------------------------------------------- issue anniversaries more than a year apart

  lemma {:induction false} SameRemainder(a: int, i: nat, k: int)
    requires k > 0
    ensures (a + i * k) % k == a % k
  {
    if i > 0 {
      SameRemainder(a, i - 1, k);
      var b := a + (i - 1) * k;
      assert a + i * k == b + k;
      assert b + k == k * (b / k + 1) + b % k;
      RemainderOf(b + k, k, b / k + 1, b % k);
    }
  }

  lemma RemainderOf(x: int, k: int, q: int, m: int)
    requires 0 <= m < k && x == k * q + m
    ensures x % k == m
  {
    var d := x / k - q;
    assert x % k == x - k * (x / k);
    assert x / k == q + d && k * (x / k) == k * q + k * d;
    assert m - k * d == x % k;
    assert d >= 1 ==> k * d >= k;
    assert d <= -1 ==> k * d <= -k;
  }

  ghost predicate IssueRule(rule: Rule, anchor: Day, interval: int) {
    rule.rtype == IssueAnniversary && IssueAnchor(rule.context) == Some(anchor) && GetOr(rule.config.intervalYears, 1) == interval
  }

  /** The first year an ISSUE_ANNIVERSARY expansion returns. */
  function FirstIssueYear(anchor: Day, start: Day, interval: int): int {
    NextYear(FromOrdinal(anchor).month, FromOrdinal(anchor).day, start, true, interval)
  }

  function AnchorDates(anchor: Day): int -> Day {
    Anniversaries(FromOrdinal(anchor).month, FromOrdinal(anchor).day)
  }

  /** Every `interval`-th value of f, from f(y0). */
  function Spaced(f: int -> Day, y0: int, interval: int): int -> Day {
    i => f(y0 + i * interval)
  }

  function IssueDates(anchor: Day, y0: int, interval: int): int -> Day {
    Spaced(AnchorDates(anchor), y0, interval)
  }

  ghost predicate SkipsAt(next: Stepper, f: int -> Day, interval: int, y: int) {
    next(f(y), false) == Ok(Some(f(y + interval)))
  }

  lemma SpacedSteps(next: Stepper, f: int -> Day, y0: int, interval: int)
    requires forall y :: SkipsAt(next, f, interval, y)
    ensures forall i :: StepsAt(next, Spaced(f, y0, interval), i)
  {
    forall i ensures StepsAt(next, Spaced(f, y0, interval), i) {
      assert SkipsAt(next, f, interval, y0 + i * interval);
      NextMultiple(i, interval);
    }
  }

  lemma NextMultiple(i: int, interval: int)
    ensures (i + 1) * interval == i * interval + interval
  {
  }

  lemma IssueSkips(rule: Rule, anchor: Day, interval: int, y: int)
    requires IssueRule(rule, anchor, interval)
    ensures SkipsAt(StepperOf(rule), AnchorDates(anchor), interval, y)
  {
    IssueNext(rule, anchor, interval, AnchorDates(anchor)(y), false);
    YearAfter(FromOrdinal(anchor).month, FromOrdinal(anchor).day, y, interval);
  }

  lemma IssueNext(rule: Rule, anchor: Day, interval: int, after: Day, inclusive: bool)
    requires IssueRule(rule, anchor, interval)
    ensures StepperOf(rule)(after, inclusive)
         == Ok(Some(AnniversaryOf(anchor, NextYear(FromOrdinal(anchor).month, FromOrdinal(anchor).day, after, inclusive, interval))))
  {
  }

  /** `d` lies a whole number of intervals of years after the anchor. */
  ghost predicate Aligned(d: Day, anchor: Day, interval: int)
    requires interval >= 1
  {
    AlignedBy(YearOf, d, anchor, interval)
  }

  ghost predicate AlignedBy(year: Day -> int, d: Day, anchor: Day, interval: int)
    requires interval >= 1
  {
    (year(d) - year(anchor)) % interval == 0
  }

  /** The dates are `interval` years apart, counted from the first year the window admits: nothing ties
      them to the issue year. For every interval, zero and negative ones included, they are strictly
      increasing exactly when the interval is positive or the limit or horizon leaves no second date, and in
      the window exactly when the interval is positive, or no date is listed, or the first is in the window
      and no earlier one follows it. With a positive interval they are whole intervals after issue if and
      only if the window's starting year is. */
  lemma IssueExpansion(rule: Rule, anchor: Day, interval: int, start: Day, horizon: Day, limit: int) returns (r: seq<Day>)
    requires IssueRule(rule, anchor, interval)
    ensures Expansion(rule, start, horizon, limit) == Ok(r) && |r| <= Nat(limit)
    ensures Run(IssueDates(anchor, FirstIssueYear(anchor, start, interval), interval), 0, r)
    ensures forall x :: x in r ==> x <= horizon
    ensures |r| == Nat(limit) || IssueDates(anchor, FirstIssueYear(anchor, start, interval), interval)(|r|) > horizon
    ensures var first := IssueDates(anchor, FirstIssueYear(anchor, start, interval), interval)(0);
            && (StrictlyIncreasing(r) <==> interval >= 1 || limit <= 1 || first > horizon)
            && ((forall x :: x in r ==> start <= x)
                <==> interval >= 1 || limit <= 0 || first > horizon || (start <= first && (interval == 0 || limit == 1)))
            && (interval >= 1 ==>
                  ((forall x :: x in r ==> Aligned(x, anchor, interval))
                   <==> limit <= 0 || first > horizon || Aligned(start, anchor, interval)))
  {
    var f, y0 := AnchorDates(anchor), FirstIssueYear(anchor, start, interval);
    IssueNext(rule, anchor, interval, start, true);
    forall y {
      IssueSkips(rule, anchor, interval, y);
    }
    r := SpacedExpansion(StepperOf(rule), f, y0, interval, start, horizon, Nat(limit));
    if interval >= 1 {
      IssueForward(anchor, interval, start, horizon, Nat(limit), r);
    } else {
      IssueBack(anchor, interval, start, horizon, Nat(limit), r);
    }
  }

  lemma IssueForward(anchor: Day, interval: int, start: Day, horizon: Day, limit: nat, r: seq<Day>)
    requires interval >= 1 && SpacedRun(AnchorDates(anchor), FirstIssueYear(anchor, start, interval), interval, horizon, limit, r)
    ensures StrictlyIncreasing(r) && forall x :: x in r ==> start <= x
    ensures (forall x :: x in r ==> Aligned(x, anchor, interval))
            <==> limit == 0 || IssueDates(anchor, FirstIssueYear(anchor, start, interval), interval)(0) > horizon
                 || Aligned(start, anchor, interval)
  {
    var f, y0 := AnchorDates(anchor), FirstIssueYear(anchor, start, interval);
    AnniversariesRise(FromOrdinal(anchor).month, FromOrdinal(anchor).day);
    SpacedOrder(f, y0, interval, horizon, limit, r);
    IssueYears(anchor, start, interval);
    SpacedWindow(YearOf, f, anchor, interval, start, y0, r);
  }

  lemma IssueBack(anchor: Day, interval: int, start: Day, horizon: Day, limit: nat, r: seq<Day>)
    requires interval <= 0 && SpacedRun(AnchorDates(anchor), FirstIssueYear(anchor, start, interval), interval, horizon, limit, r)
    ensures var first := IssueDates(anchor, FirstIssueYear(anchor, start, interval), interval)(0);
            && (StrictlyIncreasing(r) <==> limit <= 1 || first > horizon)
            && ((forall x :: x in r ==> start <= x)
                <==> limit == 0 || first > horizon || (start <= first && (interval == 0 || limit == 1)))
  {
    var f, y0 := AnchorDates(anchor), FirstIssueYear(anchor, start, interval);
    AnniversariesRise(FromOrdinal(anchor).month, FromOrdinal(anchor).day);
    EarlierYears(anchor, start);
    SpacedBack(f, y0, interval, start, YearOf(start), horizon, limit, r);
  }

  /** The dates of an expansion, `interval` years apart. */
  ghost predicate SpacedRun(f: int -> Day, y0: int, interval: int, horizon: Day, limit: nat, r: seq<Day>) {
    && Run(Spaced(f, y0, interval), 0, r) && |r| <= limit
    && (forall x :: x in r ==> x <= horizon)
    && (|r| == limit || Spaced(f, y0, interval)(|r|) > horizon)
  }

  lemma EarlierYears(anchor: Day, start: Day)
    ensures forall y :: y < YearOf(start) ==> AnchorDates(anchor)(y) < start
  {
    forall y | y < YearOf(start) ensures AnchorDates(anchor)(y) < start {
      EarlierYear(FromOrdinal(anchor).month, FromOrdinal(anchor).day, start, y);
    }
  }

  lemma EarlierYear(month: int, day: int, start: Day, y: int)
    requires 1 <= month <= 12 && 1 <= day && y < YearOf(start)
    ensures Anniversary(month, day, y) < start
  {
    AnniversaryYear(month, day, y);
    YearOrders(Anniversary(month, day, y), start);
  }

  lemma SpacedStill(f: int -> Day, y0: int, r: seq<Day>)
    requires Run(Spaced(f, y0, 0), 0, r)
    ensures forall x :: x in r ==> x == f(y0)
    ensures Spaced(f, y0, 0)(0) == f(y0)
  {
  }

  lemma SpacedSecond(f: int -> Day, y0: int, interval: int, r: seq<Day>)
    requires Run(Spaced(f, y0, interval), 0, r)
    ensures Spaced(f, y0, interval)(0) == f(y0)
    ensures |r| >= 1 ==> r[0] == f(y0)
    ensures |r| >= 2 ==> r[1] == f(y0 + interval)
  {
  }

  /** Going back, or standing still, only the first date can be in the window, or the same date each time. */
  lemma SpacedBack(f: int -> Day, y0: int, interval: int, start: Day, startYear: int, horizon: Day, limit: nat, r: seq<Day>)
    requires interval <= 0 && (y0 == startYear || y0 == startYear + interval)
    requires Rising(f, EveryYear()) && SpacedRun(f, y0, interval, horizon, limit, r)
    requires forall y :: y < startYear ==> f(y) < start
    ensures var first := Spaced(f, y0, interval)(0);
            && (StrictlyIncreasing(r) <==> limit <= 1 || first > horizon)
            && ((forall x :: x in r ==> start <= x)
                <==> limit == 0 || first > horizon || (start <= first && (interval == 0 || limit == 1)))
  {
    SpacedOrder(f, y0, interval, horizon, limit, r);
    SpacedSecond(f, y0, interval, r);
    if r != [] {
      assert r[0] in r;
      SpacedRises(f, y0, interval, 0, |r|);
      if interval == 0 {
        SpacedStill(f, y0, r);
      } else if limit > 1 {
        assert r[1] in r;
      }
    }
  }

  /** The date of year `y` lies in that year, and in the window. */
  ghost predicate DatedIn(year: Day -> int, f: int -> Day, start: Day, y: int) {
    start <= f(y) && year(f(y)) == y
  }

  lemma SpacedExpansion(next: Stepper, f: int -> Day, y0: int, interval: int, start: Day, horizon: Day, limit: nat)
      returns (r: seq<Day>)
    requires next(start, true) == Ok(Some(f(y0)))
    requires forall y :: SkipsAt(next, f, interval, y)
    ensures ExpandFrom(next, false, start, true, horizon, limit) == Ok(r) && |r| <= limit
    ensures Run(Spaced(f, y0, interval), 0, r)
    ensures forall x :: x in r ==> x <= horizon
    ensures |r| == limit || Spaced(f, y0, interval)(|r|) > horizon
  {
    SpacedSteps(next, f, y0, interval);
    r := ExpandEndless(next, Spaced(f, y0, interval), 0, start, horizon, limit);
  }

  lemma MultiplesOrder(i: int, j: int, interval: int)
    requires i < j
    ensures interval >= 1 ==> i * interval < j * interval
    ensures interval <= 0 ==> i * interval >= j * interval
  {
  }

  lemma SpacedRises(f: int -> Day, y0: int, interval: int, i: int, j: int)
    requires Rising(f, EveryYear()) && i < j
    ensures interval >= 1 ==> Spaced(f, y0, interval)(i) < Spaced(f, y0, interval)(j)
    ensures interval <= 0 ==> Spaced(f, y0, interval)(i) >= Spaced(f, y0, interval)(j)
  {
    var a, b := y0 + i * interval, y0 + j * interval;
    MultiplesOrder(i, j, interval);
    assert EveryYear()(a) && EveryYear()(b);
    assert a < b ==> f(a) < f(b);
    assert b < a ==> f(b) < f(a);
  }

  lemma SpacedOrder(f: int -> Day, y0: int, interval: int, horizon: Day, limit: nat, r: seq<Day>)
    requires Rising(f, EveryYear()) && SpacedRun(f, y0, interval, horizon, limit, r)
    ensures StrictlyIncreasing(r) <==> interval >= 1 || limit <= 1 || Spaced(f, y0, interval)(0) > horizon
    ensures r == [] <==> limit == 0 || Spaced(f, y0, interval)(0) > horizon
  {
    var g := Spaced(f, y0, interval);
    if r != [] {
      assert r[0] == g(0) && r[0] in r;
    }
    if interval >= 1 {
      forall i, j | 0 <= i < j < |r| ensures r[i] < r[j] {
        SpacedRises(f, y0, interval, i, j);
      }
    } else if r != [] && limit > 1 {
      SpacedRises(f, y0, interval, 0, |r|);
      SpacedRises(f, y0, interval, 0, 1);
      assert r[1] == g(1);
    }
  }

  lemma SpacedWindow(year: Day -> int, f: int -> Day, anchor: Day, interval: int, start: Day, y0: int, r: seq<Day>)
    requires interval >= 1 && (y0 == year(start) || y0 == year(start) + interval)
    requires forall y :: y >= y0 ==> DatedIn(year, f, start, y)
    requires Run(Spaced(f, y0, interval), 0, r)
    ensures forall x :: x in r ==> start <= x
    ensures (forall x :: x in r ==> AlignedBy(year, x, anchor, interval)) <==> r == [] || AlignedBy(year, start, anchor, interval)
  {
    forall i: nat {
      SpacedYear(year, f, anchor, interval, start, y0, i);
    }
    RunValues(Spaced(f, y0, interval), r);
  }

  lemma SpacedYear(year: Day -> int, f: int -> Day, anchor: Day, interval: int, start: Day, y0: int, i: nat)
    requires interval >= 1 && (y0 == year(start) || y0 == year(start) + interval)
    requires forall y :: y >= y0 ==> DatedIn(year, f, start, y)
    ensures var x := Spaced(f, y0, interval)(i);
            start <= x && (AlignedBy(year, x, anchor, interval) <==> AlignedBy(year, start, anchor, interval))
  {
    IssueRemainder(year(start), year(anchor), y0, i, interval);
    assert DatedIn(year, f, start, y0 + i * interval);
  }

  lemma RunValues(f: int -> Day, r: seq<Day>)
    requires Run(f, 0, r)
    ensures forall x :: x in r ==> exists i: nat :: x == f(i)
    ensures r != [] ==> f(0) in r
  {
    if r != [] {
      assert r[0] in r;
    }
  }

  lemma IssueYears(anchor: Day, start: Day, interval: int)
    requires interval >= 1
    ensures forall y :: y >= FirstIssueYear(anchor, start, interval) ==> DatedIn(YearOf, AnchorDates(anchor), start, y)
  {
    var c := FromOrdinal(anchor);
    NextYearIsBeyond(c.month, c.day, start, true, interval);
    AnniversariesRise(c.month, c.day);
    RisingFrom(YearOf, AnchorDates(anchor), start, FirstIssueYear(anchor, start, interval));
  }

  lemma RisingFrom(year: Day -> int, f: int -> Day, start: Day, y0: int)
    requires Rising(f, EveryYear()) && start <= f(y0) && forall y :: year(f(y)) == y
    ensures forall y :: y >= y0 ==> DatedIn(year, f, start, y)
  {
    forall y | y >= y0 ensures DatedIn(year, f, start, y) {
      assert EveryYear()(y0) && EveryYear()(y);
    }
  }

  lemma LaterYearIsLater(month: int, day: int, after: Day, y: int)
    requires 1 <= month <= 12 && 1 <= day && y > YearOf(after)
    ensures after < Anniversary(month, day, y)
  {
    AnniversaryYear(month, day, y);
    YearOrders(after, Anniversary(month, day, y));
  }

  lemma NextYearIsBeyond(month: int, day: int, after: Day, inclusive: bool, interval: int)
    requires 1 <= month <= 12 && 1 <= day && interval >= 1
    ensures Beyond(Anniversary(month, day, NextYear(month, day, after, inclusive, interval)), after, inclusive)
  {
    LaterYearIsLater(month, day, after, YearOf(after) + interval);
  }

  lemma IssueRemainder(startYear: int, issueYear: int, y0: int, i: nat, interval: int)
    requires interval >= 1 && (y0 == startYear || y0 == startYear + interval)
    ensures (y0 + i * interval - issueYear) % interval == (startYear - issueYear) % interval
    ensures i * interval >= 0
  {
    SameRemainder(startYear - issueYear, i, interval);
    SameRemainder(startYear - issueYear, i + 1, interval);
    assert (i + 1) * interval == i * interval + interval;
  }
}
