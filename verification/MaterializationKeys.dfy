/** The keys under which planned deadlines are stored: when a plan's keys are all different. */
module MaterializationKeys {
  import opened Wrappers
  import opened Dates
  import opened BusinessDays
  import opened Recurrence
  import opened RecurrenceProperties
  import opened Rules
  import opened Calculator
  import RecurrenceEdges

  ghost predicate KeysDiffer(ds: seq<PlannedDeadline>) {
    forall i, j :: 0 <= i < j < |ds| ==> ds[i].key != ds[j].key
  }

  ghost predicate TypesDiffer(ms: seq<Milestone>) {
    forall i, j :: 0 <= i < j < |ms| ==> ms[i].deadlineType != ms[j].deadlineType
  }

  /** Every deadline type is planned at most once per occurrence. */
  ghost predicate DistinctTypes(req: Request) {
    var offsets := Offsets(req.policy, req.defaultLeadDays);
    TypesDiffer(offsets) && forall m :: m in offsets ==> m.deadlineType != req.statutoryType
  }

  lemma {:induction false} InsertKeepsTypes(m: Milestone, s: seq<Milestone>)
    requires TypesDiffer(s) && forall x :: x in s ==> x.deadlineType != m.deadlineType
    ensures TypesDiffer(InsertByOffset(m, s))
    ensures forall x :: x in InsertByOffset(m, s) <==> x == m || x in s
  {
    if s != [] && m.offset < s[0].offset {
      InsertKeepsTypes(m, s[1..]);
      assert forall x :: x in s <==> x == s[0] || x in s[1..];
      var rest := InsertByOffset(m, s[1..]);
      forall j | 0 <= j < |rest| ensures rest[j].deadlineType != s[0].deadlineType {
        assert rest[j] in rest;
      }
    }
  }

  lemma {:induction false} SortKeepsTypes(s: seq<Milestone>)
    requires TypesDiffer(s)
    ensures TypesDiffer(SortByOffset(s))
    ensures forall x :: x in SortByOffset(s) <==> x in s
  {
    if s != [] {
      SortKeepsTypes(s[1..]);
      InsertKeepsTypes(s[0], SortByOffset(s[1..]));
      assert forall x :: x in s <==> x == s[0] || x in s[1..];
    }
  }

  // ------------------------------------------------------------------------------- within one occurrence

  lemma {:induction false} MilestoneKeysDiffer(req: Request, adjusted: Day, ms: seq<Milestone>)
    requires TypesDiffer(ms)
    ensures KeysDiffer(PlanMilestones(req, adjusted, ms))
  {
    if ms != [] {
      MilestoneKeysDiffer(req, adjusted, ms[1..]);
      var rest := PlanMilestones(req, adjusted, ms[1..]);
      forall d | d in rest ensures d.key != PlanMilestone(req, adjusted, ms[0]).key {
        PlannedFrom(req, adjusted, ms[1..], d);
      }
    }
  }

  lemma BlockKeysDiffer(req: Request, occurrence: Day)
    requires DistinctTypes(req)
    ensures KeysDiffer(PlanOccurrence(req, occurrence))
  {
    var adjusted := Adjusted(req, occurrence);
    SortKeepsTypes(Offsets(req.policy, req.defaultLeadDays));
    MilestoneKeysDiffer(req, adjusted, SortedOffsets(req));
    forall d | d in PlanMilestones(req, adjusted, SortedOffsets(req)) ensures d.key != PlanStatutory(req, occurrence).key {
      PlannedFrom(req, adjusted, SortedOffsets(req), d);
    }
  }

  // ------------------------------------------------------------------------------- across occurrences

  /** A deadline of type `t` planned for this occurrence, `offset` days ahead, falls within these days. */
  predicate Near(occurrence: Day, offset: int, due: Day) {
    occurrence - offset - 3 <= due <= occurrence - offset + 6
  }

  lemma AdjustedIsNear(req: Request, occurrence: Day)
    requires req.calendar == DEFAULT_CALENDAR
    ensures occurrence - 3 <= Adjusted(req, occurrence) <= occurrence + 3
  {
    AdjustmentMovesOnlyClosedDays(req.calendar, occurrence, req.policy.adjustment);
    if Adjusted(req, occurrence) != occurrence {
      DefaultAdjustment(occurrence);
    }
  }

  /** What kind of deadline has this key: the statutory one, or the milestone `m`. */
  ghost predicate KeyOf(req: Request, occurrence: Day, key: MaterializationKey, m: Option<Milestone>) {
    match m
    case None => key.deadlineType == req.statutoryType && Near(occurrence, 0, key.dueDate)
    case Some(m) =>
      && m in Offsets(req.policy, req.defaultLeadDays)
      && key.deadlineType == m.deadlineType && Near(occurrence, m.offset, key.dueDate)
  }

  lemma MilestoneKey(req: Request, occurrence: Day, m: Milestone)
    requires req.calendar == DEFAULT_CALENDAR && m in Offsets(req.policy, req.defaultLeadDays)
    ensures KeyOf(req, occurrence, PlanMilestone(req, Adjusted(req, occurrence), m).key, Some(m))
  {
    AdjustedIsNear(req, occurrence);
    NearMilestoneKey(req, occurrence, Adjusted(req, occurrence), m);
  }

  lemma NearMilestoneKey(req: Request, occurrence: Day, adjusted: Day, m: Milestone)
    requires req.calendar == DEFAULT_CALENDAR && m in Offsets(req.policy, req.defaultLeadDays)
    requires occurrence - 3 <= adjusted <= occurrence + 3
    ensures KeyOf(req, occurrence, PlanMilestone(req, adjusted, m).key, Some(m))
  {
    ShiftIsNear(adjusted - m.offset);
    MilestoneDate(req, adjusted, m);
  }

  lemma StatutoryKey(req: Request, occurrence: Day)
    requires req.calendar == DEFAULT_CALENDAR
    ensures KeyOf(req, occurrence, PlanStatutory(req, occurrence).key, None)
  {
    AdjustedIsNear(req, occurrence);
    StatutoryDate(req, occurrence);
  }

  lemma StatutoryDate(req: Request, occurrence: Day)
    ensures PlanStatutory(req, occurrence).key == Key(req, req.statutoryType, Adjusted(req, occurrence))
  {
  }

  lemma BlockKey(req: Request, occurrence: Day, d: PlannedDeadline) returns (m: Option<Milestone>)
    requires req.calendar == DEFAULT_CALENDAR && DistinctTypes(req) && d in PlanOccurrence(req, occurrence)
    ensures KeyOf(req, occurrence, d.key, m)
  {
    if d == PlanStatutory(req, occurrence) {
      StatutoryKey(req, occurrence);
      m := None;
    } else {
      PlannedFrom(req, Adjusted(req, occurrence), SortedOffsets(req), d);
      var found :| found in SortedOffsets(req) && d == PlanMilestone(req, Adjusted(req, occurrence), found);
      SortKeepsTypes(Offsets(req.policy, req.defaultLeadDays));
      MilestoneKey(req, occurrence, found);
      m := Some(found);
    }
  }

  predicate Far(a: Day, b: Day) {
    b - a > 9 || a - b > 9
  }

  lemma FarKeysDiffer(req: Request, a: Day, b: Day, j: MaterializationKey, m: Option<Milestone>, k: MaterializationKey, n: Option<Milestone>)
    requires DistinctTypes(req) && KeyOf(req, a, j, m) && KeyOf(req, b, k, n) && Far(a, b)
    ensures j != k
  {
    if j == k && m.Some? && n.Some? {
      SameType(Offsets(req.policy, req.defaultLeadDays), m.value, n.value);
    }
  }

  lemma SameType(ms: seq<Milestone>, m: Milestone, n: Milestone)
    requires TypesDiffer(ms) && m in ms && n in ms && m.deadlineType == n.deadlineType
    ensures m == n
  {
    var i :| 0 <= i < |ms| && ms[i] == m;
    var j :| 0 <= j < |ms| && ms[j] == n;
  }

  lemma FarBlocksDiffer(req: Request, a: Day, b: Day, d: PlannedDeadline, e: PlannedDeadline)
    requires req.calendar == DEFAULT_CALENDAR && DistinctTypes(req) && Far(a, b)
    requires d in PlanOccurrence(req, a) && e in PlanOccurrence(req, b)
    ensures d.key != e.key
  {
    var m := BlockKey(req, a, d);
    var n := BlockKey(req, b, e);
    FarKeysDiffer(req, a, b, d.key, m, e.key, n);
  }

  ghost predicate FarApart(occurrences: seq<Day>) {
    forall i, j :: 0 <= i < j < |occurrences| ==> Far(occurrences[i], occurrences[j])
  }

  lemma {:induction false} InSomeBlock(req: Request, occurrences: seq<Day>, d: PlannedDeadline)
    requires d in PlanAll(req, occurrences)
    ensures exists i :: 0 <= i < |occurrences| && d in PlanOccurrence(req, occurrences[i])
  {
    var last := |occurrences| - 1;
    if d !in PlanOccurrence(req, occurrences[last]) {
      InSomeBlock(req, occurrences[..last], d);
      var i :| 0 <= i < last && d in PlanOccurrence(req, occurrences[..last][i]);
      assert d in PlanOccurrence(req, occurrences[i]);
    }
  }

  lemma KeysJoin(ds: seq<PlannedDeadline>, es: seq<PlannedDeadline>)
    requires KeysDiffer(ds) && KeysDiffer(es)
    requires forall d, e :: d in ds && e in es ==> d.key != e.key
    ensures KeysDiffer(ds + es)
  {
    var all := ds + es;
    forall i, j | 0 <= i < j < |all| ensures all[i].key != all[j].key {
      if i < |ds| <= j {
        assert all[i] in ds && all[j] in es;
      }
    }
  }

  /** On the default calendar, occurrences more than nine days apart never share a key: business days move
      a statutory date by at most three days, and a milestone by at most three more. */
  lemma {:induction false} SpreadKeysDiffer(req: Request, occurrences: seq<Day>)
    requires req.calendar == DEFAULT_CALENDAR && DistinctTypes(req) && FarApart(occurrences)
    ensures KeysDiffer(PlanAll(req, occurrences))
  {
    if occurrences != [] {
      var last := |occurrences| - 1;
      var front := occurrences[..last];
      SpreadKeysDiffer(req, front);
      BlockKeysDiffer(req, occurrences[last]);
      forall d, e | d in PlanAll(req, front) && e in PlanOccurrence(req, occurrences[last]) ensures d.key != e.key {
        InSomeBlock(req, front, d);
        var i :| 0 <= i < last && d in PlanOccurrence(req, front[i]);
        FarBlocksDiffer(req, front[i], occurrences[last], d, e);
      }
      KeysJoin(PlanAll(req, front), PlanOccurrence(req, occurrences[last]));
    }
  }

  // --------------------------------------------------------------------------- rules that recur yearly

  lemma NextAnniversaryIsFar(month: int, day: int, y: int)
    requires 1 <= month <= 12 && 1 <= day
    ensures Anniversary(month, day, y + 1) - Anniversary(month, day, y) >= 363
  {
    YearStep(y);
    ClampedDay(month, day, y);
    MonthStarts(month, y);
  }

  function DayInYear(month: int, day: int, y: int): int
    requires 1 <= month <= 12
  {
    var last := DaysInMonth(y, month);
    if day <= last then day else last
  }

  lemma ClampedDay(month: int, day: int, y: int)
    requires 1 <= month <= 12
    ensures -1 <= DayInYear(month, day, y + 1) - DayInYear(month, day, y) <= 1
  {
  }

  lemma MonthStarts(month: int, y: int)
    requires 1 <= month <= 12
    ensures -1 <= DaysBeforeMonth(y + 1, month) - DaysBeforeMonth(y, month) <= 1
  {
  }

  lemma AnniversariesAreFar(month: int, day: int, y: int, z: int)
    requires 1 <= month <= 12 && 1 <= day && y < z
    ensures Anniversaries(month, day)(z) - Anniversaries(month, day)(y) > 9
  {
    NextAnniversaryIsFar(month, day, y);
    if y + 1 < z {
      AnniversaryOrder(month, day, y + 1, z);
    }
  }

  lemma AnnualIsFar(rule: Rule, month: int, day: int, start: Day, horizon: Day, limit: int) returns (r: seq<Day>)
    requires Annual(rule, month, day)
    ensures Expansion(rule, start, horizon, limit) == Ok(r) && FarApart(r)
  {
    r := AnnualExpansion(rule, month, day, start, horizon, limit);
    var f := Anniversaries(month, day);
    forall y, z | y < z ensures f(z) - f(y) > 9 {
      AnniversariesAreFar(month, day, y, z);
    }
    YearlyIsFar(f, start, horizon, Nat(limit), r);
  }

  /** A rule that recurs yearly, planned on the default calendar with every type once, gives every deadline
      a key of its own. */
  lemma AnnualKeysDiffer(req: Request, month: int, day: int)
    requires Annual(req.policy.rule, month, day) && req.calendar == DEFAULT_CALENDAR && DistinctTypes(req)
    ensures Plan(req).Ok? && KeysDiffer(Plan(req).value)
  {
    var r := AnnualIsFar(req.policy.rule, month, day, req.horizonStart, req.horizonEnd, req.maxOccurrences);
    SpreadKeysDiffer(req, r);
  }

  lemma YearlyIsFar(f: int -> Day, start: Day, horizon: Day, limit: nat, r: seq<Day>)
    requires forall y, z :: y < z ==> f(z) - f(y) > 9
    requires ExactlyFirst(f, EveryYear(), start, horizon, limit, r)
    ensures FarApart(r)
  {
    forall i, j | 0 <= i < j < |r| ensures Far(r[i], r[j]) {
      assert r[i] < r[j] && Reached(f, EveryYear(), r[i]) && Reached(f, EveryYear(), r[j]);
      var k :| r[i] == f(k);
      var l :| r[j] == f(l);
      assert l < k ==> f(k) - f(l) > 9;
      assert k < l ==> f(l) - f(k) > 9;
    }
  }

  // ------------------------------------------------------------------------------------- collisions

  /** An occurrence listed twice is planned twice under one key. */
  lemma RepeatedOccurrenceCollides(req: Request, occurrences: seq<Day>, i: nat, j: nat)
    requires i < j < |occurrences| && occurrences[i] == occurrences[j]
    ensures !KeysDiffer(PlanAll(req, occurrences))
  {
    var all := PlanAll(req, occurrences);
    var p := PlanHoldsEveryBlock(req, occurrences, i);
    var q := PlanHoldsEveryBlock(req, occurrences, j);
    assert occurrences[..j][..i] == occurrences[..i];
    var p2 := PlanHoldsEveryBlock(req, occurrences[..j], i);
    assert all[p] == all[p..p + |PlanOccurrence(req, occurrences[i])|][0];
    assert all[q] == all[q..q + |PlanOccurrence(req, occurrences[j])|][0];
    assert p < q && all[p].key == all[q].key;
  }

  /** EXPIRATION_ANNIVERSARY lists a date twice. */
  predicate ListsTwice(first: Day, second: Day, horizon: Day, limit: int) {
    first <= horizon && second <= horizon && limit > if first == second then 1 else 2
  }

  /** On every calendar, and for every interval, two deadlines then share a key. */
  lemma ExpirationKeysCollide(req: Request, anchor: Day, interval: int)
    requires RecurrenceEdges.ExpirationRule(req.policy.rule, anchor, interval)
    requires ListsTwice(RecurrenceEdges.FirstExpiry(anchor, interval, req.horizonStart),
                        RecurrenceEdges.SecondExpiry(anchor, interval, req.horizonStart), req.horizonEnd, req.maxOccurrences)
    ensures Plan(req).Ok? && !KeysDiffer(Plan(req).value)
  {
    var first := RecurrenceEdges.FirstExpiry(anchor, interval, req.horizonStart);
    var second := RecurrenceEdges.SecondExpiry(anchor, interval, req.horizonStart);
    var turns, limit := interval < 0, Nat(req.maxOccurrences);
    RecurrenceEdges.ExpirationExpansion(req.policy.rule, anchor, interval, req.horizonStart, req.horizonEnd, req.maxOccurrences);
    var r := RecurrenceEdges.TwoDates(first, second, turns, req.horizonEnd, limit);
    if first == second {
      SecondRepeats(first, turns, req.horizonEnd, limit);
      RepeatedOccurrenceCollides(req, r, 0, 1);
    } else {
      var i: nat := ThirdRepeats(first, second, turns, req.horizonEnd, limit);
      RepeatedOccurrenceCollides(req, r, i, 2);
    }
  }

  lemma SecondRepeats(date: Day, turns: bool, horizon: Day, limit: nat)
    requires date <= horizon && limit >= 2
    ensures var r := RecurrenceEdges.TwoDates(date, date, turns, horizon, limit);
            |r| >= 2 && r[0] == r[1]
  {
  }

  lemma ThirdRepeats(first: Day, second: Day, turns: bool, horizon: Day, limit: nat) returns (i: nat)
    requires first <= horizon && second <= horizon && limit >= 3
    ensures var r := RecurrenceEdges.TwoDates(first, second, turns, horizon, limit);
            i < 2 < |r| && r[i] == r[2]
  {
    i := if turns then 0 else 1;
  }

  lemma RenewedIsFar(anchor: Day, interval: int)
    ensures RecurrenceEdges.Renewed(anchor, interval) != anchor ==> Far(RecurrenceEdges.Renewed(anchor, interval), anchor)
  {
    var c := FromOrdinal(anchor);
    RecurrenceEdges.OwnAnniversary(anchor);
    forall y, z | y < z ensures AnchorDates(anchor)(z) - AnchorDates(anchor)(y) > 9 {
      AnniversariesAreFar(c.month, c.day, y, z);
    }
    FarAround(AnchorDates(anchor), YearOf(anchor), interval);
  }

  lemma FarAround(f: int -> Day, y: int, k: int)
    requires forall a, b :: a < b ==> f(b) - f(a) > 9
    ensures f(y + k) == f(y) || Far(f(y + k), f(y))
  {
    assert k > 0 ==> f(y + k) - f(y) > 9;
    assert k < 0 ==> f(y) - f(y + k) > 9;
  }

  lemma TwoDatesAreFar(first: Day, second: Day, turns: bool, horizon: Day, limit: int)
    requires !ListsTwice(first, second, horizon, limit) && (first == second || Far(first, second))
    ensures FarApart(RecurrenceEdges.TwoDates(first, second, turns, horizon, Nat(limit)))
  {
    var r := RecurrenceEdges.TwoDates(first, second, turns, horizon, Nat(limit));
    assert |r| <= 2;
    if |r| == 2 {
      assert r[0] == first && r[1] == second;
    }
  }

  /** On the default calendar, with every type once, the keys of an EXPIRATION_ANNIVERSARY plan are all
      different if and only if the horizon cuts off one of its two dates, or the limit stops it before
      either comes again. */
  lemma ExpirationKeysDiffer(req: Request, anchor: Day, interval: int)
    requires RecurrenceEdges.ExpirationRule(req.policy.rule, anchor, interval)
    requires req.calendar == DEFAULT_CALENDAR && DistinctTypes(req)
    ensures var first := RecurrenceEdges.FirstExpiry(anchor, interval, req.horizonStart);
            var second := RecurrenceEdges.SecondExpiry(anchor, interval, req.horizonStart);
            && Plan(req).Ok?
            && (KeysDiffer(Plan(req).value)
                <==> first > req.horizonEnd || second > req.horizonEnd || req.maxOccurrences <= if first == second then 1 else 2)
  {
    var first := RecurrenceEdges.FirstExpiry(anchor, interval, req.horizonStart);
    var second := RecurrenceEdges.SecondExpiry(anchor, interval, req.horizonStart);
    if ListsTwice(first, second, req.horizonEnd, req.maxOccurrences) {
      ExpirationKeysCollide(req, anchor, interval);
    } else {
      RenewedIsFar(anchor, interval);
      TwoDatesAreFar(first, second, interval < 0, req.horizonEnd, req.maxOccurrences);
      RecurrenceEdges.ExpirationExpansion(req.policy.rule, anchor, interval, req.horizonStart, req.horizonEnd, req.maxOccurrences);
      SpreadKeysDiffer(req, RecurrenceEdges.TwoDates(first, second, interval < 0, req.horizonEnd, Nat(req.maxOccurrences)));
    }
  }

  /** The licence that expired on 15 June 2025, planned for 2026 with room for two dates, collides. */
  lemma RenewalPlanCollides(req: Request, anchor: Day, renewed: Day)
    requires anchor == RecurrenceEdges.On(2025, 6, 15) && renewed == RecurrenceEdges.On(2026, 6, 15)
    requires req.horizonStart == RecurrenceEdges.On(2026, 1, 1) && req.horizonEnd == RecurrenceEdges.On(2026, 12, 31)
    requires RecurrenceEdges.ExpirationRule(req.policy.rule, anchor, 1) && req.maxOccurrences == 2
    ensures Plan(req).Ok? && !KeysDiffer(Plan(req).value)
  {
    RecurrenceEdges.RenewalRepeats(req.policy.rule, anchor, req.horizonStart, req.horizonEnd, renewed);
    RepeatedOccurrenceCollides(req, [renewed, renewed], 0, 1);
  }
}
