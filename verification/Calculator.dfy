/** Planning one obligation's statutory deadlines and the internal milestones before each. */
module Calculator {
  import opened Wrappers
  import opened Dates
  import opened BusinessDays
  import opened Recurrence
  import opened Rules

  /** What the materialization key is a digest of; the digest itself is taken to be injective. */
  datatype MaterializationKey = MaterializationKey(obligationId: int, deadlineType: DeadlineType, dueDate: Day, ruleId: Option<int>)

  datatype PlannedDeadline = PlannedDeadline(
    deadlineType: DeadlineType, dueDate: Day, severity: Severity, internalTarget: Option<Day>,
    appliedAdjustment: Option<AdjustmentPolicy>, key: MaterializationKey, needsManualReview: bool)

  /** Everything about one call of `plan_deadlines` but the occurrences. */
  datatype Request = Request(
    obligationId: int, policy: DeadlinePolicy, horizonStart: Day, horizonEnd: Day, defaultLeadDays: int,
    calendar: BusinessCalendar, statutoryType: DeadlineType, today: Day, maxOccurrences: int)

  predicate IsInternal(t: DeadlineType) {
    t in {InternalStart, VendorOutreach, InformationDue, DocumentPacketDue, FormCompletionDue, SignatureDue, SubmissionDue, FollowUp}
  }

  function SeverityFor(t: DeadlineType, daysUntil: int): Severity {
    var statutory := !IsInternal(t);
    if daysUntil < 0 then if statutory then RegulatoryRisk else Critical
    else if daysUntil <= 3 then if statutory then Critical else Important
    else if daysUntil <= 14 then if statutory then Important else Normal
    else if daysUntil <= 60 then Normal
    else Informational
  }

  function Key(req: Request, t: DeadlineType, due: Day): MaterializationKey {
    MaterializationKey(req.obligationId, t, due, req.policy.id)
  }

  // ---------------------------------------------------------------- ordering the offsets, longest first

  function InsertByOffset(m: Milestone, s: seq<Milestone>): seq<Milestone> {
    if s == [] || m.offset >= s[0].offset then [m] + s else [s[0]] + InsertByOffset(m, s[1..])
  }

  /** `sorted(..., key=lambda kv: -kv[1])`: a stable sort by falling offset. */
  function SortByOffset(s: seq<Milestone>): seq<Milestone> {
    if s == [] then [] else InsertByOffset(s[0], SortByOffset(s[1..]))
  }

  function WithOffset(s: seq<Milestone>, offset: int): seq<Milestone> {
    if s == [] then []
    else (if s[0].offset == offset then [s[0]] else []) + WithOffset(s[1..], offset)
  }

  lemma {:induction false} InsertKeepsMilestones(m: Milestone, s: seq<Milestone>)
    ensures multiset(InsertByOffset(m, s)) == multiset{m} + multiset(s)
  {
    if s != [] && m.offset < s[0].offset {
      InsertKeepsMilestones(m, s[1..]);
      assert s == [s[0]] + s[1..];
    }
  }

  lemma {:induction false} InsertKeepsOrder(m: Milestone, s: seq<Milestone>)
    requires NonIncreasing(s)
    ensures NonIncreasing(InsertByOffset(m, s))
  {
    if s != [] && m.offset < s[0].offset {
      InsertKeepsOrder(m, s[1..]);
      InsertKeepsMilestones(m, s[1..]);
      var rest := InsertByOffset(m, s[1..]);
      forall x | x in rest ensures x.offset <= s[0].offset {
        assert x in multiset(rest);
      }
    }
  }

  lemma {:induction false} InsertIsStable(m: Milestone, s: seq<Milestone>, offset: int)
    ensures WithOffset(InsertByOffset(m, s), offset) == WithOffset([m] + s, offset)
  {
    assert ([m] + s)[1..] == s;
    if s != [] && m.offset < s[0].offset {
      InsertIsStable(m, s[1..], offset);
      assert ([m] + s[1..])[1..] == s[1..];
      assert ([s[0]] + InsertByOffset(m, s[1..]))[1..] == InsertByOffset(m, s[1..]);
    }
  }

  /** The sort orders by falling offset, keeps exactly the same milestones, and keeps the given order
      among equal offsets. */
  lemma {:induction false} SortIsStable(s: seq<Milestone>, offset: int)
    ensures NonIncreasing(SortByOffset(s))
    ensures multiset(SortByOffset(s)) == multiset(s)
    ensures WithOffset(SortByOffset(s), offset) == WithOffset(s, offset)
  {
    if s != [] {
      var rest := SortByOffset(s[1..]);
      SortIsStable(s[1..], offset);
      InsertKeepsOrder(s[0], rest);
      InsertKeepsMilestones(s[0], rest);
      InsertIsStable(s[0], rest, offset);
      assert s == [s[0]] + s[1..];
      assert ([s[0]] + rest)[1..] == rest;
    }
  }

  // --------------------------------------------------------------------------------------- the plan

  function Shift(cal: BusinessCalendar, target: Day): Day {
    if !IsBusinessDay(cal, target) then NextBusinessDay(cal, target, true) else target
  }

  function PlanMilestone(req: Request, adjusted: Day, m: Milestone): PlannedDeadline {
    var target := adjusted - m.offset;
    var shifted := Shift(req.calendar, target);
    PlannedDeadline(m.deadlineType, shifted, SeverityFor(m.deadlineType, shifted - req.today), Some(shifted),
                    if shifted != target then Some(NextDay) else None, Key(req, m.deadlineType, shifted), false)
  }

  /** The milestones for one adjusted statutory date, skipping those that would fall past the horizon. */
  function PlanMilestones(req: Request, adjusted: Day, ms: seq<Milestone>): seq<PlannedDeadline> {
    if ms == [] then []
    else (if adjusted - ms[0].offset > req.horizonEnd then [] else [PlanMilestone(req, adjusted, ms[0])])
         + PlanMilestones(req, adjusted, ms[1..])
  }

  function PlanStatutory(req: Request, occurrence: Day): PlannedDeadline {
    var (adjusted, applied) := ApplyAdjustment(req.calendar, occurrence, req.policy.adjustment);
    var lead := Lead(req.policy, req.defaultLeadDays);
    PlannedDeadline(req.statutoryType, adjusted, SeverityFor(req.statutoryType, adjusted - req.today),
                    if lead > 0 then Some(adjusted - lead) else None, applied, Key(req, req.statutoryType, adjusted),
                    applied in {Some(ManualReview), Some(JurisdictionSpecific)})
  }

  function SortedOffsets(req: Request): seq<Milestone> {
    SortByOffset(Offsets(req.policy, req.defaultLeadDays))
  }

  function Adjusted(req: Request, occurrence: Day): Day {
    ApplyAdjustment(req.calendar, occurrence, req.policy.adjustment).0
  }

  function PlanOccurrence(req: Request, occurrence: Day): seq<PlannedDeadline> {
    [PlanStatutory(req, occurrence)] + PlanMilestones(req, Adjusted(req, occurrence), SortedOffsets(req))
  }

  function PlanAll(req: Request, occurrences: seq<Day>): seq<PlannedDeadline> {
    if occurrences == [] then []
    else PlanAll(req, occurrences[..|occurrences| - 1]) + PlanOccurrence(req, occurrences[|occurrences| - 1])
  }

  function Plan(req: Request): Result<seq<PlannedDeadline>, Error> {
    var occurrences := Expansion(req.policy.rule, req.horizonStart, req.horizonEnd, req.maxOccurrences);
    if occurrences.Err? then Err(occurrences.error) else Ok(PlanAll(req, occurrences.value))
  }

  lemma {:induction false} PlanMilestonesExtends(req: Request, adjusted: Day, ms: seq<Milestone>, m: Milestone)
    ensures PlanMilestones(req, adjusted, ms + [m])
         == PlanMilestones(req, adjusted, ms) + if adjusted - m.offset > req.horizonEnd then [] else [PlanMilestone(req, adjusted, m)]
  {
    if ms == [] {
      assert ms + [m] == [m];
      assert [m][1..] == [];
    } else {
      PlanMilestonesExtends(req, adjusted, ms[1..], m);
      assert (ms + [m])[1..] == ms[1..] + [m];
    }
  }

  lemma PlanAllExtends(req: Request, occurrences: seq<Day>, i: nat)
    requires i < |occurrences|
    ensures PlanAll(req, occurrences[..i + 1])
         == PlanAll(req, occurrences[..i]) + [PlanStatutory(req, occurrences[i])]
            + PlanMilestones(req, Adjusted(req, occurrences[i]), SortedOffsets(req))
  {
    assert occurrences[..i + 1][..i] == occurrences[..i];
  }

  method PlanDeadlines(req: Request) returns (r: Result<seq<PlannedDeadline>, Error>)
    ensures r == Plan(req)
  {
    var expanded := Expand(req.policy.rule, req.horizonStart, req.horizonEnd, req.maxOccurrences);
    if expanded.Err? {
      return Err(expanded.error);
    }
    var occurrences := expanded.value;
    var offsets := ResolveOffsets(req.policy, req.defaultLeadDays);
    var ms := SortByOffset(offsets);
    var planned := [];
    for i := 0 to |occurrences|
      invariant planned == PlanAll(req, occurrences[..i])
    {
      var occurrence := occurrences[i];
      var adjusted := Adjusted(req, occurrence);
      ghost var before := planned;
      planned := planned + [PlanStatutory(req, occurrence)];
      for k := 0 to |ms|
        invariant planned == before + [PlanStatutory(req, occurrence)] + PlanMilestones(req, adjusted, ms[..k])
      {
        PlanMilestonesExtends(req, adjusted, ms[..k], ms[k]);
        assert ms[..k + 1] == ms[..k] + [ms[k]];
        if adjusted - ms[k].offset > req.horizonEnd {
          continue;
        }
        planned := planned + [PlanMilestone(req, adjusted, ms[k])];
      }
      assert ms[..|ms|] == ms;
      PlanAllExtends(req, occurrences, i);
    }
    assert occurrences[..|occurrences|] == occurrences;
    r := Ok(planned);
  }

  // ------------------------------------------------------------------------- what the plan promises

  lemma ShiftIsNext(cal: BusinessCalendar, target: Day)
    ensures Shift(cal, target) == NextBusinessDay(cal, target, true)
  {
  }

  /** The milestones planned are exactly those whose target is within the horizon. */
  lemma {:induction false} PlannedFrom(req: Request, adjusted: Day, ms: seq<Milestone>, d: PlannedDeadline)
    ensures d in PlanMilestones(req, adjusted, ms)
            <==> exists m :: m in ms && d == PlanMilestone(req, adjusted, m) && adjusted - m.offset <= req.horizonEnd
  {
    if ms != [] {
      PlannedFrom(req, adjusted, ms[1..], d);
      assert forall m :: m in ms <==> m == ms[0] || m in ms[1..];
    }
  }

  ghost predicate DatesInOrder(ds: seq<PlannedDeadline>) {
    forall i, j :: 0 <= i < j < |ds| ==> ds[i].dueDate <= ds[j].dueDate
  }

  /** On every calendar the milestones of one statutory date come in non-decreasing date order. */
  lemma {:induction false} MilestonesInOrder(req: Request, adjusted: Day, ms: seq<Milestone>)
    requires NonIncreasing(ms)
    ensures DatesInOrder(PlanMilestones(req, adjusted, ms))
  {
    if ms != [] {
      var rest := PlanMilestones(req, adjusted, ms[1..]);
      MilestonesInOrder(req, adjusted, ms[1..]);
      forall d | d in rest ensures Shift(req.calendar, adjusted - ms[0].offset) <= d.dueDate {
        PlannedFrom(req, adjusted, ms[1..], d);
        var m :| m in ms[1..] && d == PlanMilestone(req, adjusted, m);
        ShiftKeepsOrder(req.calendar, adjusted - ms[0].offset, adjusted - m.offset);
      }
    }
  }

  lemma ShiftKeepsOrder(cal: BusinessCalendar, a: Day, b: Day)
    requires a <= b
    ensures Shift(cal, a) <= Shift(cal, b)
  {
    ShiftIsNext(cal, a);
    ShiftIsNext(cal, b);
    NextIsMonotone(cal, a, b, true);
  }

  lemma ShiftIsNear(target: Day)
    ensures target <= Shift(DEFAULT_CALENDAR, target) <= target + 3
  {
    ShiftIsNext(DEFAULT_CALENDAR, target);
    DefaultNextIsLeast(target, true);
  }

  /** Not after a business-day statutory date; and with three days or more, on the default calendar, not
      after any. */
  ghost predicate InTime(cal: BusinessCalendar, adjusted: Day, offset: int, due: Day) {
    && (IsBusinessDay(cal, adjusted) ==> due <= adjusted)
    && (cal == DEFAULT_CALENDAR && offset >= 3 ==> due <= adjusted)
  }

  /** A milestone before a business-day statutory date never passes it, on any calendar; three days
      before any date it never passes it on the default calendar. */
  lemma MilestoneBeforeDue(cal: BusinessCalendar, adjusted: Day, offset: int)
    requires offset >= 0
    ensures InTime(cal, adjusted, offset, Shift(cal, adjusted - offset))
  {
    if IsBusinessDay(cal, adjusted) {
      ShiftKeepsOrder(cal, adjusted - offset, adjusted);
    }
    if cal == DEFAULT_CALENDAR {
      ShiftIsNear(adjusted - offset);
    }
  }

  /** `d` is the milestone planned for configured offset `m`, in time for the statutory date. */
  ghost predicate PlannedAhead(req: Request, adjusted: Day, m: Milestone, d: PlannedDeadline) {
    m in Offsets(req.policy, req.defaultLeadDays) && Ahead(req, adjusted, m, d)
  }

  ghost predicate Ahead(req: Request, adjusted: Day, m: Milestone, d: PlannedDeadline) {
    d == PlanMilestone(req, adjusted, m) && InTime(req.calendar, adjusted, m.offset, d.dueDate)
  }

  lemma MilestonesPlannedAhead(req: Request, adjusted: Day, d: PlannedDeadline)
    requires forall m :: m in Offsets(req.policy, req.defaultLeadDays) ==> m.offset >= 0
    requires d in PlanMilestones(req, adjusted, SortedOffsets(req))
    ensures exists m :: PlannedAhead(req, adjusted, m, d)
  {
    PlannedFrom(req, adjusted, SortedOffsets(req), d);
    var m :| m in SortedOffsets(req) && d == PlanMilestone(req, adjusted, m);
    SortKeepsMembers(Offsets(req.policy, req.defaultLeadDays), m);
    MilestonePlannedAhead(req, adjusted, m);
    assert PlannedAhead(req, adjusted, m, d);
  }

  lemma SortKeepsMembers(s: seq<Milestone>, m: Milestone)
    ensures m in SortByOffset(s) <==> m in s
  {
    SortIsStable(s, 0);
    assert m in SortByOffset(s) <==> m in multiset(SortByOffset(s));
  }

  lemma MilestonePlannedAhead(req: Request, adjusted: Day, m: Milestone)
    requires m.offset >= 0
    ensures Ahead(req, adjusted, m, PlanMilestone(req, adjusted, m))
  {
    MilestoneBeforeDue(req.calendar, adjusted, m.offset);
    MilestoneDate(req, adjusted, m);
  }

  lemma MilestoneDate(req: Request, adjusted: Day, m: Milestone)
    ensures PlanMilestone(req, adjusted, m).dueDate == Shift(req.calendar, adjusted - m.offset)
    ensures PlanMilestone(req, adjusted, m).deadlineType == m.deadlineType
    ensures PlanMilestone(req, adjusted, m).key == Key(req, m.deadlineType, Shift(req.calendar, adjusted - m.offset))
  {
  }

  /** The levels of severity, each by the days that call for it. */
  lemma SeverityExactly(t: DeadlineType, days: int)
    ensures var s, statutory := SeverityFor(t, days), t in {StatutoryDue, BondExpiry, AnnualReportDue, DocumentExpiry};
            && (s == RegulatoryRisk <==> statutory && days < 0)
            && (s == Critical <==> if statutory then 0 <= days <= 3 else days < 0)
            && (s == Important <==> if statutory then 4 <= days <= 14 else 0 <= days <= 3)
            && (s == Normal <==> 15 <= days <= 60 || (!statutory && 4 <= days <= 14))
            && (s == Informational <==> days > 60)
  {
  }

  /** The statutory deadline of an occurrence: its date, its lead time before, and what the policy did. */
  lemma StatutoryFields(req: Request, occurrence: Day)
    ensures var d, adjusted := PlanStatutory(req, occurrence), Adjusted(req, occurrence);
            var closed, policy := !IsBusinessDay(req.calendar, occurrence), req.policy.adjustment;
            var lead := if req.policy.leadTimeDays.Some? then req.policy.leadTimeDays.value else req.defaultLeadDays;
            && d.deadlineType == req.statutoryType && d.dueDate == adjusted
            && d.severity == SeverityFor(req.statutoryType, adjusted - req.today)
            && d.internalTarget == (if lead > 0 then Some(adjusted - lead) else None)
            && d.appliedAdjustment == (if closed && policy in {NextDay, PreviousDay, JurisdictionSpecific, ManualReview} then Some(policy) else None)
            && (d.needsManualReview <==> closed && policy in {JurisdictionSpecific, ManualReview})
            && d.key == MaterializationKey(req.obligationId, req.statutoryType, adjusted, req.policy.id)
  {
    AdjustmentReported(req.calendar, occurrence, req.policy.adjustment);
  }

  /** A milestone: the first business day from its offset before the statutory date on. */
  lemma MilestoneFields(req: Request, adjusted: Day, m: Milestone)
    ensures var d, target := PlanMilestone(req, adjusted, m), adjusted - m.offset;
            && d.deadlineType == m.deadlineType && d.dueDate == NextBusinessDay(req.calendar, target, true)
            && d.severity == SeverityFor(m.deadlineType, d.dueDate - req.today)
            && d.internalTarget == Some(d.dueDate) && !d.needsManualReview
            && d.appliedAdjustment == (if d.dueDate != target then Some(NextDay) else None)
            && d.key == MaterializationKey(req.obligationId, m.deadlineType, d.dueDate, req.policy.id)
  {
    ShiftIsNext(req.calendar, adjusted - m.offset);
  }

  /** What is planned for one occurrence: the statutory date first, then milestones in date order, each
      from a configured offset and ahead of the statutory date as `PlannedAhead` says. */
  lemma OccurrencePlan(req: Request, occurrence: Day)
    requires forall m :: m in Offsets(req.policy, req.defaultLeadDays) ==> m.offset >= 0
    ensures var block, adjusted := PlanOccurrence(req, occurrence), Adjusted(req, occurrence);
            && block[0].dueDate == adjusted && block[0].deadlineType == req.statutoryType
            && DatesInOrder(block[1..])
            && forall d :: d in block[1..] ==> exists m :: PlannedAhead(req, adjusted, m, d)
  {
    var adjusted := Adjusted(req, occurrence);
    SortIsStable(Offsets(req.policy, req.defaultLeadDays), 0);
    MilestonesInOrder(req, adjusted, SortedOffsets(req));
    var rest := PlanMilestones(req, adjusted, SortedOffsets(req));
    assert PlanOccurrence(req, occurrence)[1..] == rest;
    forall d | d in rest ensures exists m :: PlannedAhead(req, adjusted, m, d) {
      MilestonesPlannedAhead(req, adjusted, d);
    }
  }

  /** Every occurrence's block appears whole in the plan, in order of occurrence. */
  lemma {:induction false} PlanHoldsEveryBlock(req: Request, occurrences: seq<Day>, i: nat) returns (lo: nat)
    requires i < |occurrences|
    ensures lo == |PlanAll(req, occurrences[..i])|
    ensures lo + |PlanOccurrence(req, occurrences[i])| <= |PlanAll(req, occurrences)|
    ensures PlanAll(req, occurrences)[lo..lo + |PlanOccurrence(req, occurrences[i])|] == PlanOccurrence(req, occurrences[i])
  {
    var last := |occurrences| - 1;
    if i == last {
      lo := |PlanAll(req, occurrences[..last])|;
    } else {
      var front := occurrences[..last];
      assert front[..i] == occurrences[..i] && front[i] == occurrences[i];
      lo := PlanHoldsEveryBlock(req, front, i);
    }
  }
}
