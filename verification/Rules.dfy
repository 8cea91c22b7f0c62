/** Deadline policies and the scaling of the default milestone ladder to a lead time. */
module Rules {
  import opened Wrappers
  import opened BusinessDays
  import opened Recurrence

  datatype DeadlineType =
    | InternalStart | VendorOutreach | InformationDue | DocumentPacketDue | FormCompletionDue
    | SignatureDue | SubmissionDue | StatutoryDue | BondExpiry | AnnualReportDue | DocumentExpiry | FollowUp

  datatype Severity = Informational | Normal | Important | Critical | RegulatoryRisk

  datatype Milestone = Milestone(deadlineType: DeadlineType, offset: int)

  /** The default ladder, in its declared order, in days before the statutory date. */
  const DEFAULT_MILESTONES: seq<Milestone> := [
    Milestone(InternalStart, 30), Milestone(VendorOutreach, 28), Milestone(InformationDue, 21),
    Milestone(DocumentPacketDue, 16), Milestone(FormCompletionDue, 10), Milestone(SignatureDue, 6),
    Milestone(SubmissionDue, 3)]

  const BASE_START := 30

  datatype DeadlinePolicy = DeadlinePolicy(
    id: Option<int>, rule: Rule, adjustment: AdjustmentPolicy, leadTimeDays: Option<int>, milestones: seq<Milestone>)

  lemma Quotient(n: int, d: int)
    requires d > 0
    ensures n == n / d * d + n % d && 0 <= n % d < d && (n / d + 1) * d == n / d * d + d
  {
  }

  /** n / d rounded to the nearest integer, ties to even. */
  function RoundHalfEven(n: int, d: int): (r: int)
    requires d > 0
    ensures -d <= 2 * (n - r * d) <= d
    ensures 2 * (n - r * d) in {d, -d} ==> r % 2 == 0
  {
    Quotient(n, d);
    var q, rem := n / d, n % d;
    if 2 * rem < d || (2 * rem == d && q % 2 == 0) then q else q + 1
  }

  function Clamp(value: int, lead: int): int {
    var capped := if value < lead then value else lead;
    if 1 > capped then 1 else capped
  }

  function ScaledOffset(offset: int, lead: int): int {
    Clamp(RoundHalfEven(offset * lead, BASE_START), lead)
  }

  function Lead(policy: DeadlinePolicy, defaultLeadDays: int): int {
    if policy.leadTimeDays.Some? then policy.leadTimeDays.value else defaultLeadDays
  }

  function ScaledMilestone(k: nat, lead: int): Milestone
    requires k < |DEFAULT_MILESTONES|
  {
    var m := DEFAULT_MILESTONES[k];
    Milestone(m.deadlineType, if k == 0 then lead else ScaledOffset(m.offset, lead))
  }

  function Offsets(policy: DeadlinePolicy, defaultLeadDays: int): seq<Milestone> {
    var lead := Lead(policy, defaultLeadDays);
    if policy.milestones != [] then policy.milestones
    else if lead <= 0 then []
    else seq(|DEFAULT_MILESTONES|, k requires 0 <= k < |DEFAULT_MILESTONES| => ScaledMilestone(k, lead))
  }

  method ResolveOffsets(policy: DeadlinePolicy, defaultLeadDays: int) returns (scaled: seq<Milestone>)
    ensures scaled == Offsets(policy, defaultLeadDays)
  {
    if policy.milestones != [] {
      return policy.milestones;
    }
    var lead := Lead(policy, defaultLeadDays);
    if lead <= 0 {
      return [];
    }
    if lead == BASE_START {
      BaseLadderIsItself();
      return DEFAULT_MILESTONES;
    }
    scaled := [];
    for k := 0 to |DEFAULT_MILESTONES|
      invariant |scaled| == k
      invariant forall i :: 0 <= i < k ==> scaled[i].deadlineType == DEFAULT_MILESTONES[i].deadlineType
      invariant forall i :: 0 <= i < k ==> scaled[i].offset == ScaledOffset(DEFAULT_MILESTONES[i].offset, lead)
    {
      var m := DEFAULT_MILESTONES[k];
      var value := RoundHalfEven(m.offset * lead, BASE_START);
      scaled := scaled + [Milestone(m.deadlineType, Clamp(value, lead))];
    }
    // The internal start is the whole lead time.
    scaled := scaled[0 := Milestone(InternalStart, lead)];
  }

  lemma BaseLadderIsItself()
    ensures forall k :: 0 <= k < |DEFAULT_MILESTONES| ==> ScaledMilestone(k, BASE_START) == DEFAULT_MILESTONES[k]
  {
  }

  ghost predicate NonIncreasing(s: seq<Milestone>) {
    forall i, j :: 0 <= i < j < |s| ==> s[i].offset >= s[j].offset
  }

  ghost predicate StrictlyDecreasing(s: seq<Milestone>) {
    forall i, j :: 0 <= i < j < |s| ==> s[i].offset > s[j].offset
  }

  /** For every positive lead the scaled default ladder keeps its types and order, starts with the whole
      lead, and stays within [1, lead]; its offsets are all different exactly from eight days on. */
  lemma ScaledLadder(policy: DeadlinePolicy, defaultLeadDays: int)
    requires policy.milestones == [] && Lead(policy, defaultLeadDays) > 0
    ensures var lead := Lead(policy, defaultLeadDays);
            var s := Offsets(policy, defaultLeadDays);
            && |s| == |DEFAULT_MILESTONES|
            && s[0] == Milestone(InternalStart, lead)
            && (forall i :: 0 <= i < |s| ==> s[i].deadlineType == DEFAULT_MILESTONES[i].deadlineType && 1 <= s[i].offset <= lead)
            && NonIncreasing(s)
            && (StrictlyDecreasing(s) <==> lead >= 8)
  {
    var lead := Lead(policy, defaultLeadDays);
    var s := Offsets(policy, defaultLeadDays);
    forall i, j | 0 <= i < j < |s|
      ensures s[i].offset >= s[j].offset
      ensures lead >= 8 ==> s[i].offset > s[j].offset
    {
      LadderOrder(i, j, lead);
    }
    if lead < 8 {
      FirstStepTies(lead);
      assert s[0].offset == s[1].offset;
    }
  }

  /** `o` is the nearest integer to n / d, the even one on a tie. */
  predicate Nearest(o: int, n: int, d: int) {
    -d <= 2 * (n - o * d) <= d && (2 * (n - o * d) in {d, -d} ==> o % 2 == 0)
  }

  /** Every scaled offset is the nearest to its share of the lead, but at least one day. */
  lemma ScaledIsNearest(policy: DeadlinePolicy, defaultLeadDays: int, k: nat)
    requires policy.milestones == [] && 1 <= k < |DEFAULT_MILESTONES|
    requires (if policy.leadTimeDays.Some? then policy.leadTimeDays.value else defaultLeadDays) > 0
    ensures var lead := if policy.leadTimeDays.Some? then policy.leadTimeDays.value else defaultLeadDays;
            var s, offset := Offsets(policy, defaultLeadDays), DEFAULT_MILESTONES[k].offset;
            |s| == |DEFAULT_MILESTONES| && (Nearest(s[k].offset, offset * lead, 30) || (s[k].offset == 1 && 2 * offset * lead <= 30))
  {
    var lead := if policy.leadTimeDays.Some? then policy.leadTimeDays.value else defaultLeadDays;
    NearestAfterClamp(DEFAULT_MILESTONES[k].offset, lead);
  }

  lemma NearestAfterClamp(offset: int, lead: int)
    requires 1 <= offset <= 30 && lead > 0
    ensures var o := ScaledOffset(offset, lead);
            Nearest(o, offset * lead, 30) || (o == 1 && 2 * offset * lead <= 30)
  {
    ShareIsSmaller(offset, lead, offset * lead);
    ClampedShare(offset * lead, lead);
  }

  lemma ShareIsSmaller(offset: int, lead: int, share: int)
    requires 1 <= offset <= 30 && lead > 0 && share == offset * lead
    ensures 0 < share <= 30 * lead
  {
  }

  lemma ClampedShare(share: int, lead: int)
    requires 0 < share <= 30 * lead
    ensures var o := Clamp(RoundHalfEven(share, 30), lead);
            Nearest(o, share, 30) || (o == 1 && 2 * share <= 30)
  {
  }

  /** Explicit milestones are used as given, and no lead time means no milestones. */
  lemma GivenMilestones(policy: DeadlinePolicy, defaultLeadDays: int)
    ensures policy.milestones != [] ==> Offsets(policy, defaultLeadDays) == policy.milestones
    ensures policy.milestones == [] && (if policy.leadTimeDays.Some? then policy.leadTimeDays.value else defaultLeadDays) <= 0
            ==> Offsets(policy, defaultLeadDays) == []
  {
  }

  lemma {:induction false} LadderOrder(i: nat, j: nat, lead: int)
    requires lead > 0 && i < j < |DEFAULT_MILESTONES|
    ensures ScaledMilestone(i, lead).offset >= ScaledMilestone(j, lead).offset
    ensures lead >= 8 ==> ScaledMilestone(i, lead).offset > ScaledMilestone(j, lead).offset
  {
    LadderStep(j - 1, lead);
    if i < j - 1 {
      LadderOrder(i, j - 1, lead);
    }
  }

  lemma FirstStepTies(lead: int)
    requires 0 < lead < 8
    ensures ScaledMilestone(1, lead).offset == lead
  {
  }

  lemma LadderStep(k: nat, lead: int)
    requires lead > 0 && k < 6
    ensures ScaledMilestone(k, lead).offset >= ScaledMilestone(k + 1, lead).offset
    ensures lead >= 8 ==> ScaledMilestone(k, lead).offset > ScaledMilestone(k + 1, lead).offset
  {
  }
}
