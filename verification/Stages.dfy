/** The compliance-case stage machine: its transition table, its guards, and every run of it. */
module Stages {
  import opened Wrappers

  datatype Stage =
    | DueIdentified | CasePlanning | VendorOutreachPending | VendorOutreachSent | VendorQuestions
    | InternalInformationPending | AnswersReady | AnswersSent | DocumentChecklistReceived | DocumentsPending
    | PacketBuilding | PacketReadyForReview | PacketApproved | PacketSent | FormReceived | FormPreparation
    | FormMissingInformation | FormReadyForReview | SignaturePending | SignedFormReceived | SubmissionPending
    | SubmittedToVendor | SubmittedToRegulator | VendorValidation | RegulatorReview | DeficiencyReceived
    | RenewedEvidenceReceived | InventoryUpdatePending | Completed | Blocked | Cancelled
    | UnknownStage(name: string)

  datatype Status =
    | Open | InProgress | WaitingVendor | WaitingInternal | WaitingSignature | WaitingSubmission
    | WaitingRegulator | StatusCompleted | StatusBlocked | StatusCancelled

  datatype Evidence =
    | OutreachReference | AnswerReference | DocumentPacketId | SignedDocumentId | SubmissionReference
    | RenewedEvidenceDocumentId

  /** The forward and corrective moves; `Allowed` adds the two that are open almost everywhere. */
  function Forward(from: Stage): set<Stage> {
    match from
    case DueIdentified => {CasePlanning}
    case CasePlanning => {VendorOutreachPending, DocumentChecklistReceived, DocumentsPending, InternalInformationPending, FormReceived}
    case VendorOutreachPending => {VendorOutreachSent}
    case VendorOutreachSent => {VendorQuestions, DocumentChecklistReceived, FormReceived}
    case VendorQuestions => {InternalInformationPending, AnswersReady}
    case InternalInformationPending => {AnswersReady, VendorQuestions}
    case AnswersReady => {AnswersSent, InternalInformationPending}
    case AnswersSent => {DocumentChecklistReceived, VendorQuestions, FormReceived}
    case DocumentChecklistReceived => {DocumentsPending, PacketBuilding}
    case DocumentsPending => {PacketBuilding}
    case PacketBuilding => {PacketReadyForReview, DocumentsPending}
    case PacketReadyForReview => {PacketApproved, PacketBuilding}
    case PacketApproved => {PacketSent, PacketBuilding}
    case PacketSent => {FormReceived, VendorQuestions, VendorValidation, SubmissionPending}
    case FormReceived => {FormPreparation}
    case FormPreparation => {FormMissingInformation, FormReadyForReview}
    case FormMissingInformation => {FormPreparation, InternalInformationPending, FormReadyForReview}
    case FormReadyForReview => {SignaturePending, SubmissionPending, FormPreparation}
    case SignaturePending => {SignedFormReceived, FormPreparation}
    case SignedFormReceived => {SubmissionPending}
    case SubmissionPending => {SubmittedToVendor, SubmittedToRegulator}
    case SubmittedToVendor => {VendorValidation, SubmittedToRegulator, DeficiencyReceived}
    case SubmittedToRegulator => {RegulatorReview, DeficiencyReceived, RenewedEvidenceReceived}
    case VendorValidation => {SubmittedToRegulator, RegulatorReview, DeficiencyReceived, FormPreparation}
    case RegulatorReview => {DeficiencyReceived, RenewedEvidenceReceived}
    case DeficiencyReceived => {InternalInformationPending, DocumentsPending, FormPreparation, PacketBuilding}
    case RenewedEvidenceReceived => {InventoryUpdatePending}
    case InventoryUpdatePending => {Completed}
    case Blocked => {CasePlanning, VendorOutreachPending, VendorQuestions, InternalInformationPending, DocumentsPending,
                     PacketBuilding, FormPreparation, SignaturePending, SubmissionPending, RegulatorReview}
    case Completed => {}
    case Cancelled => {}
    case UnknownStage(_) => {}
  }

  /** The table read the other way: where each stage can be entered from, besides BLOCKED and CANCELLED, which
      are open from every stage that is not terminal. */
  function EnteredFrom(to: Stage): set<Stage> {
    match to
    case CasePlanning => {DueIdentified, Blocked}
    case VendorOutreachPending => {CasePlanning, Blocked}
    case VendorOutreachSent => {VendorOutreachPending}
    case VendorQuestions => {VendorOutreachSent, InternalInformationPending, AnswersSent, PacketSent, Blocked}
    case InternalInformationPending => {CasePlanning, VendorQuestions, AnswersReady, FormMissingInformation,
             DeficiencyReceived, Blocked}
    case AnswersReady => {VendorQuestions, InternalInformationPending}
    case AnswersSent => {AnswersReady}
    case DocumentChecklistReceived => {CasePlanning, VendorOutreachSent, AnswersSent}
    case DocumentsPending => {CasePlanning, DocumentChecklistReceived, PacketBuilding, DeficiencyReceived, Blocked}
    case PacketBuilding => {DocumentChecklistReceived, DocumentsPending, PacketReadyForReview, PacketApproved,
             DeficiencyReceived, Blocked}
    case PacketReadyForReview => {PacketBuilding}
    case PacketApproved => {PacketReadyForReview}
    case PacketSent => {PacketApproved}
    case FormReceived => {CasePlanning, VendorOutreachSent, AnswersSent, PacketSent}
    case FormPreparation => {FormReceived, FormMissingInformation, FormReadyForReview, SignaturePending,
             VendorValidation, DeficiencyReceived, Blocked}
    case FormMissingInformation => {FormPreparation}
    case FormReadyForReview => {FormPreparation, FormMissingInformation}
    case SignaturePending => {FormReadyForReview, Blocked}
    case SignedFormReceived => {SignaturePending}
    case SubmissionPending => {PacketSent, FormReadyForReview, SignedFormReceived, Blocked}
    case SubmittedToVendor => {SubmissionPending}
    case SubmittedToRegulator => {SubmissionPending, SubmittedToVendor, VendorValidation}
    case VendorValidation => {PacketSent, SubmittedToVendor}
    case RegulatorReview => {SubmittedToRegulator, VendorValidation, Blocked}
    case DeficiencyReceived => {SubmittedToVendor, SubmittedToRegulator, VendorValidation, RegulatorReview}
    case RenewedEvidenceReceived => {SubmittedToRegulator, RegulatorReview}
    case InventoryUpdatePending => {RenewedEvidenceReceived}
    case Completed => {InventoryUpdatePending}
    case _ => {}
  }

  predicate OutreachStage(s: Stage) {
    s.DueIdentified? || s.CasePlanning? || s.VendorOutreachPending? || s.VendorOutreachSent?
  }

  lemma OutreachForward(from: Stage, to: Stage)
    requires OutreachStage(from)
    ensures to in Forward(from) <==> from in EnteredFrom(to)
  {
  }

  predicate AnswersStage(s: Stage) {
    s.VendorQuestions? || s.InternalInformationPending? || s.AnswersReady? || s.AnswersSent?
  }

  lemma AnswersForward(from: Stage, to: Stage)
    requires AnswersStage(from)
    ensures to in Forward(from) <==> from in EnteredFrom(to)
  {
  }

  predicate PacketStage(s: Stage) {
    || s.DocumentChecklistReceived? || s.DocumentsPending? || s.PacketBuilding?
    || s.PacketReadyForReview? || s.PacketApproved? || s.PacketSent?
  }

  lemma PacketForward(from: Stage, to: Stage)
    requires PacketStage(from)
    ensures to in Forward(from) <==> from in EnteredFrom(to)
  {
  }

  predicate FormStage(s: Stage) {
    s.FormReceived? || s.FormPreparation? || s.FormMissingInformation? || s.FormReadyForReview?
  }

  lemma FormForward(from: Stage, to: Stage)
    requires FormStage(from)
    ensures to in Forward(from) <==> from in EnteredFrom(to)
  {
  }

  predicate SigningStage(s: Stage) {
    s.SignaturePending? || s.SignedFormReceived? || s.SubmissionPending?
  }

  lemma SigningForward(from: Stage, to: Stage)
    requires SigningStage(from)
    ensures to in Forward(from) <==> from in EnteredFrom(to)
  {
  }

  predicate ReviewStage(s: Stage) {
    s.SubmittedToVendor? || s.SubmittedToRegulator? || s.VendorValidation? || s.RegulatorReview?
  }

  lemma ReviewForward(from: Stage, to: Stage)
    requires ReviewStage(from)
    ensures to in Forward(from) <==> from in EnteredFrom(to)
  {
  }

  predicate ClosingStage(s: Stage) {
    s.DeficiencyReceived? || s.RenewedEvidenceReceived? || s.InventoryUpdatePending?
  }

  lemma ClosingForward(from: Stage, to: Stage)
    requires ClosingStage(from)
    ensures to in Forward(from) <==> from in EnteredFrom(to)
  {
  }

  lemma ForwardIsEntered(from: Stage, to: Stage)
    ensures to in Forward(from) <==> from in EnteredFrom(to)
  {
    if OutreachStage(from) {
      OutreachForward(from, to);
    } else if AnswersStage(from) {
      AnswersForward(from, to);
    } else if PacketStage(from) {
      PacketForward(from, to);
    } else if FormStage(from) {
      FormForward(from, to);
    } else if SigningStage(from) {
      SigningForward(from, to);
    } else if ReviewStage(from) {
      ReviewForward(from, to);
    } else if ClosingStage(from) {
      ClosingForward(from, to);
    } else if from == Blocked {
      BlockedForward(to);
    } else {
      TerminalForward(from, to);
    }
  }

  lemma BlockedForward(to: Stage)
    ensures to in Forward(Blocked) <==> Blocked in EnteredFrom(to)
  {
  }

  lemma TerminalForward(from: Stage, to: Stage)
    requires from.Completed? || from.Cancelled? || from.UnknownStage?
    ensures to !in Forward(from) && from !in EnteredFrom(to)
  {
  }

  /** The matrix, read the other way. */
  lemma AllowedExactly(from: Stage, to: Stage)
    ensures to in Allowed(from)
            <==> && from != Completed && from != Cancelled && !from.UnknownStage?
                 && (to == Cancelled || (to == Blocked && from != Blocked) || from in EnteredFrom(to))
  {
    ForwardIsEntered(from, to);
  }

  predicate Terminal(s: Stage) {
    s == Completed || s == Cancelled
  }

  function Allowed(from: Stage): set<Stage> {
    if Terminal(from) || from.UnknownStage? then {}
    else if from == Blocked then Forward(from) + {Cancelled}
    else Forward(from) + {Blocked, Cancelled}
  }

  function RequiredEvidence(to: Stage): seq<Evidence> {
    match to
    case VendorOutreachSent => [OutreachReference]
    case AnswersSent => [AnswerReference]
    case PacketApproved => [DocumentPacketId]
    case PacketSent => [DocumentPacketId]
    case SignedFormReceived => [SignedDocumentId]
    case SubmittedToVendor => [SubmissionReference]
    case SubmittedToRegulator => [SubmissionReference]
    case RenewedEvidenceReceived => [RenewedEvidenceDocumentId]
    case _ => []
  }

  function StatusOf(s: Stage): Option<Status> {
    match s
    case DueIdentified => Some(Open)
    case VendorOutreachSent => Some(WaitingVendor)
    case AnswersSent => Some(WaitingVendor)
    case PacketSent => Some(WaitingVendor)
    case SubmittedToVendor => Some(WaitingVendor)
    case VendorValidation => Some(WaitingVendor)
    case VendorQuestions => Some(WaitingInternal)
    case InternalInformationPending => Some(WaitingInternal)
    case DocumentsPending => Some(WaitingInternal)
    case FormMissingInformation => Some(WaitingInternal)
    case SignaturePending => Some(WaitingSignature)
    case SubmissionPending => Some(WaitingSubmission)
    case SubmittedToRegulator => Some(WaitingRegulator)
    case RegulatorReview => Some(WaitingRegulator)
    case Completed => Some(StatusCompleted)
    case Blocked => Some(StatusBlocked)
    case Cancelled => Some(StatusCancelled)
    case UnknownStage(_) => None
    case _ => Some(InProgress)
  }

  predicate SubmissionStage(s: Stage) {
    s in {SubmissionPending, SubmittedToVendor, SubmittedToRegulator}
  }

  datatype Refusal =
    | SameStage | IsTerminal | Unknown | NotInMatrix | MissingEvidence(keys: seq<Evidence>) | SignatureMissing | NothingToClose

  datatype Check = Accepted(status: Option<Status>) | Refused(why: Refusal)

  /** One proposed transition: the target, the evidence keys with a truthy value, and the case's flags. */
  datatype Proposal = Proposal(
    to: Stage, evidence: set<Evidence>, signatureRequired: bool, signatureRecorded: bool, renewedEvidence: bool, closeReason: bool)

  function Missing(required: seq<Evidence>, evidence: set<Evidence>): seq<Evidence> {
    if required == [] then []
    else (if required[0] in evidence then [] else [required[0]]) + Missing(required[1..], evidence)
  }

  function ValidateTransition(from: Stage, p: Proposal): Check {
    if from == p.to then Refused(SameStage)
    else if Terminal(from) then Refused(IsTerminal)
    else if p.to.UnknownStage? then Refused(Unknown)
    else Judge(p, Allowed(from), RequiredEvidence(p.to), StatusOf(p.to))
  }

  function Judge(p: Proposal, allowed: set<Stage>, required: seq<Evidence>, status: Option<Status>): Check {
    if p.to !in allowed then Refused(NotInMatrix)
    else
      var missing := Missing(required, p.evidence);
      if missing != [] then Refused(MissingEvidence(missing))
      else if p.signatureRequired && !p.signatureRecorded && SubmissionStage(p.to) then Refused(SignatureMissing)
      else if p.to == Completed && !p.renewedEvidence && !p.closeReason then Refused(NothingToClose)
      else Accepted(status)
  }

  /** The evidence each stage asks for, stage by stage. */
  predicate HasEvidence(to: Stage, evidence: set<Evidence>) {
    && (to == VendorOutreachSent ==> OutreachReference in evidence)
    && (to == AnswersSent ==> AnswerReference in evidence)
    && (to in {PacketApproved, PacketSent} ==> DocumentPacketId in evidence)
    && (to == SignedFormReceived ==> SignedDocumentId in evidence)
    && (to in {SubmittedToVendor, SubmittedToRegulator} ==> SubmissionReference in evidence)
    && (to == RenewedEvidenceReceived ==> RenewedEvidenceDocumentId in evidence)
  }

  lemma EvidenceExactly(to: Stage, evidence: set<Evidence>)
    ensures (forall k :: k in RequiredEvidence(to) ==> k in evidence) <==> HasEvidence(to, evidence)
  {
    assert forall k :: k in RequiredEvidence(to) ==> RequiredEvidence(to) == [k];
    if RequiredEvidence(to) != [] {
      assert RequiredEvidence(to)[0] in RequiredEvidence(to);
    }
  }

  /** Accepted, a transition leads to the status of its stage; the stages are grouped by status here. */
  predicate LeadsToStatus(to: Stage, status: Option<Status>) {
    && (status == Some(Open) <==> to == DueIdentified)
    && (status == Some(WaitingVendor) <==> to in {VendorOutreachSent, AnswersSent, PacketSent, SubmittedToVendor, VendorValidation})
    && (status == Some(WaitingInternal)
        <==> to in {VendorQuestions, InternalInformationPending, DocumentsPending, FormMissingInformation})
    && (status == Some(WaitingSignature) <==> to == SignaturePending)
    && (status == Some(WaitingSubmission) <==> to == SubmissionPending)
    && (status == Some(WaitingRegulator) <==> to in {SubmittedToRegulator, RegulatorReview})
    && (status == Some(StatusCompleted) <==> to == Completed)
    && (status == Some(StatusBlocked) <==> to == Blocked)
    && (status == Some(StatusCancelled) <==> to == Cancelled)
    && (status == None <==> to.UnknownStage?)
  }

  lemma StatusExactly(from: Stage, p: Proposal)
    requires ValidateTransition(from, p).Accepted?
    ensures ValidateTransition(from, p).status.Some? && LeadsToStatus(p.to, ValidateTransition(from, p).status)
  {
    StatusOfExactly(p.to);
    JudgedStatus(p, Allowed(from), RequiredEvidence(p.to), StatusOf(p.to));
    AcceptedExactly(from, p);
    NoWayOut(from, p.to);
  }

  lemma StatusOfExactly(to: Stage)
    ensures LeadsToStatus(to, StatusOf(to))
  {
  }

  lemma JudgedStatus(p: Proposal, allowed: set<Stage>, required: seq<Evidence>, status: Option<Status>)
    requires Judge(p, allowed, required, status).Accepted?
    ensures Judge(p, allowed, required, status).status == status
  {
  }

  /** Acceptance, as the conjunction of the matrix and the three control rules. */
  lemma AcceptedExactly(from: Stage, p: Proposal)
    ensures ValidateTransition(from, p).Accepted?
            <==> && p.to in Allowed(from) && p.to != from && HasEvidence(p.to, p.evidence)
                 && (p.signatureRequired && p.to in {SubmissionPending, SubmittedToVendor, SubmittedToRegulator} ==> p.signatureRecorded)
                 && (p.to == Completed ==> p.renewedEvidence || p.closeReason)
  {
    EvidenceExactly(p.to, p.evidence);
    JudgesExactly(p, Allowed(from), RequiredEvidence(p.to), StatusOf(p.to));
    if p.to in Allowed(from) {
      NoWayOut(from, p.to);
    }
  }

  lemma NoWayOut(from: Stage, to: Stage)
    requires to in Allowed(from)
    ensures !Terminal(from) && !to.UnknownStage?
  {
  }

  lemma JudgesExactly(p: Proposal, allowed: set<Stage>, required: seq<Evidence>, status: Option<Status>)
    ensures Judge(p, allowed, required, status).Accepted?
            <==> && p.to in allowed
                 && (forall k :: k in required ==> k in p.evidence)
                 && (p.signatureRequired && SubmissionStage(p.to) ==> p.signatureRecorded)
                 && (p.to == Completed ==> p.renewedEvidence || p.closeReason)
  {
    NoneMissing(required, p.evidence);
  }

  lemma {:induction false} NoneMissing(required: seq<Evidence>, evidence: set<Evidence>)
    ensures Missing(required, evidence) == [] <==> forall k :: k in required ==> k in evidence
  {
    if required != [] {
      NoneMissing(required[1..], evidence);
      assert required == [required[0]] + required[1..];
    }
  }

  // ------------------------------------------------------------------------------------------- runs

  /** The stage before step `k` of a run from `start`. */
  function StageAt(start: Stage, run: seq<Proposal>, k: nat): Stage
    requires k <= |run|
  {
    if k == 0 then start else run[k - 1].to
  }

  /** Whether one move is let through. */
  type Gate = (Stage, Proposal) -> bool

  ghost predicate PassesGate(gate: Gate, start: Stage, run: seq<Proposal>) {
    forall k :: 0 <= k < |run| ==> PassesAt(gate, start, run, k)
  }

  ghost predicate PassesAt(gate: Gate, start: Stage, run: seq<Proposal>, k: nat)
    requires k < |run|
  {
    gate(StageAt(start, run, k), run[k])
  }

  function StageGate(): Gate {
    (from: Stage, p: Proposal) => ValidateTransition(from, p).Accepted?
  }

  ghost predicate AcceptedRun(start: Stage, run: seq<Proposal>) {
    PassesGate(StageGate(), start, run)
  }

  lemma GatePrepends(gate: Gate, start: Stage, p: Proposal, rest: seq<Proposal>)
    requires gate(start, p) && PassesGate(gate, p.to, rest)
    ensures PassesGate(gate, start, [p] + rest)
  {
    var run := [p] + rest;
    forall k | 0 <= k < |run| ensures PassesAt(gate, start, run, k) {
      if k > 0 {
        assert PassesAt(gate, p.to, rest, k - 1);
        assert StageAt(start, run, k) == StageAt(p.to, rest, k - 1);
      }
    }
  }

  /** The only way into each of the last three stages. */
  lemma Predecessors(from: Stage, to: Stage)
    requires to in Allowed(from)
    ensures to == Completed ==> from == InventoryUpdatePending
    ensures to == InventoryUpdatePending ==> from == RenewedEvidenceReceived
    ensures to == RenewedEvidenceReceived ==> from in {SubmittedToRegulator, RegulatorReview}
    ensures to == RegulatorReview ==> from in {SubmittedToRegulator, VendorValidation, Blocked}
    ensures to == VendorValidation ==> from in {SubmittedToVendor, PacketSent}
    ensures to != DueIdentified
  {
  }

  lemma GateAt(gate: Gate, start: Stage, run: seq<Proposal>, k: nat)
    requires PassesGate(gate, start, run) && k < |run|
    ensures gate(StageAt(start, run, k), run[k])
  {
    assert PassesAt(gate, start, run, k);
  }

  lemma StepOfRun(start: Stage, run: seq<Proposal>, k: nat)
    requires AcceptedRun(start, run) && k < |run|
    ensures run[k].to in Allowed(StageAt(start, run, k)) && HasEvidence(run[k].to, run[k].evidence)
    ensures run[k].signatureRequired && SubmissionStage(run[k].to) ==> run[k].signatureRecorded
  {
    GateAt(StageGate(), start, run, k);
    AcceptedExactly(StageAt(start, run, k), run[k]);
  }

  /** What the step before one into the closing stages must have been. */
  ghost predicate Approached(run: seq<Proposal>, k: int)
    requires 0 <= k < |run|
  {
    var to := run[k].to;
    && (to in {Completed, InventoryUpdatePending, RenewedEvidenceReceived, RegulatorReview, VendorValidation} ==> k > 0)
    && (to == Completed ==> run[k - 1].to == InventoryUpdatePending)
    && (to == InventoryUpdatePending ==> run[k - 1].to == RenewedEvidenceReceived)
    && (to == RenewedEvidenceReceived ==> run[k - 1].to in {SubmittedToRegulator, RegulatorReview})
    && (to == RegulatorReview ==> run[k - 1].to in {SubmittedToRegulator, VendorValidation, Blocked})
    && (to == VendorValidation ==> run[k - 1].to in {SubmittedToVendor, PacketSent})
    && (to == RenewedEvidenceReceived ==> RenewedEvidenceDocumentId in run[k].evidence)
  }

  lemma StepBack(run: seq<Proposal>, k: nat)
    requires AcceptedRun(DueIdentified, run) && k < |run|
    ensures Approached(run, k)
  {
    StepOfRun(DueIdentified, run, k);
    AllowedIsApproached(run, k);
  }

  lemma AllowedIsApproached(run: seq<Proposal>, k: nat)
    requires k < |run| && run[k].to in Allowed(StageAt(DueIdentified, run, k))
    requires HasEvidence(run[k].to, run[k].evidence)
    ensures Approached(run, k)
  {
    Predecessors(StageAt(DueIdentified, run, k), run[k].to);
  }

  lemma StepsBack(run: seq<Proposal>)
    requires AcceptedRun(DueIdentified, run)
    ensures forall k :: 0 <= k < |run| ==> Approached(run, k)
  {
    forall k | 0 <= k < |run| {
      StepBack(run, k);
    }
  }

  ghost predicate Completes(run: seq<Proposal>) {
    AcceptedRun(DueIdentified, run) && run != [] && run[|run| - 1].to == Completed
  }

  /** A run that completes a case ends RENEWED_EVIDENCE_RECEIVED, INVENTORY_UPDATE_PENDING, COMPLETED, the
      first of these with a renewed-evidence document recorded, whatever close reason is given. */
  lemma CompletionNeedsEvidence(run: seq<Proposal>)
    requires Completes(run)
    ensures |run| >= 4
    ensures run[|run| - 2].to == InventoryUpdatePending && run[|run| - 3].to == RenewedEvidenceReceived
    ensures RenewedEvidenceDocumentId in run[|run| - 3].evidence
  {
    StepsBack(run);
    ClosingSteps(run);
  }

  lemma ClosingSteps(run: seq<Proposal>)
    requires run != [] && run[|run| - 1].to == Completed
    requires forall k :: 0 <= k < |run| ==> Approached(run, k)
    ensures |run| >= 4
    ensures run[|run| - 2].to == InventoryUpdatePending && run[|run| - 3].to == RenewedEvidenceReceived
    ensures run[|run| - 4].to in {SubmittedToRegulator, RegulatorReview}
    ensures RenewedEvidenceDocumentId in run[|run| - 3].evidence
  {
    assert Approached(run, |run| - 1);
    assert Approached(run, |run| - 2);
    assert Approached(run, |run| - 3);
  }

  // ------------------------------------------------------------------- completion without submission

  predicate Submission(s: Stage) {
    s in {SubmittedToVendor, SubmittedToRegulator}
  }

  ghost predicate Submitted(run: seq<Proposal>) {
    exists k :: 0 <= k < |run| && Submission(run[k].to)
  }

  /** The two moves that reach review without a submission: resuming a blocked case there, and letting
      the vendor validate a packet that was only sent. */
  ghost predicate SkipsSubmission(start: Stage, run: seq<Proposal>, k: nat)
    requires k < |run|
  {
    || (StageAt(start, run, k) == Blocked && run[k].to == RegulatorReview)
    || (StageAt(start, run, k) == PacketSent && run[k].to == VendorValidation)
  }

  /** The run closes from a review that one of the two moves began. */
  predicate ClosesOnSkip(run: seq<Proposal>) {
    var n := |run|;
    && n >= 5 && run[n - 4].to == RegulatorReview
    && (run[n - 5].to == Blocked || (n >= 6 && run[n - 5].to == VendorValidation && run[n - 6].to == PacketSent))
  }

  /** A completed run that does not close from such a review went through a submission to the vendor or
      the regulator, with the signature recorded if one was required then. */
  lemma CompletionNeedsSubmission(run: seq<Proposal>) returns (k: nat)
    requires Completes(run) && !ClosesOnSkip(run)
    ensures k < |run| && Submission(run[k].to)
    ensures run[k].signatureRequired ==> run[k].signatureRecorded
  {
    StepsBack(run);
    k := LastSubmission(run);
    NoUnsignedSubmission(DueIdentified, run, k);
  }

  lemma LastSubmission(run: seq<Proposal>) returns (k: nat)
    requires run != [] && run[|run| - 1].to == Completed && !ClosesOnSkip(run)
    requires forall k :: 0 <= k < |run| ==> Approached(run, k)
    ensures k < |run| && Submission(run[k].to)
  {
    ClosingSteps(run);
    k := |run| - 4;
    if run[k].to == RegulatorReview {
      assert Approached(run, k);
      k := k - 1;
      if run[k].to == VendorValidation {
        assert Approached(run, k);
        k := k - 1;
      }
    }
  }

  predicate UnderReview(s: Stage) {
    Submission(s) || s in {VendorValidation, RegulatorReview}
  }

  lemma {:induction false} FirstUnderReview(run: seq<Proposal>, n: nat) returns (k: nat)
    requires n < |run| && UnderReview(run[n].to)
    ensures k <= n && UnderReview(run[k].to)
    ensures forall j :: 0 <= j < k ==> !UnderReview(run[j].to)
    decreases n
  {
    k := n;
    if j :| 0 <= j < n && UnderReview(run[j].to) {
      k := FirstUnderReview(run, j);
    }
  }

  lemma EntersReview(run: seq<Proposal>, k: nat)
    requires k < |run| && Approached(run, k) && UnderReview(run[k].to)
    requires k > 0 ==> !UnderReview(run[k - 1].to)
    ensures Submission(run[k].to) || SkipsSubmission(DueIdentified, run, k)
  {
  }

  /** A completed run first comes under review by a submission or by one of the two moves. */
  lemma ReviewBegins(run: seq<Proposal>) returns (k: nat)
    requires Completes(run)
    ensures k < |run| && (Submission(run[k].to) || SkipsSubmission(DueIdentified, run, k))
    ensures forall j :: 0 <= j < k ==> !UnderReview(run[j].to)
  {
    CompletionIsReviewed(run);
    StepsBack(run);
    k := ReviewIsEntered(run, |run| - 4);
  }

  lemma ReviewIsEntered(run: seq<Proposal>, n: nat) returns (k: nat)
    requires n < |run| && UnderReview(run[n].to)
    requires forall k :: 0 <= k < |run| ==> Approached(run, k)
    ensures k < |run| && (Submission(run[k].to) || SkipsSubmission(DueIdentified, run, k))
    ensures forall j :: 0 <= j < k ==> !UnderReview(run[j].to)
  {
    k := FirstUnderReview(run, n);
    EntersReview(run, k);
  }

  lemma CompletionIsReviewed(run: seq<Proposal>)
    requires Completes(run)
    ensures |run| >= 4 && UnderReview(run[|run| - 4].to)
  {
    StepsBack(run);
    ClosingSteps(run);
  }

  /** A completed run that was never submitted both came under review and closed by one of the two moves.
      So a case submitted before it was blocked and resumed in review, or after, counts as submitted. */
  lemma UnsubmittedSkipsTwice(run: seq<Proposal>) returns (k: nat)
    requires Completes(run) && !Submitted(run)
    ensures ClosesOnSkip(run)
    ensures k < |run| && SkipsSubmission(DueIdentified, run, k)
    ensures forall j :: 0 <= j < k ==> !UnderReview(run[j].to)
  {
    if !ClosesOnSkip(run) {
      var m := CompletionNeedsSubmission(run);
    }
    k := ReviewBegins(run);
  }

  // The two runs that skip it: everything is unsigned, and only what the matrix asks for is recorded.

  const UNSIGNED_EVIDENCE := {DocumentPacketId, RenewedEvidenceDocumentId}

  function Unsigned(to: Stage): Proposal {
    Proposal(to, UNSIGNED_EVIDENCE, true, false, false, true)
  }

  /** The run along a path, each step proposed by `propose`. */
  function RunAlong(propose: Stage -> Proposal, path: seq<Stage>): (run: seq<Proposal>)
    ensures |run| == |path| && forall i :: 0 <= i < |path| ==> run[i] == propose(path[i])
  {
    seq(|path|, i requires 0 <= i < |path| => propose(path[i]))
  }

  function UnsignedRun(path: seq<Stage>): seq<Proposal> {
    RunAlong(Unsigned, path)
  }

  /** A case that is blocked at once, and resumed in review. */
  const BLOCKED_PATH: seq<Stage> := [Blocked, RegulatorReview, RenewedEvidenceReceived, InventoryUpdatePending, Completed]

  /** A case whose packet is sent and then validated by the vendor, never blocked. */
  const PACKET_PATH: seq<Stage> := [
    CasePlanning, DocumentsPending, PacketBuilding, PacketReadyForReview, PacketApproved, PacketSent, VendorValidation,
    RegulatorReview, RenewedEvidenceReceived, InventoryUpdatePending, Completed]

  predicate MovesUnsigned(from: Stage, to: Stage) {
    && to in Allowed(from) && to != from && !SubmissionStage(to)
    && HasEvidence(to, UNSIGNED_EVIDENCE)
  }

  function PathBefore(path: seq<Stage>, k: nat): Stage
    requires k < |path|
  {
    if k == 0 then DueIdentified else path[k - 1]
  }

  ghost predicate PathOf(moves: (Stage, Stage) -> bool, path: seq<Stage>) {
    forall k :: 0 <= k < |path| ==> moves(PathBefore(path, k), path[k])
  }

  function UnsignedMoves(): (Stage, Stage) -> bool {
    (from: Stage, to: Stage) => MovesUnsigned(from, to)
  }

  lemma UnsignedMove(from: Stage, to: Stage)
    requires MovesUnsigned(from, to)
    ensures StageGate()(from, Unsigned(to))
  {
    AcceptedExactly(from, Unsigned(to));
  }

  lemma PathPasses(gate: Gate, propose: Stage -> Proposal, moves: (Stage, Stage) -> bool, path: seq<Stage>)
    requires forall to :: propose(to).to == to
    requires forall from, to :: moves(from, to) ==> gate(from, propose(to))
    requires PathOf(moves, path)
    ensures PassesGate(gate, DueIdentified, RunAlong(propose, path))
  {
    var run := RunAlong(propose, path);
    forall k | 0 <= k < |run| ensures PassesAt(gate, DueIdentified, run, k) {
      assert moves(PathBefore(path, k), path[k]);
    }
  }

  lemma UnsignedPathRuns(path: seq<Stage>)
    requires PathOf(UnsignedMoves(), path)
    ensures AcceptedRun(DueIdentified, UnsignedRun(path))
  {
    forall from, to | UnsignedMoves()(from, to) ensures StageGate()(from, Unsigned(to)) {
      UnsignedMove(from, to);
    }
    PathPasses(StageGate(), Unsigned, UnsignedMoves(), path);
  }

  /** No step of the run enters a submission stage or records a signature, though every step requires one. */
  ghost predicate NeverSigned(run: seq<Proposal>) {
    forall p :: p in run ==> !SubmissionStage(p.to) && p.signatureRequired && !p.signatureRecorded
  }

  lemma UnsignedRunIsUnsigned(path: seq<Stage>)
    requires forall k :: 0 <= k < |path| ==> !SubmissionStage(path[k])
    ensures NeverSigned(UnsignedRun(path)) && !Submitted(UnsignedRun(path))
  {
    forall k | 0 <= k < |path| ensures !Submission(UnsignedRun(path)[k].to) {
      assert !SubmissionStage(path[k]);
    }
  }

  lemma BlockedPathIsOpen()
    ensures PathOf(UnsignedMoves(), BLOCKED_PATH)
  {
    assert MovesUnsigned(DueIdentified, Blocked);
    assert MovesUnsigned(Blocked, RegulatorReview);
    ClosingIsOpen();
    FivePath(UnsignedMoves());
  }

  lemma ClosingIsOpen()
    ensures MovesUnsigned(RegulatorReview, RenewedEvidenceReceived)
    ensures MovesUnsigned(RenewedEvidenceReceived, InventoryUpdatePending) && MovesUnsigned(InventoryUpdatePending, Completed)
  {
  }

  lemma FivePath(moves: (Stage, Stage) -> bool)
    requires moves(DueIdentified, Blocked) && moves(Blocked, RegulatorReview)
    requires moves(RegulatorReview, RenewedEvidenceReceived)
    requires moves(RenewedEvidenceReceived, InventoryUpdatePending) && moves(InventoryUpdatePending, Completed)
    ensures PathOf(moves, BLOCKED_PATH)
  {
  }

  lemma PacketIsOpen()
    ensures MovesUnsigned(DueIdentified, CasePlanning) && MovesUnsigned(CasePlanning, DocumentsPending)
    ensures MovesUnsigned(DocumentsPending, PacketBuilding) && MovesUnsigned(PacketBuilding, PacketReadyForReview)
  {
  }

  lemma SendingIsOpen()
    ensures MovesUnsigned(PacketReadyForReview, PacketApproved) && MovesUnsigned(PacketApproved, PacketSent)
  {
  }

  lemma ValidatingIsOpen()
    ensures MovesUnsigned(PacketSent, VendorValidation) && MovesUnsigned(VendorValidation, RegulatorReview)
  {
  }

  lemma PacketPathIsOpen()
    ensures PathOf(UnsignedMoves(), PACKET_PATH)
  {
    PacketIsOpen();
    SendingIsOpen();
    ValidatingIsOpen();
    ClosingIsOpen();
    ElevenPath(UnsignedMoves());
  }

  lemma ElevenPath(moves: (Stage, Stage) -> bool)
    requires moves(DueIdentified, CasePlanning) && moves(CasePlanning, DocumentsPending)
    requires moves(DocumentsPending, PacketBuilding) && moves(PacketBuilding, PacketReadyForReview)
    requires moves(PacketReadyForReview, PacketApproved) && moves(PacketApproved, PacketSent)
    requires moves(PacketSent, VendorValidation) && moves(VendorValidation, RegulatorReview)
    requires moves(RegulatorReview, RenewedEvidenceReceived)
    requires moves(RenewedEvidenceReceived, InventoryUpdatePending) && moves(InventoryUpdatePending, Completed)
    ensures PathOf(moves, PACKET_PATH)
  {
  }

  /** With the first move the control point is skipped: a case whose required signature is never recorded
      completes in five steps and is never submitted. */
  lemma BlockedCaseSkipsSubmission()
    ensures Completes(UnsignedRun(BLOCKED_PATH))
    ensures NeverSigned(UnsignedRun(BLOCKED_PATH)) && !Submitted(UnsignedRun(BLOCKED_PATH))
  {
    BlockedPathIsOpen();
    UnsignedPathRuns(BLOCKED_PATH);
    UnsignedRunIsUnsigned(BLOCKED_PATH);
  }

  /** And with the second, without ever being blocked. */
  lemma SentPacketSkipsSubmission()
    ensures Completes(UnsignedRun(PACKET_PATH))
    ensures NeverSigned(UnsignedRun(PACKET_PATH)) && !Submitted(UnsignedRun(PACKET_PATH))
    ensures Blocked !in PACKET_PATH
  {
    NeverBlocked();
    PacketPathIsOpen();
    UnsignedPathRuns(PACKET_PATH);
    UnsignedRunIsUnsigned(PACKET_PATH);
  }

  lemma NeverBlocked()
    ensures Blocked !in PACKET_PATH
  {
  }

  // Which moves would have to be forbidden for every completed case to have been submitted.

  datatype Move = Move(from: Stage, to: Stage)

  function MoveAt(run: seq<Proposal>, k: nat): Move
    requires k < |run|
  {
    Move(StageAt(DueIdentified, run, k), run[k].to)
  }

  ghost predicate Avoids(run: seq<Proposal>, forbidden: set<Move>) {
    forall k :: 0 <= k < |run| ==> MoveAt(run, k) !in forbidden
  }

  const RESUMED_IN_REVIEW := Move(Blocked, RegulatorReview)
  const PACKET_VALIDATED := Move(PacketSent, VendorValidation)
  const VALIDATION_REVIEWED := Move(VendorValidation, RegulatorReview)

  /** Forbidding these moves leaves every other move of the two runs above open. */
  ghost predicate SparesOtherMoves(forbidden: set<Move>) {
    forall path, k :: path in {BLOCKED_PATH, PACKET_PATH} && 0 <= k < |path|
      && Move(PathBefore(path, k), path[k]) in forbidden
      ==> Move(PathBefore(path, k), path[k]) in {RESUMED_IN_REVIEW, PACKET_VALIDATED, VALIDATION_REVIEWED}
  }

  ghost predicate ForcesSubmission(forbidden: set<Move>) {
    forall run :: Completes(run) && Avoids(run, forbidden) ==> Submitted(run)
  }

  lemma ClosingMoves(run: seq<Proposal>)
    requires ClosesOnSkip(run)
    ensures var n := |run|;
            || MoveAt(run, n - 4) == RESUMED_IN_REVIEW
            || (MoveAt(run, n - 4) == VALIDATION_REVIEWED && MoveAt(run, n - 5) == PACKET_VALIDATED)
  {
  }

  lemma CutsForce(run: seq<Proposal>, forbidden: set<Move>)
    requires RESUMED_IN_REVIEW in forbidden && (PACKET_VALIDATED in forbidden || VALIDATION_REVIEWED in forbidden)
    requires Avoids(run, forbidden)
    ensures !ClosesOnSkip(run)
  {
    if ClosesOnSkip(run) {
      ClosingMoves(run);
    }
  }

  lemma PathAvoids(propose: Stage -> Proposal, path: seq<Stage>, forbidden: set<Move>)
    requires forall to :: propose(to).to == to
    requires forall k :: 0 <= k < |path| ==> Move(PathBefore(path, k), path[k]) !in forbidden
    ensures Avoids(RunAlong(propose, path), forbidden)
  {
    var run := RunAlong(propose, path);
    forall k | 0 <= k < |run| ensures MoveAt(run, k) !in forbidden {
      assert MoveAt(run, k) == Move(PathBefore(path, k), path[k]);
    }
  }

  lemma BlockedPathMoves(k: nat)
    requires k < |BLOCKED_PATH|
    ensures Move(PathBefore(BLOCKED_PATH, k), BLOCKED_PATH[k]) !in {PACKET_VALIDATED, VALIDATION_REVIEWED}
  {
  }

  lemma PacketPathMoves(k: nat)
    requires k < |PACKET_PATH|
    ensures Move(PathBefore(PACKET_PATH, k), PACKET_PATH[k]) != RESUMED_IN_REVIEW
  {
  }

  lemma BlockedPathRemains(forbidden: set<Move>)
    requires SparesOtherMoves(forbidden) && RESUMED_IN_REVIEW !in forbidden
    ensures Avoids(UnsignedRun(BLOCKED_PATH), forbidden)
  {
    forall k | 0 <= k < |BLOCKED_PATH| ensures Move(PathBefore(BLOCKED_PATH, k), BLOCKED_PATH[k]) !in forbidden {
      BlockedPathMoves(k);
    }
    PathAvoids(Unsigned, BLOCKED_PATH, forbidden);
  }

  lemma PacketPathRemains(forbidden: set<Move>)
    requires SparesOtherMoves(forbidden) && PACKET_VALIDATED !in forbidden && VALIDATION_REVIEWED !in forbidden
    ensures Avoids(UnsignedRun(PACKET_PATH), forbidden)
  {
    forall k | 0 <= k < |PACKET_PATH| ensures Move(PathBefore(PACKET_PATH, k), PACKET_PATH[k]) !in forbidden {
      PacketPathMoves(k);
    }
    PathAvoids(Unsigned, PACKET_PATH, forbidden);
  }

  lemma CutsAreEnough(forbidden: set<Move>)
    requires RESUMED_IN_REVIEW in forbidden && (PACKET_VALIDATED in forbidden || VALIDATION_REVIEWED in forbidden)
    ensures ForcesSubmission(forbidden)
  {
    forall run | Completes(run) && Avoids(run, forbidden) ensures Submitted(run) {
      CutsForce(run, forbidden);
      var k := CompletionNeedsSubmission(run);
    }
  }

  /** As long as nothing else on the two runs is forbidden, every completed run was submitted if and only
      if resuming in review is forbidden, and so is one of the two moves of a packet into review. */
  lemma SubmissionForcedExactly(forbidden: set<Move>)
    requires SparesOtherMoves(forbidden)
    ensures ForcesSubmission(forbidden)
            <==> RESUMED_IN_REVIEW in forbidden && (PACKET_VALIDATED in forbidden || VALIDATION_REVIEWED in forbidden)
  {
    if RESUMED_IN_REVIEW !in forbidden {
      BlockedPathRemains(forbidden);
      BlockedCaseSkipsSubmission();
    } else if PACKET_VALIDATED !in forbidden && VALIDATION_REVIEWED !in forbidden {
      PacketPathRemains(forbidden);
      SentPacketSkipsSubmission();
    } else {
      CutsAreEnough(forbidden);
    }
  }

  /** Forbidding the closing move itself cuts every run, so the proviso cannot be dropped. */
  lemma NothingCompletesWithoutClosing()
    ensures ForcesSubmission({Move(InventoryUpdatePending, Completed)})
  {
    forall run | Completes(run) ensures !Avoids(run, {Move(InventoryUpdatePending, Completed)}) {
      CompletionNeedsEvidence(run);
      assert MoveAt(run, |run| - 1) == Move(InventoryUpdatePending, Completed);
    }
  }

  /** No run enters a submission stage while a required signature is unrecorded, from BLOCKED or not. */
  lemma NoUnsignedSubmission(start: Stage, run: seq<Proposal>, k: nat)
    requires AcceptedRun(start, run) && k < |run| && SubmissionStage(run[k].to)
    ensures run[k].signatureRequired ==> run[k].signatureRecorded
  {
    StepOfRun(start, run, k);
  }

  /** A terminal stage ends the run, and no run returns to the first stage. */
  lemma TerminalEnds(start: Stage, run: seq<Proposal>, k: nat)
    requires AcceptedRun(start, run) && k < |run|
    ensures Terminal(run[k].to) ==> k == |run| - 1
    ensures run[k].to != DueIdentified
  {
    MoveOfRun(start, run, k);
    if k < |run| - 1 {
      MoveOfRun(start, run, k + 1);
    }
  }

  lemma MoveOfRun(start: Stage, run: seq<Proposal>, k: nat)
    requires AcceptedRun(start, run) && k < |run|
    ensures !Terminal(StageAt(start, run, k)) && run[k].to != DueIdentified
  {
    StepOfRun(start, run, k);
    NoWayOut(StageAt(start, run, k), run[k].to);
    Predecessors(StageAt(start, run, k), run[k].to);
  }

  // ----------------------------------------------------------------------------------- reachability

  /** A next stage on a way to completion that never blocks the case. */
  function Onward(s: Stage): Stage
    requires !Terminal(s) && !s.UnknownStage?
  {
    match s
    case DueIdentified => CasePlanning
    case CasePlanning => FormReceived
    case VendorOutreachPending => VendorOutreachSent
    case VendorOutreachSent => FormReceived
    case VendorQuestions => AnswersReady
    case InternalInformationPending => AnswersReady
    case AnswersReady => AnswersSent
    case AnswersSent => FormReceived
    case DocumentChecklistReceived => PacketBuilding
    case DocumentsPending => PacketBuilding
    case PacketBuilding => PacketReadyForReview
    case PacketReadyForReview => PacketApproved
    case PacketApproved => PacketSent
    case PacketSent => FormReceived
    case FormReceived => FormPreparation
    case FormPreparation => FormReadyForReview
    case FormMissingInformation => FormReadyForReview
    case FormReadyForReview => SignaturePending
    case SignaturePending => SignedFormReceived
    case SignedFormReceived => SubmissionPending
    case SubmissionPending => SubmittedToRegulator
    case SubmittedToVendor => SubmittedToRegulator
    case SubmittedToRegulator => RenewedEvidenceReceived
    case VendorValidation => SubmittedToRegulator
    case RegulatorReview => RenewedEvidenceReceived
    case DeficiencyReceived => FormPreparation
    case RenewedEvidenceReceived => InventoryUpdatePending
    case InventoryUpdatePending => Completed
    case Blocked => FormPreparation
  }

  /** Steps left on that way. */
  function StepsLeft(s: Stage): nat {
    match s
    case Completed => 0
    case InventoryUpdatePending => 1
    case RenewedEvidenceReceived => 2
    case SubmittedToRegulator => 3
    case RegulatorReview => 3
    case SubmissionPending => 4
    case SubmittedToVendor => 4
    case VendorValidation => 4
    case SignedFormReceived => 5
    case SignaturePending => 6
    case FormReadyForReview => 7
    case FormPreparation => 8
    case FormMissingInformation => 8
    case FormReceived => 9
    case DeficiencyReceived => 9
    case Blocked => 9
    case CasePlanning => 10
    case VendorOutreachSent => 10
    case AnswersSent => 10
    case PacketSent => 10
    case DueIdentified => 11
    case VendorOutreachPending => 11
    case AnswersReady => 11
    case PacketApproved => 11
    case VendorQuestions => 12
    case InternalInformationPending => 12
    case PacketReadyForReview => 12
    case PacketBuilding => 13
    case DocumentChecklistReceived => 14
    case DocumentsPending => 14
    case _ => 0
  }

  lemma OnwardIsCloser(s: Stage)
    requires !Terminal(s) && !s.UnknownStage?
    ensures Onward(s) in Allowed(s) && Onward(s) != Blocked && Onward(s) != s
    ensures StepsLeft(Onward(s)) < StepsLeft(s)
    ensures !Onward(s).UnknownStage? && Onward(s) != Cancelled
  {
  }

  function FullyEvidenced(to: Stage): Proposal {
    Proposal(to, {OutreachReference, AnswerReference, DocumentPacketId, SignedDocumentId, SubmissionReference, RenewedEvidenceDocumentId},
             true, true, true, false)
  }

  /** From every stage that is not terminal there is an accepted run to COMPLETED, with a signature
      required and recorded, that never blocks the case. */
  lemma {:induction false} CompletionIsReachable(s: Stage) returns (run: seq<Proposal>)
    requires !Terminal(s) && !s.UnknownStage?
    ensures AcceptedRun(s, run) && run != [] && run[|run| - 1].to == Completed
    ensures forall k :: 0 <= k < |run| ==> run[k].to != Blocked
    decreases StepsLeft(s)
  {
    OnwardIsCloser(s);
    var next := Onward(s);
    OnwardIsAccepted(s);
    if next == Completed {
      run := [FullyEvidenced(next)];
    } else {
      var rest := CompletionIsReachable(next);
      run := RunPrepends(StageGate(), s, FullyEvidenced(next), rest);
    }
  }

  lemma RunPrepends(gate: Gate, start: Stage, p: Proposal, rest: seq<Proposal>) returns (run: seq<Proposal>)
    requires gate(start, p) && PassesGate(gate, p.to, rest)
    requires rest != [] && rest[|rest| - 1].to == Completed && p.to != Blocked
    requires forall k :: 0 <= k < |rest| ==> rest[k].to != Blocked
    ensures PassesGate(gate, start, run) && run != [] && run[|run| - 1].to == Completed
    ensures forall k :: 0 <= k < |run| ==> run[k].to != Blocked
  {
    GatePrepends(gate, start, p, rest);
    run := [p] + rest;
  }

  lemma OnwardIsAccepted(s: Stage)
    requires !Terminal(s) && !s.UnknownStage?
    ensures StageGate()(s, FullyEvidenced(Onward(s)))
    ensures PassesGate(StageGate(), s, [FullyEvidenced(Onward(s))])
  {
    OnwardIsCloser(s);
    AcceptedExactly(s, FullyEvidenced(Onward(s)));
    GatePrepends(StageGate(), s, FullyEvidenced(Onward(s)), []);
    assert [FullyEvidenced(Onward(s))] + [] == [FullyEvidenced(Onward(s))];
  }
}
