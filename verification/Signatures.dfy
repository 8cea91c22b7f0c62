/** Which moves of a case reach a submission stage without passing through the signature stages. */
module Signatures {
  import opened Stages

  /** Before step `k` the signature was asked for and the signed form received. */
  ghost predicate PassedSignature(run: seq<Proposal>, k: nat)
    requires k <= |run|
  {
    exists j :: 0 < j < k && SignedAt(run, j)
  }

  predicate SignedAt(run: seq<Proposal>, j: int)
    requires 0 < j < |run|
  {
    run[j - 1].to == SignaturePending && run[j].to == SignedFormReceived
  }

  lemma SignedFormFollowsPending(from: Stage)
    requires SignedFormReceived in Allowed(from)
    ensures from == SignaturePending
  {
  }

  // The five ways in, besides the signed form: three straight into submission, and two moves by way of
  // the vendor's validation.

  const FORM_SUBMITTED := Move(FormReadyForReview, SubmissionPending)
  const PACKET_SUBMITTED := Move(PacketSent, SubmissionPending)
  const RESUMED_IN_SUBMISSION := Move(Blocked, SubmissionPending)
  const VALIDATION_SUBMITTED := Move(VendorValidation, SubmittedToRegulator)

  /** What is left to reach submission with is the signed form. */
  predicate Cuts(forbidden: set<Move>) {
    && FORM_SUBMITTED in forbidden && PACKET_SUBMITTED in forbidden && RESUMED_IN_SUBMISSION in forbidden
    && (PACKET_VALIDATED in forbidden || VALIDATION_SUBMITTED in forbidden)
  }

  /** With a signature required, every accepted run avoiding these moves passes through the signature stages
      before it enters a submission stage. */
  ghost predicate ForcesSignature(forbidden: set<Move>) {
    forall run, k :: AcceptedRun(DueIdentified, run) && Avoids(run, forbidden) && EntersSubmission(run, k) ==> PassedSignature(run, k)
  }

  ghost predicate EntersSubmission(run: seq<Proposal>, k: nat) {
    k < |run| && SubmissionStage(run[k].to) && run[k].signatureRequired
  }

  // -------------------------------------------------------------------------- forbidding them is enough

  lemma PendingEntries(from: Stage)
    requires SubmissionPending in Allowed(from)
    ensures from in {FormReadyForReview, SignedFormReceived, PacketSent, Blocked}
  {
  }

  lemma SubmittedEntries(from: Stage)
    ensures SubmittedToVendor in Allowed(from) ==> from == SubmissionPending
    ensures SubmittedToRegulator in Allowed(from) ==> from in {SubmissionPending, SubmittedToVendor, VendorValidation}
  {
  }

  /** Where step `k` came from, if it enters submission or the vendor's validation. */
  ghost predicate Entered(run: seq<Proposal>, k: nat)
    requires k < |run|
  {
    var from, to := StageAt(DueIdentified, run, k), run[k].to;
    && (to == SubmissionPending ==> from in {FormReadyForReview, SignedFormReceived, PacketSent, Blocked})
    && (to == SubmittedToVendor ==> from == SubmissionPending)
    && (to == SubmittedToRegulator ==> from in {SubmissionPending, SubmittedToVendor, VendorValidation})
    && (to == VendorValidation ==> from in {SubmittedToVendor, PacketSent})
    && (to == SignedFormReceived ==> from == SignaturePending)
  }

  lemma StepEntered(run: seq<Proposal>, k: nat)
    requires AcceptedRun(DueIdentified, run) && k < |run|
    ensures Entered(run, k)
  {
    StepOfRun(DueIdentified, run, k);
    var from := StageAt(DueIdentified, run, k);
    if run[k].to == SubmissionPending {
      PendingEntries(from);
    }
    if run[k].to == SignedFormReceived {
      SignedFormFollowsPending(from);
    }
    SubmittedEntries(from);
    Predecessors(from, run[k].to);
  }

  lemma {:induction false} FirstSubmission(run: seq<Proposal>, n: nat) returns (k: nat)
    requires n < |run| && SubmissionStage(run[n].to)
    ensures k <= n && SubmissionStage(run[k].to)
    ensures forall j :: 0 <= j < k ==> !SubmissionStage(run[j].to)
    decreases n
  {
    k := n;
    if j :| 0 <= j < n && SubmissionStage(run[j].to) {
      k := FirstSubmission(run, j);
    }
  }

  /** The first step into submission that takes no forbidden move comes from the signed form. */
  lemma FirstIsSigned(run: seq<Proposal>, k: nat, forbidden: set<Move>)
    requires k < |run| && SubmissionStage(run[k].to) && forall j :: 0 <= j < k ==> !SubmissionStage(run[j].to)
    requires forall j :: 0 <= j <= k ==> Entered(run, j) && MoveAt(run, j) !in forbidden
    requires Cuts(forbidden)
    ensures PassedSignature(run, k)
  {
    assert Entered(run, k) && MoveAt(run, k) !in forbidden;
    assert k > 0 ==> Entered(run, k - 1) && MoveAt(run, k - 1) !in forbidden;
    assert k > 0 && run[k - 1].to == SignedFormReceived;
    assert SignedAt(run, k - 1);
  }

  lemma CutsForceSignature(run: seq<Proposal>, k: nat, forbidden: set<Move>)
    requires AcceptedRun(DueIdentified, run) && Avoids(run, forbidden) && EntersSubmission(run, k) && Cuts(forbidden)
    ensures PassedSignature(run, k)
  {
    var first := FirstSubmission(run, k);
    forall j | 0 <= j <= first ensures Entered(run, j) && MoveAt(run, j) !in forbidden {
      StepEntered(run, j);
    }
    FirstIsSigned(run, first, forbidden);
    var j :| 0 < j < first && SignedAt(run, j);
  }

  // ------------------------------------------------------------------------- and no fewer will do

  const FORM_PATH: seq<Stage> := [CasePlanning, FormReceived, FormPreparation, FormReadyForReview, SubmissionPending]
  const PACKET_WAY: seq<Stage> := [CasePlanning, DocumentsPending, PacketBuilding, PacketReadyForReview, PacketApproved, PacketSent]
  const PENDING_PATH: seq<Stage> := PACKET_WAY + [SubmissionPending]
  const VALIDATED_PATH: seq<Stage> := PACKET_WAY + [VendorValidation, SubmittedToRegulator]
  const RESUMED_PATH: seq<Stage> := [Blocked, SubmissionPending]

  predicate Moves(from: Stage, to: Stage) {
    to in Allowed(from) && to != from
  }

  function AllowedMoves(): (Stage, Stage) -> bool {
    (from: Stage, to: Stage) => Moves(from, to)
  }

  /** The flag says the signature is recorded, and all evidence is there. */
  lemma FlaggedMove(from: Stage, to: Stage)
    requires Moves(from, to)
    ensures StageGate()(from, FullyEvidenced(to))
  {
    forall e {
      EveryEvidence(e, to);
    }
    CompleteProposal(from, FullyEvidenced(to));
  }

  lemma EveryEvidence(e: Evidence, to: Stage)
    ensures e in FullyEvidenced(to).evidence
  {
  }

  lemma CompleteProposal(from: Stage, p: Proposal)
    requires Moves(from, p.to) && forall e: Evidence :: e in p.evidence
    requires p.signatureRecorded && p.renewedEvidence
    ensures StageGate()(from, p)
  {
    AcceptedExactly(from, p);
  }

  function FlaggedRun(path: seq<Stage>): seq<Proposal> {
    RunAlong(FullyEvidenced, path)
  }

  lemma FlaggedPathRuns(path: seq<Stage>)
    requires PathOf(AllowedMoves(), path)
    ensures AcceptedRun(DueIdentified, FlaggedRun(path))
  {
    forall from, to | AllowedMoves()(from, to) ensures StageGate()(from, FullyEvidenced(to)) {
      FlaggedMove(from, to);
    }
    PathPasses(StageGate(), FullyEvidenced, AllowedMoves(), path);
  }

  /** A path into submission that never meets the signed form. */
  ghost predicate SkipsSignature(path: seq<Stage>) {
    path != [] && SubmissionStage(path[|path| - 1]) && SignedFormReceived !in path
  }

  /** None of the path's moves is forbidden. */
  ghost predicate Open(path: seq<Stage>, forbidden: set<Move>) {
    forall k :: 0 <= k < |path| ==> Move(PathBefore(path, k), path[k]) !in forbidden
  }

  lemma FlaggedAvoids(path: seq<Stage>, forbidden: set<Move>)
    requires Open(path, forbidden)
    ensures Avoids(FlaggedRun(path), forbidden)
  {
    PathAvoids(FullyEvidenced, path, forbidden);
  }

  lemma RunRefutes(run: seq<Proposal>, k: nat, forbidden: set<Move>)
    requires AcceptedRun(DueIdentified, run) && Avoids(run, forbidden) && EntersSubmission(run, k) && !PassedSignature(run, k)
    ensures !ForcesSignature(forbidden)
  {
  }

  lemma FlaggedRunSkips(path: seq<Stage>)
    requires SkipsSignature(path)
    ensures var run := FlaggedRun(path);
            run != [] && EntersSubmission(run, |run| - 1) && !PassedSignature(run, |run| - 1)
  {
  }

  lemma FormMoves()
    ensures Moves(DueIdentified, CasePlanning) && Moves(CasePlanning, FormReceived) && Moves(FormReceived, FormPreparation)
    ensures Moves(FormPreparation, FormReadyForReview) && Moves(FormReadyForReview, SubmissionPending)
  {
  }

  lemma PacketMoves()
    ensures Moves(DueIdentified, CasePlanning) && Moves(CasePlanning, DocumentsPending) && Moves(DocumentsPending, PacketBuilding)
    ensures Moves(PacketBuilding, PacketReadyForReview) && Moves(PacketReadyForReview, PacketApproved)
    ensures Moves(PacketApproved, PacketSent)
  {
  }

  lemma EnteringMoves()
    ensures Moves(PacketSent, SubmissionPending) && Moves(PacketSent, VendorValidation)
    ensures Moves(VendorValidation, SubmittedToRegulator)
    ensures Moves(DueIdentified, Blocked) && Moves(Blocked, SubmissionPending)
  {
  }

  lemma PathsAreAllowed(moves: (Stage, Stage) -> bool)
    requires moves(DueIdentified, CasePlanning) && moves(CasePlanning, FormReceived) && moves(FormReceived, FormPreparation)
    requires moves(FormPreparation, FormReadyForReview) && moves(FormReadyForReview, SubmissionPending)
    requires moves(CasePlanning, DocumentsPending) && moves(DocumentsPending, PacketBuilding)
    requires moves(PacketBuilding, PacketReadyForReview) && moves(PacketReadyForReview, PacketApproved)
    requires moves(PacketApproved, PacketSent)
    requires moves(PacketSent, SubmissionPending) && moves(PacketSent, VendorValidation)
    requires moves(VendorValidation, SubmittedToRegulator)
    requires moves(DueIdentified, Blocked) && moves(Blocked, SubmissionPending)
    ensures PathOf(moves, FORM_PATH) && PathOf(moves, PENDING_PATH) && PathOf(moves, VALIDATED_PATH) && PathOf(moves, RESUMED_PATH)
  {
  }

  lemma PathsSkip()
    ensures SkipsSignature(FORM_PATH) && SkipsSignature(PENDING_PATH)
    ensures SkipsSignature(VALIDATED_PATH) && SkipsSignature(RESUMED_PATH)
  {
  }

  /** Accepted, flagged, and in a submission stage, and no signature stage was passed: each of the four
      paths breaks the rule that a required signature is not skipped. */
  lemma FlagReplacesSignature(path: seq<Stage>)
    requires path in {FORM_PATH, PENDING_PATH, VALIDATED_PATH, RESUMED_PATH}
    ensures SkipsSignature(path)
    ensures var run := FlaggedRun(path);
            && AcceptedRun(DueIdentified, run) && run != []
            && EntersSubmission(run, |run| - 1) && !PassedSignature(run, |run| - 1)
  {
    FormMoves();
    PacketMoves();
    EnteringMoves();
    PathsAreAllowed(AllowedMoves());
    PathsSkip();
    FlaggedPathRuns(path);
    FlaggedRunSkips(path);
  }

  /** Whatever is forbidden of these paths is one of the five moves. */
  ghost predicate SparesPaths(forbidden: set<Move>) {
    forall path, k :: path in {FORM_PATH, PENDING_PATH, VALIDATED_PATH, RESUMED_PATH} && 0 <= k < |path|
      && Move(PathBefore(path, k), path[k]) in forbidden
      ==> Move(PathBefore(path, k), path[k])
          in {FORM_SUBMITTED, PACKET_SUBMITTED, RESUMED_IN_SUBMISSION, PACKET_VALIDATED, VALIDATION_SUBMITTED}
  }

  lemma FormPathMoves(k: nat)
    requires k < |FORM_PATH|
    ensures Move(PathBefore(FORM_PATH, k), FORM_PATH[k])
            !in {PACKET_SUBMITTED, RESUMED_IN_SUBMISSION, PACKET_VALIDATED, VALIDATION_SUBMITTED}
  {
  }

  lemma PendingPathMoves(k: nat)
    requires k < |PENDING_PATH|
    ensures Move(PathBefore(PENDING_PATH, k), PENDING_PATH[k])
            !in {FORM_SUBMITTED, RESUMED_IN_SUBMISSION, PACKET_VALIDATED, VALIDATION_SUBMITTED}
  {
  }

  lemma ValidatedPathMoves(k: nat)
    requires k < |VALIDATED_PATH|
    ensures Move(PathBefore(VALIDATED_PATH, k), VALIDATED_PATH[k]) !in {FORM_SUBMITTED, PACKET_SUBMITTED, RESUMED_IN_SUBMISSION}
  {
  }

  lemma ResumedPathMoves(k: nat)
    requires k < |RESUMED_PATH|
    ensures Move(PathBefore(RESUMED_PATH, k), RESUMED_PATH[k])
            !in {FORM_SUBMITTED, PACKET_SUBMITTED, PACKET_VALIDATED, VALIDATION_SUBMITTED}
  {
  }

  /** One of the paths is open when a cut is missing. */
  lemma UncutIsOpen(forbidden: set<Move>) returns (path: seq<Stage>)
    requires SparesPaths(forbidden) && !Cuts(forbidden)
    ensures path in {FORM_PATH, PENDING_PATH, VALIDATED_PATH, RESUMED_PATH} && Open(path, forbidden)
  {
    if FORM_SUBMITTED !in forbidden {
      path := FORM_PATH;
      forall k | 0 <= k < |path| ensures Move(PathBefore(path, k), path[k]) !in forbidden { FormPathMoves(k); }
    } else if PACKET_SUBMITTED !in forbidden {
      path := PENDING_PATH;
      forall k | 0 <= k < |path| ensures Move(PathBefore(path, k), path[k]) !in forbidden { PendingPathMoves(k); }
    } else if RESUMED_IN_SUBMISSION !in forbidden {
      path := RESUMED_PATH;
      forall k | 0 <= k < |path| ensures Move(PathBefore(path, k), path[k]) !in forbidden { ResumedPathMoves(k); }
    } else {
      path := VALIDATED_PATH;
      forall k | 0 <= k < |path| ensures Move(PathBefore(path, k), path[k]) !in forbidden { ValidatedPathMoves(k); }
    }
  }

  /** As long as nothing else on the four paths is forbidden, a required signature is never skipped if and
      only if the three moves straight into submission are forbidden, and one of the two by way of the
      vendor's validation. */
  lemma SignatureForcedExactly(forbidden: set<Move>)
    requires SparesPaths(forbidden)
    ensures ForcesSignature(forbidden) <==> Cuts(forbidden)
  {
    if Cuts(forbidden) {
      forall run, k | AcceptedRun(DueIdentified, run) && Avoids(run, forbidden) && EntersSubmission(run, k)
        ensures PassedSignature(run, k)
      {
        CutsForceSignature(run, k, forbidden);
      }
    } else {
      var path := UncutIsOpen(forbidden);
      FlagReplacesSignature(path);
      FlaggedAvoids(path, forbidden);
      RunRefutes(FlaggedRun(path), |FlaggedRun(path)| - 1, forbidden);
    }
  }

  const FIRST_MOVES := {Move(DueIdentified, CasePlanning), Move(DueIdentified, Blocked), Move(DueIdentified, Cancelled)}

  /** Forbidding every first move leaves no run at all, so the proviso cannot be dropped. */
  lemma NothingStartsWithoutFirstMove()
    ensures ForcesSignature(FIRST_MOVES) && !Cuts(FIRST_MOVES)
  {
    forall run: seq<Proposal>, k: nat | AcceptedRun(DueIdentified, run) && EntersSubmission(run, k) ensures !Avoids(run, FIRST_MOVES) {
      StepOfRun(DueIdentified, run, 0);
      StartsWith(run[0].to);
      assert MoveAt(run, 0) in FIRST_MOVES;
    }
  }

  lemma StartsWith(to: Stage)
    requires to in Allowed(DueIdentified)
    ensures Move(DueIdentified, to) in FIRST_MOVES
  {
  }
}
