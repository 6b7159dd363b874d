/**
 * `MentorController`: the three-tier review of a claim. A programme coordinator, then an
 * administrator, then HR each record a decision on their own tier of the claim; HR's decision
 * settles the claim's overall status. The claims are the shared list of `ClaimController`.
 */
module MentorController {
  import opened Wrappers
  import opened Strings
  import opened DateTimes
  import opened MonthlyClaims
  import opened Linq
  import opened Identities
  import opened TextExport
  import ClaimController

  /** The roles the review actions admit; every other role, and no role, is sent to AccessDenied. */
  predicate IsReviewer(role: Option<string>) {
    role == Some(ProgrammeCoordinator) || role == Some(Administrator) || role == Some(HR)
  }

  // ---------------------------------------------------------------------------
  // The state machine
  // ---------------------------------------------------------------------------

  /** `IsClaimReadyForReview(claim, userRole)`: whose turn it is on the claim. */
  predicate IsClaimReadyForReview(c: MonthlyClaim, role: Option<string>) {
    if role == Some(ProgrammeCoordinator) then
      c.coordinator.status == ApprovalStatus.Pending
    else if role == Some(Administrator) then
      c.coordinator.status == ApprovalStatus.Approved && c.administrator.status == ApprovalStatus.Pending
    else if role == Some(HR) then
      && c.coordinator.status == ApprovalStatus.Approved
      && c.administrator.status == ApprovalStatus.Approved
      && c.hr.status == ApprovalStatus.Pending
    else false
  }

  /** Only a reviewer is ever ready, and for any claim at most one of them is. */
  lemma AtMostOneRoleReady(c: MonthlyClaim)
    ensures forall role :: IsClaimReadyForReview(c, role) ==> IsReviewer(role)
    ensures forall r1, r2 :: IsClaimReadyForReview(c, r1) && IsClaimReadyForReview(c, r2) ==> r1 == r2
  {
  }

  /**
   * `UpdateApprovalStatus(claim, userRole, status, reviewNotes)`: the decision, the reviewer's
   * name, the time and the notes go to the tier of the role. A coordinator or administrator
   * decision leaves the claim under review; HR's decision settles it. Any other role changes nothing.
   */
  function UpdateApprovalStatus(c: MonthlyClaim, role: Option<string>, decision: ApprovalStatus,
                                reviewer: string, now: DateTime, notes: Option<string>): MonthlyClaim
  {
    var tier := TierReview(decision, Some(reviewer), Some(now), notes);
    if role == Some(ProgrammeCoordinator) then
      c.(coordinator := tier, status := ClaimStatus.UnderReview)
    else if role == Some(Administrator) then
      c.(administrator := tier, status := ClaimStatus.UnderReview)
    else if role == Some(HR) then
      c.(hr := tier, status := if decision == ApprovalStatus.Approved then ClaimStatus.Approved else ClaimStatus.Rejected)
    else c
  }

  /**
   * A coordinator or administrator decision records itself on that one tier, whatever it is, and
   * moves the claim to UnderReview; every other field, the other two tiers included, is kept.
   */
  lemma IntermediateDecision(c: MonthlyClaim, role: Option<string>, decision: ApprovalStatus,
                             reviewer: string, now: DateTime, notes: Option<string>)
    requires role == Some(ProgrammeCoordinator) || role == Some(Administrator)
    ensures var r := UpdateApprovalStatus(c, role, decision, reviewer, now, notes);
      && r.status == ClaimStatus.UnderReview
      && r.hr == c.hr
      && r.(coordinator := c.coordinator, administrator := c.administrator, status := c.status) == c
      && (if role == Some(ProgrammeCoordinator) then r.administrator == c.administrator && r.coordinator.status == decision
          else r.coordinator == c.coordinator && r.administrator.status == decision)
  {
  }

  /** HR's decision is final: the claim is Approved exactly when HR approved it, else Rejected. */
  lemma FinalDecision(c: MonthlyClaim, decision: ApprovalStatus, reviewer: string, now: DateTime, notes: Option<string>)
    ensures var r := UpdateApprovalStatus(c, Some(HR), decision, reviewer, now, notes);
      && (r.status == ClaimStatus.Approved <==> decision == ApprovalStatus.Approved)
      && (r.status == ClaimStatus.Rejected <==> decision != ApprovalStatus.Approved)
      && r.hr == TierReview(decision, Some(reviewer), Some(now), notes)
      && r.(hr := c.hr, status := c.status) == c
  {
  }

  /** A role that is not a reviewer changes nothing. */
  lemma OtherRoleChangesNothing(c: MonthlyClaim, role: Option<string>, decision: ApprovalStatus,
                                reviewer: string, now: DateTime, notes: Option<string>)
    requires !IsReviewer(role)
    ensures UpdateApprovalStatus(c, role, decision, reviewer, now, notes) == c
  {
  }

  /** A review never changes which claim it is or who submitted it. */
  lemma ReviewKeepsIdentity(c: MonthlyClaim, role: Option<string>, decision: ApprovalStatus,
                            reviewer: string, now: DateTime, notes: Option<string>)
    ensures var r := UpdateApprovalStatus(c, role, decision, reviewer, now, notes);
      (r.id, r.lecturerName, r.submittedDate, r.hoursWorked, r.hourlyRate) ==
      (c.id, c.lecturerName, c.submittedDate, c.hoursWorked, c.hourlyRate)
  {
  }

  /** The tiers were decided in order: a later tier is decided only after the earlier one approved. */
  predicate TiersInOrder(c: MonthlyClaim) {
    && (c.administrator.status != ApprovalStatus.Pending ==> c.coordinator.status == ApprovalStatus.Approved)
    && (c.hr.status != ApprovalStatus.Pending ==> c.administrator.status == ApprovalStatus.Approved)
  }

  /** A claim just created is in order and waits for the coordinator. */
  lemma NewClaimWaitsForCoordinator(model: MonthlyClaim, id: int, lecturerName: string, now: DateTime)
    ensures var c := ClaimController.NewClaim(model, id, lecturerName, now);
      TiersInOrder(c) && IsClaimReadyForReview(c, Some(ProgrammeCoordinator))
  {
  }

  /**
   * When the role whose turn it is decides, the claim stays in order and the turn passes on:
   * a coordinator's approval to the administrator, an administrator's approval to HR; after a
   * rejection, or HR's approval, nobody is ready any more.
   */
  lemma ReadyDecisionPassesTurn(c: MonthlyClaim, role: Option<string>, decision: ApprovalStatus,
                                reviewer: string, now: DateTime, notes: Option<string>)
    requires TiersInOrder(c) && IsClaimReadyForReview(c, role) && decision != ApprovalStatus.Pending
    ensures var r := UpdateApprovalStatus(c, role, decision, reviewer, now, notes);
      && TiersInOrder(r)
      && !IsClaimReadyForReview(r, role)
      && (role == Some(ProgrammeCoordinator) && decision == ApprovalStatus.Approved ==> IsClaimReadyForReview(r, Some(Administrator)))
      && (role == Some(Administrator) && decision == ApprovalStatus.Approved ==> IsClaimReadyForReview(r, Some(HR)))
      && (decision == ApprovalStatus.Rejected || role == Some(HR) ==> forall other :: !IsClaimReadyForReview(r, other))
  {
  }

  /**
   * `Approve` does not ask whose turn it is: HR approving a claim the coordinator has not yet
   * decided is not HR's turn, yet it makes the claim Approved with the earlier tiers undecided.
   */
  lemma HrApprovesOutOfTurn(c: MonthlyClaim, reviewer: string, now: DateTime, notes: Option<string>)
    requires c.coordinator.status == ApprovalStatus.Pending
    ensures !IsClaimReadyForReview(c, Some(HR))
    ensures var r := UpdateApprovalStatus(c, Some(HR), ApprovalStatus.Approved, reviewer, now, notes);
      r.status == ClaimStatus.Approved && r.coordinator.status == ApprovalStatus.Pending && !TiersInOrder(r)
  {
  }

  /** `GetNextReviewStep(claim, currentUserRole)`: the message after a decision. */
  function GetNextReviewStep(c: MonthlyClaim, role: Option<string>): string {
    if role == Some(ProgrammeCoordinator) then "Waiting for Administrator review."
    else if role == Some(Administrator) then "Waiting for HR final review."
    else if role == Some(HR) && c.status == ClaimStatus.Approved then "Claim fully approved! Lecturer will see the final status."
    else if role == Some(HR) && c.status == ClaimStatus.Rejected then "Claim fully rejected! Lecturer will see the final status."
    else "Review completed."
  }

  /** After HR's decision the message always tells the final outcome, never "Review completed.". */
  lemma FinalStepMessage(c: MonthlyClaim, decision: ApprovalStatus, reviewer: string, now: DateTime, notes: Option<string>)
    ensures var r := UpdateApprovalStatus(c, Some(HR), decision, reviewer, now, notes);
      GetNextReviewStep(r, Some(HR)) ==
        if decision == ApprovalStatus.Approved then "Claim fully approved! Lecturer will see the final status."
        else "Claim fully rejected! Lecturer will see the final status."
  {
  }

  // ---------------------------------------------------------------------------
  // Actions
  // ---------------------------------------------------------------------------

  /** What the GET `Review` action shows. */
  datatype ReviewPage = PageDenied | PageClaimMissing | PageNotReady | PageShown(claim: MonthlyClaim)

  /** GET `Review(id)`: the review form, only for the reviewer whose turn it is. */
  function Review(claims: seq<MonthlyClaim>, role: Option<string>, id: int): (r: ReviewPage)
    ensures !IsReviewer(role) <==> r == PageDenied
    ensures IsReviewer(role) && ClaimController.FirstWithId(claims, id).Some? ==>
      (r.PageShown? <==> IsClaimReadyForReview(claims[ClaimController.FirstWithId(claims, id).value], role))
    ensures r == PageClaimMissing <==> IsReviewer(role) && forall k :: 0 <= k < |claims| ==> claims[k].id != id
    ensures r.PageShown? ==> r.claim in claims && r.claim.id == id && IsClaimReadyForReview(r.claim, role)
    ensures r == PageNotReady ==> exists k :: 0 <= k < |claims| && claims[k].id == id && !IsClaimReadyForReview(claims[k], role)
  {
    if !IsReviewer(role) then PageDenied
    else match ClaimController.FirstWithId(claims, id)
      case None => PageClaimMissing
      case Some(k) => if IsClaimReadyForReview(claims[k], role) then PageShown(claims[k]) else PageNotReady
  }

  /** What the POST `Approve` and `Reject` actions do. */
  datatype ReviewOutcome = AccessDenied | NotesRequired | ClaimMissing | Decided(nextStep: string)

  /** POST `Approve(id, reviewNotes)`: any notes are accepted, and readiness is not checked. */
  method Approve(store: ClaimController.ClaimStore, user: Identity, id: int, reviewNotes: Option<string>, now: DateTime)
    returns (outcome: ReviewOutcome)
    requires store.Valid()
    modifies store
    ensures store.Valid() && store.nextClaimId == old(store.nextClaimId)
    ensures !IsReviewer(user.role) ==> outcome == AccessDenied && store.claims == old(store.claims)
    ensures IsReviewer(user.role) ==> Applied(old(store.claims), store.claims, outcome, user, id, ApprovalStatus.Approved, reviewNotes, now)
  {
    if !IsReviewer(user.role) {
      return AccessDenied;
    }
    outcome := Decide(store, user, id, ApprovalStatus.Approved, reviewNotes, now);
  }

  /** POST `Reject(id, reviewNotes)`: a reason is required before the claim is even looked up. */
  method Reject(store: ClaimController.ClaimStore, user: Identity, id: int, reviewNotes: Option<string>, now: DateTime)
    returns (outcome: ReviewOutcome)
    requires store.Valid()
    modifies store
    ensures store.Valid() && store.nextClaimId == old(store.nextClaimId)
    ensures !IsReviewer(user.role) ==> outcome == AccessDenied && store.claims == old(store.claims)
    ensures IsReviewer(user.role) && IsNullOrWhiteSpace(reviewNotes) ==>
      outcome == NotesRequired && store.claims == old(store.claims)
    ensures IsReviewer(user.role) && !IsNullOrWhiteSpace(reviewNotes) ==>
      Applied(old(store.claims), store.claims, outcome, user, id, ApprovalStatus.Rejected, reviewNotes, now)
  {
    if !IsReviewer(user.role) {
      return AccessDenied;
    }
    if IsNullOrWhiteSpace(reviewNotes) {
      return NotesRequired;
    }
    outcome := Decide(store, user, id, ApprovalStatus.Rejected, reviewNotes, now);
  }

  /**
   * The effect of a decision on the list: an unknown id changes nothing; otherwise the first
   * claim with that id is replaced by the reviewed claim, and the message follows from it.
   */
  predicate Applied(before: seq<MonthlyClaim>, after: seq<MonthlyClaim>, outcome: ReviewOutcome, user: Identity,
                    id: int, decision: ApprovalStatus, notes: Option<string>, now: DateTime) {
    match ClaimController.FirstWithId(before, id)
    case None => outcome == ClaimMissing && after == before
    case Some(k) =>
      var c := UpdateApprovalStatus(before[k], user.role, decision, DisplayName(user), now, notes);
      after == before[k := c] && outcome == Decided(GetNextReviewStep(c, user.role))
  }

  /** `GetClaimById`, `UpdateApprovalStatus`, `UpdateFinalClaimStatus` (which does nothing) and `GetNextReviewStep`. */
  method Decide(store: ClaimController.ClaimStore, user: Identity, id: int, decision: ApprovalStatus,
                notes: Option<string>, now: DateTime) returns (outcome: ReviewOutcome)
    requires store.Valid()
    modifies store
    ensures store.Valid() && store.nextClaimId == old(store.nextClaimId)
    ensures Applied(old(store.claims), store.claims, outcome, user, id, decision, notes, now)
  {
    var found := ClaimController.FirstWithId(store.claims, id);
    if found.None? {
      return ClaimMissing;
    }
    var k := found.value;
    var c := UpdateApprovalStatus(store.claims[k], user.role, decision, DisplayName(user), now, notes);
    ReviewKeepsIdentity(store.claims[k], user.role, decision, DisplayName(user), now, notes);
    store.claims := store.claims[k := c];
    outcome := Decided(GetNextReviewStep(c, user.role));
  }

  // ---------------------------------------------------------------------------
  // Export by status
  // ---------------------------------------------------------------------------

  /** The `status.ToLower()` switch of `ExportClaimsByStatus`; any other key means every claim. */
  function StatusForKey(status: string): Option<ClaimStatus> {
    var key := ToLower(status);
    if key == "pending" then Some(ClaimStatus.Pending)
    else if key == "approved" then Some(ClaimStatus.Approved)
    else if key == "rejected" then Some(ClaimStatus.Rejected)
    else if key == "underreview" then Some(ClaimStatus.UnderReview)
    else None
  }

  /** The key is compared case-insensitively. */
  lemma StatusKeyIgnoresCase(status: string)
    ensures StatusForKey(ToLower(status)) == StatusForKey(status)
  {
    ToLowerIdempotent(status);
  }

  /** The claims `ExportClaimsByStatus` selects for a key. */
  function ClaimsForKey(claims: seq<MonthlyClaim>, status: string): (r: seq<MonthlyClaim>)
    ensures StatusForKey(status).None? ==> r == claims
    ensures StatusForKey(status).Some? ==>
      && (forall k :: 0 <= k < |r| ==> r[k].status == StatusForKey(status).value)
      && (forall k :: 0 <= k < |claims| && claims[k].status == StatusForKey(status).value ==> claims[k] in r)
  {
    match StatusForKey(status)
    case None => claims
    case Some(s) => Where(claims, WithStatus(s))
  }

  /** Whatever the key, the export keeps the store's order. */
  lemma ClaimsForKeyInOrder(claims: seq<MonthlyClaim>, status: string)
    ensures IsSubsequence(ClaimsForKey(claims, status), claims)
  {
    match StatusForKey(status)
    case None => SubsequenceOfItself(claims);
    case Some(s) => WhereIsSubsequence(claims, WithStatus(s));
  }

  /** GET `ExportClaimsByStatus(status)`: the header and one line per selected claim; `None` is AccessDenied. */
  method ExportClaimsByStatus(store: ClaimController.ClaimStore, user: Identity, status: string)
    returns (lines: Option<seq<string>>)
    ensures !IsReviewer(user.role) <==> lines.None?
    ensures lines.Some? ==> ClaimController.IsCsvExport(lines.value, ClaimsForKey(store.claims, status))
  {
    if !IsReviewer(user.role) {
      return None;
    }
    var claims := ClaimsForKey(store.claims, status);
    var written := WriteLines(GetCsvHeaders(), claims, ToCsv);
    lines := Some(written);
  }
}
