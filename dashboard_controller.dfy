/**
 * `DashboardController`: read-only views over the shared claim list. A lecturer's dashboard
 * shows the claims that look like theirs, everyone else's shows them all; the mentor dashboard
 * lists the pending claims for coordinators and administrators.
 */
module DashboardController {
  import opened Wrappers
  import opened Strings
  import opened MonthlyClaims
  import opened Linq
  import opened Identities

  /** `DashboardViewModel`: who is looking, the counts, and the claims listed. */
  datatype DashboardViewModel = DashboardViewModel(
    username: Option<string>,
    role: Option<string>,
    totalClaims: nat,
    pendingClaims: nat,
    approvedClaims: nat,
    rejectedClaims: nat,
    claims: seq<MonthlyClaim>)

  /** `c => c.LecturerName.Contains(userName) || c.LecturerName.Contains(userEmail)` */
  function LecturerFilter(userName: string, userEmail: string): MonthlyClaim -> bool {
    (c: MonthlyClaim) => Contains(c.lecturerName, userName) || Contains(c.lecturerName, userEmail)
  }

  /**
   * The filter on one claim, or `None` where `Contains` is handed a missing claim value and
   * throws `ArgumentNullException`; the `||` stops after a first match.
   */
  function MatchesLecturer(c: MonthlyClaim, userName: Option<string>, userEmail: Option<string>): Option<bool> {
    match userName
    case None => None
    case Some(n) =>
      if Contains(c.lecturerName, n) then Some(true)
      else match userEmail
        case None => None
        case Some(e) => Some(Contains(c.lecturerName, e))
  }

  /** `allClaims.Where(filter).ToList()` for a lecturer; `None` if the filter throws on some claim. */
  function LecturerClaims(claims: seq<MonthlyClaim>, userName: Option<string>, userEmail: Option<string>)
    : (r: Option<seq<MonthlyClaim>>)
    ensures userName.Some? && userEmail.Some? ==> r == Some(Where(claims, LecturerFilter(userName.value, userEmail.value)))
    ensures claims == [] ==> r == Some([])
    ensures claims != [] && userName.None? ==> r.None?
  {
    if claims == [] then Some([])
    else match MatchesLecturer(claims[0], userName, userEmail)
      case None => None
      case Some(keep) =>
        match LecturerClaims(claims[1..], userName, userEmail)
        case None => None
        case Some(rest) => Some(if keep then [claims[0]] + rest else rest)
  }

  /** The four statuses split any list: each claim is counted under exactly one of them. */
  lemma {:induction false} StatusCounts(claims: seq<MonthlyClaim>)
    ensures Count(claims, WithStatus(ClaimStatus.Pending)) + Count(claims, WithStatus(ClaimStatus.Approved))
          + Count(claims, WithStatus(ClaimStatus.Rejected)) + Count(claims, WithStatus(ClaimStatus.UnderReview))
          == |claims|
    decreases |claims|
  {
    if claims != [] {
      StatusCounts(claims[1..]);
    }
  }

  /** The view model of a list of claims: its length and its status counts. */
  function Summary(username: Option<string>, role: Option<string>, claims: seq<MonthlyClaim>): (v: DashboardViewModel)
    ensures v.claims == claims && v.totalClaims == |claims|
    ensures v.pendingClaims == Count(claims, WithStatus(ClaimStatus.Pending))
    ensures v.approvedClaims == Count(claims, WithStatus(ClaimStatus.Approved))
    ensures v.rejectedClaims == Count(claims, WithStatus(ClaimStatus.Rejected))
    ensures v.pendingClaims + v.approvedClaims + v.rejectedClaims <= v.totalClaims
    ensures v.pendingClaims + v.approvedClaims + v.rejectedClaims == v.totalClaims
            <==> Count(claims, WithStatus(ClaimStatus.UnderReview)) == 0
  {
    StatusCounts(claims);
    DashboardViewModel(
      username, role, |claims|,
      Count(claims, WithStatus(ClaimStatus.Pending)),
      Count(claims, WithStatus(ClaimStatus.Approved)),
      Count(claims, WithStatus(ClaimStatus.Rejected)),
      claims)
  }

  /**
   * `Index()`: a lecturer sees the claims whose lecturer name contains their given name or
   * their login (the Name claim); every other role, and no role, sees every claim.
   * `None` is the `ArgumentNullException` of a lecturer identity missing one of those claims.
   */
  function Index(claims: seq<MonthlyClaim>, user: Identity): (r: Option<DashboardViewModel>)
    ensures r.Some? ==> IsSubsequence(r.value.claims, claims)
    ensures r.Some? ==> r.value.totalClaims == |r.value.claims|
    ensures r.Some? ==> r.value.pendingClaims == Count(r.value.claims, WithStatus(ClaimStatus.Pending))
    ensures r.Some? ==> r.value.approvedClaims == Count(r.value.claims, WithStatus(ClaimStatus.Approved))
    ensures r.Some? ==> r.value.rejectedClaims == Count(r.value.claims, WithStatus(ClaimStatus.Rejected))
    ensures r.Some? ==> r.value.pendingClaims + r.value.approvedClaims + r.value.rejectedClaims <= r.value.totalClaims
    ensures user.role != Some(Lecturer) ==> r.Some? && r.value.claims == claims
    ensures user.role == Some(Lecturer) && user.givenName.Some? && user.name.Some? ==>
      && r.Some?
      && (forall k :: 0 <= k < |r.value.claims| ==>
            Contains(r.value.claims[k].lecturerName, user.givenName.value)
            || Contains(r.value.claims[k].lecturerName, user.name.value))
      && (forall k :: 0 <= k < |claims| && (Contains(claims[k].lecturerName, user.givenName.value)
                                         || Contains(claims[k].lecturerName, user.name.value)) ==>
            claims[k] in r.value.claims)
  {
    if user.role == Some(Lecturer) then
      match LecturerClaims(claims, user.givenName, user.name)
      case None => None
      case Some(mine) =>
        LecturerClaimsInOrder(claims, user.givenName, user.name);
        Some(Summary(user.givenName, user.role, mine))
    else
      SubsequenceOfItself(claims);
      Some(Summary(user.givenName, user.role, claims))
  }

  /** Whatever the lecturer filter keeps, it keeps in store order. */
  lemma {:induction false} LecturerClaimsInOrder(claims: seq<MonthlyClaim>, userName: Option<string>, userEmail: Option<string>)
    ensures LecturerClaims(claims, userName, userEmail).Some? ==>
      IsSubsequence(LecturerClaims(claims, userName, userEmail).value, claims)
    decreases |claims|
  {
    if claims != [] && LecturerClaims(claims, userName, userEmail).Some? {
      LecturerClaimsInOrder(claims[1..], userName, userEmail);
      var rest := LecturerClaims(claims[1..], userName, userEmail).value;
      if MatchesLecturer(claims[0], userName, userEmail) == Some(true) {
        assert ([claims[0]] + rest)[1..] == rest;
      } else {
        SkipHead(rest, claims);
      }
    }
  }

  /**
   * `MentorDashboard()`: only coordinators and administrators get in (HR does not); they see
   * every pending claim in store order, and both counts are the number of them.
   */
  function MentorDashboard(claims: seq<MonthlyClaim>, user: Identity): (r: Option<DashboardViewModel>)
    ensures r.Some? <==> user.role == Some(ProgrammeCoordinator) || user.role == Some(Administrator)
    ensures r.Some? ==>
      && IsSubsequence(r.value.claims, claims)
      && (forall k :: 0 <= k < |r.value.claims| ==> r.value.claims[k].status == ClaimStatus.Pending)
      && (forall k :: 0 <= k < |claims| && claims[k].status == ClaimStatus.Pending ==> claims[k] in r.value.claims)
      && r.value.totalClaims == r.value.pendingClaims == |r.value.claims| == Count(claims, WithStatus(ClaimStatus.Pending))
      && r.value.approvedClaims == 0 && r.value.rejectedClaims == 0
  {
    if user.role != Some(ProgrammeCoordinator) && user.role != Some(Administrator) then None
    else
      var pending := Where(claims, WithStatus(ClaimStatus.Pending));
      WhereIsSubsequence(claims, WithStatus(ClaimStatus.Pending));
      CountIsWhereLength(claims, WithStatus(ClaimStatus.Pending));
      Some(DashboardViewModel(user.givenName, user.role, |pending|, |pending|, 0, 0, pending))
  }
}
