/**
 * `HRController`: the HR area, open to HR and administrators only. Its dashboard counts users
 * and claims, it registers staff accounts and deletes accounts in the shared user list, and it
 * exports the users, or the users and the claims, as CSV lines.
 */
module HRController {
  import opened Wrappers
  import opened Strings
  import opened Numerals
  import opened DateTimes
  import opened MonthlyClaims
  import opened Linq
  import opened Identities
  import opened TextExport
  import opened AccountController
  import ClaimController
  import DashboardController

  /** `IsAuthorized()`: the Role claim is "HR" or "Administrator". */
  predicate IsAuthorized(user: Identity) {
    user.role == Some(HR) || user.role == Some(Administrator)
  }

  // ---------------------------------------------------------------------------
  // Dashboard
  // ---------------------------------------------------------------------------

  /** `HRDashboardViewModel` */
  datatype HRDashboardViewModel = HRDashboardViewModel(
    username: string,
    role: string,
    totalUsers: nat,
    totalClaims: nat,
    pendingClaims: nat,
    approvedClaims: nat,
    rejectedClaims: nat,
    users: seq<User>,
    claims: seq<MonthlyClaim>)

  /**
   * GET `Dashboard()`: every user and every claim, with the status counts over all claims; a
   * missing name or role shows as "Unknown". `None` is AccessDenied.
   */
  function Dashboard(users: seq<User>, claims: seq<MonthlyClaim>, user: Identity): (r: Option<HRDashboardViewModel>)
    ensures r.Some? <==> IsAuthorized(user)
    ensures r.Some? ==>
      && r.value.users == users && r.value.claims == claims
      && r.value.totalUsers == |users| && r.value.totalClaims == |claims|
      && r.value.pendingClaims == Count(claims, WithStatus(ClaimStatus.Pending))
      && r.value.approvedClaims == Count(claims, WithStatus(ClaimStatus.Approved))
      && r.value.rejectedClaims == Count(claims, WithStatus(ClaimStatus.Rejected))
      && r.value.pendingClaims + r.value.approvedClaims + r.value.rejectedClaims <= r.value.totalClaims
      && r.value.username == user.givenName.GetOr("Unknown")
  {
    if !IsAuthorized(user) then None
    else
      var summary := DashboardController.Summary(user.givenName, user.role, claims);
      Some(HRDashboardViewModel(
        user.givenName.GetOr("Unknown"), user.role.GetOr("Unknown"), |users|, |claims|,
        summary.pendingClaims, summary.approvedClaims, summary.rejectedClaims, users, claims))
  }

  /** HR and administrators see the same claim counts on this dashboard as on their main dashboard. */
  lemma DashboardCountsAgree(users: seq<User>, claims: seq<MonthlyClaim>, user: Identity)
    requires IsAuthorized(user)
    ensures var hr := Dashboard(users, claims, user).value;
      var main := DashboardController.Index(claims, user).value;
      && hr.totalClaims == main.totalClaims
      && hr.pendingClaims == main.pendingClaims
      && hr.approvedClaims == main.approvedClaims
      && hr.rejectedClaims == main.rejectedClaims
  {
  }

  // ---------------------------------------------------------------------------
  // Registering and deleting accounts
  // ---------------------------------------------------------------------------

  /** The roles `RegisterUser` accepts. */
  predicate IsStaffRole(role: Option<string>) {
    role == Some("User") || role == Some(HR) || role == Some(Administrator)
  }

  /** Lecturer and coordinator accounts cannot be made here. */
  lemma TeachingRolesRefused()
    ensures !IsStaffRole(Some(Lecturer)) && !IsStaffRole(Some(ProgrammeCoordinator)) && !IsStaffRole(None)
  {
  }

  /** The result of POST `RegisterUser`. */
  datatype RegisterUserOutcome = Denied | FormInvalid | DuplicateEmail | InvalidRole | Created(user: User)

  /**
   * POST `RegisterUser(model)`: after the role gate and model validation, a used e-mail is
   * refused before the role is checked; an accepted user takes its id from the shared counter.
   */
  method RegisterUser(store: UserStore, user: Identity, model: Registration, modelStateValid: bool, now: DateTime)
    returns (outcome: RegisterUserOutcome)
    requires store.Valid()
    modifies store
    ensures store.Valid()
    ensures outcome ==
      if !IsAuthorized(user) then Denied
      else if !modelStateValid then FormInvalid
      else if EmailTaken(old(store.users), model.email) then DuplicateEmail
      else if !IsStaffRole(model.role) then InvalidRole
      else Created(NewUser(model, old(store.nextUserId), model.role.value, now))
    ensures outcome.Created? ==>
      store.users == old(store.users) + [outcome.user] && store.nextUserId == old(store.nextUserId) + 1
    ensures !outcome.Created? ==>
      store.users == old(store.users) && store.nextUserId == old(store.nextUserId)
  {
    if !IsAuthorized(user) {
      return Denied;
    }
    if !modelStateValid {
      return FormInvalid;
    }
    if EmailTaken(store.users, model.email) {
      return DuplicateEmail;
    }
    if !IsStaffRole(model.role) {
      return InvalidRole;
    }
    var id := store.GetNextUserId();
    var added := NewUser(model, id, model.role.value, now);
    AppendKeepsValid(store.users, id, added);
    store.users := store.users + [added];
    outcome := Created(added);
  }

  /** `users.FirstOrDefault(u => u.Id == id)`, as the position of the first match. */
  function FirstUserWithId(users: seq<User>, id: int): (r: Option<nat>)
    ensures r.Some? ==> r.value < |users| && users[r.value].id == id
    ensures r.Some? ==> forall j :: 0 <= j < r.value ==> users[j].id != id
    ensures r.None? <==> forall j :: 0 <= j < |users| ==> users[j].id != id
  {
    FirstWith(users, (u: User) => u.id == id)
  }

  /** Where ids ascend, the user at position `k` is the one found by its id. */
  lemma FoundAtOwnPosition(users: seq<User>, nextUserId: int, k: nat)
    requires UsersValid(users, nextUserId) && k < |users|
    ensures FirstUserWithId(users, users[k].id) == Some(k)
  {
  }

  /** The result of GET `DeleteUser`. */
  datatype DeleteUserOutcome = DeleteDenied | UserMissing | OwnAccount | Deleted(user: User)

  /**
   * What `DeleteUser(id)` decides: the account to delete must exist, and it is refused when its
   * e-mail equals the signed-in user's Email claim.
   */
  function DeleteDecision(users: seq<User>, user: Identity, id: int): DeleteUserOutcome {
    if !IsAuthorized(user) then DeleteDenied
    else match FirstUserWithId(users, id)
      case None => UserMissing
      case Some(k) => if Some(users[k].email) == user.email then OwnAccount else Deleted(users[k])
  }

  /**
   * The self-delete guard never fires for a signed-in user: `Login` issues no Email claim, so
   * HR or an administrator deleting their own account succeeds.
   */
  lemma OwnAccountNotRefused(users: seq<User>, nextUserId: int, k: nat)
    requires UsersValid(users, nextUserId) && k < |users|
    requires users[k].role == HR || users[k].role == Administrator
    ensures DeleteDecision(users, LoginIdentity(users[k]), users[k].id) == Deleted(users[k])
  {
    FoundAtOwnPosition(users, nextUserId, k);
  }

  /** The guard as intended: compare with the Name claim, which holds the e-mail a user signed in with. */
  function DeleteDecisionByLogin(users: seq<User>, user: Identity, id: int): DeleteUserOutcome {
    if !IsAuthorized(user) then DeleteDenied
    else match FirstUserWithId(users, id)
      case None => UserMissing
      case Some(k) => if Some(users[k].email) == user.name then OwnAccount else Deleted(users[k])
  }

  /**
   * With the intended guard, a signed-in user can never delete their own account, and the
   * decision about any other account is the same as before.
   */
  lemma OwnAccountRefusedByLogin(users: seq<User>, nextUserId: int, k: nat, id: int)
    requires UsersValid(users, nextUserId) && k < |users|
    requires users[k].role == HR || users[k].role == Administrator
    ensures DeleteDecisionByLogin(users, LoginIdentity(users[k]), users[k].id) == OwnAccount
    ensures id != users[k].id ==>
      DeleteDecisionByLogin(users, LoginIdentity(users[k]), id) == DeleteDecision(users, LoginIdentity(users[k]), id)
  {
    FoundAtOwnPosition(users, nextUserId, k);
    if id != users[k].id && FirstUserWithId(users, id).Some? {
      var j := FirstUserWithId(users, id).value;
      assert j != k;
    }
  }

  /** Removing one user keeps ids ascending and below the counter and e-mails distinct. */
  lemma RemoveKeepsValid(users: seq<User>, nextUserId: int, k: nat)
    requires UsersValid(users, nextUserId) && k < |users|
    ensures UsersValid(users[..k] + users[k + 1..], nextUserId)
  {
    var after := users[..k] + users[k + 1..];
    assert forall i :: 0 <= i < |after| ==> after[i] == users[if i < k then i else i + 1];
  }

  /**
   * GET `DeleteUser(id)`: `users.Remove(user)` takes out exactly the account found, the
   * others keep their order, and the counter is untouched, so the id is not reused.
   */
  method DeleteUser(store: UserStore, user: Identity, id: int) returns (outcome: DeleteUserOutcome)
    requires store.Valid()
    modifies store
    ensures store.Valid() && store.nextUserId == old(store.nextUserId)
    ensures outcome == DeleteDecision(old(store.users), user, id)
    ensures outcome.Deleted? ==>
      var k := FirstUserWithId(old(store.users), id).value;
      store.users == old(store.users)[..k] + old(store.users)[k + 1..]
    ensures !outcome.Deleted? ==> store.users == old(store.users)
  {
    if !IsAuthorized(user) {
      return DeleteDenied;
    }
    var found := FirstUserWithId(store.users, id);
    if found.None? {
      return UserMissing;
    }
    var k := found.value;
    if Some(store.users[k].email) == user.email {
      return OwnAccount;
    }
    outcome := Deleted(store.users[k]);
    RemoveKeepsValid(store.users, store.nextUserId, k);
    store.users := store.users[..k] + store.users[k + 1..];
  }

  // ---------------------------------------------------------------------------
  // Exports
  // ---------------------------------------------------------------------------

  const UserColumnNames: seq<string> := ["Id", "FirstName", "LastName", "Email", "Role", "CreatedDate"]

  /** The header line of the user export. */
  function UsersHeader(): string {
    Join(UserColumnNames, ',')
  }

  /** The six fields of a user's line: the creation date as "yyyy-MM-dd HH:mm". */
  function UserFields(u: User): (fields: seq<string>)
    ensures |fields| == |UserColumnNames|
  {
    [FormatInt(u.id), u.firstName, u.lastName, u.email, u.role, DateTimes.Format(u.createdDate)]
  }

  /** One line of the user export; nothing is escaped. */
  function UserLine(u: User): string {
    Join(UserFields(u), ',')
  }

  /** With no comma in the names, e-mail or role, a user's line splits into the header's six columns. */
  lemma UserLineColumns(u: User)
    requires ',' !in u.firstName && ',' !in u.lastName && ',' !in u.email && ',' !in u.role
    ensures Split(UserLine(u), ',') == UserFields(u)
    ensures |Split(UserLine(u), ',')| == |Split(UsersHeader(), ',')| == 6
  {
    UsersHeaderColumns();
    NoCommaInInt(u.id);
    NoCommaInDateTime(u.createdDate);
    SixColumns(FormatInt(u.id), u.firstName, u.lastName, u.email, u.role, DateTimes.Format(u.createdDate));
  }

  lemma NoCommaInDateTime(d: DateTime)
    ensures ',' !in DateTimes.Format(d)
  {
    NoCommaInDate(Some(d));
  }

  lemma SixColumns(f0: string, f1: string, f2: string, f3: string, f4: string, f5: string)
    requires ',' !in f0 && ',' !in f1 && ',' !in f2 && ',' !in f3 && ',' !in f4 && ',' !in f5
    ensures Split(Join([f0, f1, f2, f3, f4, f5], ','), ',') == [f0, f1, f2, f3, f4, f5]
  {
    var fields := [f0, f1, f2, f3, f4, f5];
    assert forall k :: 0 <= k < |fields| ==> ',' !in fields[k];
    SplitJoin(fields, ',');
  }

  lemma UsersHeaderColumns()
    ensures Split(UsersHeader(), ',') == UserColumnNames
  {
    var names := UserColumnNames;
    forall k | 0 <= k < |names| ensures ',' !in names[k] {
    }
    SplitJoin(names, ',');
  }

  /** The lines of the user export: the header, then one line per user in list order. */
  predicate IsUserExport(lines: seq<string>, users: seq<User>) {
    lines == [UsersHeader()] + Select(users, UserLine)
  }

  /** GET `ExportUsers()`; `None` is AccessDenied. */
  method ExportUsers(store: UserStore, user: Identity) returns (lines: Option<seq<string>>)
    ensures lines.None? <==> !IsAuthorized(user)
    ensures lines.Some? ==> IsUserExport(lines.value, store.users)
  {
    if !IsAuthorized(user) {
      return None;
    }
    var written := WriteLines(UsersHeader(), store.users, UserLine);
    lines := Some(written);
  }

  /**
   * GET `ExportAllData()`: "USERS", the user export, an empty line, "CLAIMS", and the claim
   * export; `None` is AccessDenied.
   */
  method ExportAllData(userStore: UserStore, claimStore: ClaimController.ClaimStore, user: Identity)
    returns (lines: Option<seq<string>>)
    ensures lines.None? <==> !IsAuthorized(user)
    ensures lines.Some? ==>
      var n := |userStore.users|;
      && |lines.value| == n + 5 + |claimStore.claims|
      && lines.value[0] == "USERS"
      && IsUserExport(lines.value[1..n + 2], userStore.users)
      && lines.value[n + 2] == ""
      && lines.value[n + 3] == "CLAIMS"
      && ClaimController.IsCsvExport(lines.value[n + 4..], claimStore.claims)
  {
    if !IsAuthorized(user) {
      return None;
    }
    var userLines := WriteLines(UsersHeader(), userStore.users, UserLine);
    var claimLines := WriteLines(GetCsvHeaders(), claimStore.claims, ToCsv);
    var all := ["USERS"] + userLines + ["", "CLAIMS"] + claimLines;
    Sections(userLines, claimLines);
    lines := Some(all);
  }

  /** Where each part of the combined export sits. */
  lemma Sections(users: seq<string>, claims: seq<string>)
    ensures var all := ["USERS"] + users + ["", "CLAIMS"] + claims;
      && |all| == |users| + 3 + |claims|
      && all[0] == "USERS"
      && all[1..|users| + 1] == users
      && all[|users| + 1] == ""
      && all[|users| + 2] == "CLAIMS"
      && all[|users| + 3..] == claims
  {
    var all := ["USERS"] + users + ["", "CLAIMS"] + claims;
    assert all[1..|users| + 1] == users;
    assert all[|users| + 3..] == claims;
  }
}
