/**
 * `AccountController`: the process-wide list of users, seeded with one account per role, and
 * the id counter shared with `HRController`; self-registration and the login lookup.
 */
module AccountController {
  import opened Wrappers
  import opened Numerals
  import opened DateTimes
  import opened Identities
  import Linq

  /** A user account; passwords are kept and compared as plain text. */
  datatype User = User(
    id: int,
    firstName: string,
    lastName: string,
    email: string,
    password: string,
    role: string,
    createdDate: DateTime)

  /** The registration form: a `User` as model binding fills it; the role may be left out. */
  datatype Registration = Registration(
    firstName: string,
    lastName: string,
    email: string,
    password: string,
    role: Option<string>)

  /** The four accounts the static constructor adds, all created at start-up time `now`. */
  function SeedUsers(now: DateTime): seq<User> {
    [ User(1, "John", "Doe", "JDlecturer@work.com", "11", Lecturer, now),
      User(2, "Sarah", "Kyle", "SKcoordinator@work.com", "22", ProgrammeCoordinator, now),
      User(3, "Adam", "Sandler", "ASadmin@work.com", "33", Administrator, now),
      User(4, "Jenny", "Mace", "JMhr@work.com", "44", HR, now) ]
  }

  /** `users.Any(u => u.Email == email)` */
  predicate EmailTaken(users: seq<User>, email: string) {
    exists k :: 0 <= k < |users| && users[k].email == email
  }

  /**
   * Ids ascend in list order and stay below the counter, and no two users share an e-mail:
   * what registration and deletion keep.
   */
  predicate UsersValid(users: seq<User>, nextUserId: int) {
    && (forall i, j :: 0 <= i < j < |users| ==> users[i].id < users[j].id)
    && (forall i :: 0 <= i < |users| ==> users[i].id < nextUserId)
    && (forall i, j :: 0 <= i < j < |users| ==> users[i].email != users[j].email)
  }

  /** The seeded list holds ids 1 to 4 and four different e-mails, one account per role, next id 5. */
  lemma SeedUsersValid(now: DateTime)
    ensures UsersValid(SeedUsers(now), 5)
    ensures forall k :: 0 <= k < 4 ==> SeedUsers(now)[k].id == k + 1
  {
    var u := SeedUsers(now);
    assert u[0].email != u[1].email && u[0].email != u[2].email && u[0].email != u[3].email;
    assert u[1].email != u[2].email && u[1].email != u[3].email && u[2].email != u[3].email;
  }

  /** A user appended with the counter's id and an unused e-mail keeps the list valid. */
  lemma AppendKeepsValid(users: seq<User>, nextUserId: int, u: User)
    requires UsersValid(users, nextUserId) && u.id == nextUserId && !EmailTaken(users, u.email)
    ensures UsersValid(users + [u], nextUserId + 1)
  {
    var after := users + [u];
    forall i, j | 0 <= i < j < |after|
      ensures after[i].id < after[j].id && after[i].email != after[j].email
    {
      if j == |users| {
        assert after[i] == users[i];
      }
    }
  }

  /** `u => u.Email == email && u.Password == password`, as the position of the first match. */
  function FirstWithCredentials(users: seq<User>, email: string, password: string): (r: Option<nat>)
    ensures r.Some? ==> r.value < |users| && users[r.value].email == email && users[r.value].password == password
    ensures r.Some? ==> forall j :: 0 <= j < r.value ==> !(users[j].email == email && users[j].password == password)
    ensures r.None? <==> forall j :: 0 <= j < |users| ==> !(users[j].email == email && users[j].password == password)
  {
    Linq.FirstWith(users, (u: User) => u.email == email && u.password == password)
  }

  /** The claims of the cookie `Login` issues: id, e-mail as the Name, names and role; no Email claim. */
  function LoginIdentity(u: User): (user: Identity)
    ensures user.name == Some(u.email) && user.role == Some(u.role) && user.email.None?
    ensures user.givenName == Some(u.firstName) && user.surname == Some(u.lastName)
    ensures user.nameIdentifier.Some?
  {
    Identity(Some(FormatInt(u.id)), Some(u.email), Some(u.firstName), Some(u.lastName), Some(u.role), None)
  }

  /** The NameIdentifier claim reads back as the user's id. */
  lemma LoginIdentityId(u: User)
    requires InInt32(u.id)
    ensures ParseInt32(LoginIdentity(u).nameIdentifier.value) == Some(u.id)
  {
    ParseFormatInt(u.id);
  }

  /** The result of POST `Login`. */
  datatype LoginOutcome = LoginInvalid | BadCredentials | SignedIn(user: Identity)

  /**
   * POST `Login(model)`: the first user with that e-mail and password, compared exactly, is
   * signed in; no match reports an error. The store is only read.
   */
  function Login(users: seq<User>, email: string, password: string, modelStateValid: bool): (r: LoginOutcome)
    ensures !modelStateValid ==> r == LoginInvalid
    ensures modelStateValid ==>
      (r == BadCredentials <==> forall k :: 0 <= k < |users| ==> !(users[k].email == email && users[k].password == password))
    ensures r.SignedIn? ==> exists k :: 0 <= k < |users| && users[k].email == email && users[k].password == password
                                      && r.user == LoginIdentity(users[k])
    ensures r.SignedIn? ==> r.user.email.None? && r.user.name == Some(email)
  {
    if !modelStateValid then LoginInvalid
    else match FirstWithCredentials(users, email, password)
      case None => BadCredentials
      case Some(k) => SignedIn(LoginIdentity(users[k]))
  }

  /** Where e-mails are unique, at most one account can sign in with a given e-mail. */
  lemma LoginIsUnique(users: seq<User>, nextUserId: int, email: string, password: string, k: nat)
    requires UsersValid(users, nextUserId)
    requires k < |users| && users[k].email == email && users[k].password == password
    ensures Login(users, email, password, true) == SignedIn(LoginIdentity(users[k]))
  {
  }

  /** The result of POST `Register`. */
  datatype RegisterOutcome = RegisterInvalid | EmailExists | Registered(user: User)

  class UserStore {
    /** `_users` */
    var users: seq<User>
    /** `_nextUserId` */
    var nextUserId: int

    predicate Valid()
      reads this
    {
      UsersValid(users, nextUserId)
    }

    /** The static constructor: the four seeded accounts, and the counter at 5. */
    constructor (now: DateTime)
      ensures users == SeedUsers(now) && nextUserId == 5
      ensures Valid()
    {
      users := SeedUsers(now);
      nextUserId := 5;
      SeedUsersValid(now);
    }

    /** `GetNextUserId()`: hand out the counter and advance it. */
    method GetNextUserId() returns (id: int)
      requires Valid()
      modifies this
      ensures Valid()
      ensures id == old(nextUserId) && nextUserId == old(nextUserId) + 1
      ensures users == old(users)
      ensures forall k :: 0 <= k < |users| ==> users[k].id < id
    {
      id := nextUserId;
      nextUserId := nextUserId + 1;
    }

    /**
     * POST `Register(model)`: a new account with the next id and the role asked for, "Lecturer"
     * when none is; an e-mail already in use, compared exactly, changes nothing.
     */
    method Register(model: Registration, modelStateValid: bool, now: DateTime) returns (outcome: RegisterOutcome)
      requires Valid()
      modifies this
      ensures Valid()
      ensures !modelStateValid ==> outcome == RegisterInvalid
      ensures modelStateValid && EmailTaken(old(users), model.email) ==> outcome == EmailExists
      ensures !outcome.Registered? ==> users == old(users) && nextUserId == old(nextUserId)
      ensures modelStateValid && !EmailTaken(old(users), model.email) ==>
        && outcome == Registered(NewUser(model, old(nextUserId), model.role.GetOr(Lecturer), now))
        && users == old(users) + [outcome.user]
        && nextUserId == old(nextUserId) + 1
    {
      if !modelStateValid {
        return RegisterInvalid;
      }
      if EmailTaken(users, model.email) {
        return EmailExists;
      }
      var id := GetNextUserId();
      var user := NewUser(model, id, model.role.GetOr(Lecturer), now);
      AppendKeepsValid(users, id, user);
      users := users + [user];
      outcome := Registered(user);
    }
  }

  /** The account a registration form creates. */
  function NewUser(model: Registration, id: int, role: string, now: DateTime): User {
    User(id, model.firstName, model.lastName, model.email, model.password, role, now)
  }
}
