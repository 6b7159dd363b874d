/**
 * The signed-in user as the controllers see it: the claims of the authentication cookie,
 * looked up by claim type with `User.FindFirst(type)?.Value` (a missing claim reads as null).
 */
module Identities {
  import opened Wrappers
  import opened Strings

  datatype Identity = Identity(
    nameIdentifier: Option<string>,
    name: Option<string>,
    givenName: Option<string>,
    surname: Option<string>,
    role: Option<string>,
    email: Option<string>)

  /** The role names the controllers compare the Role claim with. */
  const Lecturer: string := "Lecturer"
  const ProgrammeCoordinator: string := "ProgrammeCoordinator"
  const Administrator: string := "Administrator"
  const HR: string := "HR"

  /** `FindFirst(GivenName)?.Value + " " + FindFirst(Surname)?.Value`: a missing part prints as nothing. */
  function DisplayName(user: Identity): string {
    TextOf(user.givenName) + " " + TextOf(user.surname)
  }
}
