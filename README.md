# Claims approval: a verified Dafny model

This project models the core of a lecturer claims application, an ASP.NET MVC site.
- **Claims.** Lecturers submit monthly claims: hours worked at an hourly rate.
- **Review.** A programme coordinator, then an administrator, then HR review each claim on a tier of its own. HR's decision settles the claim.
- **Import and export.** Claims are exported to CSV and imported from it, one comma-separated line per claim.
- **Accounts.** Users sign in with e-mail and password. HR registers staff accounts, deletes accounts and exports everything.

Claims and users live in two process-wide static lists, each with an id counter:
- `ClaimController.ClaimStore` is the claim list with its counter;
- `AccountController.UserStore` is the user list with its counter.

Both are Dafny classes. Their actions are methods with `modifies` clauses.
- `ClaimStore` holds the actions of `ClaimController`.
- The Mentor and HR actions are module-level methods. They take the store they change.
- A claim record (`MonthlyClaims.MonthlyClaim`) is a value. An in-place update of a stored claim is the replacement of that element of `claims`.

What stays pure:
- The claim CSV codec is made of functions.
- The dashboards are functions over the lists.
- The review state machine is the function `MentorController.UpdateApprovalStatus`.
- The properties are lemmas about these functions.

The library behaviour the code leans on is defined explicitly:
- `decimal`: an exact coefficient and scale, with `ToString` for the invariant culture and `TryParse` as `NumberStyles.Number` reads invariant text;
- `DateTime`: with its "yyyy-MM-dd HH:mm" format and parse;
- `int.TryParse`, `string.Split`, `Contains`, `Trim`, `Replace`, `ToLower` and `Path.GetExtension`;
- LINQ `Where`, `Count` and `Select`.

The signed-in user is an `Identities.Identity`, holding the claims of the authentication cookie. `Login` issues NameIdentifier, Name (the e-mail), GivenName, Surname and Role. It issues no Email claim.

`Models/MonthlyClaim.cs` as written has a three-value `ClaimStatus` and a single review block. `MentorController` uses an `UnderReview` status and three tier blocks, and the migration defines those blocks. The model follows the controllers:
- `ClaimStatus` has four values;
- a claim carries three `TierReview` records for the coordinator, the administrator and HR.

The codec is the thirteen-column `ToCsv`/`FromCsv` of `MonthlyClaim.cs`. The unit tests expect a nineteen-column line and a `CoordinatorReviewNotes` field that this codec does not have. `MonthlyClaims.FromCsvTestLine` shows what the code really does with the tests' line: "Looks good" lands in `ReviewNotes`, and the coordinator tier's notes stay empty.

## Model

Source paths are relative to the repository root.

| member | source | states |
|---|---|---|
| MonthlyClaims.MonthlyClaim.TotalAmount | CLAIMS_Application.Part2/CLAIMS_Application.Part2/Models/MonthlyClaim.cs:31 | the total is exactly hours times rate; decimal multiplication loses nothing |
| MonthlyClaims.TotalAmountExample | CLAIMS_Application.Part2/P3Claim/ClaimTests.cs:9-26 | 20 hours at 160 an hour come to 3200 |
| MonthlyClaims.ParseStatus | CLAIMS_Application.Part2/CLAIMS_Application.Part2/Models/MonthlyClaim.cs:63 | the enum parse ignores white space around the name: it succeeds exactly when the trimmed text is a member name, and yields that member |
| MonthlyClaims.ParseStatusName | CLAIMS_Application.Part2/CLAIMS_Application.Part2/Models/MonthlyClaim.cs:63 | every status name `ToCsv` writes parses back to that status |
| MonthlyClaims.ParseStatusPadded | CLAIMS_Application.Part2/CLAIMS_Application.Part2/Models/MonthlyClaim.cs:63 | a status name with white space around it, such as " Approved", still parses to that status |
| MonthlyClaims.FromCsv | CLAIMS_Application.Part2/CLAIMS_Application.Part2/Models/MonthlyClaim.cs:49-70 | null exactly when the line has fewer than eight values; a claim exactly when it has at least nine; so exactly eight values throw |
| MonthlyClaims.FromCsvGuarded | CLAIMS_Application.Part2/CLAIMS_Application.Part2/Models/MonthlyClaim.cs:53 | the corrected guard: it never throws, and it gives a claim exactly when the nine required values are present |
| MonthlyClaims.FromCsvOutcome | CLAIMS_Application.Part2/CLAIMS_Application.Part2/Models/MonthlyClaim.cs:51-53 | the outcome depends only on the number of commas: fewer than 7 give null, exactly 7 throw, 8 or more give a claim |
| MonthlyClaims.FromCsvEightValuesThrows | CLAIMS_Application.Part2/CLAIMS_Application.Part2/Models/MonthlyClaim.cs:53-64 | a line of eight comma-free values passes the guard and then throws on `values[8]` |
| MonthlyClaims.FromCsvGuardedEightValues | CLAIMS_Application.Part2/CLAIMS_Application.Part2/Models/MonthlyClaim.cs:53-64 | with the corrected guard, that line is rejected with null |
| MonthlyClaims.TotalAmountColumnIgnored | CLAIMS_Application.Part2/CLAIMS_Application.Part2/Models/MonthlyClaim.cs:55-69 | the decoded claim does not depend on the TotalAmount column |
| MonthlyClaims.FromCsvFallbacks | CLAIMS_Application.Part2/CLAIMS_Application.Part2/Models/MonthlyClaim.cs:57-68 | unparsable values fall back: id 0, hours and rate 0, status Pending, submitted date now, reviewed date null; missing trailing columns read as empty strings; the tiers come back unreviewed |
| MonthlyClaims.CsvFieldsHaveNoComma | CLAIMS_Application.Part2/CLAIMS_Application.Part2/Models/MonthlyClaim.cs:41 | no column holds a comma, provided title, description, lecturer name and reviewer hold none; both notes are escaped |
| MonthlyClaims.ToCsvColumns | CLAIMS_Application.Part2/CLAIMS_Application.Part2/Models/MonthlyClaim.cs:39-47 | header and line both split into the same 13 columns; the line's columns are exactly the claim's fields, with ',' in the notes written as ';' |
| MonthlyClaims.HeaderColumns | CLAIMS_Application.Part2/CLAIMS_Application.Part2/Models/MonthlyClaim.cs:44-47 | the header splits into the thirteen column names in order |
| MonthlyClaims.FromCsvToCsv | CLAIMS_Application.Part2/CLAIMS_Application.Part2/Models/MonthlyClaim.cs:39-70 | a line written and read back gives back every field, with these exceptions: null text comes back empty; dates are truncated to the minute; the tiers come back unreviewed. It needs no comma in the unescaped text and no ';' in the notes |
| MonthlyClaims.FromCsvToCsvId | CLAIMS_Application.Part2/CLAIMS_Application.Part2/Models/MonthlyClaim.cs:39-57 | whatever the text fields hold, a written line decodes to a claim with the same id |
| MonthlyClaims.ToCsvCommas | CLAIMS_Application.Part2/CLAIMS_Application.Part2/Models/MonthlyClaim.cs:41 | a written line holds at least twelve commas |
| MonthlyClaims.FromCsvTestLine | CLAIMS_Application.Part2/P3Claim/ClaimTests.cs:80-98 | the unit test's line decodes to claim 1, "Monthly Report", 10 hours at 2, Pending, submitted 2025-11-21 14:30; "Looks good" lands in ReviewNotes and the coordinator's notes stay empty |
| MonthlyClaims.FromCsvJoined | CLAIMS_Application.Part2/CLAIMS_Application.Part2/Models/MonthlyClaim.cs:51-69 | nine or more comma-free values joined by commas decode value by value |
| Decimals.Mul | CLAIMS_Application.Part2/CLAIMS_Application.Part2/Models/MonthlyClaim.cs:31 | the product's value is the product of the values, and its scale is the sum of the scales |
| Decimals.FormatChars | CLAIMS_Application.Part2/CLAIMS_Application.Part2/Models/MonthlyClaim.cs:41 | a written decimal starts with '-' or a digit, ends in a digit, and holds only digits, '-' and '.' (never a comma) |
| Decimals.ParseWithoutWholeDigits | CLAIMS_Application.Part2/CLAIMS_Application.Part2/Models/MonthlyClaim.cs:61-62 | `decimal.TryParse` reads ".5" style text, with no digit before the point, as the fraction digits at their scale |
| Decimals.ParseWithoutFractionDigits | CLAIMS_Application.Part2/CLAIMS_Application.Part2/Models/MonthlyClaim.cs:61-62 | it reads "5." style text, with no digit after the point, as the whole number |
| Decimals.ParseTrailingSign | CLAIMS_Application.Part2/CLAIMS_Application.Part2/Models/MonthlyClaim.cs:61-62 | it reads a sign behind the digits, "5-", as a negative number |
| Decimals.ParseFormat | CLAIMS_Application.Part2/CLAIMS_Application.Part2/Models/MonthlyClaim.cs:61-62 | `decimal.TryParse` reads back every written decimal exactly, coefficient and scale |
| DateTimes.Format | CLAIMS_Application.Part2/CLAIMS_Application.Part2/Models/MonthlyClaim.cs:41 | "yyyy-MM-dd HH:mm" is 16 characters: digits and the separators "- :" |
| DateTimes.ParseFormat | CLAIMS_Application.Part2/CLAIMS_Application.Part2/Models/MonthlyClaim.cs:64 | `DateTime.TryParse` reads a written date back as that moment truncated to the minute |
| Numerals.FormatInt | CLAIMS_Application.Part2/CLAIMS_Application.Part2/Models/MonthlyClaim.cs:41 | an int is written as an optional '-' followed by digits |
| Numerals.ParseInt32 | CLAIMS_Application.Part2/CLAIMS_Application.Part2/Models/MonthlyClaim.cs:57 | `int.TryParse` succeeds only within the 32-bit range |
| Numerals.ParseFormatInt | CLAIMS_Application.Part2/CLAIMS_Application.Part2/Models/MonthlyClaim.cs:57 | every 32-bit int reads back from its text |
| Strings.Split | CLAIMS_Application.Part2/CLAIMS_Application.Part2/Models/MonthlyClaim.cs:51 | `Split(',')` gives at least one value, none holding the separator |
| Strings.SplitCount | CLAIMS_Application.Part2/CLAIMS_Application.Part2/Models/MonthlyClaim.cs:51 | the number of values is the number of commas plus one |
| Strings.SplitJoin | CLAIMS_Application.Part2/CLAIMS_Application.Part2/Models/MonthlyClaim.cs:51 | splitting fields joined by a separator they lack gives the fields back |
| Strings.ReplaceChar | CLAIMS_Application.Part2/CLAIMS_Application.Part2/Models/MonthlyClaim.cs:67-68 | `Replace` changes exactly the occurrences of the one character, and nothing else |
| Strings.ReplaceBack | CLAIMS_Application.Part2/CLAIMS_Application.Part2/Models/MonthlyClaim.cs:67-68 | the decoder's ';'-to-',' undoes the encoder's ','-to-';' on notes without ';' |
| Strings.GetExtension | CLAIMS_Application.Part2/CLAIMS_Application.Part2/Controllers/ClaimController.cs:194 | the extension is empty, or the suffix from the file name's last '.' on, with at least one character after the dot |
| Strings.CsvExtensionIsSuffix | CLAIMS_Application.Part2/CLAIMS_Application.Part2/Controllers/ClaimController.cs:194 | the import accepts a file name exactly when its last four characters are ".csv" in any letter case |
| Strings.TrimPadded | CLAIMS_Application.Part2/CLAIMS_Application.Part2/Models/MonthlyClaim.cs:63 | `Trim` takes off exactly the white space put around a text that has none at its ends |
| Strings.ToLowerIdempotent | CLAIMS_Application.Part2/CLAIMS_Application.Part2/Controllers/ClaimController.cs:128 | lowering case twice is lowering it once |
| Strings.ContainsAt | CLAIMS_Application.Part2/CLAIMS_Application.Part2/Controllers/DashboardController.cs:20 | `Contains` holds exactly when the text occurs at some position |
| Linq.FirstWith | CLAIMS_Application.Part2/CLAIMS_Application.Part2/Controllers/ClaimController.cs:53-54 | `FirstOrDefault(p)`: the position of the first element satisfying `p`, or none exactly when no element does |
| Linq.Where | CLAIMS_Application.Part2/CLAIMS_Application.Part2/Controllers/DashboardController.cs:20 | the filter keeps exactly the elements that satisfy the predicate |
| Linq.WhereIsSubsequence | CLAIMS_Application.Part2/CLAIMS_Application.Part2/Controllers/DashboardController.cs:47 | the filter keeps list order |
| Linq.CountIsWhereLength | CLAIMS_Application.Part2/CLAIMS_Application.Part2/Controllers/DashboardController.cs:53-54 | `Count(p)` is the length of `Where(p)` |
| Linq.SelectAt | CLAIMS_Application.Part2/CLAIMS_Application.Part2/Controllers/ClaimController.cs:133-136 | line k of an export is the line of item k |
| TextExport.WriteLines | CLAIMS_Application.Part2/CLAIMS_Application.Part2/Controllers/ClaimController.cs:130-136 | the builder loop yields the header, then one line per item in list order |
| ClaimController.FirstWithId | CLAIMS_Application.Part2/CLAIMS_Application.Part2/Controllers/ClaimController.cs:53-54 | the first claim with the id, or none exactly when no claim has it |
| ClaimController.EditedClaim | CLAIMS_Application.Part2/CLAIMS_Application.Part2/Controllers/ClaimController.cs:98-103 | an edit keeps the id, lecturer, status, dates and every review; the last edit wins; re-submitting the claim's own values changes nothing; the total follows the new hours and rate |
| ClaimController.CreatorOwnsClaim | CLAIMS_Application.Part2/CLAIMS_Application.Part2/Controllers/ClaimController.cs:153-156 | a claim a user created is always among that user's exported claims |
| ClaimController.ImportedClaims | CLAIMS_Application.Part2/CLAIMS_Application.Part2/Controllers/ClaimController.cs:216-219 | imported claims get consecutive ids from the counter and the import time |
| ClaimController.ImportAccountsForEveryLine | CLAIMS_Application.Part2/CLAIMS_Application.Part2/Controllers/ClaimController.cs:210-228 | unless the import throws, imported plus skipped equals the number of non-blank lines |
| ClaimController.ImportFailsOnEightValues | CLAIMS_Application.Part2/CLAIMS_Application.Part2/Controllers/ClaimController.cs:200-239 | the import fails exactly when some line after the header has exactly seven commas |
| ClaimController.FailedIsFinal | CLAIMS_Application.Part2/CLAIMS_Application.Part2/Controllers/ClaimController.cs:235-239 | once a line throws, later lines change nothing |
| ClaimController.ReimportSkipsEverything | CLAIMS_Application.Part2/CLAIMS_Application.Part2/Controllers/ClaimController.cs:210-228 | re-importing an export of stored claims (ids 1 and up) whose lines hold no line break imports nothing, skips every claim and does not throw |
| ClaimController.StoredLineSkipped | CLAIMS_Application.Part2/CLAIMS_Application.Part2/Controllers/ClaimController.cs:213-227 | a stored claim's line is not blank, does not throw, and is skipped for its non-zero id |
| ClaimController.DecodedStep | CLAIMS_Application.Part2/CLAIMS_Application.Part2/Controllers/ClaimController.cs:215-228 | a decoded line with id 0 is added with the next id; any other decoded line, or a null one, is skipped; the exception fails the import |
| ClaimController.AppendKeepsAscending | CLAIMS_Application.Part2/CLAIMS_Application.Part2/Controllers/ClaimController.cs:28-39 | appending a claim with the counter's id keeps ids ascending and below the advanced counter |
| ClaimController.ClaimStore.constructor | CLAIMS_Application.Part2/CLAIMS_Application.Part2/Controllers/ClaimController.cs:10-11 | the store starts empty with the counter at 1 |
| ClaimController.ClaimStore.Find | CLAIMS_Application.Part2/CLAIMS_Application.Part2/Controllers/ClaimController.cs:51-61 | a claim is found exactly when one has the id, and it is a stored claim with that id |
| ClaimController.ClaimStore.Create | CLAIMS_Application.Part2/CLAIMS_Application.Part2/Controllers/ClaimController.cs:19-49 | appends a Pending claim with the next id, the form's five fields, the user's display name and the current time; the counter advances; ids stay ascending |
| ClaimController.ClaimStore.Edit | CLAIMS_Application.Part2/CLAIMS_Application.Part2/Controllers/ClaimController.cs:75-107 | outcomes in the source's order: id mismatch, invalid form, unknown id, updated; only an update changes the list, and only the first claim with the id |
| ClaimController.ClaimStore.Delete | CLAIMS_Application.Part2/CLAIMS_Application.Part2/Controllers/ClaimController.cs:109-122 | deletes exactly when the id is present, removing that one claim with the others kept in order; afterwards no claim has the id |
| ClaimController.ClaimStore.ExportClaims | CLAIMS_Application.Part2/CLAIMS_Application.Part2/Controllers/ClaimController.cs:123-147 | the header and every claim's line in order, whatever the format; a format other than "csv" in any case is reported |
| ClaimController.ClaimStore.ExportMyClaims | CLAIMS_Application.Part2/CLAIMS_Application.Part2/Controllers/ClaimController.cs:149-176 | the header and the lines of exactly the claims whose lecturer name contains the display name or equals the login |
| ClaimController.ClaimStore.ImportClaims | CLAIMS_Application.Part2/CLAIMS_Application.Part2/Controllers/ClaimController.cs:184-240 | no file or an empty one, then a non-".csv" name, are refused unchanged; otherwise the lines after the header are imported, and claims added before a throwing line stay |
| ClaimController.ClaimStore.ImportRows | CLAIMS_Application.Part2/CLAIMS_Application.Part2/Controllers/ClaimController.cs:200-230 | the loop's result and new state equal the import specification `ImportLines` over the lines read |
| MentorController.AtMostOneRoleReady | CLAIMS_Application.Part2/CLAIMS_Application.Part2/Controllers/MentorController.cs:136-148 | only the three reviewer roles can be ready, and for any claim at most one of them is |
| MentorController.IntermediateDecision | CLAIMS_Application.Part2/CLAIMS_Application.Part2/Controllers/MentorController.cs:157-171 | a coordinator or administrator decision goes to that tier alone and sets the claim UnderReview, whether approve or reject; every other field is kept |
| MentorController.FinalDecision | CLAIMS_Application.Part2/CLAIMS_Application.Part2/Controllers/MentorController.cs:173-187 | HR's decision goes to the HR tier; the claim is Approved exactly when HR approves, otherwise Rejected; nothing else changes |
| MentorController.OtherRoleChangesNothing | CLAIMS_Application.Part2/CLAIMS_Application.Part2/Controllers/MentorController.cs:155-188 | a role outside the three reviewers leaves the claim unchanged |
| MentorController.ReviewKeepsIdentity | CLAIMS_Application.Part2/CLAIMS_Application.Part2/Controllers/MentorController.cs:150-189 | a review never changes the id, lecturer, submission date, hours or rate |
| MentorController.NewClaimWaitsForCoordinator | CLAIMS_Application.Part2/CLAIMS_Application.Part2/Controllers/MentorController.cs:140 | a new claim has its tiers in order and is ready for the coordinator |
| MentorController.ReadyDecisionPassesTurn | CLAIMS_Application.Part2/CLAIMS_Application.Part2/Controllers/MentorController.cs:136-189 | a decision by the ready role keeps the tiers in order and ends that role's turn. Coordinator approval passes the turn to the administrator, and administrator approval to HR. A rejection, or any HR decision, leaves nobody ready |
| MentorController.HrApprovesOutOfTurn | CLAIMS_Application.Part2/CLAIMS_Application.Part2/Controllers/MentorController.cs:37-58 | Approve checks no readiness: HR can approve a claim the coordinator has not decided, leaving it Approved with its tiers out of order |
| MentorController.FinalStepMessage | CLAIMS_Application.Part2/CLAIMS_Application.Part2/Controllers/MentorController.cs:197-207 | after HR's decision the message reports the final approval or rejection |
| MentorController.Review | CLAIMS_Application.Part2/CLAIMS_Application.Part2/Controllers/MentorController.cs:11-33 | denied exactly to non-reviewers; a missing id is reported exactly when no claim has it; for a reviewer, the first claim with the id is shown exactly when it is that role's turn on it |
| MentorController.Approve | CLAIMS_Application.Part2/CLAIMS_Application.Part2/Controllers/MentorController.cs:37-58 | non-reviewers change nothing; otherwise an unknown id changes nothing, and the first claim with the id is replaced by its approved review, with the matching next-step message |
| MentorController.Reject | CLAIMS_Application.Part2/CLAIMS_Application.Part2/Controllers/MentorController.cs:62-89 | non-reviewers, then blank notes, change nothing (the notes are checked before the lookup); otherwise as Approve, with the Rejected decision |
| MentorController.Decide | CLAIMS_Application.Part2/CLAIMS_Application.Part2/Controllers/MentorController.cs:45-55 | the lookup, the update of that one claim and the next-step message; the counter and the id order are kept |
| MentorController.StatusKeyIgnoresCase | CLAIMS_Application.Part2/CLAIMS_Application.Part2/Controllers/MentorController.cs:112 | the status key is matched regardless of case |
| MentorController.ClaimsForKey | CLAIMS_Application.Part2/CLAIMS_Application.Part2/Controllers/MentorController.cs:112-119 | a known key selects exactly the claims with that status; any other key selects every claim |
| MentorController.ClaimsForKeyInOrder | CLAIMS_Application.Part2/CLAIMS_Application.Part2/Controllers/MentorController.cs:112-119 | the selection keeps store order |
| MentorController.ExportClaimsByStatus | CLAIMS_Application.Part2/CLAIMS_Application.Part2/Controllers/MentorController.cs:104-133 | denied exactly to non-reviewers; otherwise the header and one line per selected claim |
| DashboardController.LecturerClaims | CLAIMS_Application.Part2/CLAIMS_Application.Part2/Controllers/DashboardController.cs:20 | with both claims present, the filter's result; a missing given name throws on any non-empty list |
| DashboardController.StatusCounts | CLAIMS_Application.Part2/CLAIMS_Application.Part2/Controllers/DashboardController.cs:28-30 | the Pending, Approved, Rejected and UnderReview counts add up to the list length |
| DashboardController.Summary | CLAIMS_Application.Part2/CLAIMS_Application.Part2/Controllers/DashboardController.cs:23-32 | the total is the list length; pending, approved and rejected are the numbers of claims with that status; their sum is at most the total, with equality exactly when no claim is UnderReview |
| DashboardController.Index | CLAIMS_Application.Part2/CLAIMS_Application.Part2/Controllers/DashboardController.cs:9-35 | non-lecturers see every claim. A lecturer sees, in store order, exactly the claims whose lecturer name contains their given name or login. Pending, approved and rejected are the status counts over the claims shown |
| DashboardController.LecturerClaimsInOrder | CLAIMS_Application.Part2/CLAIMS_Application.Part2/Controllers/DashboardController.cs:20 | the lecturer filter keeps store order |
| DashboardController.MentorDashboard | CLAIMS_Application.Part2/CLAIMS_Application.Part2/Controllers/DashboardController.cs:37-58 | admitted exactly for coordinators and administrators (not HR). It shows every pending claim in order and nothing else. Total and pending are that number; approved and rejected are 0 |
| AccountController.SeedUsersValid | CLAIMS_Application.Part2/CLAIMS_Application.Part2/Controllers/AccountController.cs:17-67 | the seeded accounts have ids 1 to 4 below the counter 5 and distinct e-mails |
| AccountController.AppendKeepsValid | CLAIMS_Application.Part2/CLAIMS_Application.Part2/Controllers/AccountController.cs:126-137 | a user appended with the counter's id and an unused e-mail keeps ids ascending and e-mails distinct |
| AccountController.FirstWithCredentials | CLAIMS_Application.Part2/CLAIMS_Application.Part2/Controllers/AccountController.cs:82 | the first user with that exact e-mail and password, or none exactly when no user matches |
| AccountController.LoginIdentity | CLAIMS_Application.Part2/CLAIMS_Application.Part2/Controllers/AccountController.cs:89-96 | the cookie carries the e-mail as Name, plus names and role, and no Email claim |
| AccountController.LoginIdentityId | CLAIMS_Application.Part2/CLAIMS_Application.Part2/Controllers/AccountController.cs:91 | the NameIdentifier claim parses back to the user's id |
| AccountController.Login | CLAIMS_Application.Part2/CLAIMS_Application.Part2/Controllers/AccountController.cs:77-105 | an invalid form is refused. The credentials fail exactly when no user matches both. A sign-in is the identity of a matching user, with Name equal to the e-mail |
| AccountController.LoginIsUnique | CLAIMS_Application.Part2/CLAIMS_Application.Part2/Controllers/AccountController.cs:82 | with distinct e-mails, whoever matches the credentials is the one signed in |
| AccountController.UserStore.constructor | CLAIMS_Application.Part2/CLAIMS_Application.Part2/Controllers/AccountController.cs:17-67 | the store starts with the four seeded accounts and the counter at 5 |
| AccountController.UserStore.GetNextUserId | CLAIMS_Application.Part2/CLAIMS_Application.Part2/Controllers/AccountController.cs:149-152 | hands out the counter, above every stored id, and advances it |
| AccountController.UserStore.Register | CLAIMS_Application.Part2/CLAIMS_Application.Part2/Controllers/AccountController.cs:115-141 | an invalid form, then a used e-mail, change nothing. Otherwise the account is appended with the next id and the role asked for, "Lecturer" when none is. E-mails stay distinct |
| HRController.Dashboard | CLAIMS_Application.Part2/CLAIMS_Application.Part2/Controllers/HRController.cs:17-42 | shown exactly to HR and administrators: all users and claims, their totals, the Pending, Approved and Rejected counts over all claims, and "Unknown" for a missing name |
| HRController.DashboardCountsAgree | CLAIMS_Application.Part2/CLAIMS_Application.Part2/Controllers/HRController.cs:32-36 | the HR dashboard's claim counts equal those of the main dashboard for the same user |
| HRController.TeachingRolesRefused | CLAIMS_Application.Part2/CLAIMS_Application.Part2/Controllers/HRController.cs:72 | Lecturer, ProgrammeCoordinator and a missing role are refused |
| HRController.RegisterUser | CLAIMS_Application.Part2/CLAIMS_Application.Part2/Controllers/HRController.cs:55-93 | checks in the source's order: role gate, form, used e-mail, role among "User", "HR" and "Administrator". Only success appends the account with the next id, from the same counter as self-registration |
| HRController.FirstUserWithId | CLAIMS_Application.Part2/CLAIMS_Application.Part2/Controllers/HRController.cs:114 | the first user with the id, or none exactly when no user has it |
| HRController.FoundAtOwnPosition | CLAIMS_Application.Part2/CLAIMS_Application.Part2/Controllers/HRController.cs:114 | with ascending ids, looking up a stored user's id finds that user |
| HRController.DeleteDecision | CLAIMS_Application.Part2/CLAIMS_Application.Part2/Controllers/HRController.cs:105-129 | the decision as written: the own-account guard compares with the Email claim |
| HRController.OwnAccountNotRefused | CLAIMS_Application.Part2/CLAIMS_Application.Part2/Controllers/HRController.cs:122-125 | an HR user or administrator signed in by `Login` deletes their own account: the guard never fires |
| HRController.DeleteDecisionByLogin | CLAIMS_Application.Part2/CLAIMS_Application.Part2/Controllers/HRController.cs:122-125 | the corrected guard compares with the Name claim, the e-mail the user signed in with |
| HRController.OwnAccountRefusedByLogin | CLAIMS_Application.Part2/CLAIMS_Application.Part2/Controllers/HRController.cs:122-129 | with the corrected guard, deleting one's own account is refused; every other decision is unchanged |
| HRController.RemoveKeepsValid | CLAIMS_Application.Part2/CLAIMS_Application.Part2/Controllers/HRController.cs:131 | removing one user keeps ids ascending and e-mails distinct |
| HRController.DeleteUser | CLAIMS_Application.Part2/CLAIMS_Application.Part2/Controllers/HRController.cs:105-135 | follows `DeleteDecision`; a deletion removes exactly the account found, with the others kept in order; the counter is untouched, so ids are never reused |
| HRController.UserLineColumns | CLAIMS_Application.Part2/CLAIMS_Application.Part2/Controllers/HRController.cs:146-149 | with no comma in names, e-mail or role, a user's line splits into the header's six columns, field by field |
| HRController.UsersHeaderColumns | CLAIMS_Application.Part2/CLAIMS_Application.Part2/Controllers/HRController.cs:146 | the user header splits into its six column names |
| HRController.ExportUsers | CLAIMS_Application.Part2/CLAIMS_Application.Part2/Controllers/HRController.cs:138-154 | denied exactly to others than HR and administrators; otherwise the header and one line per user in order |
| HRController.ExportAllData | CLAIMS_Application.Part2/CLAIMS_Application.Part2/Controllers/HRController.cs:157-186 | "USERS", the user export, an empty line, "CLAIMS", then the claim export; the length is users + claims + 5 |

## Left out

- Web plumbing is not modelled: views, redirects, `TempData` messages, anti-forgery tokens, UTF-8 encoding and file-download names. The actions return outcome values or the exported text lines. An exported file is its list of lines.
- The clock (`DateTime.Now`) is a `now` parameter.
- The upload (`IFormFile`, `StreamReader`) is a file name plus the list of lines read. An empty file has no lines.
- `ModelState.IsValid` is a boolean parameter. The data-annotation rules it checks are not modelled.
- Formatting and parsing of `decimal`, `int` and `DateTime` use invariant-culture layouts. Culture-dependent formats are not modelled.
- `DateTime` has no sub-second part. `TryParse` accepts only the "yyyy-MM-dd HH:mm" layout the exports write, not every layout .NET accepts.
- `decimal` has no 28-digit limit and no overflow.
- `Enum.TryParse` is a lookup of the member names after trimming. It does not model the acceptance of numeric strings or of comma-separated lists of names (a CSV value never holds a comma).
- `decimal.TryParse` does not model group separators: a CSV value never holds the invariant culture's ',' separator. Exponents and currency symbols are refused, as `NumberStyles.Number` refuses them.
- An action reads the clock once, as its `now` parameter. `ImportClaims` reads `DateTime.Now` again for every imported line, so the model gives all claims of one import the same submission time, where the source may give later lines a later time.
- `ToLower` lowers the ASCII letters only and leaves every other character as it is. .NET also lowers other letters, some of them to ASCII (the Kelvin sign becomes 'k'), so a format or status key spelled with such a letter matches in the source and not in the model.
- An uploaded file is its list of lines, already split. An exported record whose text holds a line break is written as more than one physical line and read back as several lines; `ClaimController.ReimportSkipsEverything` therefore requires line-break-free records. With a break, the tail of a record can decode with id 0 and be imported as a new claim.
- `IsNullOrWhiteSpace` and `Trim` use the common Latin-1 white-space characters, not every Unicode space.
- Ids are unbounded integers, so the counters' 32-bit overflow is not modelled.
- The static lists are not thread-safe. Concurrent requests are not modelled.
- Passwords are stored and compared as plain text, exactly as in the code.
- `Models/User.cs` is not part of this model. The user fields are taken from their uses in the controllers. `FullName` appears only in messages.
- The cookie sign-in and sign-out, `Logout`, `AccessDenied` and the GET actions that only return a view are not modelled. `Login`'s effect is the identity it issues.
- `MentorController.Details` is not modelled separately. It is the same lookup as `ClaimStore.Find`.
- `ManageUsers` and `GetUsers` return the user list unchanged and are not modelled separately.
- The import's `LecturerName ?? "Imported User"` fallback is not modelled. A decoded claim always has a lecturer name, so the fallback never applies.
- Create's `catch` branch is not modelled: nothing in the modelled body throws.
- `Program.cs`, `ClaimsContext` and the migration are not modelled. The claims live in the static list. The migration only supplied the tier field list.
- The unit tests' nineteen-column `ToCsv` expectation and their `CoordinatorReviewNotes` assertion are not modelled. They do not match the thirteen-column codec in `MonthlyClaim.cs`, and the model follows the code.
- The unit tests' `CalculateTotalAmount()` method does not exist. The model uses the `TotalAmount` property.

## Findings

| source | as written | input that shows it | evidently intended | confidence | as-written member | corrected member |
|---|---|---|---|---|---|---|
| CLAIMS_Application.Part2/CLAIMS_Application.Part2/Models/MonthlyClaim.cs:53-64 | the guard returns null below 8 values, but the initializer reads `values[8]`, the ninth | the line "0,a,b,c,1,2,2,Pending" (eight values): `FromCsv` throws `IndexOutOfRangeException`, and `ImportClaims` abandons the rest of the file | null unless all nine read values are present (`values.Length < 9`) | not executed | MonthlyClaims.FromCsvEightValuesThrows | MonthlyClaims.FromCsvGuardedEightValues |
| CLAIMS_Application.Part2/CLAIMS_Application.Part2/Controllers/HRController.cs:122-125 | the own-account guard compares with the Email claim, which `Login` (AccountController.cs:89-96) never issues | Jenny (JMhr@work.com, HR, id 4) signs in and requests `DeleteUser(4)`: her account is deleted | compare with the Name claim, which holds the signed-in e-mail, and refuse the deletion | not executed | HRController.OwnAccountNotRefused | HRController.OwnAccountRefusedByLogin |
