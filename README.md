# ScholarCompBack competition service, modelled in Dafny

This project models the logic of the ScholarCompBack web API's competition
service. It also covers the status lookup listing and the declarative
validation rules of the two request bodies that carry attributes.

- **Competitions** (`CompetitionImp`). A competition is stored as a Project
  row. The service lists competitions. It shows one competition's details and
  splits the stored description back into its text and its link. It creates a
  competition, resolving the status by name and joining the description and
  link into one stored string. It updates a competition by overwriting seven
  fields of the row in place.
- **Statuses** (`StatusRepository`). The status listing projects every status
  row to its id, cast to a 32-bit `int`, and its name. The cast runs in the
  database, so an id outside the `int` range makes the whole query fail.
- **Request rules** (`AddCompetitionDto`, `ScholarshipDto`). The `[Required]`
  and `[Range]` attributes are modelled as error lists with their messages,
  and as the validity predicate that those lists define.

Layout, one module per file:

- `wrappers.dfy`: `Option` and `Result`.
- `text.dfy`: .NET white space, `Trim`, and ordinal `LastIndexOf`.
- `description.dfy`: `Join`, `Split` and `Display` for the description, and
  the exact conditions under which `Split` inverts `Join`.
- `data.dfy`: the rows, the `Tables` value with its key invariant, the
  `FirstOrDefault` lookup, and the `Context` class that holds the tables as
  mutable fields.
- `competitions.dfy`: the four operations as functions on `Tables`, with their
  lemmas. The class `CompetitionImp` has the imperative `AddAsync` and
  `UpdateAsync`, each proved equal to its function.
- `statuses.dfy`: the status listing.
- `validation.dfy`: `RequiredAttribute` on strings and on nullable values.
- `add_competition_rules.dfy` and `scholarship_rules.dfy`: the two request
  bodies.

The Project row has every field that `CompetitionImp.cs` reads or writes,
including `CompanyName` and `AdditionalInformation`. `Models/Project.cs` in the
repository lacks these two fields, because it belongs to another revision of
the entity classes.

Because the code cuts at the last "http"
(`Repositories/immplemntion/CompetitionImp.cs:40`), an "http" inside the
description does no harm when the link starts with its only "http"
(`Description.HttpInDescriptionIsHarmless`). Splitting the stored string gives
back the description and the link exactly when both are trimmed and either
the link starts with its only "http", or the link is empty and the
description has no "http" (`Description.SplitInvertsJoinExactly`).

## Model

| member | source | states |
|---|---|---|
| Competitions.List | Repositories/immplemntion/CompetitionImp.cs:20-27 | `get` gives one (CompanyName, NameEn) entry per stored project, in storage order, and as a function it changes nothing |
| Competitions.AddThenList | Repositories/immplemntion/CompetitionImp.cs:20-27 | after a successful creation, the list is the old list with exactly the new competition's entry appended |
| Competitions.Details | Repositories/immplemntion/CompetitionImp.cs:29-36 | `GetByIdAsync` fails exactly when no project has the id, and then with "Competition not found" |
| Competitions.DetailsOfStoredProject | Repositories/immplemntion/CompetitionImp.cs:31-56 | when keys are unique, the details of a stored project are its names, company, additional information and date, its supervisor's English name, its status's name (always present, because status references are valid) and its split description rendered for display |
| Competitions.SupervisorName | Repositories/immplemntion/CompetitionImp.cs:33 | the supervisor name is null exactly when no account has the project's supervisor id |
| Competitions.StatusNameOf | Repositories/immplemntion/CompetitionImp.cs:32 | the status name is null exactly when no status has the project's status id |
| Data.FirstIndex | Repositories/immplemntion/CompetitionImp.cs:31-34 | `FirstOrDefault(predicate)`: none exactly when no row matches; otherwise the first matching row |
| Data.ProjectWithId | Repositories/immplemntion/CompetitionImp.cs:34 | the project lookup finds nothing exactly when no project has the id; otherwise it finds the first project with that id |
| Data.StatusNamed | Repositories/immplemntion/CompetitionImp.cs:63-64 | the status lookup by name finds nothing exactly when no status has that name; otherwise it finds the first status with that name (the same query serves updates, :95-96) |
| Data.StatusWithId | Repositories/immplemntion/CompetitionImp.cs:32 | `Include(p => p.Status)` finds no status exactly when no status has the project's status id; otherwise the first status with that id |
| Data.AccountWithId | Repositories/immplemntion/CompetitionImp.cs:33 | `Include(p => p.SupervisorAccount)` finds no account exactly when no account has the supervisor id; otherwise the first account with that id |
| Data.ProjectWithIdUnique | Repositories/immplemntion/CompetitionImp.cs:34 | when project ids are unique, the lookup by id finds the one row that holds that id |
| Data.StatusWithIdUnique | Repositories/immplemntion/CompetitionImp.cs:32 | when status ids are unique, following a project's status id finds the one status row that holds it |
| Data.Context.constructor | Repositories/immplemntion/CompetitionImp.cs:13-18 | a fresh context holds the given lookup rows, no project, and an identity counter that starts at 1 |
| Text.LastIndexOf | Repositories/immplemntion/CompetitionImp.cs:40 | ordinal `LastIndexOf`: -1 exactly when the pattern does not occur; otherwise the last index where it occurs |
| Text.LastOccurrenceIsUnique | Repositories/immplemntion/CompetitionImp.cs:40 | there is only one last occurrence of a pattern |
| Text.OccurrencesWithoutLast | Repositories/immplemntion/CompetitionImp.cs:40 | when the string does not end with the pattern, dropping its last character keeps exactly the same occurrences, so the search can run from the end |
| Text.TrimStart | Repositories/immplemntion/CompetitionImp.cs:43-44 | the result is a suffix of the input, what it drops is white space, and the result does not start with white space |
| Text.TrimEnd | Repositories/immplemntion/CompetitionImp.cs:43-44 | the result is a prefix of the input, what it drops is white space, and the result does not end with white space |
| Text.Trim | Repositories/immplemntion/CompetitionImp.cs:43-44 | the result has white space at neither end |
| Text.TrimRemovesOnlyBlankEnds | Repositories/immplemntion/CompetitionImp.cs:43-44 | `Trim` returns an infix of its input with only white space on each side of it |
| Text.TrimFixedPoint | Repositories/immplemntion/CompetitionImp.cs:73 | `Trim` leaves a string unchanged exactly when the string is already trimmed |
| Text.BlankIffTrimsToEmpty | Dtos/AddCompetitionDto.cs:7-8 | a string is empty or white space only exactly when it trims to the empty string |
| Text.TrimNoLeadingSpace | Repositories/immplemntion/CompetitionImp.cs:73 | trimming a string that does not start with white space only trims its end |
| Text.TrimTrailingSpace | Repositories/immplemntion/CompetitionImp.cs:73 | a trimmed description followed by the joining space and an empty link trims back to the description |
| Description.Join | Repositories/immplemntion/CompetitionImp.cs:73 | the stored form `Trim(description + " " + link)` is always trimmed |
| Description.Split | Repositories/immplemntion/CompetitionImp.cs:38-45 | with no "http", the parts are the stored text unchanged and an empty link; otherwise the text is cut at the last "http", and the two sides are trimmed |
| Description.SplitShape | Repositories/immplemntion/CompetitionImp.cs:38-45 | the link is empty exactly when there is no "http"; otherwise the link starts with its only "http", and both parts are trimmed |
| Description.Display | Repositories/immplemntion/CompetitionImp.cs:56 | the display is always the description, then " The link is: ", then the link, even when the link is empty |
| Description.DisplayDeterminesParts | Repositories/immplemntion/CompetitionImp.cs:56 | the display loses nothing: two equal displays whose descriptions have the same length come from the same description and link |
| Description.TrimmedTailKeepsMarker | Repositories/immplemntion/CompetitionImp.cs:43 | trimming the suffix that starts at "http" keeps that "http" at its start |
| Description.JoinEmptyDescription | Repositories/immplemntion/CompetitionImp.cs:73 | joining an empty description with a trimmed link stores the link alone |
| Description.JoinTrimmedParts | Repositories/immplemntion/CompetitionImp.cs:73 | joining two non-empty trimmed parts stores them separated by one space |
| Description.LinkIsLastOccurrence | Repositories/immplemntion/CompetitionImp.cs:40 | a link that starts with its only "http" holds the last "http" of the joined string |
| Description.SplitAtLastOccurrence | Repositories/immplemntion/CompetitionImp.cs:40-45 | the split cuts at the last "http" and trims both sides |
| Description.SplitInvertsJoin | Repositories/immplemntion/CompetitionImp.cs:40-45 | for a trimmed description and a trimmed link that starts with its only "http", splitting the joined string gives both back, even when the description contains "http" |
| Description.SplitInvertsJoinExactly | Repositories/immplemntion/CompetitionImp.cs:38-45 | splitting the joined string gives the parts back exactly when both are trimmed and the link either starts with its only "http" or is empty while the description has no "http" |
| Description.LaterHttpInLinkIsNotRecovered | Repositories/immplemntion/CompetitionImp.cs:40 | a link with a later "http" is not given back |
| Description.LinkWithoutHttpIsNotRecovered | Repositories/immplemntion/CompetitionImp.cs:41 | a link without "http" is not given back |
| Description.HttpInDescriptionIsHarmless | Repositories/immplemntion/CompetitionImp.cs:40 | an "http" inside the description before a proper link does not disturb the split |
| Competitions.Add | Repositories/immplemntion/CompetitionImp.cs:61-65 | creation fails with "status not found" exactly when no status has the requested name, and then it changes nothing; statuses and accounts are never changed |
| Competitions.NewProject | Repositories/immplemntion/CompetitionImp.cs:67-76 | the new row gets the identity value and the resolved status id, has no additional information, stores the 32-bit supervisor id unchanged in the 64-bit column, and holds a trimmed description |
| Competitions.AddInsertsOneRow | Repositories/immplemntion/CompetitionImp.cs:63-87 | on success, exactly one row is appended and the existing rows are untouched; the row holds the request's names, company, date and supervisor id (the 32-bit id stored losslessly), the joined description and the id of the first status with the requested name; when keys are unique its id is fresh; it returns that id, the two names and the status's name |
| Competitions.AddPreservesValid | Repositories/immplemntion/CompetitionImp.cs:67-79 | creation keeps project and lookup keys unique, keeps every project id issued by the identity counter and keeps every status reference valid |
| Competitions.AddThenDetails | Repositories/immplemntion/CompetitionImp.cs:67-76 | the details of a new competition give back the request's fields, no additional information and the status's name; for a trimmed description and a link that starts with its only "http", the display is the description, the caption and the link |
| Competitions.AddKeepsOtherDetails | Repositories/immplemntion/CompetitionImp.cs:78-79 | creation leaves the details of every existing competition unchanged |
| Competitions.CompetitionImp.constructor | Repositories/immplemntion/CompetitionImp.cs:15-18 | the service works on the context it is given |
| Competitions.CompetitionImp.AddAsync | Repositories/immplemntion/CompetitionImp.cs:61-88 | the imperative insertion into the context gives the result and the new tables that `Add` specifies, and it keeps the tables valid |
| Competitions.Update | Repositories/immplemntion/CompetitionImp.cs:90-99 | the project is checked before the status: a missing id gives "Competition not found"; otherwise a status name that is null or that no status has gives "Status not found"; both failures change no row; it succeeds exactly when both are found; the row count, the counter, statuses and accounts never change |
| Competitions.Interpolated | Repositories/immplemntion/CompetitionImp.cs:105 | string interpolation writes a null as the empty string and any other string as itself |
| Competitions.Overwrite | Repositories/immplemntion/CompetitionImp.cs:101-107 | the update keeps the project's id and its additional information |
| Competitions.NullTextIsStoredAsEmpty | Repositories/immplemntion/CompetitionImp.cs:105 | a null description or link is stored exactly as an empty one would be |
| Competitions.UpdateOverwritesOneRow | Repositories/immplemntion/CompetitionImp.cs:92-109 | on success, only the first project with the id is rewritten, with the seven request fields and the id of the first status with the requested name; every other row is unchanged |
| Competitions.UpdatePreservesValid | Repositories/immplemntion/CompetitionImp.cs:101-110 | an update keeps keys unique, ids issued by the counter and status references valid |
| Competitions.UpdateThenDetails | Repositories/immplemntion/CompetitionImp.cs:101-107 | after a successful update, the details show the request's fields and the new status's name, and keep the old additional information |
| Competitions.UpdateKeepsOtherDetails | Repositories/immplemntion/CompetitionImp.cs:109-110 | an update leaves the details of every other competition unchanged |
| Competitions.CompetitionImp.UpdateAsync | Repositories/immplemntion/CompetitionImp.cs:90-112 | the in-place assignment of the seven fields gives the result and the new tables that `Update` specifies, and it keeps the tables valid |
| Statuses.GetAllStatuses | Repositories/immplemntion/StatusRepository.cs:17-25 | the listing fails with the database's arithmetic-overflow error exactly when some status id does not fit in an `int`; otherwise there is one entry per status row, in storage order, with the row's id and name; as a function it leaves the status table as it was |
| Statuses.ListingOfConcatenation | Repositories/immplemntion/StatusRepository.cs:19-24 | the listing keeps storage order: listing two runs of rows gives the two listings one after the other, and fails exactly when one of them fails |
| Statuses.LargeIdFailsTheListing | Repositories/immplemntion/StatusRepository.cs:22 | a single status with id 2^32 + 1 makes the whole listing fail with the overflow error |
| Validation.RequiredString | Dtos/AddCompetitionDto.cs:7-8 | a `[Required]` string reports nothing exactly when it is non-null and not blank, and otherwise reports its message alone |
| Validation.MessageOfRequiredString | Dtos/AddCompetitionDto.cs:7-8 | a message occurs in that report exactly when it is the attribute's message and the value is missing |
| Validation.PresentIffTrimLeavesText | Dtos/AddCompetitionDto.cs:7-8 | a string passes `[Required]` exactly when something is left after trimming it |
| Validation.RequiredValue | Dtos/ScholarshipDto.cs:18-21 | a `[Required]` nullable value reports its message exactly when it is null |
| AddCompetitionRules.Errors | Dtos/AddCompetitionDto.cs:7-28 | a create request has no errors exactly when NameEn, NameAr, CompanyName, Description, Link and StatusName are all present |
| AddCompetitionRules.EachMissingFieldHasItsMessage | Dtos/AddCompetitionDto.cs:7-28 | each of the six string fields is reported by its own "<Field> is required" message exactly when it is missing |
| AddCompetitionRules.ValueTypesAreNeverRejected | Dtos/AddCompetitionDto.cs:21-25 | the date and the supervisor id never change the errors, so a supervisor id of 0 passes |
| ScholarshipRules.AmountErrors | Dtos/ScholarshipDto.cs:13-15 | the amount reports nothing exactly when it lies in [0.01, decimal.MaxValue], and an amount of at most 0 gets "Amount must be greater than 0" |
| ScholarshipRules.AmountBounds | Dtos/ScholarshipDto.cs:14-15 | exactly the amounts of at least 0.01 pass; amounts strictly between 0 and 0.01 get "Amount must be greater than 0" |
| ScholarshipRules.Errors | Dtos/ScholarshipDto.cs:7-23 | as written: no errors exactly when the name, description, provider and status name are present, the registration link is present (non-null and not blank), both dates are non-null and the amount is in range |
| ScholarshipRules.IntendedErrors | Dtos/ScholarshipDto.cs:7-23 | the same rules, with "statusName is required" as the status name's message |
| ScholarshipRules.MessagesDoNotChangeValidity | Dtos/ScholarshipDto.cs:22-23 | the message slip does not change which requests pass |
| ScholarshipRules.DatesAreNotOrdered | Dtos/ScholarshipDto.cs:18-21 | once both dates are present, their values change no message, so a request that ends before it starts passes exactly when the same request with ordered dates does |
| ScholarshipRules.MissingStatusNameReportedAsEndDate | Dtos/ScholarshipDto.cs:20-23 | as written, a request missing only its end date and one missing only its status name both get exactly "EndDate is required" |
| ScholarshipRules.IntendedMessagesNameTheField | Dtos/ScholarshipDto.cs:20-23 | with the intended message, those two requests get different messages, each naming its own field |

## Left out

- Controllers and `Program.cs`: HTTP routing, dependency injection and logging are transport only. The web layer runs the request rules before a service is called, so `Competitions.Add` and `AddAsync` require a valid request.
- The Entity Framework mapping, which the database enforces: table and column names, foreign-key checks, delete behaviour, unique indexes, and database defaults such as `getdate()`. `Data.Tables.Valid` states the key and status-reference invariants the operations keep. The database checks it only at save time.
- Competitions.Add: the foreign key from a project to its supervisor account is not checked. With a supervisor id that no account has, such as 0 (which passes validation, see `AddCompetitionRules.ValueTypesAreNeverRejected`), `SaveChangesAsync` throws in the source, while the model's `Add` succeeds.
- Competitions.Update: the same holds for an update to a supervisor id that no account has. The source throws at save; the model's `Update` succeeds.
- Status-name matching: the database collation `Arabic_100_CI_AI` compares case- and accent-insensitively. The model compares names exactly.
- Text.LastIndexOf: .NET's `LastIndexOf(string)` is culture-sensitive. The model uses ordinal search.
- `Trim` uses .NET's `Char.IsWhiteSpace` set, written out as code points. No other Unicode processing is modelled.
- Async calls and `SaveChangesAsync`: each operation is one atomic step. Change tracking, concurrency and database round trips are not modelled.
- Failures are `Err` values carrying the exception's message. The model does not throw.
- Entity tracking: rows are values in the context's sequences. The aliasing between a tracked entity and the table row is not modelled.
- Project ids: the identity column is an unbounded counter. Its overflow is not modelled.
- Competitions.Details: `ProjectDescription ?? ""` is modelled on a non-null description, because the column is `NOT NULL`.
- Competitions.Update: the update request has no validation attributes. Its description, link and status name are nullable in the model. A null description or link is written as "", and a null status name matches no status. Its three name fields are modelled as non-null. A null name would reach the `NOT NULL` name columns, and the save would fail; that failure is not modelled.
- `ScholarshipImp.cs` is a one-line pass-through, and `IScholarship`'s `get`, `getDetiales`, `add` and `update` have no implementation. The only scholarship behaviour modelled is the request rules.
- `DateTime` and `DateOnly` are opaque values, because no date arithmetic occurs. `decimal` is a `real` bounded by `decimal.MaxValue`. Its 28-digit precision is not modelled, because `[Range]` only compares values.

## Findings

| source | as written | input that shows it | evidently intended | confidence | as-written member | corrected member |
|---|---|---|---|---|---|---|
| Dtos/ScholarshipDto.cs:22-23 | `statusName` carries `ErrorMessage = "EndDate is required"` | a request that is complete except for a null `statusName` | a missing `statusName` is reported by its own message, "statusName is required" | high, not executed | ScholarshipRules.MissingStatusNameReportedAsEndDate | ScholarshipRules.IntendedMessagesNameTheField |
