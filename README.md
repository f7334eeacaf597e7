# Project Manager API — ownership-scoped resource service, in Dafny

This project models the core of the Project-Manager-Api backend. Users
register and log in, and receive a token that names them. Each user owns
projects, and each project holds tasks. Every read, update and delete is
scoped to the caller: a record that belongs to someone else behaves
exactly like one that does not exist.

The modelled parts, one module each:

- `Models`, `Dtos`: the entities and request bodies, with their annotation checks.
- `Data`: the shared store. `Database` is a class holding the Users, Projects
  and Tasks tables. Each table is a row map plus an AUTOINCREMENT counter
  (`Tables.Table`).
- `AuthService`: registration, login and token contents.
- `ProjectService`: project create, list, get and delete. Delete cascades to
  the project's tasks.
- `TaskService`: task create, update and delete, and the base query of the
  listing.
- `TaskController`: the caller id read from the token, the checks made
  before the service is called, and the mapping to HTTP responses. It also
  holds the filter-and-sort pipeline of the task listing.
- `Walkthrough`: a new user's first session against an empty store.

Supporting modules:

- `Text`: .NET `string.IsNullOrWhiteSpace` and ordinal string order.
- `Numeric`: `Int32.ToString` and `int.Parse` for the identifier claim.
- `Seqs`: `Where` as `Filter`, and `OrderBy` as a stable insertion sort.
- `Wrappers`: `Option` and `Result`.

Operations that change the store are module-level methods. Each takes the
`db: Database` it works on and declares `modifies db`. Queries are functions
over the tables.

A query returns rows in key order. This is a table scan (`Tables.Scan`),
and `OrderBy` sorts it with ties broken by ascending id.

Design decisions:

- **Exceptions.** Exceptions the services throw become `Result`/`Option`
  error values. An exception that the controller does not catch becomes
  `ServerError`. One such case is `int.Parse` rejecting the identifier
  claim, which the framework answers with a 500.
- **Password hashing.** BCrypt is a `Crypto` value passed in. It holds a
  hash function and a verify function. The only thing the model assumes
  about it is that a password verifies against its own hash
  (`AuthService.VerifiesOwnHashes`).
- **Lengths.** `[StringLength]` counts UTF-16 code units, as .NET's
  `string.Length` does (`Text.Utf16Length`). A character outside the Basic
  Multilingual Plane counts as two.
- **Clock.** The clock is an `int` count of seconds, passed in as a
  parameter.

Notes on the source's behaviour, which the model follows:

- `CreateProjectAsync` checks only that the title is not blank. It does
  not check the 3–100 length. The length is enforced only by
  `ProjectCreateDto`'s annotations at the HTTP boundary (`Dtos.ValidProjectCreate`).
- `RegisterAsync` does no validation of its own. It relies on the
  controller's model validation (`AuthService.Register` requires both
  fields to be present).
- A task created in a project the caller does not own is answered with
  400 "Failed to create task.", not with a 404. The service's "Project not
  found" exception is re-wrapped by its own catch-all.

## Model

| member | source | states |
|---|---|---|
| Text.Utf16Length | Backend/DTOs/ProjectCreateDto.cs:7 | the length StringLength checks is between the character count and twice it, and equals the character count exactly when no character lies outside the Basic Multilingual Plane |
| Text.OrdinalLessTotal | Backend/Controllers/TaskController.cs:110 | ordering titles is total: two different titles always compare one way or the other |
| Text.OrdinalLessTransitive | Backend/Controllers/TaskController.cs:110 | ordinal title order is transitive |
| Text.OrdinalLessAsymmetric | Backend/Controllers/TaskController.cs:110 | no two titles each precede the other |
| Numeric.NatToString | Backend/Services/AuthService.cs:95 | the decimal form of an id is non-empty, all digits, without a leading zero |
| Numeric.IntToString | Backend/Services/AuthService.cs:95 | a number's text starts with a digit exactly when the number is non-negative |
| Numeric.NatToStringValue | Backend/Services/AuthService.cs:95 | the digits of an id read back as that id |
| Numeric.ParseInt | Backend/Controllers/TaskController.cs:24 | a claim parses only when it starts with a sign or a digit; the value is negative only after a minus sign |
| Numeric.ParseIntToString | Backend/Controllers/TaskController.cs:23-24 | parsing the text of any int gives back that int (`int.Parse(n.ToString()) == n`) |
| Seqs.FilterMembers | Backend/Controllers/TaskController.cs:104-105 | a filtered query keeps exactly the rows that satisfy the predicate, and never more copies than it had |
| Seqs.FilterCount | Backend/Controllers/TaskController.cs:104-105 | filtering keeps every copy of a row that passes and none of one that fails |
| Seqs.SortBy | Backend/Controllers/TaskController.cs:107-112 | ordering a query is a permutation of it: same rows, same multiplicities |
| Seqs.SortBySorted | Backend/Controllers/TaskController.cs:107-112 | under a total preorder, the ordered query is sorted pairwise |
| Tables.Add | Backend/Services/TaskService.cs:40-41 | an insert stores the row under the next AUTOINCREMENT key, which was free, keeps every existing row as it was, and advances the counter by one |
| Tables.RowsAreValues | Backend/Services/TaskService.cs:126-127 | a table scan yields exactly the stored rows |
| Tables.ScanNoDuplicates | Backend/Services/TaskService.cs:126-127 | when each row carries its own key, a scan holds each row once |
| Tables.FilterScanAgree | Backend/Services/TaskService.cs:126-127 | two tables that agree on the rows a filter keeps give the same filtered scan |
| Models.Consistent | Models/Project.cs:18-19 | the store's invariant: every project's owner and every task's project exists, usernames are unique, stored titles are non-blank, and every row sits under its own id below the counter |
| Models.TaskOwnerUnique | Models/TaskItem.cs:16-17 | a task is visible to at most one user, the owner of its project |
| Dtos.ValidRegisterBounds | Backend/DTOs/RegisterDto.cs:7-11 | a valid registration has a non-blank username of 3–100 and a non-blank password of 6–100 UTF-16 code units (so 2–100 and 3–100 characters) |
| Dtos.ValidRegister | Backend/DTOs/RegisterDto.cs:7-11 | the RegisterDto annotations: both members required (non-blank), username length 3–100, password length 6–100, lengths in UTF-16 code units |
| Dtos.ValidProjectCreate | Backend/DTOs/ProjectCreateDto.cs:7-11 | the ProjectCreateDto annotations: a required title of length 3–100 and an optional description of at most 500, lengths in UTF-16 code units |
| Dtos.ValidTaskCreate | Backend/DTOs/TaskCreateDto.cs:7-8 | the TaskCreateDto annotations that can fail: a required (non-blank) title; the int ProjectId is always present |
| Dtos.SurrogatePairTitleAccepted | Backend/DTOs/ProjectCreateDto.cs:7 | a title of two characters outside the Basic Multilingual Plane has length 4 and is accepted |
| Dtos.BindExplicitBody | Backend/DTOs/TaskCreateDto.cs:7-16 | a task body that sends every member binds to exactly the DTO it spells out; defaults apply only to omitted members |
| Dtos.BlankTitleRefused | Backend/DTOs/ProjectCreateDto.cs:7-8 | a white-space title of allowed length is still refused for projects and tasks |
| AuthService.Register | Backend/Services/AuthService.cs:27-41 | a taken username fails with UsernameExists and changes nothing; otherwise one user with the next id and the hashed password is added |
| AuthService.FindByUsername | Backend/Services/AuthService.cs:67 | the lookup finds a user with that name, or reports that none has it |
| AuthService.GenerateToken | Backend/Services/AuthService.cs:93-107 | the token's NameIdentifier parses back to the user's id, its Name is the username, and it expires one day after issue |
| AuthService.Login | Backend/Services/AuthService.cs:63-72 | every failure is InvalidCredentials, and success needs a registered username |
| AuthService.LoginOutcome | Backend/Services/AuthService.cs:67-70 | with unique usernames, login succeeds with the named user's token exactly when the password verifies against that user's hash; an unknown name and a wrong password fail the same way |
| AuthService.LoginWithRegisteredPassword | Backend/Services/AuthService.cs:37 | logging in with the password a user registered with issues that user's token |
| AuthService.RegisterThenLogin | Backend/Services/AuthService.cs:27-72 | register then login with the same credentials yields a token naming the new user |
| ProjectService.NewProject | Services/ProjectService.cs:24-29 | a new project has the given id, owner, title and creation time, the given description or the empty string when none is given, and meets its annotations when the request did |
| ProjectService.NewerFirstIsTotalPreorder | Services/ProjectService.cs:57 | newest-first with id tie-break is a total preorder |
| ProjectService.UserProjects | Services/ProjectService.cs:55-66 | the caller's project list is ordered by creation time, newest first |
| ProjectService.UserProjectsComplete | Services/ProjectService.cs:55-66 | every project the user owns is listed, as its response |
| ProjectService.UserProjectsSound | Services/ProjectService.cs:55-66 | every listed entry is the response of a project the user owns, with its stored id, title, description and creation time |
| ProjectService.UserProjectsDistinct | Services/ProjectService.cs:55-58 | no project is listed twice |
| ProjectService.ProjectByIdMatchesList | Services/ProjectService.cs:78-90 | get-by-id returns an entry exactly when the user's list holds that entry under that id |
| ProjectService.ProjectById | Services/ProjectService.cs:78-82 | the lookup `p.Id == id && p.UserId == userId`: a project is found only when it exists and the caller owns it |
| ProjectService.ForeignProjectLooksMissing | Services/ProjectService.cs:78-82 | another user's project is not found, just as a deleted one is not |
| ProjectService.UserProjectsNoninterference | Services/ProjectService.cs:55-56 | a user's project list depends only on that user's projects |
| ProjectService.CreateProject | Services/ProjectService.cs:17-48 | a blank title fails with MissingTitle; an unknown owner fails; otherwise one project is added that get-by-id returns unchanged; other users' lists are unchanged |
| ProjectService.CascadeKeepsOthersTasks | Services/ProjectService.cs:108-109 | deleting one user's project leaves every other user's tasks as they were |
| ProjectService.DeleteProject | Services/ProjectService.cs:98-111 | succeeds exactly when the caller owns the project; removes it and all its tasks; other users see no change |
| TaskService.CreateTask | Backend/Services/TaskService.cs:18-52 | an unowned project fails before the title is checked; a blank title fails; otherwise one task with the next id is added and returned as stored; other users see no change |
| TaskService.UpdateTask | Backend/Services/TaskService.cs:65-93 | an unreachable task gives null and changes nothing; otherwise the title changes only when given non-blank, the due date only when given, completion always, and id, project and creation time are kept |
| TaskService.DeleteTask | Backend/Services/TaskService.cs:102-115 | succeeds exactly when the caller may see the task, removes only it, and leaves it unreachable, so a repeat returns false |
| TaskService.TaskVisible | Backend/Services/TaskService.cs:69-71 | the task lookup of update and delete: the task exists and its project is the caller's |
| TaskService.QueryableTasks | Backend/Services/TaskService.cs:124-128 | every queried task is stored, in the project, and the project is the caller's |
| TaskService.QueryableTasksExact | Backend/Services/TaskService.cs:124-128 | the base query holds each task of the caller's project exactly once and no other |
| TaskService.ForeignProjectHasNoTasks | Backend/Services/TaskService.cs:126-127 | a project the caller does not own, or that is gone, yields no tasks |
| TaskService.QueryableTasksNoninterference | Backend/Services/TaskService.cs:126-127 | the query depends only on the tasks the caller may see |
| TaskController.CallerId | Backend/Controllers/TaskController.cs:23-24 | a missing identifier claim reads as user 0 |
| TaskController.IssuedTokenIdentifiesUser | Backend/Controllers/TaskController.cs:23-24 | the id read from an issued token is the id of the user it was issued to |
| TaskController.OmittedProjectIdNeverMismatches | Backend/Controllers/TaskController.cs:33 | a body without ProjectId never conflicts with the route |
| TaskController.ProjectIdMismatch | Backend/Controllers/TaskController.cs:33 | the body conflicts with the route exactly when its ProjectId is set (non-zero) and differs from the route's |
| TaskController.CreateTask | Backend/Controllers/TaskController.cs:28-50 | an invalid body and a conflicting ProjectId are refused with nothing changed; an unowned project gives 400 "Failed to create task."; otherwise 201 with the stored task |
| TaskController.UpdateTask | Backend/Controllers/TaskController.cs:54-71 | an invalid body is refused; an unreachable task gives 404 "Task not found or access denied." and nothing changes; otherwise 200 with the updated task: the body's title and completion, the body's due date or the old one when none is given, id, project and creation time kept, and only that task's row replaced |
| TaskController.UpdateTaskFromBody | Backend/DTOs/TaskCreateDto.cs:16 | a PUT body that omits IsCompleted leaves the task not completed; one that gives it sets it; the body's ProjectId never moves the task; only that task's row changes, users, projects and the id counter stay as they were, and a refused PUT changes nothing |
| TaskController.DeleteTask | Backend/Controllers/TaskController.cs:75-89 | 204 when the caller's task was removed, 404 with nothing changed otherwise |
| TaskController.OrderIsTotalPreorder | Backend/Controllers/TaskController.cs:107-112 | each sort key gives a total preorder |
| TaskController.ListTasks | Backend/Controllers/TaskController.cs:100-114 | every listed task is the caller's, in the project, and matches the completion filter when one is given |
| TaskController.GetTasks | Backend/Controllers/TaskController.cs:93-132 | the endpoint answers 200 or 500 and nothing else; 500 exactly when the caller id cannot be read; a 200 holds only the caller's tasks of that project that match the completion filter |
| TaskController.ListTasksExact | Backend/Controllers/TaskController.cs:102-114 | filter and sort add and drop nothing: each qualifying task appears exactly once, no other does |
| TaskController.ListTasksOrdered | Backend/Controllers/TaskController.cs:107-112 | the listing is ordered by due date (none first), by ordinal title, or by id, as the sort asks |
| TaskController.SortedByKey | Backend/Controllers/TaskController.cs:109-111 | a listing sorted under a key never has a later entry strictly before an earlier one in that key |
| TaskController.UnknownSortFallsBack | Backend/Controllers/TaskController.cs:111 | an unknown sort value lists as if none were given, in id order, and never fails |
| TaskController.ForeignProjectListsNothing | Backend/Controllers/TaskController.cs:102 | another user's or a deleted project lists no tasks |
| TaskController.ListTasksNoninterference | Backend/Controllers/TaskController.cs:102 | the listing depends only on the tasks the caller may see |
| TaskController.IncompleteByDueDateExample | Backend/Controllers/TaskController.cs:104-112 | of tasks completed {true, false, false} with due dates {2024-01-01, none, 2024-06-01}, the open ones by due date are the two incomplete tasks, the undated first |
| Walkthrough.SignUpWithProject | Services/ProjectService.cs:17-39 | on a fresh store, registering, logging in and creating a project gives the caller's id back from the token and a project with id 1 that the caller owns |
| Walkthrough.FirstSession | Backend/Controllers/TaskController.cs:28-114 | on a fresh store: register, log in, the first project gets id 1, its task list is empty, a new task is created, and the list of open tasks contains it |
| Walkthrough.ListedOpenTask | Backend/Controllers/TaskController.cs:102-105 | a stored, open task of the caller's project is in the list of open tasks |

## Left out

- Asynchrony, the EF change tracker and the HTTP pipeline are not modelled. Each request runs alone, start to finish, against the store.
- Exception messages that no modelled path can produce are left out. Examples: cancellation, salt-parse and database-update failures, and "Failed to update task." / "Failed to delete task.".
- BCrypt is an opaque pair of functions. Salting and cost are not modelled. Only "a password verifies against its own hash" is assumed.
- JWT signing, the signing key and token validation are not modelled. A token is its claims: NameIdentifier, Name and expiry.
- Time is `int` seconds. `DateTime.Now` for token expiry and `DateTime.UtcNow` for creation times are both just the clock parameter, so time zones are not modelled.
- A DueDate that fails JSON parsing is rejected by the framework before the controller runs, so it is not modelled.
- TaskController.CallerId: `int.Parse`'s tolerance of surrounding white space and its 32-bit overflow check are not modelled; only an optional sign followed by digits parses.
- Tables.Add: ids are unbounded, so 32-bit id overflow is not modelled.
- TaskController.Precedes: SQL leaves the order of equal sort keys open. The model fixes it to ascending id.
- Entities are values. An update replaces the task's map entry instead of mutating a tracked object, so aliasing of tracked entities is not modelled.
- The project and auth controllers, Program.cs and the frontend are not part of this model. Project and auth behaviour is modelled at the service level.
- ProjectService.CreateProject: a foreign-key failure is modelled only for an owner id with no user. Other database failures are not modelled.
