# MigoAPI users: controller and repository model

A Dafny model of the user-management slice of MigoAPI, an ASP.NET Core CRUD
API. It covers two parts. `UserRepository` is the only implementation of the
generic `IRepository<User>` contract. `UsersController` turns each HTTP request
into repository calls and a status code. The database is replaced by an
in-memory store: a sequence of `User` records whose keys (`id`) are distinct,
because `Id` is the entity key.

Modules, one per concern of the source:

- `Wrappers`: `Option` (a C# reference that may be null) and `Result` (a call
  that either returns or throws).
- `Text`: the string operations the repository uses. These are `ToLower`,
  `Trim`, the normalized name key `Normalize`, and the order used for listing
  (`OrdinalLe`, code point by code point).
- `Models`: `User` (`Models/User.cs`), C#'s 32-bit `int` as `int32`, and
  `Store`, a subset type of `seq<User>` with unique ids. It also holds the
  specification predicates `HasId`, `SameName` and `NameTaken`.
- `UserRepository`: one pure function per repository operation. A mutation
  stages its change and commits it. The commit's reported change count is a
  parameter `reported`. `SaveSync` accepts the commit when `reported >= 0`
  (`MigoAPI/Repository/UserRepository.cs:54`), so a zero count is success.
  When the reported count is negative, the model leaves the store as it was.
  That is a modelling choice; see "Left out". Passing a null member raises
  `NullMember`. Updating or deleting a key that is not stored raises
  `RowNotFound`.
- `UsersController`: one function per action. It maps the store, the route id
  and the optional payload to a `Step`: a reply plus the store afterwards. A
  reply is either a status code with a body, or `Threw(error)` when a
  repository exception escapes the action. On create, the key the store
  generates is a parameter `newId`, required to be unused.
- `Scenarios`: the controller's unit tests, a create/re-create/delete
  walk-through, and the "Bob" name check, replayed on concrete stores.

## Model

| member | source | states |
|---|---|---|
| Text.TrimStartSpec | MigoAPI/Repository/UserRepository.cs:44 | `TrimStart`'s result is the suffix of the name left after all leading white space is removed, and it does not start with white space |
| Text.TrimEndSpec | MigoAPI/Repository/UserRepository.cs:44 | `TrimEnd`'s result is the prefix of the name left after all trailing white space is removed, and it does not end with white space |
| Text.TrimIgnoresPadding | MigoAPI/Repository/UserRepository.cs:44 | trimming a name with white space added on either side gives the same result as trimming the name |
| Text.NormalizeIgnoresPadding | MigoAPI/Repository/UserRepository.cs:44 | adding white space on either side of a name does not change its lower-cased, trimmed key |
| Text.NormalizeIgnoresCase | MigoAPI/Repository/UserRepository.cs:44 | upper-casing or lower-casing a name does not change its key |
| Text.OrdinalLeTotal | MigoAPI/Repository/UserRepository.cs:34 | any two user names are comparable in the listing order |
| Text.OrdinalLeTransitive | MigoAPI/Repository/UserRepository.cs:34 | the listing order is transitive |
| UserRepository.InsertByName | MigoAPI/Repository/UserRepository.cs:34 | inserting one user into a name-sorted list keeps it sorted and adds exactly that user |
| UserRepository.SortByName | MigoAPI/Repository/UserRepository.cs:34 | the result is sorted by user name and is a permutation of the input |
| UserRepository.GetAllMembers | MigoAPI/Repository/UserRepository.cs:32-35 | the listing holds every stored user exactly as often as the store does, in ascending order of user name |
| UserRepository.GetMember | MigoAPI/Repository/UserRepository.cs:37-40 | null exactly when no stored record has the key; otherwise the first stored record with that key |
| UserRepository.GetMemberOfStored | MigoAPI/Models/User.cs:13-14 | keys are unique, so looking up the key of any stored record returns that record |
| UserRepository.MemberExistsByName | MigoAPI/Repository/UserRepository.cs:42-45 | true exactly when some stored user name equals the asked name once both are lower-cased and trimmed |
| UserRepository.NameCheckIgnoresCaseAndPadding | MigoAPI/Repository/UserRepository.cs:44 | the name check gives the same answer for a name, its upper- or lower-cased form, and the name with white space around it |
| UserRepository.MemberExistsById | MigoAPI/Repository/UserRepository.cs:47-50 | true exactly when some stored record has the key, which is exactly when `GetMember` returns a user |
| UserRepository.RemoveId | MigoAPI/Repository/UserRepository.cs:28 | removing a stored key drops exactly that one record and keeps every other record |
| UserRepository.ReplaceById | MigoAPI/Repository/UserRepository.cs:59 | when the member's key is stored, a lookup of that key now finds the member; a lookup of any other key finds what it found before; an unknown key leaves the store as it is; keys stay unique |
| UserRepository.CommitFollowsSaveSync | MigoAPI/Repository/UserRepository.cs:52-55 | `SaveSync` accepts a commit iff its reported count is `>= 0`, so zero is success; the `ok` that create, update and delete of a stored key report is exactly `SaveSync` of the count |
| UserRepository.CreateMember | MigoAPI/Repository/UserRepository.cs:20-24 | null raises; otherwise it succeeds iff the count is `>= 0`. On success the store gains exactly the member under the new key, the name check then holds for its name, and a lookup of the new key finds it. On failure the store is unchanged |
| UserRepository.UpdateMember | MigoAPI/Repository/UserRepository.cs:57-61 | null raises `NullMember` and an unknown key `RowNotFound`; a non-null member with a stored key always returns, and reports success iff the count is `>= 0`. On success the record with the member's key is the member and every other record is unchanged. On failure the store is unchanged |
| UserRepository.DeleteMember | MigoAPI/Repository/UserRepository.cs:26-30 | null raises `NullMember` and an unknown key `RowNotFound`; a non-null member with a stored key always returns, and reports success iff the count is `>= 0`. On success the key is gone, exactly one record is removed, and all others remain. On failure the store is unchanged |
| UsersController.GetAllUsers | MigoAPI/Controllers/UsersController.cs:33-36 | always 200 with a name-sorted permutation of the store; the store is unchanged |
| UsersController.CreateUser | MigoAPI/Controllers/UsersController.cs:42-62 | no payload gives 400. A taken name (ignoring case and padding) gives 404. A failed commit gives 500. All three leave the store unchanged. Otherwise 201 echoes the payload and the store gains exactly it under the new key |
| UsersController.GetUser | MigoAPI/Controllers/UsersController.cs:74-84 | 404 iff no record has the route key, otherwise 200 with the stored record of that key; the store is unchanged |
| UsersController.UpdateUser | MigoAPI/Controllers/UsersController.cs:109-124 | 400 iff there is no payload and the id is `<= 0`. Otherwise an unknown route id gives 404 with the store unchanged. Otherwise a null payload or an unknown payload key (0 included, see "Left out") raises. Otherwise 204 whatever the commit reports; with a count `>= 0` the record keyed by the payload's own id is replaced, otherwise the store is unchanged |
| UsersController.DeleteUser | MigoAPI/Controllers/UsersController.cs:129-145 | an unknown id gives 404 and a failed commit 500, both with the store unchanged. Otherwise 204 with that record gone and every other record kept; it never raises |
| UsersController.CreateThenGet | MigoAPI/Controllers/UsersController.cs:55-83 | after a 201, getting the generated key answers 200 with the payload under that key |
| UsersController.CreateTwiceRejected | MigoAPI/Controllers/UsersController.cs:49-53 | after a 201, posting any name that normalizes alike answers 404 and leaves the store unchanged |
| UsersController.DeleteThenGet | MigoAPI/Controllers/UsersController.cs:131-144 | after a 204 delete, getting the same id answers 404 |
| UsersController.UpdateIgnoresCommitResult | MigoAPI/Controllers/UsersController.cs:121-123 | the update reply is the same whatever count the commit reports |
| UsersController.UpdateTargetsPayloadKey | MigoAPI/Controllers/UsersController.cs:116-121 | with a count `>= 0`, when the route id and the payload's id differ, the route's record is untouched and the payload's record is replaced |
| Scenarios.ShouldCreateUser | Users.Tests/UsersControllerTest.cs:28-43 | posting the test user into an empty store answers 201 |
| Scenarios.ShouldFailCreatingUser | Users.Tests/UsersControllerTest.cs:45-64 | a null payload answers 400, a stored name 404, a failed commit 500 |
| Scenarios.FirstCreateStoresOne | MigoAPI/Controllers/UsersController.cs:55-61 | with a non-negative count, a create into an empty store answers 201 and leaves exactly the created record |
| Scenarios.SecondCreateRejected | MigoAPI/Controllers/UsersController.cs:49-53 | posting a name that is already stored answers 404 with the store unchanged |
| Scenarios.DeleteUnknownRejected | MigoAPI/Controllers/UsersController.cs:131-134 | deleting a key that is not stored answers 404 with the store unchanged |
| Scenarios.CreateAgainThenDeleteUnknown | MigoAPI/Controllers/UsersController.cs:42-145 | for any user, into an empty store and with a non-negative count: create gives 201, the same create again gives 404, and deleting a never-created id gives 404 |
| Scenarios.TexmoLifecycle | MigoAPI/Controllers/UsersController.cs:42-145 | the same walk-through with user "texmo" |
| Scenarios.BobIsFoundInAnyCase | MigoAPI/Repository/UserRepository.cs:44 | with "Bob" stored, the name check holds for "Bob", " bob " and "BOB" |

## Left out

- Entity Framework Core and the database are not part of this model. The store is an in-memory sequence. Change tracking, SQL translation and isolation between requests are not modelled. Each call is sequential and atomic.
- `async`/`Task` is not modelled: every call is a plain function, since the source has no concurrency of its own.
- Generated keys: the store's key generator is the parameter `newId`, required to be unused. Identity seeds and increments are not modelled.
- CreateUser: the 201 body is the payload as posted. EF writes the generated key back onto the same object before it is serialized. That write-back belongs to EF, and the model does not show it.
- CreateMember, CreateUser: the posted payload's own `Id` is ignored and replaced by the generated key. A POST whose `Id` is not 0 therefore answers 201 in the model with the record stored under `newId`, whereas EF would insert it with the posted key or fail. EF's behaviour for a non-default key on insert is not modelled.
- UpdateMember, UpdateUser: EF's `Update` on an entity whose key is still the default (0) inserts it instead of updating it. The model treats every unknown key, 0 included, as `RowNotFound`. So a PUT whose payload has no `Id`, like the sample request at `MigoAPI/Controllers/UsersController.cs:93-103`, raises `RowNotFound` in the model, where the source inserts a new record and answers 204.
- CreateMember, UpdateMember, DeleteMember: what the store holds after a negative reported count is a modelling choice, not source behaviour. `SaveChangesAsync` returns its count only after the staged change is written, and it never returns a negative count. So the branch where `SaveSync` is false is never taken in the running system. The model says that branch leaves the store unchanged. The "unchanged on failure" clauses of these three, the 500 branches of CreateUser and DeleteUser, and UpdateUser's 204 with the store unchanged, rest on that choice.
- SaveSync: the commit's reported count is a free parameter. The model never derives it from the staged change. EF never reports a negative count; it throws instead.
- MemberExistsByName: the name check treats both sides alike, with ASCII case mapping and ASCII white space. The source does not. The asked name is lower-cased and trimmed in .NET: `ToLower()` follows the current culture, and `Trim()` strips all Unicode white space. The stored name is lower-cased and trimmed inside the SQL query, where `LTRIM`/`RTRIM` strip only spaces and comparison follows the database collation. So a stored name padded with a tab, such as `"\tbob"`, matches `"bob"` in the model but not in the source.
- GetAllMembers: the order is ordinal (code point) order, not SQL Server collation order. The model does not promise stability among users with equal names.
- The framework answers before the action runs when model binding fails (`[ApiController]`, the invalid-model-state factory at `MigoAPI/Startup.cs:135-154`). A body that parses but fails validation gets 422. A body that is missing or cannot be parsed gets 400. This is framework configuration, so the model runs only the action's own null check.
- An exception that escapes an action appears as `Threw(error)`. The framework's conversion of it into an HTTP 500 page is not modelled.
- The text of `ModelState` error messages is not modelled. Those bodies are the single value `ModelState`.
- `UsersControllerV2` (a duplicate of get-all behind API versioning), Swagger, basic authentication and dependency-injection wiring are framework configuration and are not modelled.
- The entities `List`, `Item`, `Type`, `Track`, `Content`, `ListDetail` and `TrackDetail` carry no logic and have no repository, so they are not modelled.
- `[Required]` validation of the user's string fields happens in the framework and is not modelled.
