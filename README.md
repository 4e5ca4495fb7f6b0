# CandidateHub in Dafny

A model of CandidateHub's logic. CandidateHub is a single-table CRUD web API for job
candidates. The model covers these parts:

- **The `Candidate` entity** (`candidate.dfy`): a datatype. Nullable columns are `Option`s,
  and `BestCallTime` is an opaque `CallTime`.
- **The repository** (`repository.dfy`): a class over the `Candidates` table.
  - `rows` is the table as the EF context tracks it.
  - `committed` is the table as last saved.
  - `lastId` is the table's SQLite `AUTOINCREMENT` sequence value.
  - The pure function `Insert` states what one INSERT does. That covers both key
    generation and explicit keys.
- **The service** (`candidate_service.dfy`): a class over the repository.
  - A create is a duplicate when some stored candidate's first name and e-mail address,
    lowered by the database, equal the input's, lowered by .NET (`case_folding.dfy`).
  - The two sides fold differently. SQLite's `lower()` folds only `A`..`Z`. The input's
    `ToLower()` reads no column, so it runs in .NET before the query and also folds
    capitals of other scripts. The new candidate is therefore a duplicate of itself
    exactly when its first name and e-mail address hold no non-ASCII capital.
  - A duplicate create fails with `(409, "candidate_already_exist")`.
  - Get, update and delete fail with `(404, "candidate_not_found")` when the key is missing.
- **The controller** (`candidate_controller.dfy`).
  - Pure functions turn the service's outcome into an action result: the update action's
    try/catch, and the delete action's `true`/`false` choice of 204/404.
  - A controller class wires these functions to the real service. At that level the
    delete action's `false` → 404 branch cannot be reached: a missing key is an
    exception, not `false`.
- **The exception middleware** (`exception_handler.dfy`).
  - A pure function chooses the status and message.
  - A method writes them to an `HttpResponse` object (`http.dfy`) as a JSON error body.
- **The per-IP rate limiter** (`rate_limiting.dfy`).
  - It keeps a map of cache entries `(count, expiresAt)` under the key `RateLimit_<ip>`.
  - The clock is a millisecond parameter `now`. The limit is 5; each admitted request
    sets the entry's lifetime to 10 s from `now`.
  - The pure step `Admit` is its specification. `AtMostLimitPerWindow` proves that,
    starting from any cache whose counts are within the limit, at most 5 requests from
    one address get through in any span shorter than 10 s.
- **A client** (`scenario.dfy`) takes one candidate through create, duplicate create,
  update and delete, and then a read and a delete of missing keys. It uses only the
  methods' contracts.

How the code shapes the model:

- The service keeps no read cache. The only in-memory cache in the code is the rate
  limiter's.
- AutoMapper's `Map(dto, model)` copies every member of the update DTO onto the entity,
  null members included. So the model's update overwrites every column except the key.
  It is not a partial overlay.
- The repository's create, delete and update each save the change themselves. The
  service's extra `SaveChangesAsync` is a commit that changes nothing.

## Model

| member | source | states |
|---|---|---|
| Entities.NewCandidate | CandidateHub.Domain/Entities/Candidate.cs:5-13 | a new candidate has key 0, empty first name, last name, e-mail and comment, and no phone, call time, LinkedIn or GitHub profile |
| CaseFolding.SqlLowerChar | CandidateHub.Service/Services/CandidateService.cs:25 | the database fold maps `A`..`Z` to `a`..`z`, leaves every other character alone, and never yields an ASCII capital |
| CaseFolding.NetLowerChar | CandidateHub.Service/Services/CandidateService.cs:25 | the .NET fold changes a character exactly when it is a capital it knows, never yields one, and agrees with the database fold on every character that is not a non-ASCII capital |
| CaseFolding.SqlLower | CandidateHub.Service/Services/CandidateService.cs:25 | `LOWER(column)` keeps the length of the string |
| CaseFolding.NetLower | CandidateHub.Service/Services/CandidateService.cs:25 | the input's `ToLower()` keeps the length of the string |
| CaseFolding.SqlLowerAt | CandidateHub.Service/Services/CandidateService.cs:25 | each character of the database-lowered string is the lowered character at the same position |
| CaseFolding.NetLowerAt | CandidateHub.Service/Services/CandidateService.cs:25 | each character of the .NET-lowered string is the lowered character at the same position |
| CaseFolding.SqlLowerHasNoUpper | CandidateHub.Service/Services/CandidateService.cs:25 | a database-lowered string has no ASCII capital |
| CaseFolding.SqlLowerIdempotent | CandidateHub.Service/Services/CandidateService.cs:25 | lowering twice in the database equals lowering once |
| CaseFolding.NetLowerIdempotent | CandidateHub.Service/Services/CandidateService.cs:25 | lowering twice in .NET equals lowering once |
| CaseFolding.FoldsAgreeIff | CandidateHub.Service/Services/CandidateService.cs:25 | the two folds give the same string exactly when it holds no non-ASCII capital, which is exactly when a value matches itself in the duplicate test |
| CaseFolding.SqlLowerKeeps | CandidateHub.Service/Services/CandidateService.cs:25 | a string without ASCII capitals is unchanged by the database fold |
| CaseFolding.NetLowerKeeps | CandidateHub.Service/Services/CandidateService.cs:25 | a string without capitals the .NET fold knows is unchanged by it |
| CaseFolding.CapitalResubmissionMisses | CandidateHub.Service/Services/CandidateService.cs:25 | "Алишер" lowered by the database differs from "Алишер" lowered by .NET |
| CaseFolding.CapitalInputMatchesLowerStored | CandidateHub.Service/Services/CandidateService.cs:25 | a stored "алишер" matches an input "Алишер", but a stored "Алишер" does not match an input "алишер" |
| Mapping.ToDto | CandidateHub.Service/Services/CandidateService.cs:33 | the returned DTO carries the entity's key, and the reverse map gives the entity back, so no column is lost |
| Mapping.FromCreateDto | CandidateHub.Service/Services/CandidateService.cs:29 | the mapped entity has key 0, left for the database to generate, and is a new candidate with every non-key column taken from the request |
| Mapping.Overlay | CandidateHub.Service/Services/CandidateService.cs:68 | the loaded entity keeps its key and gets all eight non-key columns of the update request, null ones included |
| Mapping.DtoRoundTrip | CandidateHub.Service/Mappers/MappingProfile.cs:11 | the entity-to-DTO map and the `ReverseMap` declared beside it undo each other; no service operation uses the reverse map |
| Mapping.OverlayKeepsKey | CandidateHub.Service/Services/CandidateService.cs:68 | overlaying an update keeps the entity's key, and overlaying it twice gives the same entity as once |
| Repositories.IdsUnique | CandidateHub.Data/Migrations/20250301051715_Init.cs:18-31 | in a table that keeps its invariant, two stored candidates with the same id are the same row |
| Repositories.Insert | CandidateHub.Data/Repositories/Repository.cs:49-50 | an insert keeps the table invariant; an unset key becomes one more than the largest key ever used (the sequence), which is larger than every stored key and becomes the new sequence value, and this fails only once the largest `long` was used; an explicit key is kept as given, raises the sequence to it if larger, and fails only if a row already has it; a success adds exactly the stored entity, and a failure changes nothing |
| Repositories.CandidateRepository.constructor | CandidateHub.Data/Migrations/20250301051715_Init.cs:14-32 | the new table is empty, nothing is committed and the sequence is 0 |
| Repositories.CandidateRepository.GetAll | CandidateHub.Data/Repositories/Repository.cs:18-39 | the result holds exactly the stored candidates the expression accepts, and every stored candidate when the expression is null |
| Repositories.CandidateRepository.GetAsync | CandidateHub.Data/Repositories/Repository.cs:41-42 | the result is null exactly when no stored candidate is accepted; otherwise it is a stored candidate the expression accepts; the store is not modified |
| Repositories.CandidateRepository.CreateAsync | CandidateHub.Data/Repositories/Repository.cs:44-53 | a null entity fails with an argument error and changes nothing; any other entity has the effect of `Insert`, and a success is committed |
| Repositories.CandidateRepository.DeleteAsync | CandidateHub.Data/Repositories/Repository.cs:55-68 | returns `true` exactly when the key is stored; removes exactly that row and commits; a missing key returns `false` and leaves the table as it is |
| Repositories.CandidateRepository.Update | CandidateHub.Data/Repositories/Repository.cs:70-79 | a null entity fails with an argument error; a stored key has its row replaced by the entity, which is returned, with all other rows unchanged and the change committed; an unset key is inserted; any other key fails and changes nothing |
| Repositories.CandidateRepository.SaveChangesAsync | CandidateHub.Data/Repositories/Repository.cs:81-82 | commits the tracked table and does not change it |
| Services.MappedRowsCount | CandidateHub.Service/Services/CandidateService.cs:49-50 | mapping the rows of a table whose keys are the ids gives as many DTOs as there are rows |
| Services.SameNameAndEmailIgnoresCase | CandidateHub.Service/Services/CandidateService.cs:25 | for input without non-ASCII capitals, the duplicate test is a case-insensitive comparison of first name and e-mail address, and the last name is ignored |
| Services.ResubmissionIsDuplicate | CandidateHub.Service/Services/CandidateService.cs:24-27 | sending a stored candidate's first name and e-mail address again matches that row exactly when neither holds a non-ASCII capital, and is then a duplicate |
| Services.CyrillicResubmissionNotDuplicate | CandidateHub.Service/Services/CandidateService.cs:24-27 | with only "Алишер"/"a@x.uz" stored, the same create again is not a duplicate |
| Services.CapitalisedCreateIsDuplicate | CandidateHub.Service/Services/CandidateService.cs:24-27 | with "алишер"/"a@x.uz" stored, a create of "Алишер"/"a@x.uz" is a duplicate |
| Services.CandidateService.constructor | CandidateHub.Service/Services/CandidateService.cs:16-20 | the service works on the repository it is given |
| Services.CandidateService.CreateCandidateAsync | CandidateHub.Service/Services/CandidateService.cs:22-34 | fails with (409, "candidate_already_exist") exactly when the duplicate test matches a stored candidate, and that failure changes nothing; once the largest key was used it fails with nothing changed; otherwise it adds exactly one candidate built from the input under the next key, commits and returns its DTO; afterwards the input is a duplicate exactly when its first name and e-mail address hold no non-ASCII capital |
| Services.CandidateService.DeleteCandidateAsync | CandidateHub.Service/Services/CandidateService.cs:36-45 | fails with (404, "candidate_not_found") exactly when the key is missing, and then changes nothing; otherwise it removes exactly that row and returns `true`; it never returns `false` |
| Services.CandidateService.GetAllCandidatessAsync | CandidateHub.Service/Services/CandidateService.cs:47-51 | returns the DTO of every stored candidate, only those, one per row; the store is not modified |
| Services.CandidateService.GetCandidatetAsync | CandidateHub.Service/Services/CandidateService.cs:53-60 | succeeds exactly when the key is stored, with that candidate's DTO; otherwise it fails with (404, "candidate_not_found"); the store is not modified |
| Services.CandidateService.UpdateCandidateAsync | CandidateHub.Service/Services/CandidateService.cs:62-73 | fails with (404, "candidate_not_found") exactly when the key is missing, and then changes nothing; otherwise the stored candidate becomes the overlay of the input on it, with the same key, and its DTO is returned; all other rows are unchanged |
| Controllers.OkResult | CandidateHub.Api/Controllers/CandidateController.cs:46-47 | a service value becomes a 200 Ok result carrying it; a service exception passes through unchanged |
| Controllers.UpdateCandidateResult | CandidateHub.Api/Controllers/CandidateController.cs:77-103 | a success becomes Ok with the service's result unchanged; a custom exception gives a result whose status and problem body are its status code and message, BadRequest exactly for 400 and NotFound exactly for 404; any other exception gives 500 with the title "Internal Server Error" |
| Controllers.UpdateHidesUnexpectedErrors | CandidateHub.Api/Controllers/CandidateController.cs:99-102 | all exceptions that are not custom ones produce the same update result |
| Controllers.RemoveCandidateResult | CandidateHub.Api/Controllers/CandidateController.cs:116-117 | `true` becomes 204 NoContent and `false` becomes 404 NotFound; an exception passes through unchanged |
| Controllers.CandidateController.constructor | CandidateHub.Api/Controllers/CandidateController.cs:17-18 | the controller works on the service it is given |
| Controllers.CandidateController.GetAllCandidates | CandidateHub.Api/Controllers/CandidateController.cs:32-33 | answers 200 with the DTO of every stored candidate and nothing else, one per row |
| Controllers.CandidateController.GetCandidate | CandidateHub.Api/Controllers/CandidateController.cs:46-47 | answers 200 with the candidate's DTO when the key is stored; otherwise the not-found exception passes through |
| Controllers.CandidateController.AddCandidateAsync | CandidateHub.Api/Controllers/CandidateController.cs:60-61 | the conflict exception passes through exactly for a duplicate, and nothing changes then; once the largest key was used the database error passes through and nothing changes; otherwise it answers 200 with the DTO of the one candidate added under the next key, and the table is committed |
| Controllers.CandidateController.UpdateCandidateAsync | CandidateHub.Api/Controllers/CandidateController.cs:77-103 | composed with the service: a missing key gives NotFound with problem (404, "candidate_not_found") and changes nothing; a stored key gives Ok with the DTO of the overlaid candidate, which replaces the stored one; the sequence is unchanged and the table is committed |
| Controllers.CandidateController.RemoveCandidateAsync | CandidateHub.Api/Controllers/CandidateController.cs:116-117 | composed with the service: never the `false` → NotFound result; NoContent exactly when the key was stored; otherwise the not-found exception passes through and nothing changes; a stored row is removed, the sequence is unchanged and the table is committed |
| ExceptionHandling.ErrorStatusAndMessage | CandidateHub.Api/Middlewares/ExceptionHandlerMiddleWare.cs:24-33 | a custom exception yields its own status code and message; any other exception yields 500 and "An unexpected error occurred." |
| ExceptionHandling.UnexpectedErrorsLookAlike | CandidateHub.Api/Middlewares/ExceptionHandlerMiddleWare.cs:29-33 | exceptions that are not custom ones are answered alike, so their own messages never reach the client |
| ExceptionHandling.HandleExceptionAsync | CandidateHub.Api/Middlewares/ExceptionHandlerMiddleWare.cs:36-43 | the response gets content type `application/json` and the given status, and a JSON body with that status and message is appended |
| ExceptionHandling.Invoke | CandidateHub.Api/Middlewares/ExceptionHandlerMiddleWare.cs:18-34 | a next stage that completes leaves the response untouched; one that throws gets the JSON error response with the status and message `ErrorStatusAndMessage` chose |
| RateLimiting.CacheKey | CandidateHub.Api/Middlewares/RateLimitingMiddleware.cs:33 | the key is the prefix `RateLimit_` followed by the whole address |
| RateLimiting.CachedCount | CandidateHub.Api/Middlewares/RateLimitingMiddleware.cs:34 | in a cache whose counts are within the limit, the count read is between 0 and 5, and 0 exactly when the key has no live entry |
| RateLimiting.CacheKeyInjective | CandidateHub.Api/Middlewares/RateLimitingMiddleware.cs:33 | two addresses with the same cache key are the same address |
| RateLimiting.Admit | CandidateHub.Api/Middlewares/RateLimitingMiddleware.cs:33-43 | a key with no live entry counts as 0; a request is admitted exactly when the count is below 5; a rejection leaves the cache unchanged; an admission sets the count one higher and the expiry to `now` + 10 s; no other key's entry changes; every count stays between 1 and 5 |
| RateLimiting.OtherAddressesUntouched | CandidateHub.Api/Middlewares/RateLimitingMiddleware.cs:33-43 | a request from one address does not change the count another address sees |
| RateLimiting.LiveEntryBound | CandidateHub.Api/Middlewares/RateLimitingMiddleware.cs:36-43 | while an entry stays alive, requests in one window admit at most 5 minus its count |
| RateLimiting.AtMostLimitPerWindow | CandidateHub.Api/Middlewares/RateLimitingMiddleware.cs:19-43 | from any cache whose counts are within the limit, at most 5 requests of one address, at ascending times less than 10 s apart, are admitted |
| RateLimiting.RateLimitingMiddleware.constructor | CandidateHub.Api/Middlewares/RateLimitingMiddleware.cs:15-21 | the limiter starts with no entries |
| RateLimiting.RateLimitingMiddleware.InvokeAsync | CandidateHub.Api/Middlewares/RateLimitingMiddleware.cs:23-45 | a null or empty address is passed on, and no entry or response field changes; otherwise the cache becomes what `Admit` says; an admitted request is passed on with the response untouched; a rejected one is not passed on, gets status 429 and the "Too many requests" text, and keeps its count |

## Left out

- Asynchrony (`Task`, `ValueTask`, `await`) is left out: every call runs to completion in
  order. Logging, JSON serialisation and real response streams are left out too; a
  response body is a list of the parts written to it.
- Concurrency is left out. The duplicate check and the insert of a create are not atomic,
  and neither are the rate limiter's read and write of a count. Both are races in the
  running system; the model is sequential.
- EF Core's `Include` paths, tracking switches (`AsNoTracking`, `AsSplitQuery`) and
  translation of expression trees are left out. A filter is a total Dafny function, and a
  null filter is `None`.
- Row order is left out. The queries have no `ORDER BY`. So `GetAll` returns a set, and
  `GetAsync` returns some matching row, not a particular "first" one.
- The change tracker's aliasing is left out. The service's mapper writes into the tracked
  entity in place; the model builds a new entity value and stores it with `Update`.
- Repositories.CandidateRepository.CreateAsync and Update do not model the change
  tracker's identity check. EF throws `InvalidOperationException` at `AddAsync` or
  `Update`, before any save, when another tracked instance already holds the key. The
  model answers `PrimaryKeyTaken` on create and replaces the row on update. The service
  never reaches this case.
- After a failed save, EF keeps the failed change pending in its change tracker. The
  model leaves the tracked table as it was before the call.
- AutoMapper is a plain field copy. The C# declarations of `CandidateCreateDto`,
  `CandidateUpdateDto` and `CandidateDto` are not among the source files. The datatypes in
  `mapping.dfy` assume each carries every column of the entity, and the two request DTOs
  carry no key.
- Null strings in request DTOs are left out: a Dafny string is never null. A null first
  name or e-mail on create fails while the query's parameters are evaluated, before the
  query runs, and the exception middleware answers it with 500. A null last name or comment would be refused by the
  database's NOT NULL columns.
- Services.CandidateService.CreateCandidateAsync models the input side's .NET
  `ToLower()` as CaseFolding.NetLower. That folds the capitals of ASCII, Latin-1 and
  Cyrillic only. .NET folds every Unicode capital by the current culture, including the
  Turkish dotted and dotless I, so for capitals of other scripts the model's 409
  decision may differ from the code's.
- The seed row that the migration inserts with key 1 is left out. The repository
  starts empty.
- `DateTime` values are opaque. The seed's use of the current time is not modelled.
- Application wiring is left out. This covers `Program.cs`, the service extensions,
  Swagger, Serilog, the health check and the framework's own fixed-window rate limiter
  configured in `RateLimitingExtensions.cs`.
- The interface `ICandidateService` declares an update without an `id` parameter. The
  model follows the implementation, `UpdateCandidateAsync(id, dto)`.
- Model validation that answers 400 before an action runs belongs to the web framework
  and is not modelled.
- The memory cache can also evict an entry early under memory pressure or by compaction.
  This is not modelled: an entry leaves only by expiring.
- If the response has already started when the exception middleware runs, setting its
  status throws. This case is not modelled.
