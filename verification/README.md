# User-plan subscription ledger — a Dafny model

This project models the core of the `userplan` service: the life of a
user's subscription to a plan.

- **Ledger repository** (`user_plan_repo.go`). It keeps a table of user-plan rows and an
  append-only plan-history table. `AssignPlan`, `RenewPlan` and `CancelPlan`
  each change both tables inside one transaction. `GetHistory` lists a user's
  entries, newest first.
- **Plan service** (`service.go`). It assigns a plan by soft-deleting the user's
  current plan and then creating a new one expiring a month from now. It
  renews by overwriting the expiry, cancels by soft deletion, upserts plan
  prices and attaches limitation values to plans.
- **Time rules** (`domain.go`). These are the expiration date, "expired" and "expiring soon".
- **Helpers.** These are the generic `Map` and the parsing of the management backend's path and
  query parameters.

Modules and files:

| file | module | models |
|---|---|---|
| `domain.dfy` | `Domain` | records, status and action values, time rules |
| `ledger.dfy` | `Ledger` | the ledger repository: spec functions, lemmas, class `UserPlanRepository` |
| `service.dfy` | `Service` | the plan service: spec functions, lemmas, class `PlanService` |
| `mapper.dfy` | `Mapper` | `Map` |
| `params.dfy` | `Params` | `parseUintParam`, `parseQueryParamInt` and the decimal parser beneath them |
| `store.dfy` | `Store` | the two statement shapes the code sends to the database: first matching row, bulk update |
| `outcomes.dfy` | `Outcomes` | `Option`, `Result` |

Conventions of the model:

- **Time.** An instant is a whole number of seconds since 1970-01-01T00:00:00Z, read in UTC.
  A day is 86400 seconds. The clock is an input: each operation takes `now`.
- **One record.** `UserPlan` is one record with every field the repository and the service use:
  `status`, `endDate`, `lastRenewalAt`, `nextRenewalAt`, `exTime` and a soft-delete flag `deleted`.
  Status and action values are the code's strings. A row the service creates has
  status `""` and the zero time, 0001-01-01, in its unset time fields, as Go's zero values.
- **Store failures.** Any statement or repository call can fail in the store. Each
  operation takes the set `rejected` of statements or calls the store
  rejects. A rejected statement inside a ledger transaction aborts it, and
  neither table changes. The service's calls are separate: an earlier
  write that succeeded stays.
- **Ids.** Primary keys come from an auto-increment sequence (`nextRowID`,
  `nextHistoryID`, `nextUserPlanID`). Rows are kept in id order, so "the first
  matching row" is the one with the lowest id, as `First` returns it.
- **Ledger lookups.** These see only rows that are not soft-deleted, as the store's default scope does.
  The history join does not filter the joined user-plan rows.
- **Service repositories.** The repository methods the service calls (`GetActiveByUserID`, `SoftDelete`,
  `Create`, `Update`) are not in the source. The model takes the user's
  active plan to be the user's first row that is not soft-deleted. The service
  ends a plan only by soft deletion.
- **Month addition.** `time.Now().AddDate(0, 1, 0)` becomes a function parameter
  `addMonth`. Its only contract is that it moves time forward.
- **Column defaults.** On insert, a zero value in a column with a `default:` tag is
  replaced by the default. This is the ORM's rule. It matters for `PlanLimitation.Value` (default 1) and `Price.Price`
  (default 1000000; see Findings).

What the code does, and so what the model does:

- The repository's `AssignPlan` does not look up the plan and does not compute the expiry. It stores the row it is given and records one `assign` entry. It records no entry for the rows it cancels.
- The repository's `RenewPlan` stores the new end date exactly, with no rounding to midnight. It sets
  `nextRenewalAt` to seven days before that end. Its `renew` entry names the old plan and no new plan.
- The ledger keeps the invariant "at most one active row per user". It is part of
  `UserPlanRepository.Valid()`. The service does not keep it: a failed lookup
  still leads to a create (`Service.FailedLookupLeavesTwoLive`).

## Model

| member | source | states |
|---|---|---|
| `Domain.CalculateExpirationDate` | src/userplan/internal/plan/domain/domain.go:94-99 | the result is midnight, its date is the start date plus `durationDays` days, and it lies within one day at or before start + durationDays days |
| `Domain.IsExpired` | src/userplan/internal/plan/domain/domain.go:101-103 | the definition: a plan is expired when now is strictly after its expiry instant; its properties are the lemmas below |
| `Domain.IsExpiringSoon` | src/userplan/internal/plan/domain/domain.go:105-108 | the definition: the expiry lies before now + threshold days and has not passed; its properties are the lemmas below |
| `Domain.ExpirationMonotone` | src/userplan/internal/plan/domain/domain.go:94-99 | for a fixed start, a longer duration never gives an earlier expiration date |
| `Domain.ExpiredBoundary` | src/userplan/internal/plan/domain/domain.go:101-103 | a plan is not expired at its expiry instant and is expired one second later |
| `Domain.ExpiredStaysExpired` | src/userplan/internal/plan/domain/domain.go:101-103 | once a plan is expired at some instant, it is expired at every later instant |
| `Domain.ExpiringSoonWindow` | src/userplan/internal/plan/domain/domain.go:105-108 | "expiring soon" holds exactly when now <= expiry < now + threshold days |
| `Domain.ExpiringSoonExcludesExpired` | src/userplan/internal/plan/domain/domain.go:105-108 | no plan is both expiring soon and expired |
| `Domain.ExpiringSoonNeedsPositiveThreshold` | src/userplan/internal/plan/domain/domain.go:105-108 | with a threshold of zero days or fewer, nothing is expiring soon |
| `Domain.StatusesDistinct` | src/userplan/internal/plan/domain/domain.go:11-15 | the three status values are pairwise distinct |
| `Domain.ActionsDistinct` | src/userplan/internal/plan/domain/domain.go:17-23 | the five action values are pairwise distinct |
| `Store.First` | src/userplan/internal/adapter/repository/user_plan_repo.go:59-61 | the active-row lookup returns the lowest-id matching row, and it reports none exactly when no row matches |
| `Ledger.CloseActive` | src/userplan/internal/adapter/repository/user_plan_repo.go:32-37 | the bulk update cancels every active row of the user with end date now, leaves every other row unchanged and leaves the user no active row |
| `Ledger.CloseThenAppendKeepsAtMostOneActive` | src/userplan/internal/adapter/repository/user_plan_repo.go:32-44 | cancelling a user's active rows and then appending a row keeps at most one active row per user |
| `Ledger.ReplaceRowKeepsInvariants` | src/userplan/internal/adapter/repository/user_plan_repo.go:82-86 | replacing one row by a row with the same key and user, active only if the old one was, keeps the ids ascending and at most one active row per user |
| `Ledger.Assign` | src/userplan/internal/adapter/repository/user_plan_repo.go:29-55 | the committed assignment keeps the tables well formed: ids ascending below their sequences, and at most one active row per user |
| `Ledger.Renew` | src/userplan/internal/adapter/repository/user_plan_repo.go:65-92 | a committed renewal keeps the tables well formed |
| `Ledger.Cancel` | src/userplan/internal/adapter/repository/user_plan_repo.go:94-119 | a committed cancellation keeps the tables well formed |
| `Ledger.Record` | src/userplan/internal/adapter/repository/user_plan_repo.go:131-133 | appending an entry leaves the rows and the earlier entries as they were, appends the given entry with all its fields under the next key, and keeps the tables well formed |
| `Ledger.AssignClosesPrevious` | src/userplan/internal/adapter/repository/user_plan_repo.go:32-37 | after an assignment, every row of the user that was active is canceled with end date now |
| `Ledger.AssignTouchesOnlyUser` | src/userplan/internal/adapter/repository/user_plan_repo.go:33 | an assignment leaves other users' rows untouched |
| `Ledger.AssignRecordsOneEntry` | src/userplan/internal/adapter/repository/user_plan_repo.go:42-53 | an assignment inserts the row under a fresh id and appends exactly one entry: action assign, the new row's id, new plan = its plan, no old plan, changed now |
| `Ledger.AssignKeepsAtMostOneActive` | src/userplan/internal/adapter/repository/user_plan_repo.go:30-53 | if no user had two active rows before, none has two after, and an inserted active row is its user's only active row |
| `Ledger.RenewNeedsActiveRow` | src/userplan/internal/adapter/repository/user_plan_repo.go:68-71 | a renewal fails exactly when the user has no active row |
| `Ledger.RenewMovesEnd` | src/userplan/internal/adapter/repository/user_plan_repo.go:73-90 | renewal sets end = new end, last renewal = now, next renewal = new end minus 7 days; it keeps status, plan and every other row, and appends one renew entry naming the current plan |
| `Ledger.CancelNeedsActiveRow` | src/userplan/internal/adapter/repository/user_plan_repo.go:97-100 | a cancellation fails exactly when the user has no active row |
| `Ledger.CancelLeavesNoActive` | src/userplan/internal/adapter/repository/user_plan_repo.go:102-117 | cancellation marks the user's active row canceled with end now, changes nothing else and appends one cancel entry naming its plan; when no user had two active rows, the user then has none |
| `Ledger.EntriesOf` | src/userplan/internal/adapter/repository/user_plan_repo.go:124-125 | the join keeps each entry that documents a row of the user exactly as often as it was recorded, drops every other entry, and is empty when no entry belongs to the user |
| `Ledger.InsertByTime` | src/userplan/internal/adapter/repository/user_plan_repo.go:126 | inserting adds exactly the one entry to the sequence |
| `Ledger.InsertByTimeSorted` | src/userplan/internal/adapter/repository/user_plan_repo.go:126 | inserting into a newest-first sequence keeps it newest first |
| `Ledger.SortNewestFirst` | src/userplan/internal/adapter/repository/user_plan_repo.go:126 | the ordering is a permutation of its input with change times non-increasing |
| `Ledger.UserHistory` | src/userplan/internal/adapter/repository/user_plan_repo.go:121-128 | the history is newest first and holds each entry that documents a row of the user exactly as often as it was recorded, and no other entry |
| `Ledger.NoPlansNoHistory` | src/userplan/internal/adapter/repository/user_plan_repo.go:121-128 | a user with no rows gets an empty history |
| `Ledger.UserPlanRepository.constructor` | src/userplan/internal/adapter/repository/user_plan_repo.go:25-27 | the repository starts with empty tables, and its invariant holds |
| `Ledger.UserPlanRepository.AssignPlan` | src/userplan/internal/adapter/repository/user_plan_repo.go:29-55 | commits the assignment when the store accepts all three statements; otherwise returns the failure and neither table changes; keeps at most one active row per user |
| `Ledger.UserPlanRepository.GetByUserID` | src/userplan/internal/adapter/repository/user_plan_repo.go:57-63 | returns the user's lowest-id active row, or the zero row with not-found or store failure |
| `Ledger.UserPlanRepository.RenewPlan` | src/userplan/internal/adapter/repository/user_plan_repo.go:65-92 | without an active row, or on any rejected statement, returns the error and writes nothing; otherwise commits the renewal |
| `Ledger.UserPlanRepository.CancelPlan` | src/userplan/internal/adapter/repository/user_plan_repo.go:94-119 | without an active row, or on any rejected statement, returns the error and writes nothing; otherwise commits the cancellation |
| `Ledger.UserPlanRepository.GetHistory` | src/userplan/internal/adapter/repository/user_plan_repo.go:121-129 | returns the user's history newest first, or an empty list with the store's error |
| `Ledger.UserPlanRepository.RecordHistory` | src/userplan/internal/adapter/repository/user_plan_repo.go:131-133 | appends the entry under a fresh id, or changes nothing when the insert is rejected |
| `Service.LookupActive` | src/userplan/internal/plan/service.go:34-35 | the lookup returns the user's first live row, and it succeeds whenever the call goes through and the user has a live row; it reports a store failure exactly when the call is rejected, and not-found exactly when the call went through and the user has no live row |
| `Service.SoftDeleteByID` | src/userplan/internal/plan/service.go:36 | soft deletion marks the live row with that id deleted and changes nothing else |
| `Service.SoftDeleteHitsOneRow` | src/userplan/internal/plan/service.go:70 | with unique ids, soft-deleting the looked-up row's id changes exactly that row |
| `Service.ReplaceKeepsOneLive` | src/userplan/internal/plan/service.go:33-47 | soft delete then create leaves the new row as the user's only live row and at most one live row per user |
| `Service.FailedLookupLeavesTwoLive` | src/userplan/internal/plan/service.go:34-47 | when the lookup call fails while the user has a live row, the created row is a second live row |
| `Service.UpsertPrice` | src/userplan/internal/plan/service.go:101-114 | the intended effect: afterwards (plan, months) holds the price, as a new entry with exactly the three fields or as the old entry with only its price changed; every other key is unchanged, and entries stay under their own keys |
| `Service.UpsertPriceIdempotent` | src/userplan/internal/plan/service.go:101-114 | setting the same price twice gives the same table as setting it once |
| `Service.SetPlanPriceAsWritten` | src/userplan/internal/plan/service.go:101-114 | the code's effect: the create path applies the column default, so a new entry agrees with the intended upsert exactly when the price is not 0; the update path agrees with the upsert when neither key field is 0, and leaves the table unchanged when one is (the save becomes a colliding insert) |
| `Service.SetPlanPriceAsWrittenNotIdempotent` | src/userplan/internal/plan/service.go:103-109 | as written, for a key with no zero field, a new price of 0 is stored as 1000000, and setting it again stores 0 |
| `Service.SetPlanPriceAsWrittenZeroKeyFrozen` | src/userplan/internal/adapter/repository/price_repo.go:35-37 | as written, a price whose plan id or month count is 0 keeps the value it was created with: a later call with another price leaves the table unchanged, where the intended upsert stores the new price |
| `Service.StoredLimitationValue` | src/userplan/internal/plan/domain/domain.go:56-61 | a stored limitation value is never 0, and a non-zero value is kept as given (the body maps 0 to the column default `DefaultLimitationValue`, 1) |
| `Service.PlanService.constructor` | src/userplan/internal/plan/service.go:18-30 | the service starts over empty repositories, and its invariant holds |
| `Service.PlanService.AssignPlan` | src/userplan/internal/plan/service.go:32-48 | soft-deletes the found live plan before creating; a failed soft delete returns the error and creates nothing; a failed lookup still creates; the new row carries the request's user and plan and expires strictly after now |
| `Service.PlanService.GetUserPlan` | src/userplan/internal/plan/service.go:50-52 | returns the user's live plan, or the lookup's error |
| `Service.PlanService.RenewUserPlan` | src/userplan/internal/plan/service.go:54-62 | returns the lookup's error and changes nothing without a live plan; otherwise sets exTime to the requested end date, even an earlier one, and changes nothing else |
| `Service.PlanService.CancelUserPlan` | src/userplan/internal/plan/service.go:64-71 | returns the lookup's error and changes nothing without a live plan; otherwise soft-deletes exactly the looked-up row |
| `Service.PlanService.SetPlanPrice` | src/userplan/internal/plan/service.go:101-114 | on success the price table is the upsert of (plan, months, price); on any failure it is unchanged; says which failure occurs when |
| `Service.PlanService.AssignLimitationToPlan` | src/userplan/internal/plan/service.go:124-131 | inserts the (plan, limitation) value unless the pair exists or the store rejects the insert; the service's invariant keeps every stored limitation under its own key with a non-zero value |
| `Mapper.MapSeq` | src/userplan/pkg/util/mapper.go:5-11 | the result has the input's length and holds f of each element at its index |
| `Mapper.Map` | src/userplan/pkg/util/mapper.go:5-11 | returns a freshly allocated array equal to `MapSeq` of the input, which it does not modify |
| `Mapper.MapEmpty` | src/userplan/pkg/util/mapper.go:6 | empty input gives empty output |
| `Mapper.MapCompose` | src/userplan/pkg/util/mapper.go:5-11 | mapping with f then g equals mapping once with g after f |
| `Params.Accumulate` | src/management-backend/internal/api/handlers/http/utils.go:11 | the digit loop succeeds exactly on all-digit text whose value stays within the bound, and then returns that value |
| `Params.ParseUint` | src/management-backend/internal/api/handlers/http/utils.go:11 | unsigned parsing succeeds exactly on non-empty digit strings within the bound, with their decimal value |
| `Params.Atoi` | src/management-backend/internal/api/handlers/http/utils.go:24 | signed parsing succeeds exactly on an optional sign followed by digits whose value fits a 64-bit int, with that value |
| `Params.ParseUintParam` | src/management-backend/internal/api/handlers/http/utils.go:9-16 | succeeds exactly for unsigned digit strings below 2^32, returning their value; on failure returns 0 with an error |
| `Params.ParseQueryParamInt` | src/management-backend/internal/api/handlers/http/utils.go:18-29 | empty or non-decimal or out-of-range text gives the default; otherwise the text's value |
| `Params.ParseUintParamRoundTrip` | src/management-backend/internal/api/handlers/http/utils.go:11-15 | every n < 2^32 written in decimal parses back to n with no error |
| `Params.ParseQueryParamIntRoundTrip` | src/management-backend/internal/api/handlers/http/utils.go:24-28 | every 64-bit int written in decimal parses back to itself, whatever the default |

## Findings

| source | as written | input that shows it | evidently intended | confidence | as-written member | corrected member |
|---|---|---|---|---|---|---|
| src/userplan/internal/plan/service.go:103-113 | The create path inserts through the ORM. The ORM replaces a zero `Price` with the column default 1000000 (`default:1000000`, domain.go:48). The update path stores the price unchanged. | With no entry for (p, m), `SetPlanPrice(p, m, 0)` stores 1000000. Calling it again stores 0. So calling it twice differs from calling it once (`Service.SetPlanPriceAsWrittenNotIdempotent`). | The entry holds the requested price on both paths, so the upsert is idempotent. | medium; not executed; rests on the ORM's rule for zero values in columns with a default | `Service.SetPlanPriceAsWritten` | `Service.UpsertPriceIdempotent` |
| src/userplan/internal/plan/service.go:112-113 with src/userplan/internal/adapter/repository/price_repo.go:35-37 | The update path saves the whole `Price` row. The ORM's save sends an insert instead of an update when any primary-key field of the row is zero, and `Price`'s key is (plan id, month count). | With an entry for (p, 0), `SetPlanPrice(p, 0, x)` inserts a second row under the same key. The insert fails on the duplicate key, and the old price stays (`Service.SetPlanPriceAsWrittenZeroKeyFrozen`). | An existing entry takes the requested price whatever its key. | low; not executed; rests on the ORM's rule that a save with a zero key field is an insert, and matters only if a month count of 0 is ever stored | `Service.SetPlanPriceAsWritten` | `Service.UpsertPrice` |

`Service.PlanService.SetPlanPrice` uses the corrected upsert, `Service.UpsertPrice`.

## Left out

- Transport is left out: HTTP and gRPC handlers, routing, middleware, JWT, the CAPTCHA check, configuration, logging, database connection and process wiring. These are request plumbing and library calls.
- The service's one-line delegations are left out: `GetUserPlanHistory`, `CreatePlan`, `GetPlanByID`, `GetPlanByTitle`, `UpdatePlan`, `DeletePlan`, `ListPlans`, `GetPlanPrices`, `CreateLimitation` and `GetPlanLimitations`. Each forwards to a plain CRUD repository call with no logic of its own.
- `ExpirePlans` and `GetExpiringPlans` are left out. They delegate to repository methods that are not part of this model, so there is no sweep to model.
- Concurrency is left out: row locks, concurrent transactions and context deadlines. A transaction is modelled as a sequential all-or-nothing update.
- Ledger.UserPlanRepository.AssignPlan, Ledger.UserPlanRepository.RenewPlan, Ledger.UserPlanRepository.CancelPlan and Domain.IsExpiringSoon each read the clock twice in the code (user_plan_repo.go lines 36 and 51, 78 and 83, 106 and 111; domain.go line 106 and again inside `IsExpired` at line 102). The model uses one `now` for both reads. It does not capture an end date and a history timestamp that differ slightly, or an `IsExpiringSoon` answer that changes when the second, later read crosses the expiry instant.
- Time is whole seconds in UTC. Nanoseconds, time zones and `Location()` are not modelled.
- Calendar-month addition is not modelled. It is the parameter `addMonth`, known only to move time forward.
- `CreatedAt`, `UpdatedAt` and the `DeletedAt` instant are not modelled. Only whether a row is soft-deleted is kept.
- The history `Metadata` column is not modelled. The code never sets it, and its JSON `Scan`/`Value` are empty stubs.
- An id taken from the sequence by a transaction that then rolls back stays unused in a real database. The model leaves the sequences unchanged on failure.
- Ledger.UserPlanRepository.AssignPlan always gives the inserted row a fresh id. The store would keep a non-zero id supplied by the caller; the model does not.
- Ledger.UserPlanRepository.RecordHistory always gives the appended entry a fresh id. The store keeps a non-zero id supplied by the caller; the model does not, so it leaves out the key collision such an id can cause.
- Service.PlanService.SetPlanPrice uses the intended upsert. With no existing entry, a price of 0 is stored as 0, where the code stores the column default 1000000. With an existing entry whose plan id or month count is 0, the new price is stored and no error is returned, where the code fails with a duplicate key and keeps the old price. Both are listed under Findings, with `Service.SetPlanPriceAsWritten` as the as-written model.
- Ledger.UserHistory: the database leaves the order of entries with equal change times open. The model keeps their recording order, and the lemmas promise only newest-first.
- Unsigned ids (`uint`) are modelled as `nat`, and Go's signed `int` as Dafny `int`. This covers the month count and price of a `Price`, the value of a `PlanLimitation`, `durationDays` and `daysThreshold`. Both are unbounded, so overflow and wrap-around are not modelled. The exceptions are the 2^32 bound of `parseUintParam` and the 64-bit range of `parseQueryParamInt`, which the model states explicitly.
- Which error kind `strconv` reports is modelled (syntax or range). Its error text is not.
