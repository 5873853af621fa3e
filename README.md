# rust-repository-pattern, modelled in Dafny

This project models a Rust workspace that demonstrates the repository
pattern. The model covers these parts:

- **The code-first migration runner of `core-db`.** A `Migration` descriptor
  has its `checksum` and `id`. The `MigrationRunner` keeps a ledger table
  with one row per applied `(module, version)`. `run_migrations` groups the
  input by module and skips every pair the ledger already holds. It runs and
  records every other pair, and stops at the first error. `get_status` lists
  the ledger in `(module, version)` order.
- **The in-memory repositories.** There are two copies of the generic
  key-to-entity store (the workspace crate and the application under
  `src/`). Over them sits the users repository with its uniqueness checks,
  partial updates and filters.
- **The users service, the HTTP error mapping and guards, and the DTO
  bounds.**
- **The string, validation and pagination helpers, and the shared DTOs.**
- **The module registry.**
- **The PostgreSQL and MongoDB units of work.** Each is a small state
  machine over an optional transaction or session.
- **The server binary's command dispatch and its migration reports.**

Everything outside the program is a parameter of the model.

- **The database of the runner** is an oracle. It gives the answer to the
  n-th statement sent: success with the current time and the elapsed
  milliseconds, or failure with a message. The store holds the ledger map,
  whether the table exists, and the count of statements sent.
- **The pool and client replies of the units of work** are arguments of
  their calls.
- **The iteration order of a `HashMap`** is an `order` argument. It must
  list each key once (`Enumerates`).
- **Ids and timestamps** are opaque inputs.

Each file is one module:

| module | role |
|---|---|
| `Migrations` | migration descriptor, checksum and id |
| `Runner` | the runner's spec functions and the `MigrationRunner` class |
| `RunnerFacts` | properties of complete runs |
| `Grouping` | filter-by-key and per-key concatenation used by the grouping loops |
| `UserMigrations` | the users module's static list |
| `Server` | the server binary |
| `BaseRepository` | both copies of the generic store |
| `UserRepository` | the users repository |
| `UserService` | the users service |
| `UserHandler` | the HTTP mapping and guards |
| `UserDto` | the DTO rules and the users module's `ApiResponse` |
| `UserEntity` | `User::new` and `User::validate` |
| `Errors` | `RepositoryError` and its texts |
| `StringUtils`, `Validation` | the workspace helpers |
| `SharedUtils`, `BaseDtos` | the application's helpers and DTOs |
| `ModuleRegistry` | the module registry |
| `PostgresUow`, `MongoUow` | the two units of work |
| `Wrappers`, `Text`, `Numerals` | support: `Result`/`Option`/`Outcome`, integer widths, UTF-8 length, ASCII classes, decimal and hex text |

`Outcome` is either `Returns(v)` or `Panics`. It stands for a Rust panic:
an arithmetic overflow in a debug build, or a string slice that does not end
on a character boundary. The two copies of each repository differ only in
some error values. A `Copy` argument picks the copy: `Workspace` for the
`crates/` copy, `Application` for the `src/` copy.

## Model

| member | source | states |
|---|---|---|
| Migrations.NewMigration | crates/core-db/src/migrations.rs:29-41 | the descriptor holds exactly the module, version, name and SQL it was given |
| Migrations.FirstCode | crates/core-db/src/migrations.rs:49 | the code of the first character, or 48 ('0') for empty SQL |
| Migrations.LastCode | crates/core-db/src/migrations.rs:50 | the code of the last character, or 48 ('0') for empty SQL |
| Migrations.ChecksumEqual | crates/core-db/src/migrations.rs:45-52 | two checksums are equal exactly when the SQL byte lengths and the first and last character codes are equal, so the checksum is no hash |
| Migrations.ChecksumCollision | crates/core-db/src/migrations.rs:45-52 | different SQL ("CREATE TABLE users;" and "CREATE TABLE posts;") can have the same checksum |
| Migrations.ChecksumSeparatesLengths | crates/core-db/src/migrations.rs:45-52 | SQL of different byte lengths always has different checksums |
| Migrations.ChecksumTestVector | crates/core-db/src/migrations.rs:357-363 | the create and drop statements of the repository's own example get different checksums |
| Migrations.ChecksumOfEmpty | crates/core-db/src/migrations.rs:48-51 | empty SQL has the checksum "0-48-48" |
| Migrations.IdInjective | crates/core-db/src/migrations.rs:55-57 | equal ids mean the same module and version |
| Migrations.IdExamples | crates/core-db/src/migrations.rs:348-355 | ("users", 1) gives "users:version_1" and ("products", 5) gives "products:version_5" |
| Runner.TruncI32 | crates/core-db/src/migrations.rs:211 | `as i32` on the elapsed milliseconds keeps the value when it fits and otherwise agrees with it modulo 2^32 |
| Runner.OrderedStatuses | crates/core-db/src/migrations.rs:283-291 | the statuses are strictly ascending by (module, version), module names in code-point order, hold every ledger key once and carry each key's own row |
| Runner.WalkStops | crates/core-db/src/migrations.rs:249-260 | once a prefix of the visits has failed, the whole run's outcome is that prefix's outcome |
| Runner.WalkAfterFailure | crates/core-db/src/migrations.rs:249-260 | after a failure no later migration is attempted and nothing changes |
| Runner.MigrationRunner.constructor | crates/core-db/src/migrations.rs:76-78 | a runner over a database in any consistent state, with no statements sent |
| Runner.MigrationRunner.EnsureMigrationsTable | crates/core-db/src/migrations.rs:81-112 | the new store and the result are those of `CREATE TABLE IF NOT EXISTS` under the oracle's answer; existing rows are kept |
| Runner.MigrationRunner.GetAppliedMigrations | crates/core-db/src/migrations.rs:115-142 | returns the whole ledger, or the database error |
| Runner.MigrationRunner.IsApplied | crates/core-db/src/migrations.rs:145-160 | true exactly when the ledger holds a row for the migration's pair, or the database error |
| Runner.MigrationRunner.RecordMigration | crates/core-db/src/migrations.rs:163-188 | inserts the one row for the pair with its name, checksum, time and milliseconds; a present pair breaks the unique constraint and the ledger is unchanged |
| Runner.MigrationRunner.RunMigration | crates/core-db/src/migrations.rs:191-219 | executes the SQL and returns the truncated milliseconds; a failure is `DatabaseError("Migration {id} failed: {e}")` and the ledger is unchanged |
| Runner.MigrationRunner.RunGroup | crates/core-db/src/migrations.rs:248-263 | the inner loop leaves the store, the counters and the failure given by the spec walk over that module's migrations |
| Runner.MigrationRunner.RunMigrations | crates/core-db/src/migrations.rs:222-277 | the final store and result are those of the run spec: table creation, ledger read, then the walk over the module groups in map order |
| Runner.MigrationRunner.GetStatus | crates/core-db/src/migrations.rs:280-315 | creates the table if needed, then returns every ledger row ordered by (module, version), module names in code-point order; an empty ledger gives an empty list |
| RunnerFacts.StepFrame | crates/core-db/src/migrations.rs:248-263 | one iteration never deletes or rewrites a row, and its only possible new row is the visited migration's |
| RunnerFacts.StepCounts | crates/core-db/src/migrations.rs:249-261 | an iteration that succeeds counts the migration once, as applied exactly when it added the row |
| RunnerFacts.WalkFacts | crates/core-db/src/migrations.rs:245-264 | over any visits, rows are only inserted and each new row belongs to a visited migration; a walk that succeeds counts every visit once and ends with a row for each visited pair |
| RunnerFacts.VisitOrder | crates/core-db/src/migrations.rs:233-248 | the visits are a permutation of the input that keeps input order within each module; versions are never sorted |
| RunnerFacts.PairsOfVisits | crates/core-db/src/migrations.rs:233-245 | the visits cover the same pairs as the input and are as many |
| RunnerFacts.RunSpecPrelude | crates/core-db/src/migrations.rs:224-227 | table creation and the ledger read change no rows; if either fails, the run fails with no migration applied |
| RunnerFacts.RunSucceeds | crates/core-db/src/migrations.rs:242-263 | after a successful run, applied plus skipped is the input length, the ledger holds every input pair, and the number applied is the number of input pairs that had no row |
| RunnerFacts.RunOnlyInserts | crates/core-db/src/migrations.rs:163-188 | a run never updates or deletes a ledger row, and each new row carries the name and checksum of an input migration |
| RunnerFacts.RunAgainAppliesNothing | crates/core-db/src/migrations.rs:222-277 | running the same input again after a success, in any module order and under any database answers, applies nothing and leaves the ledger unchanged |
| RunnerFacts.SkipIffPresent | crates/core-db/src/migrations.rs:249-258 | a migration whose pair has a row is only counted as skipped and no SQL is sent; without a row, its SQL is the next statement; stored names and checksums are not compared |
| RunnerFacts.FailedSqlLeavesNoRow | crates/core-db/src/migrations.rs:202-209 | a failed SQL ends the run with no row for its pair |
| RunnerFacts.RepeatSkipped | crates/core-db/src/migrations.rs:249-257 | a pair that repeats later in the same input is skipped |
| RunnerFacts.WalkAllPresent | crates/core-db/src/migrations.rs:249-257 | when every visited pair already has a row, the walk applies nothing and the ledger is unchanged |
| Grouping.GroupBy | crates/core-db/src/migrations.rs:234-240 | the push loop builds, for each module, its migrations in input order |
| Grouping.ConcatPermutation | crates/core-db/src/migrations.rs:245-264 | concatenating the groups in an order that lists each module once gives a permutation of the input |
| Grouping.FilterOfConcat | crates/core-db/src/migrations.rs:245-248 | within the concatenation, a module's items appear in their input order |
| UserMigrations.ListContents | crates/modules/users/src/repositories/migration.rs:34-41 | the list has exactly one entry: module "users", version 1, name "create_users_table" |
| UserMigrations.VersionsDistinct | crates/modules/users/src/repositories/migration.rs:70-80 | the versions in the list are pairwise distinct |
| UserMigrations.SqlCreatesTable | crates/modules/users/src/repositories/migration.rs:62-68 | every SQL body is non-empty and contains "CREATE TABLE" |
| UserMigrations.SqlEnds | crates/modules/users/src/repositories/migration.rs:4-32 | the SQL starts and ends with a line break, so both checksum codes are 10 |
| Server.Dispatch | apps/server/src/main.rs:26-54 | with no argument the server starts; otherwise the first argument selects the command |
| Server.DispatchAliases | apps/server/src/main.rs:28-50 | each alias selects its command, and nothing else does: serve/server/http, cli/demo, migrate, migrate:status/migration:status, migrate:list/migration:list |
| Server.ExitResult | apps/server/src/main.rs:45-49 | an unknown command succeeds after printing the usage; any other command returns its subcommand's result |
| Server.FlattenAppend | apps/server/src/main.rs:114-123 | flattening module lists is order-preserving concatenation |
| Server.AllMigrationsIsUsers | apps/server/src/main.rs:114-123 | the aggregated list is the users module's list, with the single module "users" |
| Server.FirstLine | apps/server/src/main.rs:357 | a prefix of the SQL with no line break, ended by a line break or by the end |
| Server.PreviewBound | apps/server/src/main.rs:357-364 | a preview that does not panic is a piece of the trimmed first line of at most 60 bytes |
| Server.AsciiPreview | apps/server/src/main.rs:357-364 | on ASCII SQL the preview never panics; it is the trimmed first line, or its first 60 characters when that is longer |
| Server.UsersPreviewIsEmpty | apps/server/src/main.rs:357 | the users migration's SQL begins with a line break, so its preview is empty |
| Server.GroupsInOrder | apps/server/src/main.rs:292-297 | one group per module in map order, each holding that module's items in input order |
| Server.GroupsPartition | apps/server/src/main.rs:292-297 | every item lands in exactly one group, the one of its module, and the group sizes sum to the number of items |
| Server.CollectGroups | apps/server/src/main.rs:342-347 | the grouping loop yields exactly the groups in map order |
| Server.ShowMigrationStatus | apps/server/src/main.rs:283-318 | a fetch error is passed on; an empty status list reports that none are applied; otherwise the count and the groups by module |
| Server.ListMigrations | apps/server/src/main.rs:336-367 | an empty list reports that none are found; otherwise the count and the groups by module |
| Server.ListOfThisRepository | apps/server/src/main.rs:328-367 | listing this repository's migrations gives one group, users, with its one migration and an empty preview |
| BaseRepository.DuplicateKeyError | src/adapters/base_repository/mod.rs:122-124 | the application copy rejects a present key with `ValidationError("Entity with this ID already exists")`; the workspace copy returns `AlreadyExists` with the nil id |
| BaseRepository.MissingKeyError | src/adapters/base_repository/mod.rs:141-143 | the application copy rejects an absent key with `ValidationError("Entity not found")`; the workspace copy returns `NotFound` with the nil id |
| BaseRepository.ValuesIn | crates/adapters/baserepository/src/lib.rs:58-61 | one value per listed key, in that order |
| BaseRepository.ValuesOfAll | crates/adapters/baserepository/src/lib.rs:58-61 | `values()` gives as many values as keys, and exactly the stored values |
| BaseRepository.InMemoryBaseRepository.constructor | crates/adapters/baserepository/src/lib.rs:36-40 | `new` and `Default` give fresh, empty storage |
| BaseRepository.InMemoryBaseRepository.Clone | crates/adapters/baserepository/src/lib.rs:98-102 | a clone is a second handle on the same storage |
| BaseRepository.InMemoryBaseRepository.Insert | crates/adapters/baserepository/src/lib.rs:42-51 | a present key is rejected with the store unchanged; otherwise exactly `id ↦ entity` is added |
| BaseRepository.InMemoryBaseRepository.Get | crates/adapters/baserepository/src/lib.rs:53-56 | `Some(v)` exactly when the store maps the key to `v` |
| BaseRepository.InMemoryBaseRepository.GetAll | crates/adapters/baserepository/src/lib.rs:58-61 | exactly one value per key, in the map's order |
| BaseRepository.InMemoryBaseRepository.UpdateEntity | crates/adapters/baserepository/src/lib.rs:63-70 | an absent key is rejected with the store unchanged; otherwise only that key's value is replaced and the entity returned |
| BaseRepository.InMemoryBaseRepository.Remove | crates/adapters/baserepository/src/lib.rs:72-75 | true exactly when the key was present; afterwards it is absent and no other key changes |
| BaseRepository.InMemoryBaseRepository.Contains | crates/adapters/baserepository/src/lib.rs:77-80 | true exactly when the key is present, in agreement with `get` |
| BaseRepository.InMemoryBaseRepository.CountAll | crates/adapters/baserepository/src/lib.rs:82-85 | the number of keys |
| BaseRepository.InMemoryBaseRepository.Clear | crates/adapters/baserepository/src/lib.rs:87-90 | the store is empty afterwards |
| BaseRepository.InsertThroughClone | crates/adapters/baserepository/src/lib.rs:93-102 | an insert through a clone is seen through the original |
| UserEntity.NewUser | src/internal/modules/users/domain/entities/user.rs:19-30 | copies the given fields and sets both timestamps to the same `now` |
| UserEntity.Validate | src/internal/modules/users/domain/entities/user.rs:33-49 | `Ok` exactly when none of the four rules is broken; otherwise the first broken rule's text, in the order username, email, full name, age |
| UserEntity.EmailRule | src/internal/modules/users/domain/entities/user.rs:37-39 | an email is rejected exactly when it has no '@' (an empty email included) |
| UserDto.UpdateMatchesCreate | crates/modules/users/src/delivery/http/dto/mod.rs:4-32 | an update that sets every field of a valid create request is valid |
| UserDto.EmptyUpdateValid | crates/modules/users/src/delivery/http/dto/mod.rs:19-32 | an update with no fields is valid, since each bound applies only to a present field |
| UserDto.Success | crates/modules/users/src/delivery/http/dto/mod.rs:59-65 | success is true, the data is present and there is no message |
| UserDto.Failure | crates/modules/users/src/delivery/http/dto/mod.rs:67-73 | success is false, there is no data and the message is present |
| UserRepository.TakenError | crates/modules/users/src/repositories/repository.rs:29-51 | the two rejections: "Username '{u}' is already taken" and "Email '{e}' is already taken" |
| UserRepository.SaveOutcome | crates/modules/users/src/repositories/repository.rs:64-72 | validation fails first; then a taken username, then a taken email, then a present key, each leaving the store unchanged; otherwise exactly the user is added under its id |
| UserRepository.SaveKeepsInvariants | crates/modules/users/src/repositories/repository.rs:64-72 | `save` keeps usernames and emails unique and every user stored under its own id |
| UserRepository.UpdateOutcome | crates/modules/users/src/repositories/repository.rs:74-81 | succeeds exactly when the entity is valid, no user other than those whose id field is the updated id holds its username or email, and the id is stored; validation fails first, then a taken username, then a taken email, then a missing key, each leaving the store unchanged; otherwise exactly that key's value is replaced |
| UserRepository.UpdateKeepsInvariants | crates/modules/users/src/repositories/repository.rs:74-81 | an update whose entity carries the updated id keeps usernames and emails unique and users keyed by id |
| UserRepository.UpdateAgreesWhenKeyed | crates/modules/users/src/repositories/repository.rs:29-51 | in a store where every user sits under its own id, excluding by id field equals excluding by storage key |
| UserRepository.UpdateByKeyKeepsUnique | crates/modules/users/src/repositories/repository.rs:74-80 | an update that excludes by storage key keeps usernames and emails unique in every store |
| UserRepository.UpdateBreaksUniqueness | crates/modules/users/src/repositories/repository.rs:74-80 | two `update` calls, each accepted, leave two users with the same username |
| UserRepository.FindFirst | crates/modules/users/src/repositories/repository.rs:98-106 | a user with exactly that field value, the first in scan order, or `None` exactly when there is none |
| UserRepository.FindUnique | crates/modules/users/src/repositories/repository.rs:98-106 | in a store with unique fields, the lookup finds the one holder of the value whatever the scan order |
| UserRepository.AgeFilter | crates/modules/users/src/repositories/repository.rs:108-118 | exactly the users with an age in `[min, max]`; users with no age are excluded |
| UserRepository.Patch | crates/modules/users/src/repositories/repository.rs:131-142 | each given field is overwritten and the others are kept; an age can be set but never cleared |
| UserRepository.UpdateUserKeepsInvariants | crates/modules/users/src/repositories/repository.rs:125-145 | `update_user` keeps usernames and emails unique and users keyed by id |
| UserRepository.InMemoryUserRepository.constructor | crates/modules/users/src/repositories/repository.rs:16-20 | a repository over fresh, empty storage |
| UserRepository.InMemoryUserRepository.WithData | crates/modules/users/src/repositories/repository.rs:22-27 | the given users are discarded and the repository starts empty |
| UserRepository.InMemoryUserRepository.CheckDuplicate | crates/modules/users/src/repositories/repository.rs:29-51 | the loop returns the spec check: an error exactly when another user, beside the excluded id, holds the value |
| UserRepository.InMemoryUserRepository.FindById | crates/modules/users/src/repositories/repository.rs:56-58 | the stored user under the id, or `None` when it is absent |
| UserRepository.InMemoryUserRepository.FindAll | crates/modules/users/src/repositories/repository.rs:60-62 | one user per key, in map order |
| UserRepository.InMemoryUserRepository.Save | crates/modules/users/src/repositories/repository.rs:64-72 | the new store and the result are those of the `save` spec |
| UserRepository.InMemoryUserRepository.Update | crates/modules/users/src/repositories/repository.rs:74-81 | the new store and the result are those of the `update` spec |
| UserRepository.InMemoryUserRepository.Delete | crates/modules/users/src/repositories/repository.rs:83-85 | true exactly when the id was stored; the id is absent afterwards |
| UserRepository.InMemoryUserRepository.Exists | crates/modules/users/src/repositories/repository.rs:87-89 | true exactly when the id is stored |
| UserRepository.InMemoryUserRepository.Count | crates/modules/users/src/repositories/repository.rs:91-93 | the number of stored users |
| UserRepository.InMemoryUserRepository.FindBy | crates/modules/users/src/repositories/repository.rs:98-106 | `find_by_username` / `find_by_email`: the first match in scan order |
| UserRepository.InMemoryUserRepository.FindByAgeRange | crates/modules/users/src/repositories/repository.rs:108-118 | the inclusive age filter over the users in map order |
| UserRepository.InMemoryUserRepository.CreateUser | crates/modules/users/src/repositories/repository.rs:120-123 | builds the user with `User::new` and saves it |
| UserRepository.InMemoryUserRepository.UpdateUser | crates/modules/users/src/repositories/repository.rs:125-145 | `NotFound(id)` for an absent id; otherwise the patched user goes through `update` |
| UserService.FindFindsHeld | crates/modules/users/src/service/service.rs:26-39 | the lookup by username or email finds a user exactly when some stored user holds the value, whatever the scan order |
| UserService.InUseError | crates/modules/users/src/service/service.rs:27-38 | "Username '{u}' is already taken"; for an email the service's own text is "Email '{e}' is already registered" |
| UserService.CreateOutcome | crates/modules/users/src/service/service.rs:24-43 | a taken username is reported first, then a taken email; a rejected create leaves the store unchanged and an accepted one adds exactly the new user |
| UserService.CreateReportsRegistered | crates/modules/users/src/service/service.rs:33-42 | a create never returns the repository's "already taken" text for an email |
| UserService.CreateKeepsInvariants | crates/modules/users/src/service/service.rs:24-43 | `create_user` keeps usernames and emails unique and users keyed by id |
| UserService.UpdateServiceKeepsInvariants | crates/modules/users/src/service/service.rs:59-92 | `update_user` keeps usernames and emails unique and users keyed by id |
| UserService.UpdateServiceOutcome | crates/modules/users/src/service/service.rs:59-92 | a missing id is `NotFound(id)` before any other check and changes nothing; every rejected update changes nothing |
| UserService.UpdateWithOwnValues | crates/modules/users/src/service/service.rs:67-89 | resubmitting a user's own username and email passes the availability checks |
| UserService.Ages | crates/modules/users/src/service/service.rs:141 | exactly the ages that are present, no more values than users |
| UserService.StatisticsCounts | crates/modules/users/src/service/service.rs:137-155 | in any scan order, `total_users` is the number of users and `users_with_age` the number that have an age |
| UserService.UserService.constructor | crates/modules/users/src/service/service.rs:19-21 | the service over the given repository |
| UserService.UserService.CreateUser | crates/modules/users/src/service/service.rs:24-43 | the new store and the result are those of the create spec |
| UserService.UserService.GetUser | crates/modules/users/src/service/service.rs:46-51 | the stored user, or `NotFound(id)` |
| UserService.UserService.GetAllUsers | crates/modules/users/src/service/service.rs:54-56 | every stored user, in map order |
| UserService.UserService.UpdateUser | crates/modules/users/src/service/service.rs:59-92 | the new store and the result are those of the update spec |
| UserService.UserService.CheckAvailable | crates/modules/users/src/service/service.rs:67-89 | rejects exactly a given value that differs from the current one and that some stored user holds |
| UserService.UserService.DeleteUser | crates/modules/users/src/service/service.rs:95-103 | `NotFound(id)` with the store unchanged for a missing id; otherwise `Ok(true)` and just that user is removed |
| UserService.UserService.FindByUsername | crates/modules/users/src/service/service.rs:106-108 | a stored user with exactly that username, found exactly when one exists |
| UserService.UserService.FindByEmail | crates/modules/users/src/service/service.rs:111-113 | a stored user with exactly that email, found exactly when one exists |
| UserService.UserService.GetUsersByAgeRange | crates/modules/users/src/service/service.rs:116-129 | `min > max` is a validation error before the repository is asked; otherwise the inclusive age filter |
| UserService.UserService.GetUserCount | crates/modules/users/src/service/service.rs:132-134 | the number of stored users |
| UserService.UserService.GetStatistics | crates/modules/users/src/service/service.rs:137-156 | the total count and the count of users with an age |
| UserHandler.Detail | crates/modules/users/src/delivery/http/handler.rs:72-113 | the two id errors carry no text; every other error carries its message |
| UserHandler.IntoResponse | crates/modules/users/src/delivery/http/handler.rs:70-122 | status and body per error: 404, 409, 400 "Validation failed", 500 twice, 401, 403, 400 "Bad request"; the message in a one-element details list except for the id errors |
| UserHandler.ResponseClasses | crates/modules/users/src/delivery/http/handler.rs:72-113 | every status is in 400..599; 500 exactly for database and internal errors; details present exactly when the error carries text |
| UserHandler.ResponseInjective | crates/modules/users/src/delivery/http/handler.rs:72-113 | two errors with the same response are the same error |
| UserHandler.FromUser | crates/modules/users/src/delivery/http/handler.rs:42-54 | the id as hyphenated text, the four user fields unchanged, both times through the RFC 3339 formatter |
| UserHandler.ListOf | crates/modules/users/src/delivery/http/handler.rs:141-151 | one response per user, in order, and their count |
| UserHandler.Created | crates/modules/users/src/delivery/http/handler.rs:131-134 | a successful create answers 201 with the user's response |
| UserHandler.AgeRangeGuard | crates/modules/users/src/delivery/http/handler.rs:218-225 | passes exactly when both bounds are in [1, 150] and `min <= max`; the query rules fail first, then the order check |
| UserHandler.AgeRangeGuardShieldsService | crates/modules/users/src/delivery/http/handler.rs:218-227 | a query the guard passes never meets the service's `min > max` rejection; a rejected one is answered 400 |
| UserHandler.UsernameAnswer | crates/modules/users/src/delivery/http/handler.rs:198-211 | the query rule first; then a missing user is a validation error, not `NotFound`; a found user is a success |
| UserHandler.UnknownUsernameIs400 | crates/modules/users/src/delivery/http/handler.rs:203-211 | an unknown username is answered 400 "Validation failed", never 404 |
| Errors.UuidText | crates/pkg/src/errors.rs:7-11 | the hyphenated text: 36 characters with dashes at 8, 13, 18 and 23 |
| Errors.UuidTextInjective | crates/pkg/src/errors.rs:7-11 | different UUIDs have different texts |
| Errors.DisplayShape | crates/pkg/src/errors.rs:6-30 | each variant's text: "Entity with ID {id} not found" / "... already exists", and the prefixes "Validation error: ", "Database error: ", "Internal error: ", "Unauthorized: ", "Forbidden: ", "Bad request: " |
| Errors.DisplayInjective | crates/pkg/src/errors.rs:6-30 | two errors with the same text are the same error |
| Errors.FromString | crates/pkg/src/errors.rs:35-39 | a string becomes a validation error that displays as "Validation error: " and the string |
| Errors.FromValidationErrors | crates/pkg/src/errors.rs:41-45 | the validator's errors become the validation error of their rendered text |
| StringUtils.ToSnakeCase | crates/pkg/src/utils/string_utils.rs:2-20 | the loop computes the snake-case spec, with '_' before an uppercase character that is neither first nor after another uppercase one |
| StringUtils.SnakeFacts | crates/pkg/src/utils/string_utils.rs:6-16 | the result has no uppercase letter, and without its '_' it is the input lowered without its '_' |
| StringUtils.SnakeIdempotent | crates/pkg/src/utils/string_utils.rs:2-20 | converting twice is converting once |
| StringUtils.SnakeOfPascal | crates/pkg/src/utils/string_utils.rs:58 | "HelloWorld" gives "hello_world" |
| StringUtils.SnakeOfCamel | crates/pkg/src/utils/string_utils.rs:59 | "helloWorld" gives "hello_world" |
| StringUtils.ToCamelCase | crates/pkg/src/utils/string_utils.rs:23-41 | the loop computes the camel-case spec: separators dropped, the character after one uppercased, the first one lowered |
| StringUtils.CamelFacts | crates/pkg/src/utils/string_utils.rs:27-37 | the result holds no '_' or '-', and lowered it is the input lowered without its separators |
| StringUtils.CamelIdempotent | crates/pkg/src/utils/string_utils.rs:23-41 | on input that does not start with a separator, converting twice is converting once |
| StringUtils.LeadingSeparatorRaises | crates/pkg/src/utils/string_utils.rs:28-33 | a leading separator uppercases the first letter, "_ab" gives "Ab", and converting again gives "ab" |
| StringUtils.CamelExamples | crates/pkg/src/utils/string_utils.rs:64-65 | "hello_world" and "hello-world" both give "helloWorld" |
| StringUtils.Truncate | crates/pkg/src/utils/string_utils.rs:44-50 | text of at most `max_len` bytes is kept; longer text is its first `max_len - 3` bytes (saturating) and "..." |
| StringUtils.TruncateAscii | crates/pkg/src/utils/string_utils.rs:47-49 | on ASCII text it never panics, and a cut result is `max(max_len, 3)` bytes long |
| StringUtils.TruncateShort | crates/pkg/src/utils/string_utils.rs:70 | ("hello", 10) gives "hello" |
| StringUtils.TruncateLong | crates/pkg/src/utils/string_utils.rs:71 | ("hello world", 8) gives "hello..." |
| StringUtils.SaturatingSub | crates/pkg/src/utils/string_utils.rs:48 | the difference, or 0 when it would be negative |
| Validation.EmailScanMatchesPattern | crates/pkg/src/utils/validation.rs:4-11 | the scan accepts exactly the strings of the pattern `^[a-zA-Z0-9._%+-]+@[a-zA-Z0-9.-]+\.[a-zA-Z]{2,}$` |
| Validation.EmailOfParts | crates/pkg/src/utils/validation.rs:4-11 | every local part, '@', domain, '.' and alphabetic top-level domain of two or more letters matches |
| Validation.EmailExample | crates/pkg/src/utils/validation.rs:38 | "test@example.com" is valid |
| Validation.TaggedEmailExample | crates/pkg/src/utils/validation.rs:39 | "user.name+tag@example.co.uk" is valid |
| Validation.NoAtNoEmail | crates/pkg/src/utils/validation.rs:9-11 | a string with no '@' is never valid |
| Validation.NoAtExample | crates/pkg/src/utils/validation.rs:40 | "invalid.email" is not valid |
| Validation.EmptyLocalExample | crates/pkg/src/utils/validation.rs:41 | "@example.com" is not valid |
| Validation.UsernameIsAscii | crates/pkg/src/utils/validation.rs:14-17 | a valid username is ASCII and 3 to 20 characters long |
| Validation.AsciiUsername | crates/pkg/src/utils/validation.rs:14-17 | every ASCII string of 3 to 20 letters, digits and '_' is valid |
| Validation.UsernameExample | crates/pkg/src/utils/validation.rs:46 | "user123" is valid |
| Validation.UnderscoreUsernameExample | crates/pkg/src/utils/validation.rs:47 | "test_user" is valid |
| Validation.ShortUsernameExample | crates/pkg/src/utils/validation.rs:48 | "ab" is not valid |
| Validation.AtUsernameExample | crates/pkg/src/utils/validation.rs:49 | "user@name" is not valid |
| Validation.IsStrongPassword | crates/pkg/src/utils/validation.rs:20-30 | strong exactly when at least 8 bytes long with an uppercase letter, a lowercase letter and a digit; shorter is never strong |
| Validation.PasswordExample | crates/pkg/src/utils/validation.rs:54 | "Password123" is strong |
| Validation.LowerPasswordExample | crates/pkg/src/utils/validation.rs:55 | "password" is not strong |
| Validation.UpperPasswordExample | crates/pkg/src/utils/validation.rs:56 | "PASSWORD" is not strong |
| Validation.ShortPasswordExample | crates/pkg/src/utils/validation.rs:57 | "Pass12" is not strong |
| SharedUtils.ValidateEmail | src/internal/shared/utils.rs:15-25 | empty is "Email cannot be empty"; otherwise `Ok` exactly when the pattern matches, else "Invalid email format" |
| SharedUtils.ValidateUsername | src/internal/shared/utils.rs:28-41 | empty is "Username cannot be empty"; otherwise `Ok` exactly when 3 to 50 characters of `[a-zA-Z0-9_]` |
| SharedUtils.UsernameRulesNest | src/internal/shared/utils.rs:10-12 | a username the workspace rule (3 to 20) accepts is accepted here too |
| SharedUtils.ValidateLength | src/internal/shared/utils.rs:44-58 | an error exactly when the byte length is below `min` or above `max`, with the field's message |
| SharedUtils.ValidateNotEmpty | src/internal/shared/utils.rs:61-66 | an error exactly when the trimmed value is empty |
| SharedUtils.ValidatePositive | src/internal/shared/utils.rs:69-74 | an error exactly when the value is at most 0 |
| SharedUtils.ValidateRange | src/internal/shared/utils.rs:77-90 | an error exactly when the value is outside `[min, max]` |
| SharedUtils.PositiveIsRange | src/internal/shared/utils.rs:69-90 | positivity and the range check from 1 accept the same values |
| SharedUtils.Truncate | src/internal/shared/utils.rs:96-102 | text of at most `max_len` bytes is kept; longer text is its first `max_len` bytes and "..." |
| SharedUtils.TruncateAscii | src/internal/shared/utils.rs:96-102 | on ASCII text it never panics, and a cut result is `max_len + 3` bytes long |
| SharedUtils.Sanitize | src/internal/shared/utils.rs:105-109 | exactly the letters, digits, whitespace, '_' and '-' of the input, in order |
| SharedUtils.SanitizeAppend | src/internal/shared/utils.rs:105-109 | sanitizing a concatenation concatenates the sanitized parts |
| SharedUtils.SanitizeKeepsClean | src/internal/shared/utils.rs:105-109 | a string of kept characters is unchanged |
| SharedUtils.SanitizeIdempotent | src/internal/shared/utils.rs:105-109 | sanitizing twice is sanitizing once |
| SharedUtils.SlugChar | src/internal/shared/utils.rs:115 | a letter or digit is lowered; everything else becomes '-' |
| SharedUtils.SlugChars | src/internal/shared/utils.rs:113-116 | one slug character per input character |
| SharedUtils.Split | src/internal/shared/utils.rs:117 | the pieces between separators, none holding a separator |
| SharedUtils.SplitJoin | src/internal/shared/utils.rs:117-120 | joining the split pieces with the separator gives the text back |
| SharedUtils.NonEmpty | src/internal/shared/utils.rs:118 | exactly the non-empty pieces |
| SharedUtils.JoinWords | src/internal/shared/utils.rs:120 | joining non-empty lowercase words with '-' is well formed |
| SharedUtils.SlugIsWellFormed | src/internal/shared/utils.rs:112-121 | a slug holds only lowercase letters, digits and '-', never at either end and never two in a row |
| SharedUtils.TotalPages | src/internal/shared/utils.rs:157-162 | 0 for page size 0; otherwise the least page count that holds all items, or the `u32` maximum when one page fewer than that maximum cannot hold them |
| SharedUtils.CalculateOffset | src/internal/shared/utils.rs:165-170 | page 0 gives 0; otherwise `(page - 1) * page_size`, which panics when it overflows `u32` |
| SharedUtils.ValidatePage | src/internal/shared/utils.rs:173-184 | an error for page 0, and for a page beyond a non-zero page count; `Ok` otherwise |
| SharedUtils.OffsetWithinTotal | src/internal/shared/utils.rs:165-184 | for a page that `validate_page` accepts, the offset does not overflow and starts inside the collection |
| BaseDtos.NewPagination | src/internal/shared/base_dtos.rs:35-37 | the request holds the given page and page size |
| BaseDtos.Offset | src/internal/shared/base_dtos.rs:39-41 | `(page - 1) * page_size` with no guard: page 0 panics, and any other page agrees with `calculate_offset` |
| BaseDtos.Limit | src/internal/shared/base_dtos.rs:43-45 | the page size |
| BaseDtos.DefaultReadsFirstPage | src/internal/shared/base_dtos.rs:25-32 | the default request (page 1, size 20) has offset 0 and limit 20 |
| BaseDtos.PagesTile | src/internal/shared/base_dtos.rs:39-45 | page `p + 1` starts where page `p` ends |
| BaseDtos.PageZeroPanics | src/internal/shared/base_dtos.rs:39-41 | a client's page 0 makes `offset()` underflow |
| BaseDtos.GuardedOffset | src/internal/shared/base_dtos.rs:39-41 | with the page-0 guard of `calculate_offset`, page 0 reads from the start and other pages are unchanged |
| BaseDtos.GuardedOffsetWithinTotal | src/internal/shared/base_dtos.rs:39-41 | the guarded offset of page 0, or of a page that `validate_page` accepts, never panics and starts inside the collection; page 0 starts at 0 |
| BaseDtos.NewPaginationResponse | src/internal/shared/base_dtos.rs:59-73 | the fields are copied and the page count is that of `calculate_total_pages` |
| BaseDtos.TotalPagesIsCeiling | src/internal/shared/base_dtos.rs:59-73 | for a total that fits in `u32`, the page count is the least number of pages that holds every item |
| BaseDtos.ZeroPageSizeNoPages | src/internal/shared/base_dtos.rs:59-73 | page size 0 gives 0 pages |
| BaseDtos.Success | src/internal/shared/base_dtos.rs:109-127 | success is true, the data is present, there is no error, and the time is the one given |
| BaseDtos.Failure | src/internal/shared/base_dtos.rs:109-127 | success is false, there is no data, the error is present, and the time is the one given |
| BaseDtos.EnvelopesWellFormed | src/internal/shared/base_dtos.rs:109-127 | each envelope carries exactly one of data and error, and `success` says which |
| BaseDtos.EntityIdText | src/internal/shared/base_dtos.rs:144-166 | the display text is the 36-character UUID text |
| BaseDtos.EntityIdRoundTrip | src/internal/shared/base_dtos.rs:144-166 | wrapping and unwrapping are inverse, and the display text tells ids apart |
| ModuleRegistry.LastNamed | src/internal/composition/module_registry.rs:22-24 | the last module of that name in registration order, or `None` when there is none |
| ModuleRegistry.RegisteredLookup | src/internal/composition/module_registry.rs:17-24 | a name is registered exactly when a module of that name was, and it maps to the last such module |
| ModuleRegistry.RegisteredCount | src/internal/composition/module_registry.rs:30-32 | the registered names are the names of the modules registered |
| ModuleRegistry.ModuleRegistry.constructor | src/internal/composition/module_registry.rs:11-15 | a new registry is empty |
| ModuleRegistry.ModuleRegistry.Register | src/internal/composition/module_registry.rs:17-20 | stores the module under its name, replacing an earlier one; other names are unchanged and the count grows only for a new name |
| ModuleRegistry.ModuleRegistry.Get | src/internal/composition/module_registry.rs:22-24 | the last module registered under the name |
| ModuleRegistry.ModuleRegistry.List | src/internal/composition/module_registry.rs:26-28 | one module per registered name, and exactly the registered modules |
| ModuleRegistry.ModuleRegistry.Count | src/internal/composition/module_registry.rs:30-32 | the number of distinct names registered |
| PostgresUow.BeginStep | crates/adapters/postgres/src/uow.rs:27-48 | with a transaction open, "Transaction already started" and no change; otherwise a pool failure is a database error and stays closed, and success opens it |
| PostgresUow.EndStep | crates/adapters/postgres/src/uow.rs:50-74 | afterwards no transaction is open, whatever the outcome; with none open, "No active transaction to commit/rollback" |
| PostgresUow.BeginOpens | crates/adapters/postgres/src/uow.rs:27-47 | `begin` succeeds exactly when it opens a transaction where there was none, and never replaces an open one |
| PostgresUow.Bracketed | crates/adapters/postgres/src/uow.rs:27-74 | over any calls, each transaction opened has been closed once, except the one open now |
| PostgresUow.PostgresUnitOfWork.constructor | crates/adapters/postgres/src/uow.rs:12-18 | a new unit has no open transaction |
| PostgresUow.PostgresUnitOfWork.CurrentTransaction | crates/adapters/postgres/src/uow.rs:20-22 | the open transaction, if any |
| PostgresUow.PostgresUnitOfWork.Begin | crates/adapters/postgres/src/uow.rs:27-48 | the new state and the result are those of the begin step |
| PostgresUow.PostgresUnitOfWork.Commit | crates/adapters/postgres/src/uow.rs:50-61 | the new state and the result are those of the end step for commit |
| PostgresUow.PostgresUnitOfWork.Rollback | crates/adapters/postgres/src/uow.rs:63-74 | the new state and the result are those of the end step for rollback |
| MongoUow.BeginStep | crates/adapters/mongo/src/uow.rs:26-50 | with a session held, "Transaction already started"; a session failure stores none; once a session starts it is stored, whatever `start_transaction` answers |
| MongoUow.EndStep | crates/adapters/mongo/src/uow.rs:52-78 | afterwards no session is held, whatever the outcome; with none held, "No active transaction to commit/rollback" |
| MongoUow.FailedStartStaysActive | crates/adapters/mongo/src/uow.rs:39-46 | a failed `start_transaction` reports a database error, and yet the unit keeps the session |
| MongoUow.HeldSessionBlocksBegin | crates/adapters/mongo/src/uow.rs:27-31 | while a session is held every `begin` fails; after a commit or rollback `begin` succeeds exactly when both client calls do |
| MongoUow.Bracketed | crates/adapters/mongo/src/uow.rs:26-78 | over any calls, each session stored has been taken out once, except the one held now |
| MongoUow.MongoUnitOfWork.constructor | crates/adapters/mongo/src/uow.rs:12-17 | a new unit holds no session |
| MongoUow.MongoUnitOfWork.CurrentSession | crates/adapters/mongo/src/uow.rs:19-21 | the held session, if any |
| MongoUow.MongoUnitOfWork.Begin | crates/adapters/mongo/src/uow.rs:26-50 | the new state and the result are those of the begin step |
| MongoUow.MongoUnitOfWork.Commit | crates/adapters/mongo/src/uow.rs:52-64 | the new state and the result are those of the end step for commit |
| MongoUow.MongoUnitOfWork.Rollback | crates/adapters/mongo/src/uow.rs:66-78 | the new state and the result are those of the end step for rollback |

The application's copies of the user repository
(src/internal/modules/users/repositories/repository.rs) and the base
repository (src/adapters/base_repository/mod.rs) have the same structure
as the workspace copies. They are modelled by the same members with
`Copy` set to `Application`:

- duplicate checks: repository.rs:33-56;
- `save`: repository.rs:70-81;
- `update`: repository.rs:83-93;
- finders: repository.rs:111-131;
- `update_user`: repository.rs:138-158;
- base repository operations: mod.rs:114-179.

## Left out

- **Database I/O.** SQL text, sqlx, the pool and the DDL are absent. The
  runner's database is an oracle of per-statement answers over an abstract
  ledger, and execution time is the oracle's millisecond count.
- **The migration log.** The `applied` map that `run_migrations` preloads is
  used only for a log line. The model reads the ledger but does not keep the
  map. Tracing and logging are not modelled.
- **Concurrency.** async/await, `RwLock` and `Arc` are left out. Every
  operation is sequential, and sharing is modelled by the clones' common
  storage object.
- **The clock and UUID generation.** These are inputs. The RFC 3339
  formatter is a function parameter of `UserHandler.FromUser`.
- **External email and error rendering.** The `validator` crate's email rule
  is a function parameter of the DTO rules. The text the validator renders
  for its errors is a parameter of `Errors.FromValidationErrors` and of the
  handler guards.
- **Floating point.** `average_age` is not modelled.
- Runner.OrderedStatuses: the order of `ORDER BY module, version` follows
  the database's collation; the model orders module names by code point,
  which is PostgreSQL's "C" collation, and other collations may order them
  differently.
- Runner.MigrationRunner.GetStatus: returns the ledger in the same
  code-point order as Runner.OrderedStatuses, so it too assumes the "C"
  collation.
- SharedUtils.TotalPages: the f64 `ceil` is modelled as integer ceiling
  division, and the `as u32` cast as saturation at the `u32` maximum.
- **Type-level detail.** `EntityId<T>`'s phantom type parameter only
  matters at compile time, so it is not modelled.
- **Service delegation.** The `IUserService` methods
  (crates/modules/users/src/service/service.rs:159-200) delegate unchanged to
  the inherent methods. Those methods are modelled; the delegation is not.
- **HTTP and other wrappers.** Axum routing, JSON, `health_check` and the
  handler bodies beyond the guards and conversions are left out. So are
  environment configuration, `PostgresBaseRepository` and the other driver
  wrappers.
- **The duplicate error enum.** The application's copy
  (src/pkg/errors/mod.rs) has fewer variants and is covered by the one
  `RepositoryError` datatype.
- **Arithmetic overflow.** Overflow is modelled as a panic, the debug-build
  behaviour (`BaseDtos.Offset`, `SharedUtils.CalculateOffset`). Release
  builds would wrap instead.
- **Unicode classification.** Letters, digits and case are classified as
  ASCII only; Unicode case mapping and `is_alphanumeric` on non-ASCII
  characters are not modelled. Byte lengths are exact UTF-8 lengths. The
  members this affects follow.
- StringUtils.ToSnakeCase: treats only ASCII letters as upper- or
  lowercase; Rust's Unicode `to_lowercase` is not modelled.
- StringUtils.ToCamelCase: uppercases and lowercases ASCII letters only.
- Validation.IsValidUsername: classifies alphanumerics as ASCII, where
  Rust's `is_alphanumeric` also accepts other scripts.
- Validation.IsStrongPassword: counts ASCII upper, lower and digit only.
- SharedUtils.Sanitize: keeps ASCII letters and digits only, where Rust
  keeps every Unicode alphanumeric.
- SharedUtils.ToSlug: lowers and keeps ASCII letters and digits only.
- StringUtils.SnakeFacts: describes the conversion by its pieces (no
  uppercase left, the letters kept in order). The exact position of each
  inserted '_' is stated only by the loop's spec function and the examples.
- StringUtils.CamelFacts: describes the conversion by its pieces (no
  separator left, the letters kept in order). Which letters are uppercased
  is stated only by the loop's spec function and the examples.

## Findings

| source | as written | input that shows it | evidently intended | confidence | as-written member | corrected member |
|---|---|---|---|---|---|---|
| crates/modules/users/src/repositories/repository.rs:74-80 | `update(id, entity)` stores `entity` under `id` without checking that `entity.id == id`. The duplicate checks then exclude the stored user whose `id` field equals the updated id, not the user stored under that key | store {1 ↦ (id 1, "a"), 2 ↦ (id 2, "b")}; `update(1, (id 2, "c"))` is accepted, then `update(2, (id 2, "c"))` is accepted too, leaving two users named "c" | the checks exclude the user stored under the updated key, so usernames and emails stay unique | likely; not executed | UserRepository.UpdateBreaksUniqueness | UserRepository.UpdateByKeyKeepsUnique |
| src/internal/shared/base_dtos.rs:39-41 | `offset()` computes `(page - 1) * page_size` in `u32` with no guard for page 0 | a request deserialised with `page = 0` underflows, which panics in a debug build | page 0 reads from the start, as `calculate_offset` does | likely; not executed | BaseDtos.PageZeroPanics | BaseDtos.GuardedOffsetWithinTotal |

The service path never stores a user under a key other than its own id:
`UserRepository.UpdateUserKeepsInvariants` and
`UserService.UpdateServiceKeepsInvariants` hold. On such stores the
as-written `update` and the corrected one agree, as
`UserRepository.UpdateAgreesWhenKeyed` shows.
