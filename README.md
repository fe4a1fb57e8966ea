# Directory reconciliation over the media store

This project models the database package of a media downloader, `internal/database/crud.go`, and proves properties of the model. The store tracks:

- accounts (`users`) and their earlier names (`user_previous_names`);
- lists (`lsts`);
- the download directories attached to an account (`user_entities`) or to a list (`lst_entities`);
- the links placing an account inside a list directory (`user_links`).

On top of the single-statement CRUD functions sits a reconciliation engine. It decides whether a candidate download directory belongs to a row already tracked for the same account or list. It then does one of four things: returns that row unchanged, moves the row to the candidate directory, inserts a new row, or reports nothing. The evidence it uses is:

- whether a `.user` marker file exists in a directory;
- whether a directory exists;
- a case-insensitive comparison of directory and list names.

Modules, leaves first:

- `Wrappers`: `Option`, `Result` and `Outcome`.
- `Paths`: directory names and the ASCII case fold that stands for both SQLite's `NOCASE` collation and Go's `strings.EqualFold`.
  - `Env` collects what the process and the filesystem report:
    - the working directory;
    - the directories holding a `.user` marker;
    - the paths that exist (a file or a directory).
  - `Abs` models `filepath.Abs` on top of `Env`.
- `Tables`: a table is a sequence of rows in the order the store returns them. This module holds the generic effect of one SQL statement on such a sequence:
  - `db.Get` returns the first matching row;
  - `db.Select` returns every matching row in order;
  - `DELETE` and `UPDATE ... WHERE id=?`;
  - the rowid SQLite assigns.
  
  It also proves when a PRIMARY KEY or UNIQUE constraint survives each statement.
- `Schema`: the six row types, the keys their constraints compare, the constraint predicates, and the INSERT and relocating UPDATE statements of each table.
- `Reconcile`: the four reconciliation functions as functions of the table they read and write. Each returns what the Go function returns together with the table after the call. The engine's properties are proved here as lemmas.
- `Crud`: class `Store`, with one sequence field per table and one method per function of `crud.go`.
  - `Valid()` is the conjunction of every key constraint. Every method preserves it.
  - The four reconciliation methods use the same loops and early returns as the Go code. Each is proved to compute exactly its function in `Reconcile`.
  - The `Get*` accessors are functions that read the store.

Go's nil-able struct results and in-place struct updates are modelled as returned values. The filesystem and the working directory are the `Env` parameter. The clock is the `now` parameter.

## Model

| member | source | states |
|---|---|---|
| Paths.EqualFold | internal/database/crud.go:121 | two names are equal up to case exactly when they have the same length and agree character by character after ASCII lower-casing; this one relation stands for `strings.EqualFold` and the NOCASE collation |
| Paths.FoldIdempotent | internal/database/crud.go:121 | folding a name twice gives the same as folding it once, and every name equals its fold up to case, so the folded form is a canonical representative of the NOCASE class |
| Paths.Abs | internal/database/crud.go:22-26 | an absolute path is kept as it is; a relative one is resolved against the working directory; an error results exactly when the path is relative and the working directory is unknown |
| Tables.FirstIndex | internal/database/crud.go:66-83 | "first row wins": the result is the first index holding the key; no earlier row holds it; none exists exactly when no row holds the key |
| Tables.Lookup | internal/database/crud.go:310-313 | `db.Get` answers a row of the table that has the key, or nil exactly when no row has it |
| Tables.Where | internal/database/crud.go:58-63 | `db.Select` returns a row exactly when it is stored and has the key, never more rows than the table holds, and nothing exactly when no row has the key; its first element is the table's first row with that key |
| Tables.WhereAppend | internal/database/crud.go:58-63 | `db.Select` keeps store order and multiplicity: appending a row extends the selection by that row exactly when it has the key, so with the empty table giving the empty selection the result is determined row by row |
| Tables.DeleteWhere | internal/database/crud.go:223-227 | a DELETE keeps exactly the rows whose key differs |
| Tables.UpdateWhere | internal/database/crud.go:364-368 | an UPDATE keeps the table's length; each row is either untouched or is the changed form of a row with the given id |
| Tables.NextRowId | internal/database/crud.go:259-269 | the id given to a row inserted without one exceeds every id in use: it is 1 in an empty table and otherwise one more than an existing id |
| Tables.FirstIndexOfWhere | internal/database/crud.go:58-83 | searching one owner's selected rows for a key finds that owner's first row with the key in store order |
| Tables.NoneInWhere | internal/database/crud.go:66-86 | a loop over the selected rows that finds no match means no row of that owner in the store matches |
| Tables.DeleteKeepsDistinct | internal/database/crud.go:223-227 | a DELETE keeps every key constraint the table satisfied |
| Tables.UpdateKeepsDistinct | internal/database/crud.go:364-380 | an UPDATE that does not write a key column keeps that key's constraint |
| Schema.InsertRow | internal/database/crud.go:150-208 | an INSERT appends the row exactly when no row holds its primary key or its UNIQUE key; otherwise the table is unchanged; a primary-key error is reported only when some row holds the primary key, and a UNIQUE error only when none does |
| Schema.InsertRowKeepsDistinct | internal/database/crud.go:150-208 | an accepted INSERT keeps both constraints of the table |
| Schema.UpdateRow | internal/database/crud.go:243-247 | an UPDATE that writes a UNIQUE column fails exactly when another row holds the new value; otherwise it has the effect of the plain UPDATE |
| Schema.UpdateRowKeepsDistinct | internal/database/crud.go:243-247 | an accepted UPDATE that keeps the primary key keeps both constraints |
| Schema.LookupAfterUpdate | internal/database/crud.go:350-368 | after an UPDATE by id, a SELECT of that id returns the changed row, or nil if there was none |
| Schema.LookupAfterInsert | internal/database/crud.go:229-241 | after an INSERT with an unused key, a SELECT of that key returns the inserted row |
| Schema.UpdateUserOutcome | internal/database/crud.go:243-247 | overwriting a user fails exactly when another user holds the new screen name; otherwise the table stays valid and reading the id back gives the new user, or nil if there was none |
| Schema.NewUserEntity | internal/database/crud.go:86-90 | the inserted user entity has an id unused in the table, the caller's user, name and directory, and NULL time and count |
| Schema.InsertUserEntity | internal/database/crud.go:187-196 | inserting a user entity fails exactly when its id is taken or a row of the same user holds its directory up to case; otherwise the row is appended |
| Schema.RelocateUserEntity | internal/database/crud.go:72-76 | a relocating UPDATE fails only when another row of the same user holds the target directory; on success only the row with that id changes, and only in directory and, if given, name |
| Schema.InsertUserEntityKeepsValid | internal/database/crud.go:194-195 | an accepted user-entity INSERT keeps the primary key and the (user_id, parent_dir) NOCASE constraint |
| Schema.RelocateUserEntityKeepsValid | internal/database/crud.go:194-195 | in a valid table, a relocation fails exactly when another row of the same user holds the target directory; an accepted one keeps both constraints |
| Schema.RelocatedUserRow | internal/database/crud.go:72-81 | relocating a stored user entity rewrites that one row and no other |
| Schema.NewLstEntity | internal/database/crud.go:136-137 | the inserted list entity has an id unused in the table, with the caller's list, name and directory |
| Schema.InsertLstEntity | internal/database/crud.go:178-185 | inserting a list entity fails exactly when its id is taken or a row of the same list holds its directory up to case; otherwise the row is appended |
| Schema.RelocateLstEntity | internal/database/crud.go:123-127 | a relocating UPDATE on list entities fails only when another row of the same list holds the target directory; on success only the row with that id changes, and only in its directory |
| Schema.RelocatedLstRow | internal/database/crud.go:123-131 | relocating a stored list entity rewrites that one row and no other |
| Schema.InsertLstEntityKeepsValid | internal/database/crud.go:183-184 | an accepted list-entity INSERT keeps the primary key and the (lst_id, parent_dir) NOCASE constraint |
| Schema.RelocateLstEntityKeepsValid | internal/database/crud.go:183-184 | in a valid table, a list relocation fails exactly when another row of the same list holds the target directory; an accepted one keeps both constraints |
| Reconcile.LocateUser | internal/database/crud.go:279-348 | LocateUserEntity fails exactly when the path cannot be made absolute, never inserts or deletes a row, and any entity it reports belongs to the user and sits at the path up to case |
| Reconcile.MoveUserIgnoringError | internal/database/crud.go:299-306 | a locate-path relocation always reports the row at the path whatever the UPDATE did, and can change only the row with that id |
| Reconcile.MatchOrScanUser | internal/database/crud.go:310-347 | after the fast path, the exact match or the marker scan never fails and never changes the row count; a reported entity belongs to the user and sits at the path up to case, and reporting nil leaves the store untouched |
| Reconcile.CreateOrUpdateUser | internal/database/crud.go:20-98 | CreateOrUpdateUserEntityWithPathChange leaves the store unchanged on failure, fails with the working-directory error when the path cannot be made absolute, returns an entity of the caller's user with the caller's name at the absolute path, and adds at most one row |
| Reconcile.MoveUser | internal/database/crud.go:42-53 | a create-path relocation writes directory and name, returns the moved row with its id and user, fails only with the uniqueness error leaving the store unchanged, and touches only the row with that id |
| Reconcile.ScanOrInsertUser | internal/database/crud.go:58-97 | after the fast path, the scan or the insert fails only with the uniqueness error and an unchanged store, and a success is the caller's user and name at the path, with at most one row added |
| Reconcile.InsertUser | internal/database/crud.go:86-97 | the closing INSERT fails exactly when a row of the user holds the path up to case, with the uniqueness error and an unchanged store; a success appends one row whose id no old row has and returns the candidate with that id at the path |
| Reconcile.LocateLst | internal/database/crud.go:457-501 | LocateLstEntity fails exactly when the path cannot be made absolute, never inserts or deletes a row, and any entity it reports belongs to the list and sits at the path up to case |
| Reconcile.CreateOrUpdateLst | internal/database/crud.go:101-148 | CreateOrUpdateLstEntityWithPathChange leaves the store unchanged on failure, fails with the working-directory error when the path cannot be made absolute, returns an entity of the caller's list whose name equals the candidate's up to case at the absolute path, and adds at most one row |
| Reconcile.MoveLst | internal/database/crud.go:123-131 | a list relocation writes only the directory, returns the row with its stored id, list and name, fails only with the uniqueness error leaving the store unchanged, and touches only the row with that id |
| Reconcile.InsertLst | internal/database/crud.go:136-147 | the closing INSERT fails exactly when a row of the list holds the path up to case, with the uniqueness error and an unchanged store; a success appends one row whose id no old row has and returns the candidate with that id at the path |
| Reconcile.Ignoring | internal/database/crud.go:300-301 | a dropped UPDATE error leaves either the updated table or the old one |
| Reconcile.FirstMarked | internal/database/crud.go:324-327 | the scan picks the first entity whose stored directory holds a `.user` marker; there is none exactly when no entity's directory holds one |
| Reconcile.FirstNamed | internal/database/crud.go:118-121 | the scan picks the first list entity whose name equals the candidate's up to case; there is none exactly when no name matches |
| Reconcile.LocateUserFailsOnlyWithoutAbsPath | internal/database/crud.go:279-347 | LocateUserEntity returns an error exactly when the path cannot be made absolute, and then the store is unchanged; no store error ever surfaces |
| Reconcile.LocateUserOnlyMovesReturnedRow | internal/database/crud.go:279-347 | LocateUserEntity never inserts or deletes; the only row it can change is the one it returns, and only in its directory |
| Reconcile.LocateUserKeepsValid | internal/database/crud.go:279-347 | LocateUserEntity keeps the user-entity constraints |
| Reconcile.LocateUserMarkerFastPath | internal/database/crud.go:285-307 | with a marker at the absolute path and at least one row for the user, the first row is returned with its id and the absolute path, whether or not the UPDATE succeeded |
| Reconcile.LocateUserExactMatchIsNoOp | internal/database/crud.go:310-313 | with no marker at the absolute path, a row of the user already at that directory (up to case) is returned unchanged and the store is untouched |
| Reconcile.LocateUserMarkerScan | internal/database/crud.go:285-343 | when the fast path does not apply (no marker at the path, or a marker but no row of the user) and there is no exact match, the user's first row whose stored directory holds a marker is returned moved to the path; if there is none (in particular, a leftover marker with no row of the user), nil is returned and the store is untouched |
| Reconcile.LocateUserReportsStoredRowUnlessHeld | internal/database/crud.go:299-306 | the entity returned by LocateUserEntity is stored in the table, unless another row of the same user already held the returned directory |
| Reconcile.MoveUserIgnoringErrorStores | internal/database/crud.go:333-338 | a locate-path relocation reports a stored row whenever no other row of the user holds the target directory |
| Reconcile.LocateLstFailsOnlyWithoutAbsPath | internal/database/crud.go:457-501 | LocateLstEntity returns an error exactly when the path cannot be made absolute, and then the store is unchanged |
| Reconcile.LocateLstOnlyMovesReturnedRow | internal/database/crud.go:457-501 | LocateLstEntity never inserts or deletes; the only row it can change is the one it returns, and only in its directory |
| Reconcile.LocateLstKeepsValid | internal/database/crud.go:457-501 | LocateLstEntity keeps the list-entity constraints |
| Reconcile.LocateLstExactMatchIsNoOp | internal/database/crud.go:464-467 | a row of the list already at the directory (up to case) is returned unchanged and the store is untouched |
| Reconcile.LocateLstFallbackIgnoresName | internal/database/crud.go:468-497 | with no exact match, if the directory exists, the list's first row is returned moved there whatever its name; otherwise, or if the list has no row, nil is returned and the store is untouched |
| Reconcile.LocateLstReportsStoredRow | internal/database/crud.go:485-491 | every entity LocateLstEntity returns is stored in the table; the UPDATE whose error it drops cannot be refused by the uniqueness constraint |
| Reconcile.CreateOrUpdateUserStoresReturnedEntity | internal/database/crud.go:43-53 | on success the returned entity is at the absolute path and has the caller's user and name, and the stored row with its id holds the same values |
| Reconcile.CreateOrUpdateUserChangesOneRow | internal/database/crud.go:20-98 | the create path never deletes; a failure leaves the store unchanged; a relocation rewrites only the returned row, in directory and name; an insert appends exactly one row with a fresh id, the returned one |
| Reconcile.CreateOrUpdateUserInsertsOnlyWithoutMarker | internal/database/crud.go:84-97 | a row is inserted only when there is no marker at the path or the user has no row, and also no row of the user has a marker in its stored directory |
| Reconcile.CreateOrUpdateUserMarkerFastPath | internal/database/crud.go:30-54 | with a marker at the path, the user's first row is moved there and renamed exactly when no other row of the user holds the directory; otherwise the uniqueness error is returned and the store is unchanged |
| Reconcile.MoveUserOutcome | internal/database/crud.go:43-53 | relocating a stored row on the create path succeeds exactly when no other row of its user holds the target directory; it then reports the row moved and renamed, and on failure the uniqueness error with the store unchanged |
| Reconcile.CreateOrUpdateUserMarkerScan | internal/database/crud.go:65-82 | with no fast path, the user's first row whose stored directory holds a marker is the one moved and renamed, or the uniqueness error is returned with the store unchanged; in a valid table the move succeeds exactly when no other row of the user holds the path up to case |
| Reconcile.CreateOrUpdateUserInsertsUnlessHeld | internal/database/crud.go:28-97 | the create path has no exact-match phase: with no marked row of the user, and a marker at the path only when the user has no row, it succeeds exactly when no row of the user holds the path up to case, and then appends one fresh-id row at the path and returns the candidate with that id; otherwise the uniqueness error is returned and the store is unchanged |
| Reconcile.CreateOrUpdateUserKeepsValid | internal/database/crud.go:20-98 | the create path keeps the user-entity constraints |
| Reconcile.CreateOrUpdateLstRelocatesSameName | internal/database/crud.go:117-131 | the list's first row whose name equals the candidate's up to case is moved to the path with its stored name, and no other row changes; or the uniqueness error is returned and the store is unchanged; the move succeeds exactly when no other row of the list holds the path up to case |
| Reconcile.MoveLstOutcome | internal/database/crud.go:123-131 | relocating a stored row on the list create path succeeds exactly when no other row of its list holds the target directory; it then rewrites that row's directory alone, and on failure returns the uniqueness error with the store unchanged |
| Reconcile.CreateOrUpdateLstInsertsOnlyWithoutName | internal/database/crud.go:133-147 | a row is inserted only when no row of the list has the candidate's name up to case; it is appended with a fresh id and is the entity returned |
| Reconcile.CreateOrUpdateLstStoresReturnedEntity | internal/database/crud.go:101-148 | on success the returned entity is a stored row at the absolute path of the caller's list; on failure the store is unchanged |
| Reconcile.CreateOrUpdateLstInsertsUnlessHeld | internal/database/crud.go:134-147 | with no row of the same name up to case, the call succeeds exactly when no row of the list holds the path up to case, and then appends one fresh-id row at the path and returns the candidate with that id; otherwise the uniqueness error is returned and the store is unchanged |
| Reconcile.CreateOrUpdateLstKeepsValid | internal/database/crud.go:101-148 | the create path keeps the list-entity constraints |
| Reconcile.LocateUserMayReportUnstoredDir | internal/database/crud.go:296-306 | concrete case: user 7 has rows at /a and /b, and /b holds a marker; locating /b answers "row 1 is at /b" while the store still has row 1 at /a |
| Reconcile.MoveUserChecked | internal/database/crud.go:299-306 | corrected fast-path relocation: the UPDATE's uniqueness error is returned with the store unchanged, and a success reports the row with its id at the path, touching only that row |
| Reconcile.LocateUserChecked | internal/database/crud.go:279-348 | corrected LocateUserEntity: fails with the working-directory error when the path cannot be made absolute, leaves the store unchanged on any failure, never changes the row count, and reports only entities of the user at the path up to case |
| Reconcile.LocateUserCheckedReportsStoredRow | internal/database/crud.go:43-47 | with the UPDATE error returned as the create path does, every returned entity is stored, success agrees with LocateUserEntity, and failure leaves the store unchanged |
| Crud.Store.constructor | internal/database/crud.go:213-215 | a freshly created schema has every table empty and every constraint satisfied |
| Crud.Store.CreateUser | internal/database/crud.go:217-221 | the user is appended exactly when its id and screen name are unused, and can then be read back; otherwise the table is unchanged |
| Crud.Store.DelUser | internal/database/crud.go:223-227 | the user with that id is gone and every other user remains |
| Crud.Store.GetUserById | internal/database/crud.go:229-241 | returns a stored user with that id, or nil exactly when there is none |
| Crud.Store.UpdateUser | internal/database/crud.go:243-247 | every column of the user with that id is overwritten, unless another user holds the new screen name, in which case the uniqueness error is returned and the table is unchanged |
| Crud.Store.RecordUserPreviousName | internal/database/crud.go:514-518 | the history only grows: exactly one row is appended, with a fresh id, the given names and the current time |
| Crud.Store.CreateUserEntity | internal/database/crud.go:249-271 | the entity is appended at its absolute directory with a fresh id exactly when no row of the user holds that directory up to case; the returned entity carries the new id and path and can be read back |
| Crud.Store.DelUserEntity | internal/database/crud.go:273-277 | the row with that id is gone and every other row remains |
| Crud.Store.GetUserEntity | internal/database/crud.go:350-362 | returns a stored user entity with that id, or nil exactly when there is none |
| Crud.Store.UpdateUserEntity | internal/database/crud.go:364-368 | only name, latest release time and media count of the row with that id change; reading it back shows the new values |
| Crud.Store.UpdateUserEntityMediCount | internal/database/crud.go:370-374 | only the media count of the row with that id changes |
| Crud.Store.UpdateUserEntityTweetStat | internal/database/crud.go:376-380 | only the latest release time and media count of the row with that id change |
| Crud.Store.SetUserEntityLatestReleaseTime | internal/database/crud.go:508-512 | only the latest release time of the row with that id changes |
| Crud.Store.ExecRelocateUserEntity | internal/database/crud.go:72-76 | one relocating UPDATE: the table becomes the relocated one, or is unchanged with the error reported |
| Crud.Store.MoveUserEntityIgnoringError | internal/database/crud.go:299-306 | the locate path's relocation has exactly the effect of Reconcile.MoveUserIgnoringError: the error is dropped and the row is reported at the new directory |
| Crud.Store.MoveUserEntity | internal/database/crud.go:42-53 | the create path's relocation has exactly the effect of Reconcile.MoveUser: directory and name written together, error returned |
| Crud.Store.InsertNewUserEntity | internal/database/crud.go:86-97 | the create path's INSERT has exactly the effect of Reconcile.InsertUser: a fresh row at the directory, reported with its new id |
| Crud.Store.MatchOrScanUserEntity | internal/database/crud.go:310-347 | the exact-match query and the loop over the user's rows compute exactly Reconcile.MatchOrScanUser |
| Crud.Store.ScanOrInsertUserEntity | internal/database/crud.go:58-97 | the loop over the user's rows and the final insert compute exactly Reconcile.ScanOrInsertUser |
| Crud.Store.LocateUserEntity | internal/database/crud.go:279-348 | through its helpers' loops over the user's rows (MatchOrScanUserEntity) computes exactly the result and the new table of Reconcile.LocateUser, and keeps every constraint |
| Crud.Store.CreateOrUpdateUserEntityWithPathChange | internal/database/crud.go:20-98 | through its helpers' loops over the user's rows (ScanOrInsertUserEntity) computes exactly the result and the new table of Reconcile.CreateOrUpdateUser, and keeps every constraint |
| Crud.Store.CreateLst | internal/database/crud.go:382-386 | the list is appended exactly when its id is unused, and can then be read back; otherwise the table is unchanged |
| Crud.Store.DelLst | internal/database/crud.go:388-392 | the list with that id is gone and every other list remains |
| Crud.Store.GetLst | internal/database/crud.go:394-406 | returns a stored list with that id, or nil exactly when there is none |
| Crud.Store.UpdateLst | internal/database/crud.go:408-412 | only the name of the list with that id changes |
| Crud.Store.CreateLstEntity | internal/database/crud.go:414-435 | the entity is appended at its absolute directory, with its own id when set and a fresh id otherwise, exactly when the id is unused and no row of the list holds the directory up to case |
| Crud.Store.DelLstEntity | internal/database/crud.go:437-441 | the row with that id is gone and every other row remains |
| Crud.Store.GetLstEntity | internal/database/crud.go:443-455 | returns a stored list entity with that id, or nil exactly when there is none |
| Crud.Store.UpdateLstEntity | internal/database/crud.go:502-506 | only the name of the list entity with that id changes; its directory is kept |
| Crud.Store.ExecRelocateLstEntity | internal/database/crud.go:123-127 | one relocating UPDATE on list entities: the table becomes the relocated one, or is unchanged with the error reported |
| Crud.Store.MoveLstEntity | internal/database/crud.go:123-131 | the list create path's relocation has exactly the effect of Reconcile.MoveLst: only the directory is written, error returned |
| Crud.Store.InsertNewLstEntity | internal/database/crud.go:136-147 | the list create path's INSERT has exactly the effect of Reconcile.InsertLst: a fresh row at the directory, reported with its new id |
| Crud.Store.LocateLstEntity | internal/database/crud.go:457-501 | the loop over the list's rows computes exactly the result and the new table of Reconcile.LocateLst, and keeps every constraint |
| Crud.Store.CreateOrUpdateLstEntityWithPathChange | internal/database/crud.go:101-148 | the loop over the list's rows computes exactly the result and the new table of Reconcile.CreateOrUpdateLst, and keeps every constraint |
| Crud.Store.CreateUserLink | internal/database/crud.go:520-534 | the link is appended with a fresh id exactly when the user has no link under that list entity, and can then be found by (user, list entity); otherwise the uniqueness error is returned and the table is unchanged |
| Crud.Store.DelUserLink | internal/database/crud.go:536-540 | the link with that id is gone and every other link remains |
| Crud.Store.GetUserLinks | internal/database/crud.go:542-547 | returns exactly the stored links of the user |
| Crud.Store.GetUserLink | internal/database/crud.go:549-561 | returns a stored link of that user under that list entity, or nil exactly when there is none |
| Crud.Store.UpdateUserLink | internal/database/crud.go:563-567 | only the name of the link with that id changes |

## Left out

- Paths.Abs: `filepath.Clean` is not applied, so `.` and `..` elements and repeated separators are kept. Only the absolute/relative decision and the join with the working directory are modelled.
- Case-insensitive comparison is one ASCII fold. That is SQLite's `NOCASE`. Go's `strings.EqualFold` also folds non-ASCII letters, which the model does not.
- The order of rows returned by `db.Select` without `ORDER BY` is taken to be the table's sequence order. New rows are appended and updates keep a row's place. The order SQLite actually uses (rowid or an index) is not modelled, so "first row" means the first row in that sequence.
- Store errors are limited to PRIMARY KEY and UNIQUE violations. Failures of the connection, of `db.Select`, `db.Get` and `LastInsertId`, and errors returned by `GetUserLinks` are not modelled.
- Foreign keys are not enforced, as in SQLite's default configuration. `DelUser`, `DelLstEntity` and the inserts do not check or cascade references.
- Integer widths of ids and counts (`uint64`, `uint32`, `int32`, `NullInt32`) are unbounded integers; wrap-around of the Go conversions is not modelled.
- The `.user` marker test (`os.Stat` of `<dir>/.user`) is membership of the directory in `Env.markers`. The existence test on the list path is membership in `Env.existing`, which holds files as well as directories. Any `os.Stat` error counts as absence, as in the code.
- The `fmt.Printf` notices, the unused `rootPath` parameter, and the SQL text and `sqlx` struct mapping have no modelled effect. `CreateTables` is modelled only as the empty store its schema describes.
- `time.Now()` is the `now` parameter, and timestamps are opaque integers.
- Crud.Store.CreateUserEntity: the Go function writes the absolute path into the caller's struct before the INSERT, so the caller keeps it even when the INSERT fails. The model returns the entity only on success. The same holds for `CreateLstEntity` and both create paths.
- Concurrent callers and the race between the read and the write of each reconciliation are outside this sequential model.
- The user create path rewrites both `parent_dir` and `name` when it relocates a row (crud.go:73 and crud.go:44). The model follows the code rather than a directory-only relocation.

## Findings

| source | as written | input that shows it | evidently intended | confidence | as-written member | corrected member |
|---|---|---|---|---|---|---|
| internal/database/crud.go:299-306 | the marker fast path of LocateUserEntity discards the UPDATE's error and returns the first row at the absolute path regardless | user 7 has rows 1 at `/a` and 2 at `/b`; `/b/.user` exists; `LocateUserEntity(7, "/b")` moves row 1 to `/b`, the UNIQUE (user_id, parent_dir) constraint refuses, and row 1 is returned at `/b` although the store still holds it at `/a` | the returned entity is the stored row; the UPDATE error is returned as the create path does at crud.go:43-47 | not executed | Reconcile.LocateUserMayReportUnstoredDir | Reconcile.LocateUserCheckedReportsStoredRow |

The same dropped error occurs on the marker scan (crud.go:334) and in LocateLstEntity (crud.go:487). Neither can be refused by the uniqueness constraint: both run only after the exact-match query found no row of the owner at the target directory. `Reconcile.LocateUserReportsStoredRowUnlessHeld` and `Reconcile.LocateLstReportsStoredRow` prove this. `Crud.Store.LocateUserEntity` keeps the as-written behaviour, because it models the program. `Reconcile.LocateUserChecked` is the corrected definition.
