# pg_sqlite_fs, modelled in Dafny

pg_sqlite_fs is a PostgreSQL extension, written in C, that keeps one SQLite
catalogue file per tenant. The file holds a FUSE-style file system: an
`entries` table (the directory tree, with inode 1 as its root), a `files` table
(the per-inode file headers) and, in the newer version, an
`extended_attributes` table. The SQL functions of the extension do the
following:

- create, remove and populate such a file;
- delete rows from it and truncate its tables;
- stream the rows of a PostgreSQL query into it inside one SQLite transaction.

The extension's path checks confine every file to the directory named by the
`sqlite_fs.location` setting.

Two versions of the extension exist, and both are modelled:

- `src/pg.c`, the newer one, is modelled in module `PgFs`;
- `src/pg_sqlite_fs.c`, the legacy one, is modelled in module `LegacyFs`.

The modules are laid out as follows:

- `Wrappers` (`wrappers.dfy`): `Option`, which stands for SQL NULL and for an
  unset setting.
- `Guard` (`guard.dfy`): the check hook of `sqlite_fs.location`, and
  `convert_and_check_path` in both versions.
  - `canonicalize_path` is a parameter, so every property holds whatever it
    does.
- `Engine` (`engine.dfy`): the parts of SQLite and SPI that the extension
  relies on:
  - the schema objects that `CREATE ... IF NOT EXISTS` adds;
  - the few DELETE texts the extension issues;
  - query results with their column types, and cells that read NULL past the
    last column;
  - the generic per-row bind/step loop (`RunRows`), proved against its
    recursive specification `RunFrom`;
  - the upsert fold `Upserts`, with its lemmas (last write wins, idempotence).
- `PgFs` and `LegacyFs`:
  - A store file is a value `Db` (schema objects plus table contents), and the
    disk is a map from paths to stores.
  - The extension is a class whose `location` and `disk` fields change as the
    SQL functions run.
  - Failures of SQLite or SPI calls are an explicit set of `faults`.
  - Each SQL function returns an `Outcome`:
    - `Returned(b)`: the function returns a boolean;
    - `Raised`: it raises an `ERROR`;
    - `Undefined`: the C code dereferences NULL.

## Model

| member | source | states |
|---|---|---|
| Wrappers.Option.GetOr | src/pg.c:372 | a NULL argument reads as the given default and a present one as itself |
| Guard.PrefixIsComponentwise | src/pg.c:85-89 | the prefix test accepts exactly the directory itself and paths under `dir/`, never a sibling that merely shares the name's first characters |
| Guard.SiblingIsNotBelow | src/pg.c:136-140 | `dir` followed by a non-separator character is not inside `dir` |
| Guard.CheckHook | src/pg.c:52-94 | the default is accepted untouched, and any source other than the configuration file is refused; from the file, the value is accepted iff it is non-empty and absolute and its canonical form lies outside the data directory; an accepted value is stored canonicalised |
| Guard.CheckPath | src/pg.c:118-143 | never undefined; accepts iff the canonical path is absolute, a location is set and the location is a prefix of it; an accepted path is the canonical one and is confined to the location |
| Guard.LegacyCheckPath | src/pg_sqlite_fs.c:118-138 | undefined exactly when the canonical path is absolute and no location is set; otherwise the same acceptance as the newer guard, and confined |
| Guard.GuardsAgreeWhenSet | src/pg_sqlite_fs.c:118-138 | with a location set the two guards decide alike; with none, the newer guard refuses and the legacy one refuses relative paths |
| Guard.OutsideIsRefused | src/pg.c:136-140 | a path that neither is the location nor continues it after a separator is refused by both guards |
| Engine.CreateIfNotExists | src/pg.c:183-252 | `CREATE ... IF NOT EXISTS` adds the object or leaves an existing one alone; a unique index fails on existing duplicates |
| Engine.ParseDelete | src/pg.c:638-659 | only the canonical DELETE texts are understood, each as the delete it names |
| Engine.ParseDeleteText | src/pg.c:638-659 | every canonical DELETE text is understood as the delete it was made from |
| Engine.IntAt | src/pg.c:1032-1036 | an integer cell is present iff the result has that cell and it is not NULL |
| Engine.TextAt | src/pg.c:1037-1041 | a text cell is present iff the result has that cell and it is not NULL |
| Engine.BytesAt | src/pg.c:855-858 | a bytea cell is present iff the result has that cell and it is not NULL |
| Engine.BoolAt | src/pg.c:1067-1071 | a boolean cell is present iff the result has that cell and it is not NULL |
| Engine.RunFrom | src/pg.c:825-891 | a loop over no further rows leaves the status and store as they were; a loop that runs any row ends with status 0 (every row applied), one of the failure codes 1, 3 and 6, or a NULL dereference |
| Engine.RunRows | src/pg.c:825-891 | the per-row loop (read fields, bind, step, reset, continue only while the status is 0) computes exactly the status and store of its recursive specification `RunFrom` |
| Engine.RunSplit | src/pg.c:825-891 | once the rows before j have all gone through, the loop goes on from row j with the status and store they left |
| Engine.RunDerefHasCause | src/pg.c:825-891 | a loop ends in a NULL dereference only at a row whose reading detoasts a NULL |
| Engine.Upserts | src/pg.c:348-350 | a sequence of upserts defines exactly the old keys plus the upserted ones |
| Engine.UpsertsOverride | src/pg.c:348-350 | each upserted key ends up holding its last written value, and other keys keep theirs |
| Engine.UpsertsIdempotent | src/pg.c:348-350 | replaying the same upserts on their own result changes nothing |
| Engine.UpsertsLastWins | src/pg.c:348-350 | a row whose key no later row repeats is stored as given |
| Engine.UpsertsUntouched | src/pg.c:348-350 | a key no upsert names keeps its old presence and value |
| PgFs.SeedRoot | src/pg.c:256 | the root insert fails only without an entries table; it adds inode 1 as `/` under itself unless a row exists or the names index rejects it, and touches nothing else |
| PgFs.CreateStep | src/pg.c:183-265 | one DDL step succeeds only when its exec does not fail; a schema step adds exactly its object, the last step seeds the root row, and a step keeps the store well-formed |
| PgFs.CreateFrom | src/pg.c:183-265 | running the DDL script from any step leaves the files and attributes tables untouched and keeps the store well-formed |
| PgFs.CreateSchema | src/pg.c:183-265 | the script only adds objects, and only its own; success means no step failed and every object of the script exists |
| PgFs.CreateRows | src/pg.c:183-265 | a failed script leaves the entries as they were; a successful one keeps every existing entry, adds at most inode 1, ends with the root present or blocked by a sibling clash, and a newly added root is the canonical root row |
| PgFs.CreateAgainChangesNothing | src/pg.c:183-265 | on a store that already holds the schema and the root, the script changes nothing |
| PgFs.CreateIdempotent | src/pg.c:146-274 | running create a second time after a successful one leaves the store as it was |
| PgFs.UpsertEntry | src/pg.c:453-465 | the upsert fails iff the names index exists and another inode has the same parent and name; otherwise the row is replaced and nothing else changes, keeping sibling names unique |
| PgFs.UpsertFile | src/pg.c:348-350 | the files row is inserted or replaced, and every other row and table is unchanged |
| PgFs.DeleteFileRow | src/pg.c:526 | exactly the files row of the inode disappears |
| PgFs.DeleteEntryRows | src/pg.c:574 | exactly the inode and its direct children disappear from entries |
| PgFs.DeleteLeavesGrandchildren | src/pg.c:574 | the delete is shallow: a grandchild survives with a parent that is gone |
| PgFs.DeleteRootRemovesRoot | src/pg.c:574 | deleting inode 1 removes the root and every entry directly under it |
| PgFs.ApplyDelete | src/pg.c:638-659 | a truncation fails iff its table is missing; otherwise it empties files or attributes, or keeps exactly entries with inode at most 1, touching nothing else |
| PgFs.TruncateEntriesKeepsRoot | src/pg.c:642 | truncating entries keeps the root row unchanged and drops every inode above 1 |
| PgFs.EntryOfRow | src/pg.c:1030-1071 | a row is read to the end iff its eight fields are non-NULL, and then it did not detoast a NULL name; it decodes to its own inode, name, parent, ctime, mtime, link count, size and directory flag |
| PgFs.FileOfRow | src/pg.c:836-859 | a row is read to the end iff its inode is present and no NULL mountpoint, relative path, header, prepend or append is detoasted; it decodes to exactly those cells, with a NULL payload size as 0 |
| PgFs.EntriesOf | src/pg.c:1024-1101 | a whole result decodes iff every row decodes, row by row |
| PgFs.FilesOf | src/pg.c:825-891 | a whole result decodes iff every row decodes, row by row |
| PgFs.EntryRunApplied | src/pg.c:1024-1101 | a loop that ends with status 0 decoded every row, had no bind or step fail, and applied exactly the upserts of the rows in order |
| PgFs.FileRunApplied | src/pg.c:825-891 | a loop that ends with status 0 decoded every row, had no bind or step fail, and applied exactly the upserts of the rows in order |
| PgFs.EntryRunWellFormed | src/pg.c:1024-1101 | the entries loop keeps sibling names unique |
| PgFs.FileRunWellFormed | src/pg.c:825-891 | the files loop keeps the store well formed |
| PgFs.LoadEntries | src/pg.c:957-1112 | a batch that commits keeps the store well-formed; its status is `RunFrom`'s once the checks pass, and EntriesCommitted, EntryRowDecides, EntryDerefHasCause and QueryErrorRaises say which status arises when |
| PgFs.EntriesCommitted | src/pg.c:957-1112 | a commit needs the prepare, the connection, a SELECT with 9 columns whose first 8 types match, a non-empty result and every row to decode, bind and step; the committed store is the rows upserted in order |
| PgFs.LoadFiles | src/pg.c:761-902 | a batch that commits keeps the store well-formed; FilesNeverCommit, FirstFileRowDecides, FileDerefHasCause and QueryErrorRaises say which status arises when |
| PgFs.QueryErrorRaises | src/pg.c:957-1000 | a bulk load escapes with an ERROR exactly when it gets past the prepare and `SPI_connect` and the query then fails inside `SPI_execute` |
| PgFs.FilesCommitted | src/pg.c:761-902 | a commit needs a 4-column SELECT whose type checks all pass, at positions 0-6, a non-empty result and every row read to the end, bound and stepped; the committed store is the rows upserted in order (FilesNeverCommit shows no well-typed result gets there) |
| PgFs.EntriesLoadIdempotent | src/pg.c:922-1128 | loading the same query result twice leaves the store as loading it once did |
| PgFs.FilesLoadIdempotent | src/pg.c:727-920 | loading the same query result twice leaves the store as loading it once did |
| PgFs.NullFieldNeverCommits | src/pg.c:1030-1071 | one NULL among the eight fields of any row keeps the batch from committing, so the store stays as it was |
| PgFs.EntryRowDecides | src/pg.c:1024-1101 | once the checks pass and the rows before j go through, a row j with a present inode and a NULL name is a NULL dereference, any other NULL field rolls back with status 1, and a failed bind gives status 6 |
| PgFs.EntryDerefHasCause | src/pg.c:1030-1041 | insert_entries ends in a NULL dereference only on a row whose inode is present and whose name is NULL |
| PgFs.FileDerefHasCause | src/pg.c:836-859 | insert_files ends in a NULL dereference only on a row whose inode is present and whose mountpoint, relative path, header, prepend or append is NULL |
| PgFs.FilesNeverCommit | src/pg.c:810-859 | insert_files never commits a well-typed result: with 4 columns, prepend and append are read past the descriptor |
| PgFs.FirstFileRowDecides | src/pg.c:825-859 | once the checks pass, the first row decides insert_files: a NULL inode rolls back with status 1, and a present one is a NULL dereference |
| PgFs.LoadEntriesLastWins | src/pg.c:1024-1101 | after a commit, a row whose inode no later row repeats is stored as read |
| PgFs.SevenColumnFilesNeverLoad | src/pg.c:810-822 | a 7-column result, the one the type checks describe, is always refused by the 4-column test |
| PgFs.NinthColumnUnchecked | src/pg.c:1009-1022 | the type of the ninth column is never looked at |
| PgFs.EntryRunStep | src/pg.c:1024-1101 | in a run that ends with status 0, row i had its mandatory fields, bound and stepped, and the run continues from the store with that row upserted |
| PgFs.FileRunStep | src/pg.c:825-891 | the same for a files row |
| PgFs.EntriesBatch | src/pg.c:957-1112 | the checks and the loop between BEGIN and the end of the transaction compute exactly `LoadEntries` |
| PgFs.FilesBatch | src/pg.c:761-902 | the checks and the loop between BEGIN and the end of the transaction compute exactly `LoadFiles` |
| PgFs.Extension.constructor | src/pg.c:101-112 | starts with the location unset and the given disk |
| PgFs.Extension.Configure | src/pg.c:52-94 | the setting changes only when the hook accepts, and then to the value the hook left; a value accepted from the file is absolute and outside the data directory |
| PgFs.Extension.Create | src/pg.c:146-274 | NULL or refused paths raise; a failed open returns false; otherwise the store at the canonical path becomes the script's result and the call returns its success |
| PgFs.Extension.Remove | src/pg.c:276-297 | refused paths raise; the file is removed and true returned, or false with nothing changed |
| PgFs.Extension.InsertFile | src/pg.c:299-409 | NULL path or inode raises; with DEBUG1 messages on, a NULL mountpoint or relative path is dereferenced (undefined) once the store is open; otherwise the files row is upserted, with a NULL payload size stored as 0, iff every SQLite step succeeds, and the result says so |
| PgFs.Extension.InsertEntry | src/pg.c:411-506 | NULL path, inode, name or parent raises; otherwise the entry is upserted iff every step succeeds and the names index allows it, and the result says so |
| PgFs.Extension.DeleteFile | src/pg.c:508-554 | a NULL path is dereferenced (undefined); a refused path or a missing store raises; otherwise deletes the row and returns true; a failed prepare or bind returns false, and a failed step returns true with nothing deleted |
| PgFs.Extension.DeleteEntry | src/pg.c:556-607 | a NULL path is undefined; a refused path or a missing store raises; otherwise deletes the inode and its direct children and returns true, or returns false with nothing changed |
| PgFs.Extension.TruncateTable | src/pg.c:609-636 | a NULL path is undefined; a refused path or a missing store raises; otherwise runs the DELETE text and returns whether it went through |
| PgFs.Extension.TruncateEntries | src/pg.c:638-643 | a NULL path is undefined; on success keeps exactly the entries with inode at most 1, unchanged, with schema, files and attributes as they were |
| PgFs.Extension.TruncateFiles | src/pg.c:645-651 | a NULL path is undefined; on success empties files and changes nothing else |
| PgFs.Extension.TruncateAttributes | src/pg.c:653-659 | a NULL path is undefined; on success empties extended_attributes and changes nothing else |
| PgFs.Extension.InsertEntries | src/pg.c:922-1128 | a query that fails inside `SPI_execute` raises, and a row that detoasts a NULL name is undefined, both with the store as opened; otherwise the store ends as `LoadEntries` committed or as it was before BEGIN, and the result is true whenever the COMMIT or ROLLBACK goes through, so failed and empty batches also return true |
| PgFs.Extension.InsertFiles | src/pg.c:727-920 | the same for files: a failing query raises, a row that detoasts a NULL (every row with an inode) is undefined, and otherwise the batch rolls back and the result is true whenever the ROLLBACK goes through |
| LegacyFs.SeedRoot | src/pg_sqlite_fs.c:233 | the root insert fails only without an entries table; it adds inode 1 as `/` unless it exists or the names index rejects it |
| LegacyFs.CreateStep | src/pg_sqlite_fs.c:178-240 | one DDL step succeeds only when its exec does not fail; a schema step adds exactly its object, the last step seeds the root row, and a step keeps the store well-formed |
| LegacyFs.CreateFrom | src/pg_sqlite_fs.c:178-240 | running the four-object script from any step leaves the files table untouched and keeps the store well-formed |
| LegacyFs.CreateSchema | src/pg_sqlite_fs.c:178-240 | the script only adds objects, and only its own; success means no step failed and every object of the script exists |
| LegacyFs.CreateRows | src/pg_sqlite_fs.c:178-240 | a failed script leaves the entries as they were; a successful one keeps every existing entry, adds at most inode 1, ends with the root present or blocked, and a newly added root is the canonical root row |
| LegacyFs.CreateAgainChangesNothing | src/pg_sqlite_fs.c:178-240 | on a store that already holds the schema and the root, the script changes nothing |
| LegacyFs.CreateIdempotent | src/pg_sqlite_fs.c:141-250 | running create a second time after a successful one leaves the store as it was |
| LegacyFs.UpsertEntry | src/pg_sqlite_fs.c:398-410 | the upsert fails iff the names index exists and another inode has the same parent and name; otherwise the row is replaced and nothing else changes |
| LegacyFs.UpsertFile | src/pg_sqlite_fs.c:315-317 | the files row (path, header) is inserted or replaced, and nothing else changes |
| LegacyFs.DeleteFileRow | src/pg_sqlite_fs.c:486 | exactly the files row of the inode disappears |
| LegacyFs.DeleteEntryRows | src/pg_sqlite_fs.c:530 | exactly the inode and its direct children disappear from entries |
| LegacyFs.DeleteLeavesGrandchildren | src/pg_sqlite_fs.c:530 | the delete is shallow: a grandchild survives with a parent that is gone |
| LegacyFs.TruncateSql | src/pg_sqlite_fs.c:582 | the statement text is "DELETE FROM ", then the table, then the where clause, with nothing in between |
| LegacyFs.TruncateFilesText | src/pg_sqlite_fs.c:610-615 | the text truncate_files builds is the statement that empties files |
| LegacyFs.TruncateEntriesTextRejected | src/pg_sqlite_fs.c:603-608 | the text truncate_entries builds lacks the space before WHERE and is not a statement the store runs |
| LegacyFs.ApplyDelete | src/pg_sqlite_fs.c:563-601 | fails iff the table is missing, which it always is for extended attributes; otherwise empties files or keeps entries with inode at most 1 |
| LegacyFs.EveryEntryColumnChecked | src/pg_sqlite_fs.c:942-956 | with nine columns, the type checks fix every column's type |
| LegacyFs.EntryOfRow | src/pg_sqlite_fs.c:958-1024 | a row is read to the end iff all nine fields are non-NULL, and then it did not detoast a NULL name or decrypted size; it decodes to its own inode, name, parent, decrypted size, ctime, mtime, link count, size and directory flag |
| LegacyFs.FileOfRow | src/pg_sqlite_fs.c:774-810 | a row decodes iff its three fields are non-NULL, and then it did not detoast a NULL path or header; it decodes to those fields |
| LegacyFs.BoundRow | src/pg_sqlite_fs.c:1026-1035 | the row the upsert receives has the row's own inode; it is the row as read when its decrypted-size bind succeeds, and has a NULL decrypted size when that bind fails |
| LegacyFs.BoundFrom | src/pg_sqlite_fs.c:958-1044 | the upserts of a batch, in row order, each as the upsert receives it |
| LegacyFs.FilesOf | src/pg_sqlite_fs.c:774-823 | a whole result decodes iff every row decodes, row by row |
| LegacyFs.EntryRunApplied | src/pg_sqlite_fs.c:958-1044 | a loop that ends with status 0 decoded every row, had no bind or step fail, and applied the bound rows in order |
| LegacyFs.EntryRunClean | src/pg_sqlite_fs.c:958-1044 | a loop that ends with status 0 read every row from i on with its mandatory fields, and no bind or step of those rows failed |
| LegacyFs.BoundUpsertsCons | src/pg_sqlite_fs.c:958-1044 | upserting row i as bound and then the remaining bound rows is upserting the bound rows from i on |
| LegacyFs.FileRunApplied | src/pg_sqlite_fs.c:774-823 | a loop that ends with status 0 decoded every row, had no bind or step fail, and applied the rows in order |
| LegacyFs.EntryRunWellFormed | src/pg_sqlite_fs.c:958-1044 | the entries loop keeps sibling names unique |
| LegacyFs.FileRunWellFormed | src/pg_sqlite_fs.c:774-823 | the files loop keeps the store well formed |
| LegacyFs.LoadEntries | src/pg_sqlite_fs.c:889-1055 | a batch that commits keeps the store well-formed; EntriesCommitted, EntryRowDecides, EntryDerefHasCause and QueryErrorRaises say which status arises when |
| LegacyFs.EntriesCommitted | src/pg_sqlite_fs.c:889-1055 | a commit needs a 9-column SELECT of exactly the expected types, a non-empty result and every row to have all nine fields (decrypted size included), bind and step; the committed store is the bound rows upserted in order |
| LegacyFs.LoadFiles | src/pg_sqlite_fs.c:719-834 | a batch that commits keeps the store well-formed; FilesCommitted, FileRowDecides, FileDerefHasCause and QueryErrorRaises say which status arises when |
| LegacyFs.QueryErrorRaises | src/pg_sqlite_fs.c:889-933 | a bulk load escapes with an ERROR exactly when it gets past the prepare and `SPI_connect` and the query then fails inside `SPI_execute` |
| LegacyFs.FilesCommitted | src/pg_sqlite_fs.c:719-834 | a commit needs a 3-column SELECT of the expected types, a non-empty result and every row to decode, bind and step; the committed store is the rows upserted in order |
| LegacyFs.LastBoundWins | src/pg_sqlite_fs.c:958-1044 | after a commit, a row whose inode no later row repeats is stored as the upsert received it, with the decrypted size bound at that point |
| LegacyFs.CommittedRowsAsRead | src/pg_sqlite_fs.c:958-1044 | with its decrypted-size bind succeeding, a row whose inode is not repeated later is stored as read |
| LegacyFs.FailedSizeBindStoresNull | src/pg_sqlite_fs.c:1026-1030 | a failed decrypted-size bind does not stop the batch; a row whose inode is not repeated later is stored with a NULL decrypted size and every other field as read |
| LegacyFs.EntriesLoadIdempotent | src/pg_sqlite_fs.c:853-1071 | loading the same query result twice leaves the store as loading it once did |
| LegacyFs.FilesLoadIdempotent | src/pg_sqlite_fs.c:684-850 | loading the same query result twice leaves the store as loading it once did |
| LegacyFs.NullFieldNeverCommits | src/pg_sqlite_fs.c:958-1024 | one NULL among the nine fields of any row keeps the batch from committing, so the store stays as it was |
| LegacyFs.EntryRowDecides | src/pg_sqlite_fs.c:958-1024 | once the checks pass and the rows before j go through, a row j with a present inode and a NULL name, or a present parent and a NULL decrypted size, is a NULL dereference; any other NULL field rolls back with status 1, and a failed bind gives status 6 |
| LegacyFs.FileRowDecides | src/pg_sqlite_fs.c:774-810 | once the checks pass and the rows before j go through, a row j with a present inode and a NULL path or header is a NULL dereference, a NULL inode rolls back with status 1, and a failed bind gives status 6 |
| LegacyFs.EntryDerefHasCause | src/pg_sqlite_fs.c:966-981 | insert_entries ends in a NULL dereference only on a row that detoasts a NULL name or decrypted size |
| LegacyFs.FileDerefHasCause | src/pg_sqlite_fs.c:786-798 | insert_files ends in a NULL dereference only on a row that detoasts a NULL path or header |
| LegacyFs.EntryRunStep | src/pg_sqlite_fs.c:958-1044 | in a run that ends with status 0, row i decoded, bound and stepped, and the run continues from the store with the row upserted as bound, decrypted size included |
| LegacyFs.FileRunStep | src/pg_sqlite_fs.c:774-823 | the same for a files row |
| LegacyFs.EntriesBatch | src/pg_sqlite_fs.c:889-1055 | the checks and the loop inside the transaction compute exactly `LoadEntries` |
| LegacyFs.FilesBatch | src/pg_sqlite_fs.c:719-834 | the checks and the loop inside the transaction compute exactly `LoadFiles` |
| LegacyFs.Extension.constructor | src/pg_sqlite_fs.c:101-112 | starts with the location unset and the given disk |
| LegacyFs.Extension.Configure | src/pg_sqlite_fs.c:52-94 | the setting changes only when the hook accepts, and then to the canonical value |
| LegacyFs.Extension.Create | src/pg_sqlite_fs.c:141-250 | an absolute path with no location set is undefined, and a refused one raises; otherwise the store becomes the script's result and the call returns its success |
| LegacyFs.Extension.Remove | src/pg_sqlite_fs.c:253-273 | removes the file and returns true, or returns false with nothing changed |
| LegacyFs.Extension.InsertFile | src/pg_sqlite_fs.c:276-353 | any NULL argument raises; otherwise the row is upserted iff every step succeeds, and the result says so |
| LegacyFs.Extension.InsertEntry | src/pg_sqlite_fs.c:356-461 | NULL key arguments raise; a NULL decrypted size is stored as NULL; the entry is upserted iff every step and the names index allow it |
| LegacyFs.Extension.DeleteFile | src/pg_sqlite_fs.c:464-510 | a NULL path, or an absolute one with no location set, is undefined; a refused path or a missing store raises; otherwise deletes the row and returns true; a failed step also returns true, with nothing deleted |
| LegacyFs.Extension.DeleteEntry | src/pg_sqlite_fs.c:512-560 | a NULL path is undefined; otherwise deletes the inode and its direct children, or returns false with nothing changed |
| LegacyFs.Extension.TruncateTable | src/pg_sqlite_fs.c:563-601 | a NULL path is undefined; a failed allocation returns false; otherwise runs the built text and returns whether it went through |
| LegacyFs.Extension.TruncateEntries | src/pg_sqlite_fs.c:603-608 | never changes the store; a NULL path is undefined, and the call returns false whenever it reaches SQLite |
| LegacyFs.Extension.TruncateFiles | src/pg_sqlite_fs.c:610-615 | a NULL path is undefined; on success empties files and changes nothing else |
| LegacyFs.Extension.InsertEntries | src/pg_sqlite_fs.c:853-1071 | a query that fails inside `SPI_execute` raises, and a row that detoasts a NULL name or decrypted size is undefined, both with the store as opened; otherwise the store ends as `LoadEntries` committed or as before BEGIN, and the result is true whenever the transaction ends |
| LegacyFs.Extension.InsertFiles | src/pg_sqlite_fs.c:684-850 | the same for files: a failing query raises, a row that detoasts a NULL path or header is undefined, and otherwise commit or roll back, and true whenever the transaction ends |
| LegacyFs.Extension.TransactEntries | src/pg_sqlite_fs.c:879-1069 | a failed open returns false and leaves the disk alone; a failed BEGIN returns false with the store as opened; a failing query raises, and a NULL dereference is undefined, both with the store as opened; otherwise a failed end of transaction returns false with the store as it was, and a successful one returns true with the store holding the settled `LoadEntries` |
| LegacyFs.Extension.TransactFiles | src/pg_sqlite_fs.c:709-848 | the same for files and `LoadFiles` |
| LegacyFs.Extension.CommitEntries | src/pg_sqlite_fs.c:891-1069 | from inside the open transaction: a failing query raises, and a NULL dereference is undefined, both with nothing written; otherwise a failed COMMIT or ROLLBACK returns false with the store as before BEGIN, and a successful one returns true with the batch committed or rolled back |
| LegacyFs.Extension.CommitFiles | src/pg_sqlite_fs.c:721-848 | the same for files |

## Left out

- `pg_sqlite_fs_exec` is not modelled. It runs arbitrary SQL text in SQLite,
  which this model does not interpret beyond the DELETE texts the extension
  itself issues.
- `_PG_init` and the registration of the setting are not modelled. They are
  PostgreSQL start-up plumbing; the model begins with the setting unset.
- The `PG_NARGS` checks and the reading of `fmgr` arguments are not modelled.
  Arguments that the code tests with `PG_ARGISNULL`, and every path argument,
  arrive as `Option` values (NULL is `None`). A NULL path given to
  `delete_file`, `delete_entry` or a truncate function is dereferenced, and
  the model gives `Undefined` for it.
- PgFs.Extension.DeleteFile, PgFs.Extension.DeleteEntry,
  LegacyFs.Extension.DeleteFile, LegacyFs.Extension.DeleteEntry: the inode is a
  plain integer. The code reads it with `PG_GETARG_INT64` without testing for
  NULL, and what a NULL argument then reads as is outside the code.
- PgFs.Extension.InsertEntry, LegacyFs.Extension.InsertEntry: ctime, mtime,
  nlink, size and is_dir are plain values, for the same reason. They are read
  with `PG_GETARG_INT64` and `PG_GETARG_BOOL` without a NULL test.
- The SQLite engine itself is not modelled. Statements are modelled by their
  effect on table contents:
  - `ON CONFLICT (inode) DO UPDATE` is a map update;
  - foreign keys and `ON DELETE CASCADE` are not enforced (SQLite's default);
  - only the `names` unique index is enforced.
- Engine error codes are collapsed to "this call failed", one member of
  `faults` per call site.
- Logging, `umask`, `pgstat` reporting, memory contexts and `free`/`pfree`
  are left out. The one log message whose arguments can dereference NULL is
  the DEBUG1 message of the newer `insert_file`. It reads the mountpoint and
  the relative path, and `PgFs.Extension.InsertFile` models it with its
  `debug1` parameter. Every other message formats values that are already
  known not to be NULL.
- A NULL Datum that a bulk loader detoasts is undefined behaviour, and the
  model gives `Undefined` with the store as it was opened. What the crash does
  to the open SQLite transaction and its journal is not modelled.
- After a query fails inside `SPI_execute`, the SQLite transaction is left
  open and the handle is never closed, since the ERROR leaves the function
  before the COMMIT or ROLLBACK. The model gives the store as it was opened,
  because nothing was written yet. What later becomes of the open handle and
  its lock is not modelled.
- Which file name the operating system resolves is left out: the path is the
  map key after `canonicalize_path`, a parameter.
- Datum width conversions are left out. A column read with `DatumGetUInt32`,
  a value bound with `sqlite3_bind_int`, and `VARSIZE` lengths are unbounded
  integers and whole strings.
- `text_to_cstring` and `palloc` failures are left out. These raise inside
  PostgreSQL and are not part of the extension's logic.
- PgFs.LoadFiles: the newer `insert_files` checks the types of positions 4 to
  6 on a descriptor that has only 4 columns. What PostgreSQL then reads is
  outside the code, so the outcome of those three checks is a parameter
  (`strayTypesMatch`).

## Notes on the code as written

The model follows the code:

- A bulk load whose rows are rejected is rolled back, and the function still
  returns true: `rc` is reused for the `COMMIT`/`ROLLBACK` status.
- An empty query result leaves `rc` at `SPI_OK_SELECT`, so it also rolls back
  and returns true.
- `delete_file` returns true when its step fails.
- `delete_entry` removes only the inode and its direct children.
- The legacy `insert_file` raises an `ERROR` on a NULL argument; it does not
  return false.
- The legacy `truncate_entries` builds a text with no space before `WHERE`,
  so SQLite rejects it and the call returns false.
- The legacy version has no `extended_attributes` table, so any statement on
  it fails.
- The legacy `insert_entries` discards the result of the decrypted-size bind.
  `sqlite3_bind_text` sets the parameter to NULL before it can fail, so a
  failed bind stores the row with a NULL decrypted size and the batch goes on.
- The newer `insert_entries` requires 9 columns but checks the types of only
  8 of them, and decodes only the first 8.
- The bulk loaders pass text and bytea cells through `DatumGetTextPP` or
  `DatumGetByteaP` before the cell's isnull test, or with none. These detoast
  the value, reading its header, so a NULL cell there is dereferenced:
  - the name in both versions of `insert_entries`;
  - the decrypted size in the legacy one, which has no isnull test before it;
  - mountpoint, relative path and header in the newer `insert_files`;
  - path and header in the legacy one.
- The newer `insert_files` also reads prepend and append at positions 6 and 7
  of a result it requires to have 4 columns. Past the descriptor these are
  NULL Datums, so every row with an inode is dereferenced, and the function
  never commits a row.
