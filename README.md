# Pallet tracking: a Dafny model of the server, the maintenance scripts and the log buffer

This project models the core of the pallet tracking system. Its centre is one SQLite
table, `pallets`, keyed by `local_id`. The model covers:

- the five pallet handlers of `backend/server.js`: sync, list, return, delete and update;
- the one-day cleanup script `backend/cleanup_today.js`;
- the one-day import script `backend/import_data.js`: the date filter, the delete of
  that day, the Fisher–Yates shuffle of record indices, the choice of up to five
  records that get a temperature, the `HH:MM` entry time, and the `INSERT OR REPLACE`
  of every record;
- the bounded dashboard log of `pi-manager/server.js` (`addLog` and the `logs` array).

How the model is built:

- **The table.** The table is a sequence of rows in storage (rowid) order, held by
  the class `Database.Db`. Its invariant is the primary-key constraint (`UniqueIds`).
- **SQL statements.** Each statement is a pure function on the sequence.
  `INSERT OR IGNORE` drops a row whose key is already present. `INSERT OR REPLACE`
  deletes the row holding the key and then appends the new one, as SQLite does.
  `DELETE ... WHERE` is a filter. `UPDATE ... WHERE` rewrites matching rows in place.
  SQL NULL is `None`.
- **Handlers and scripts.** Each handler or script that writes is a method that
  changes `db.rows`. Its postcondition ties the new table to those functions. Lemmas
  beside each one state what the change means: which rows are kept, which are
  written, which change and in which fields, and how the counts behave. The list
  handler only reads, so it is a function of the rows.
- **Inputs from outside.** Whatever depends on the world becomes a parameter:
  - the driver's per-statement error in a sync batch;
  - `Math.random` draws and the `toFixed(1)` temperature strings of the import;
  - the time-of-day string of `addLog`.
- **JavaScript `||`.** The defaults follow JavaScript truthiness: `Truthy`, `OrText`
  and `OrNumber`.

Behaviour of the code that is easy to mistake, which the model follows:

- **Return is not FIFO.** The candidate query of `POST /api/return` has no
  `ORDER BY`, so the returned pallets are *any* `count` in-stock pallets of that firm
  and type. The model leaves that choice open (`ReturnPallets` picks *some* subset of
  the right size) instead of the oldest ones.
- **Return changes only status.** It sets `status` alone; `note` is not touched.
- **Sync is insert-or-ignore.** It uses `INSERT OR IGNORE`, not a replacing upsert.
  A resubmitted `local_id` leaves the stored row as it was and still counts as
  inserted.
- **Sync has no required fields.** Its only row-level condition comes from the table's
  NOT NULL columns. A missing `firm_name` or `pallet_type` makes OR IGNORE skip the
  row silently, and the item still counts as a success. `entry_date` may be NULL.
- **Update is not partial.** `PUT /api/pallets/:id` writes all five columns. An
  absent `box_count`, `vehicle_plate` or `note` becomes NULL, and an absent
  `firm_name` or `pallet_type` makes the statement fail.
- **The import window ends at 07:47.** The minute count of the import is
  `405 + nextInt(63)`, i.e. 06:45 to 07:47 inclusive. The comment beside it says
  07:48, which is the exclusive bound.

## Model

| member | source | states |
|---|---|---|
| Text.LexLeq | backend/server.js:91 | SQLite's BINARY comparison of TEXT values behind `ORDER BY entry_date DESC`, a character-by-character order in which a proper prefix comes first; it is a total order, stated by `Text.LexLeqTotal`, `Text.LexLeqTransitive`, `Text.LexLeqReflexive` and `Text.LexLeqAntisymmetric` |
| Text.LexLeqTotal | backend/server.js:91 | any two TEXT values are comparable under the BINARY collation |
| Text.LexLeqTransitive | backend/server.js:91 | the TEXT order is transitive |
| Text.LexLeqReflexive | backend/server.js:91 | the TEXT order is reflexive |
| Text.LexLeqAntisymmetric | backend/server.js:91 | two values that sort both ways are equal |
| Text.DigitChar | backend/import_data.js:80 | the character for a digit is a decimal digit that reads back as that digit |
| Text.NatToString | backend/import_data.js:80 | `toString` of a natural is a non-empty string of decimal digits without leading zeros: "0" for 0, a non-zero first digit otherwise |
| Text.NatToStringValue | backend/import_data.js:80 | reading the digits of `toString(n)` back gives `n` |
| Text.PadStart2 | backend/import_data.js:80 | `padStart(2, '0')` has length max(2, len), ends with the input and is '0' before it |
| Text.TwoDigits | backend/import_data.js:80 | for a value below 100 the padded string is two digits reading back as that value |
| Text.FormatTime | backend/import_data.js:78-80 | the `HH:MM` string of a minute count: hours and minutes, each `padStart(2, '0')` of its `toString`, joined by ':'; its properties are stated by `Text.FormatTimeRoundTrip` and `Import.EntryTimeBounds` |
| Text.FormatTimeRoundTrip | backend/import_data.js:77-80 | below 100 hours the clock string is well-formed `HH:MM` (two digits, ':', two digits for minutes below 60), and parsing it gives the minute count back |
| Text.ParseTimeInjective | backend/import_data.js:80 | two well-formed `HH:MM` strings with the same reading are equal, so a clock string is fixed by its minute count |
| Text.DigitPair | backend/import_data.js:80 | two digits denote a number below 100 in one way only |
| Database.UniqueIds | backend/database.js:17 | the `local_id TEXT PRIMARY KEY` constraint: no two stored rows share a key; stated by `Database.SameIdSameRow` and kept by `Database.Db.constructor` and every writing method |
| Database.SameIdSameRow | backend/database.js:17 | under the primary key, a row is determined by its `local_id` |
| Database.SameKeysPointwise | backend/server.js:132 | an in-place rewrite that keeps keys keeps the key set and the key constraint |
| Database.Filter | backend/import_data.js:53 | a filter keeps exactly the elements satisfying the predicate and never grows |
| Database.FilterConcat | backend/import_data.js:53 | filtering a concatenation is the concatenation of the filtered parts, in order |
| Database.FilterAll | backend/cleanup_today.js:11 | a filter every element passes returns its input unchanged |
| Database.FilterUnique | backend/cleanup_today.js:11 | deleting rows keeps the primary-key constraint |
| Database.DeleteById | backend/server.js:147 | `DELETE ... WHERE local_id = ?` removes exactly the row with that key, one row when it exists, nothing otherwise |
| Database.DeleteByIdFacts | backend/server.js:147-149 | the delete keeps the key constraint, removes one row for a stored key, and is the identity for an absent key |
| Database.DeleteOneCount | backend/server.js:149 | deleting a stored key under the primary key removes exactly one row (`this.changes` is 1) |
| Database.DeleteByEntryDate | backend/cleanup_today.js:11 | `DELETE ... WHERE entry_date = ?` keeps exactly the rows with another (or NULL) date, keeping the key constraint |
| Database.InsertOrIgnore | backend/server.js:51 | `INSERT OR IGNORE` leaves the table as it was for a stored key, appends the row otherwise, and keeps the key constraint |
| Database.InsertOrReplace | backend/import_data.js:60 | `INSERT OR REPLACE` ends with the new row, drops the old row with that key, keeps all others and the key constraint |
| Database.InsertOrReplaceKeeps | backend/import_data.js:60 | a stored row with another key survives `INSERT OR REPLACE` |
| Database.Db.constructor | backend/database.js:16-28 | a table opened on rows with unique keys satisfies the primary-key invariant |
| Server.Items | backend/server.js:42 | `Array.isArray(data) ? data : [data]`: a single object is a one-item batch; used by `Server.Sync` |
| Server.OrNumber | backend/server.js:61 | the `box_count` default of the sync statement: a missing or zero count becomes 0; stated by `Server.SyncRowDefaults` |
| Database.Truthy | backend/server.js:62-65 | JavaScript truthiness of an optional string: present and not ""; stated by `Server.SyncRowDefaults` |
| Database.OrText | backend/server.js:62-65 | JavaScript's or-default for a string property: the value when truthy, the default otherwise; stated by `Server.SyncRowDefaults` and `Import.RowWritten` |
| Server.SyncRow | backend/server.js:56-66 | a row is bound exactly when both NOT NULL columns are present; it has the item's key and `is_synced` 1 |
| Server.SyncRowDefaults | backend/server.js:61-66 | falsy `box_count`, `vehicle_plate`, `note`, `status` become 0, '', '', IN_STOCK; truthy ones are stored as sent; the other columns are NULL |
| Server.SyncStep | backend/server.js:57-74 | one statement: a driver error writes nothing, a missing NOT NULL column is skipped, otherwise `INSERT OR IGNORE`; stated by `Server.RunInsert` |
| Server.SyncTable | backend/server.js:56-75 | the table after the statements of the batch in order; stated by `Server.SyncKeepsRows`, `Server.SyncIds` and `Server.SyncStoresItem` |
| Server.SuccessCount | backend/server.js:71 | `successCount`: the number of statements without error; stated by `Server.SyncCounts` |
| Server.SyncErrors | backend/server.js:69 | `errors`: one `{id, error}` per failed statement, in item order; stated by `Server.SyncCounts` |
| Server.SyncCounts | backend/server.js:67-73 | every item is counted once: successes plus errors equal the number received |
| Server.SyncKeepsRows | backend/server.js:51 | sync never replaces, reorders or removes a stored row: the old table is a prefix of the new one |
| Server.WrittenIdsSnoc | backend/server.js:56-75 | the keys written by a batch are those of its prefix plus the last item's key when it is written |
| Server.SyncIds | backend/server.js:51-75 | after a sync the keys are the old keys plus those of the written items |
| Server.SyncStoredNoChange | backend/server.js:51-75 | a batch whose written keys are all stored already leaves the table unchanged |
| Server.SyncIdempotent | backend/server.js:51 | posting a batch again leaves the table as the first post left it, whatever the second run's errors, as long as every item that failed the first time fails again; a batch that had no errors can be resent with any outcome |
| Server.SyncStoresItem | backend/server.js:51-75 | a written item whose key is new to the table and to the earlier written items is stored exactly as bound |
| Server.SyncSnoc | backend/server.js:56-75 | one more item is one more step of the table, the success counter and the error list |
| Server.RunInsert | backend/server.js:57-74 | one statement of the batch writes nothing when the driver reports an error and runs `INSERT OR IGNORE` otherwise |
| Server.RunBatch | backend/server.js:56-75 | the `forEach` leaves the table, `successCount` and `errors` equal to the three folds over the batch |
| Server.Sync | backend/server.js:40-87 | an empty batch is a 400 with the table unchanged; otherwise `received` is the batch size and the counters and table are the folds; a single object is a one-item batch |
| Server.EntryDateAtLeast | backend/server.js:91 | DESC order on `entry_date` with NULL last; a total preorder by `Server.EntryDateAtLeastTotal` and `Server.EntryDateAtLeastTransitive` |
| Server.SortedByEntryDateDesc | backend/server.js:91 | every row has a later or equal `entry_date` than each row after it; the promise of `Server.ListPallets` |
| Server.EntryDateAtLeastTotal | backend/server.js:91 | any two `entry_date` values (NULL included) are ordered under DESC |
| Server.EntryDateAtLeastTransitive | backend/server.js:91 | the DESC order on `entry_date` is transitive |
| Server.InsertByEntryDate | backend/server.js:91 | inserting into a sorted list keeps it sorted and adds exactly that row |
| Server.InsertTailSorted | backend/server.js:91 | a row placed after the head of a sorted list keeps it sorted and a permutation |
| Server.InsertHeadSorted | backend/server.js:91 | a row at least as late as the head may go first |
| Server.SortByEntryDateDesc | backend/server.js:91 | the ordering is sorted by `entry_date` descending and a permutation of the table |
| Server.ListPallets | backend/server.js:90-101 | the response holds every row once, latest entry first, and `count` is the number of rows |
| Server.HasReturnParameters | backend/server.js:111 | all three of `firm_name`, `count` and `pallet_type` are truthy; the 400 case of `Server.ReturnPallets` |
| Server.InStockOf | backend/server.js:116 | the `WHERE` clause of the candidate query; stated by `Server.PickedRowsInStock` |
| Server.AvailableIds | backend/server.js:116 | the keys the candidate query can return; stated by `Server.MarkReturnedStock` and `Server.ReturnLeavesOtherStock` |
| Server.MarkReturned | backend/server.js:132 | `UPDATE ... SET status = 'RETURNED' WHERE local_id IN (...)`; stated by `Server.MarkReturnedRows` and `Server.ReturnEffect` |
| Server.CountMatching | backend/server.js:138 | `this.changes` of that update; stated by `Server.CountMatchingKeys` and `Server.ReturnCounts` |
| Server.CountMatchingKeys | backend/server.js:132-138 | under the primary key, `this.changes` of `... WHERE local_id IN (...)` is the number of listed keys that are stored |
| Server.IntersectOneMore | backend/server.js:138 | adding one new key raises the count of listed stored keys by one exactly when that key is listed |
| Server.UniqueTail | backend/database.js:17 | the first key of a keyed table is not among the others, and the rest is keyed |
| Server.ReturnEffect | backend/server.js:116-140 | a return turns exactly the picked rows from IN_STOCK to RETURNED and nothing else; the stock shrinks by the number picked; `returned_count` is that number |
| Server.MarkReturnedRows | backend/server.js:132 | the status update changes only `status`, only on picked rows, and keeps the keys |
| Server.ReturnCounts | backend/server.js:121-138 | the stock left has the count stocked minus the count picked, and the update changes one row per picked key |
| Server.PickedRowsInStock | backend/server.js:116 | every picked key names an IN_STOCK row of the requested firm and type |
| Server.MarkReturnedStock | backend/server.js:116-132 | after the update the in-stock keys of that firm and type are the old ones minus the picked ones |
| Server.ReturnLeavesOtherStock | backend/server.js:132 | a return leaves the stock of every other firm/type pair as it was |
| Server.SubsetOfSize | backend/server.js:116-121 | when the stock has at least `count` keys, `LIMIT count` can return `count` of them |
| Server.ReturnPallets | backend/server.js:105-142 | missing or falsy parameters are a 400; too little stock is a 400 with requested/available and no change; otherwise `count` in-stock pallets of that firm and type become RETURNED and `returned_count` is `count` |
| Server.DeletePallet | backend/server.js:145-152 | the row with that key is removed and the response is success; an unknown key is a 404 with no change |
| Server.UpdateById | backend/server.js:159 | the five-column `UPDATE ... WHERE local_id = ?`; stated by `Server.UpdateEffect` |
| Server.UpdateEffect | backend/server.js:159 | the update writes exactly the five body fields of the keyed row; every other column and every other row stays |
| Server.UpdatePallet | backend/server.js:155-166 | an unknown key is a 404; an absent NOT NULL field on a stored key fails without change; otherwise the row is updated |
| Cleanup.ResetByReturnDate | backend/cleanup_today.js:19-21 | the reset `UPDATE ... WHERE return_date = ?`; stated by `Cleanup.ResetEffect` and `Cleanup.ResetNothing` |
| Cleanup.CleanupTable | backend/cleanup_today.js:9-27 | the delete followed by the reset; stated by `Cleanup.CleanupEffect` and `Cleanup.CleanupIdempotent` |
| Cleanup.ResetEffect | backend/cleanup_today.js:19-23 | rows returned on the date become IN_STOCK with NULL `return_date` and `note`, otherwise unchanged; other rows stay |
| Cleanup.CleanupEffect | backend/cleanup_today.js:9-27 | after the script no row was entered or returned that day; rows entered that day are gone; older rows stay, reset if returned that day |
| Cleanup.CleanupClearsDate | backend/cleanup_today.js:9-27 | no row left by the cleanup carries that date as `entry_date` or `return_date` |
| Cleanup.ResetNothing | backend/cleanup_today.js:19-23 | the reset leaves a table without that `return_date` unchanged |
| Cleanup.CleanupIdempotent | backend/cleanup_today.js:9-27 | running the cleanup twice leaves the same table as once |
| Cleanup.CleanupToday | backend/cleanup_today.js:7-27 | the script runs the delete then the reset for 2026-01-06 and keeps the key constraint |
| Import.Filtered | backend/import_data.js:53 | the filter keeps exactly the records dated 2025-12-23 |
| Import.FilteredInOrder | backend/import_data.js:53 | the filter keeps the records' order |
| Import.Iota | backend/import_data.js:67 | `Array.from` gives the indices 0..n-1 in order |
| Import.Swap | backend/import_data.js:71 | the destructuring swap of two entries; stated by `Import.SwapKeepsPermutation` |
| Import.ShuffleFrom | backend/import_data.js:69-72 | the swaps for i down to 1; stated by `Import.ShuffleFromPermutation` |
| Import.Shuffle | backend/import_data.js:69-72 | `validIndices` after the loop; stated by `Import.ShufflePermutation` and `Import.ShuffledIndices` |
| Import.SwapKeepsPermutation | backend/import_data.js:71 | one swap keeps a permutation of 0..n-1 |
| Import.ShuffleFromPermutation | backend/import_data.js:69-72 | the remaining swaps keep a permutation with the same multiset |
| Import.ShufflePermutation | backend/import_data.js:67-72 | the shuffled indices are a permutation of 0..n-1 |
| Import.ShuffledIndices | backend/import_data.js:67-72 | the in-place loop over the array yields the shuffle of its draws, a permutation of 0..n-1 |
| Import.SelectForTemp | backend/import_data.js:73 | `new Set(validIndices.slice(0, 5))`; stated by `Import.SelectForTempSize` |
| Import.TotalMinutes | backend/import_data.js:77 | `405 + random.nextInt(63)` for a given draw; stated by `Import.EntryTimeWindow` and `Import.EntryTimeBounds` |
| Import.DistinctCard | backend/import_data.js:73 | a sequence without repeats has as many distinct values as entries |
| Import.SelectForTempSize | backend/import_data.js:73 | `selectedForTemp` holds min(5, n) distinct valid indices |
| Import.EntryTimeWindow | backend/import_data.js:77-80 | each minute count is between 405 (06:45) and 467 (07:47); its string is well-formed `HH:MM` with minutes below 60 and reads back as that count |
| Import.NatToStringTwoDigits | backend/import_data.js:80 | `toString` of a two-digit value is its two digits |
| Import.PadOneDigit | backend/import_data.js:80 | a one-digit value is padded with one '0' |
| Import.MorningClock | backend/import_data.js:77-80 | the clock string of a time before 10:00 with two-digit minutes, digit by digit |
| Import.EntryTimeBounds | backend/import_data.js:77 | the smallest draw gives "06:45" and the largest "07:47" |
| Import.ImportRow | backend/import_data.js:89-101 | the row the `INSERT OR REPLACE` binds for a record; stated by `Import.RowWritten` |
| Import.Temperatures | backend/import_data.js:83-87 | one temperature per record |
| Import.EntryTimes | backend/import_data.js:77-80 | one entry time per record |
| Import.ImportRows | backend/import_data.js:89-101 | one written row per filtered record |
| Import.RowWritten | backend/import_data.js:83-101 | a written row carries its record's key, firm, type, count, plate, date and status, `is_synced` 1, no `return_date`; its note is the record's when truthy and '' otherwise; its temperature is the reading when sampled and '' otherwise; its entry time is well-formed `HH:MM` reading back as the drawn minute |
| Import.ImportRowsFacts | backend/import_data.js:83-101 | every written row is built from its record as `RowWritten` states |
| Import.ReplaceAll | backend/import_data.js:75-102 | `INSERT OR REPLACE` of each written row in turn; stated by `Import.ReplaceAllEffect` |
| Import.ImportTable | backend/import_data.js:58-102 | the delete of the day followed by the replace loop; stated by `Import.ImportEffect` |
| Import.IdsSnoc | backend/import_data.js:75-102 | the keys of the written rows grow by the last row's key |
| Import.ReplaceAllOnly | backend/import_data.js:75-102 | the `INSERT OR REPLACE` loop keeps the key constraint and stores only written rows or old rows with unwritten keys |
| Import.ReplaceAllKeeps | backend/import_data.js:75-102 | an old row whose key is not written survives the loop |
| Import.ReplaceAllStores | backend/import_data.js:75-102 | a written row that no later row overwrites is stored as written |
| Import.ReplaceAllLast | backend/import_data.js:89-101 | the last written row is stored |
| Import.ReplaceAllStep | backend/import_data.js:89-101 | a stored written row survives a later row with another key |
| Import.ReplaceAllEffect | backend/import_data.js:75-102 | the loop stores the last occurrence of every written key, keeps old rows with unwritten keys, and nothing else |
| Import.ImportEffect | backend/import_data.js:58-102 | after the script: the last record of each key of that day is stored as written; rows of other days with unwritten keys stay; nothing else is left |
| Import.ImportStep | backend/import_data.js:75-102 | writing record i is one more `INSERT OR REPLACE` on the table left by records before it |
| Import.WriteRecord | backend/import_data.js:75-101 | the callback for record i runs `INSERT OR REPLACE` of that record's row, with its time and temperature |
| Import.WriteRecords | backend/import_data.js:75-102 | the `forEach` writes every record's row in order |
| Import.ImportDay | backend/import_data.js:56-108 | the script filters, deletes that day, shuffles, samples and writes, leaving the import table for those draws |
| PiManager.LogLine | pi-manager/server.js:45 | the entry is '[' + time + '] ' + the message, unchanged |
| PiManager.Window | pi-manager/server.js:46-47 | the window is the last min(k, 50) entries of the history |
| PiManager.Push | pi-manager/server.js:46-47 | `push` then `shift` when over 50; stated by `PiManager.PushFacts` and `PiManager.WindowStep` |
| PiManager.PushFacts | pi-manager/server.js:46-47 | after a push the log has at most 50 entries and ends with the new entry; a full log loses exactly its oldest entry, otherwise it only grows |
| PiManager.WindowStep | pi-manager/server.js:44-48 | a push on the window of a history is the window of the longer history |
| PiManager.Replay | pi-manager/server.js:44-48 | the log after one `addLog` per line from the empty array; stated by `PiManager.ReplayWindow` |
| PiManager.ReplayWindow | pi-manager/server.js:44-48 | after k calls from the empty array the log is exactly the last min(k, 50) entries in insertion order |
| PiManager.LogBuffer.constructor | pi-manager/server.js:18 | the log starts empty |
| PiManager.LogBuffer.AddLog | pi-manager/server.js:44-48 | `addLog` appends the entry, drops the oldest when over 50, ends with the entry and keeps the window invariant |

## Left out

- HTTP transport: Express routing, body parsing, static files, `listen`, and the
  `/api/status` endpoint with its network-interface and uptime calls.
- Storage errors of the list, return, delete and update statements (the 500
  responses). The model has none of them except the NOT NULL failure of the update.
  In a sync batch, the driver's per-statement errors are an input.
- Callback asynchrony, `db.serialize` and the BEGIN/COMMIT transaction. Each
  handler runs as one sequential step.
- Concurrent requests.
- Server.Sync: a sync item always carries a `local_id`. SQLite would accept a NULL
  TEXT primary key, and the model does not cover that.
- Server.ReturnPallets: `count` is a natural number. A negative, fractional or
  string `count` is outside the model, as are other JSON type oddities in the bodies.
- Server.ReturnPallets: which pallets `LIMIT` picks is left open. It is any subset
  of the right size, because the query has no `ORDER BY`.
- Server.SortByEntryDateDesc: fixes one order for rows with equal `entry_date`.
  SQLite leaves that order unspecified. `ListPallets` promises only sortedness and
  permutation.
- The import and the cleanup log to the console and close the database. The cleanup
  only logs an error in either of its statements; the import passes no callback, so
  an error there is not handled. The model treats every statement of both scripts as
  succeeding.
- The JSON dump in the import script: the records are a parameter instead. So are
  the `Math.random` draws and the `toFixed(1)` strings of the temperature readings.
  Floating point is not modelled; a reading is a non-empty string.
- Text.FormatTimeRoundTrip: stated for times below
  100 hours only. The import produces times from 06:45 to 07:47.
- pi-manager timers and sockets: the random CPU temperature, the deploy simulation,
  and the socket.io emit. `AddLog` returns the entry it would emit. The clock
  reading `toLocaleTimeString()` is a parameter.
- The schema bootstrap and migrations of `backend/database.js`. The model takes the
  final column set as given.
- The other scripts: `update_dates.js`, `fix_db.js`, `clear_all_data.js`,
  `clear_db.js` and the inspection and debug scripts.
