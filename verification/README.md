# srrdb: a verified model of its storage engine and wire protocol

srrdb is a small MySQL-compatible database server. These Dafny files model what it keeps — tables of rows under row
ids, secondary indexes, a write-ahead log — and what it says on the wire, and prove that the parts fit together.

The modules follow the program:

- `Prelude`, `Order`, `Types` — bytes, names, values and the total order that B-tree indexes use.
- `Index`, `Storage`, `Catalog` — the three structures that are updated in place, each as a class whose methods are
  proved against functions of its value.
- `Where`, `Like`, `Timestamp`, `OrderBy` — conditions, the backtracking LIKE matcher, Gregorian timestamps, ORDER BY.
- `Maintenance`, `Engine`, `Cells` — what each statement does to definitions, rows, posting lists and log, as functions;
  `Executors` is the executor itself, with its loops, proved equal to them.
- `Statements`, `Schemas` — what each statement does and answers, told from the states before and after it.
- `WalEntries`, `Recovery` — the log's entries and the theorem that replay reproduces every sequential run.
- `Bincode`, `WalBytes`, `Checkpoint` — the bytes: codec round trips, a log cut at any byte, checkpoints.
- `Restart` — the log replayed over the tables that were saved while it was written.
- `Sections`, `Coherence`, `Rebuild`, `Select` — indexes in step with their tables, rebuilt indexes, SELECT through an
  index against SELECT by scan.
- `Concurrency`, `Duplicates`, `Locks` — any number of threads between the critical sections, how often they make a
  SELECT return a row, and any number of threads over the three mutexes.
- `Witnesses` — runs and schedules from the empty engine in which a promise of the program fails.
- `Wire`, `ResultSets`, `Handshake` — packets, result sets and login, server against client.

How the program's parts appear here:

- Text is a sequence of bytes; names are lowercased in ASCII. Integers are unbounded with the program's ranges written
  out (`i64` and `u64` values, `as u32` and `as i64` casts); the id and sequence counters are natural numbers, which the
  codecs require to be below 2^64.
- A float is its bit pattern. Its order (`total_cmp`) is modelled; its arithmetic, its epsilon comparison and the
  rendering of numbers as text are parameters (`Platform`), as are SHA-1, the clock (one reading per INSERT) and the
  order in which hash maps are iterated.
- bincode 1 is written out: little-endian integers, 64-bit lengths, 32-bit variant numbers, trailing bytes allowed.
- A statement that panics on a VALUES row shorter than its table (`row.values[idx]`, line 431 of
  `src/engine/executor.rs`) answers `RowTooShort`; runs of statements are stated for runs without it.

Where the code and its documentation differ, the model follows the code:

- The README of the repository lists AND and OR in WHERE. `eval_where` evaluates their operands with `eval_expr`, which
  knows columns and literals only, and wants a truth value of each, which NULL has not. `Where.AndExact` and
  `Where.OrExact` say exactly when they work; `a = 1 AND b = 2` loses the row (1, 2) (`Witnesses.AndLosesRow`). Composite
  indexes can therefore never help (`Select.CompositeKeySelectsNothing`).
- The README says that indexes are maintained automatically. Three statements break that, and no other does
  (`Coherence.StatementStep`): a CREATE UNIQUE INDEX that meets a duplicate answers an error but leaves its definition in
  the catalog without data (`Witnesses.RefusedIndexStays`); and because index data is kept under "table:index", a colon in
  a table's name lets CREATE INDEX write over another table's index (`Witnesses.IndexesShareEntry`) and DROP TABLE take
  one away (`Witnesses.DropTakesForeignIndex`). `Storage.SharedEntry` and `Storage.EntryTaken` say exactly when.
- An INSERT stores its rows in one critical section and files them in another. An UPDATE between the two files the row as
  well, and then the index returns it twice (`Witnesses.CrossingAnswersTwice`). Without such an UPDATE it never does
  (`Duplicates.GentleSelectReturnsOnce`); `Concurrency.QuietSelectIsScan` is the exact condition.
- The README says that startup replays pending entries and then writes a checkpoint that truncates the log. Nothing in
  the program writes one; a log that begins with a checkpoint is loaded as that checkpoint alone
  (`Checkpoint.CheckpointRoundTrip`). Any other log is replayed from its beginning over the saved catalog and tables. A
  table comes back right when the log drops it, or inserts nothing into it behind its last snapshot, and only then
  (`Restart.RestartRestoresTable`); else its rows are there twice or under new ids (`Restart.RestartDoublesRows`,
  `Witnesses.RestartRepeatsInsert`). Replay starts from a fresh state, where `Recovery.ReplayRecoversRun` and
  `WalBytes.CrashConsistency` hold, when the catalog file is there but cannot be read; without a catalog file nothing is
  replayed.
- Equality conditions are looked up by the order of values but filtered again and scanned by `values_equal`, which also
  equates different kinds; `Select.IndexedSelectRefinesScan` says exactly when the two agree, `Witnesses.TextMissedByIndex`
  is a run after which they do not.
- LIKE patterns that end in `%%` need one character more than they should (`Like.LikeIsExact`).
- NULLs compare equal to everything in ORDER BY, which is then no order (`OrderBy.NullsBreakOrder`).

`dafny verify dfyconfig.toml` checks all files.

## Model

| member | source | states |
|---|---|---|
| Executors.Executor.Execute | src/engine/executor.rs:161-270 | The imperative executor: for every statement the answer and the whole new state (catalog, rows, ids, counters, posting lists, log) are those of the statement function, and the log file holds exactly the entries appended |
| Statements.DeleteEffect | src/engine/executor.rs:509-595 | Told from the states before and after: DELETE takes exactly the rows that the condition selects out of the table, every other row, table, counter and definition stays, the number answered is that of the rows gone, and if it is positive the one entry logged is a snapshot of the rows left; errors change nothing |
| Statements.UpdateEffect | src/engine/executor.rs:597-738 | Each cell of a selected row holds the value of the last assignment that names its column, or its old value if none does; rows not selected, ids, other tables, counters and definitions stay; the number answered is that of the selected rows; the first tuple or unknown column is the error and changes nothing |
| Statements.InsertEffect | src/engine/executor.rs:370-507 | The i-th VALUES row stands under the old next id plus i; its cell is the value of the last name for the column, NULL when there is none, NULLs then filled with defaults and consecutive sequence numbers; without names it is the VALUES row; UnknownColumn exactly when a name with a value has no column; the answer is the number of rows and the last number drawn, 0 if none was |
| Schemas.CreateTableEffect | src/engine/executor.rs:321-368 | CREATE TABLE adds exactly the table with these columns, no index and a sequence at 1; for a table that exists or an unknown database it fails, the entry logged all the same |
| Schemas.DropTableEffect | src/engine/executor.rs:1204-1247 | DROP TABLE leaves no definition, indexes, sequence, rows, counter or prefixed index data of the table and everything else as it was; for an unknown table it fails, the entry logged all the same |
| Schemas.CreateIndexEffect | src/engine/executor.rs:1038-1161 | CREATE INDEX appends exactly the definition and files every row once under its own key, unless a unique index meets two rows that agree in all its columns: then it answers the duplicate and leaves the definition without data |
| Schemas.DropIndexEffect | src/engine/executor.rs:1163-1202 | DROP INDEX takes the first index of that name in the first table met that has one out of the list, and its data away; rows, other definitions and other data stay; it fails exactly when no table met has one |
| Schemas.RunKeepsLowercase | src/engine/catalog.rs:74-188 | In every run index lists are kept under lowercase table names, which the row above asks for |
| Schemas.KeysAgree | src/engine/executor.rs:1111-1130 | Two rows have one key in an index exactly when they agree in each of its columns |
| Recovery.StatementSimulates | src/engine/executor.rs:161-270 | One statement, failed or not, logs nothing and changes nothing recoverable, or logs one entry whose replay has the statement's effect on databases, rows, ids and counters |
| Recovery.ReplayRecoversRun | src/engine/wal.rs:343-397 | For every sequential run of statements from the empty engine: replaying its log into a fresh state gives the same databases (tables and index definitions), rows, row ids and next ids, although inserts are logged with id 0 |
| Recovery.LogPrefixIsRunPrefix | src/engine/wal.rs:343-397 | Every prefix of a run's log replays to the state the run had after some prefix of its statements |
| WalBytes.CrashConsistency | src/engine/wal.rs:107-162 | The bytes of a run's log cut at any byte replay without panic or error to the live state the run had when it had logged exactly the entries that lie whole in the cut file; uncut, to the state after all logged ones |
| WalBytes.CutLogReplaysWholeEntries | src/engine/wal.rs:107-162 | Replay of a log cut at byte n applies exactly the entries that lie whole in the first n bytes, over any base state |
| Coherence.StatementStep | src/engine/executor.rs:161-270 | From an engine whose indexes are all in step, a statement leaves them in step if and only if it is none of three, each told from the state before it: a CREATE UNIQUE INDEX over two rows of one key, a CREATE INDEX whose entry is another table's, a DROP TABLE with another table's index among its entries |
| Coherence.ColonFreeBreaks | src/engine/storage.rs:71-85 | Where no table name holds a colon, the first of the three is the only one |
| Witnesses.RefusedIndexStays | src/engine/executor.rs:1111-1148 | CREATE TABLE, INSERT of two equal rows, CREATE UNIQUE INDEX: in step before the last statement, which answers a duplicate, and not after it |
| Coherence.RunInStep | src/engine/executor.rs:161-270 | After every sequential run on "srrdb" without these three and without short rows, each index files every row of its table once, under its current key, and nothing else, in an entry of its own |
| Coherence.MaintainedIsRebuilt | src/engine/executor.rs:82-159 | After every such run each maintained index equals, as keys with duplicate-free id sets and without empty lists, the index built afresh from the table |
| Rebuild.RebuildBringsInStep | src/engine/executor.rs:82-159 | Where every index has an entry of its own: whatever index data was there before, rebuild_indexes leaves every index of every table it meets in step with the table |
| Rebuild.FreshReplayRebuildsIndexes | src/engine/wal.rs:107-162 | Replaying a run's log into a fresh state and rebuilding the indexes gives every index the keys and id sets that the running engine had |
| Restart.RestartRestoresTable | src/server/listener.rs:33-58 | Replaying a run's log over the catalog and tables that the run itself saved gives a table back, row for row, if and only if the log drops the table or inserts no row into it behind its last snapshot |
| Restart.RestartDoublesRows | src/server/listener.rs:33-58 | For a table the log does not drop: without a snapshot every row is there twice, with one the number of rows is right (and, by the row above, the ids are new when rows were inserted behind it) |
| Restart.LoadedIsSaved | src/server/listener.rs:41-49 | What the loading loop makes of the run's table files, in any order, is such a saved state: every table with its rows, nothing for other names |
| Restart.DropBringsTogether | src/engine/wal.rs:354-362 | Replaying a log over a fresh state and over any saved state: once the log has dropped a table, known there or not, both have the same rows and the same next id for it, to the end of the log |
| Restart.RunLogIsLegal | src/engine/executor.rs:444-448 | A run logs rows for tables only that its log has created by then; inserted rows come without ids, those of a snapshot with distinct ids |
| Witnesses.RestartRepeatsInsert | src/server/listener.rs:33-58 | CREATE TABLE, INSERT of one row: a restart over the saved table has two rows |
| Concurrency.StepKeepsInv | src/engine/executor.rs:450-500 | One critical section of any thread (store half or index half of an INSERT, UPDATE, DELETE) keeps: a live id is filed under its current key only, every live row whose INSERT is not halfway is filed under its key, only given-out ids are filed |
| Concurrency.EveryScheduleIsSafe | src/engine/executor.rs:450-500 | The same after every interleaving of any number of threads over a fixed set of tables and non-unique indexes |
| Concurrency.ConcurrentPhaseIsSafe | src/engine/executor.rs:450-500 | The same for every interleaving that starts after any sequential run that keeps its indexes in step |
| Concurrency.DeadRowsStayDead | src/engine/executor.rs:450-500 | Under every interleaving an id that was given out and has no row never gets a row again, so dangling postings stay harmless |
| Concurrency.InStepStartsSafe | src/engine/executor.rs:450-500 | An engine with indexes in step and no INSERT halfway satisfies the concurrent invariant |
| Concurrency.SelectUnderInterleaving | src/engine/executor.rs:783-838 | A SELECT at any moment of any interleaving returns only rows the scan would, and, when the literal matches only identical values, each of them at least once unless its INSERT is halfway |
| Concurrency.QuietSelectIsScan | src/engine/executor.rs:783-838 | After any interleaving, once no INSERT is halfway, an indexed SELECT whose literal matches only identical values returns the scan's rows, each as often, if and only if no selected row stands twice in the posting used; dangling ids do not matter |
| Duplicates.IndexHalfRepeats | src/engine/executor.rs:466-499 | The index half of an INSERT makes a duplicate posting exactly when one of its ids is filed already under the key its row has by then |
| Duplicates.GentleScheduleIsApart | src/engine/executor.rs:450-500 | Under every interleaving in which no UPDATE chooses a row whose INSERT is halfway, no posting ever repeats an id and no such row is filed early |
| Duplicates.GentleSelectReturnsOnce | src/engine/executor.rs:783-838 | At any moment of such an interleaving a SELECT returns no row twice |
| Duplicates.GentleSelectIsScan | src/engine/executor.rs:783-838 | After such an interleaving, once no INSERT is halfway, an indexed SELECT whose literal matches only identical values returns the scan's rows, each as often |
| Witnesses.CrossingAnswersTwice | src/engine/executor.rs:466-499 | CREATE TABLE, CREATE INDEX; one thread stores a row, another updates it, the first files it: the scan has the row once, the index answers it twice |
| Locks.EveryCallIsDisciplined | src/engine/executor.rs:272-319 | On every outcome each executor call nests its locks in the order catalog, storage, wal, never re-locks one it holds, and frees all |
| Locks.NoDeadlock | src/engine/executor.rs:36-41 | In every state that any interleaving of any number of threads reaches, if some thread is unfinished some thread can step |
| Locks.EveryInterleavingEnds | src/engine/executor.rs:36-41 | Every interleaving is exactly as long as the work it has done, so it ends when the work is done |
| Select.SelectIsSound | src/engine/executor.rs:783-838 | Whatever the indexes hold, dangling ids included, a SELECT returns only rows that the scan returns |
| Select.SelectIsComplete | src/engine/executor.rs:783-838 | Every row the scan returns and that is filed under its own keys is returned through the index, when the literal matches only identical values |
| Select.SameRowsIsFiledOnce | src/engine/executor.rs:800-838 | Whatever the index holds, the indexed answer is the scan's, each row as often, if and only if every row of the scan stands exactly once in the posting used |
| Select.IndexedSelectRefinesScan | src/engine/executor.rs:783-838 | With indexes in step, answering through an index gives exactly the scan's rows, each as often, if and only if the rows that satisfy the condition hold the literal itself |
| Select.KindsMakeExact | src/engine/executor.rs:1794-1812 | Stored values of the literal's kind (Int, UInt, Text, NULL) meet that condition |
| Select.MissedByIndex | src/engine/executor.rs:892-942 | A row that the scan accepts for a value other than the literal itself (a Text '1' for the number 1, say) is not found through the index |
| Witnesses.TextMissedByIndex | src/engine/executor.rs:1794-1812 | CREATE TABLE, INSERT of the text of the number 1, CREATE INDEX: WHERE a = 1 returns the row by scan and not through the index |
| Select.CompositeKeySelectsNothing | src/engine/executor.rs:906-918 | A condition that gives an index over two different columns its key is an AND over comparisons and selects no row |
| Select.RunSelectsLikeScan | src/engine/executor.rs:740-838 | The equivalence of indexed SELECT and scan in the state after every run that keeps its indexes in step |
| Executors.Executor.TryIndexLookup | src/engine/executor.rs:892-942 | The loop over index definitions returns the posting of the first index whose columns all have a condition and whose data exists; the scan is chosen otherwise |
| Executors.Executor.SelectFrom | src/engine/executor.rs:783-838 | The rows fetched and filtered are those of the SELECT function, through an index or by scan |
| Executors.Executor.ExecuteQuery | src/engine/executor.rs:740-888 | The answer is the OFFSET/LIMIT slice of the selected rows permuted: on NULL-free columns of one kind a row comes before another by the first ORDER BY item whose values differ, ascending or descending as the item says, ties as they stood; the unknown table is the error |
| Where.AndExact | src/engine/executor.rs:1705-1709 | AND selects what both sides select if and only if both sides are plain columns or literals, or not both select the row |
| Where.OrExact | src/engine/executor.rs:1710-1714 | OR selects what either side selects if and only if both sides are plain and have a truth value (neither is NULL), or neither selects the row |
| Where.SelectedAgainstSaid | src/engine/executor.rs:1678-1776 | Over conditions of any depth, read as the repository's README lists them: no row is selected against the condition, and a row it accepts is lost exactly at an outermost AND or OR that cannot evaluate its sides |
| Witnesses.AndLosesRow | src/engine/executor.rs:1705-1709 | a = 1 AND b = 2 on the row (1, 2): each side selects it, the condition does not |
| Witnesses.OrLosesRow | src/engine/executor.rs:1710-1714 | a OR b on the row (1, NULL): a selects it, the condition does not |
| Cells.ComparisonsFollowOrder | src/engine/executor.rs:1794-1829 | Between values of one kind, =, <>, <, <=, >, >= of WHERE are the total order that B-tree indexes use, on either side of the literal |
| Cells.NumbersCompareAsTexts | src/engine/executor.rs:1794-1829 | An integer cell beside a text literal, and a text cell beside an integer literal, are compared in every operator as the texts, the number as it is written |
| Cells.NullTests | src/engine/executor.rs:1731-1738 | IS NULL selects exactly the rows with NULL in the column, IS NOT NULL exactly the others; beside a literal NULL meets <> and no other comparison |
| Cells.BetweenIsBothBounds | src/engine/executor.rs:1678-1776 | BETWEEN is both bounds in that order, NOT BETWEEN its negation |
| Executors.Executor.ExecuteCreateTable | src/engine/executor.rs:321-368 | CREATE TABLE: logged first, then the catalog; error and state of the statement function, IF NOT EXISTS included |
| Executors.Executor.ExecuteDropTable | src/engine/executor.rs:1204-1247 | DROP TABLE: logged first, then definitions, rows, counter and index data removed |
| Executors.Executor.ExecuteInsert | src/engine/executor.rs:370-507 | INSERT: every outcome and the whole new state, rows stored and then filed in two sections, and what InsertEffect says of them |
| Executors.Executor.ExecuteDelete | src/engine/executor.rs:509-595 | DELETE: old entries unfiled, rows removed, the rest logged as a snapshot if anything was deleted, and what DeleteEffect says |
| Executors.Executor.ExecuteUpdate | src/engine/executor.rs:597-738 | UPDATE: old entries unfiled, values assigned, new entries filed, the table logged as a snapshot if anything was chosen, and what UpdateEffect says |
| Executors.Executor.ExecuteCreateIndex | src/engine/executor.rs:1038-1161 | CREATE INDEX: catalog and log first, then the index from the rows; a duplicate in a unique index removes the data and leaves the definition |
| Executors.Executor.ExecuteDropIndex | src/engine/executor.rs:1163-1202 | DROP INDEX: definition removed, logged, data removed |
| Executors.Executor.RebuildIndexes | src/engine/executor.rs:82-159 | The nested loops leave every table's entries as built from its rows, and nothing else changed |
| Executors.Executor.InsertIntoIndexes | src/engine/executor.rs:965-982 | The loop over index definitions files the row's id under its key in each entry, creating missing entries |
| Executors.Executor.DeleteFromIndexes | src/engine/executor.rs:984-1000 | The loop takes the row's id out of each entry that exists |
| Executors.Executor.IndexInserted | src/engine/executor.rs:466-499 | The second section of INSERT files each id under the key its row has at that moment |
| Executors.Executor.FillAll | src/engine/executor.rs:424-442 | The loops over rows and columns draw sequence numbers and defaults as the row function does |
| Executors.Executor.LogWal | src/engine/executor.rs:272-278 | Appends one entry; the file stays the concatenation of the serialised log |
| Executors.PlaceRows | src/engine/executor.rs:387-419 | The loops over rows and column names put each value under the column its name names, the last name for a column counting, or fail exactly when a name with a value has no column |
| Executors.CollectChosen | src/engine/executor.rs:529-546 | The loop gives the rows the condition selects, in id order; an evaluation error is no match |
| Executors.RemoveRows | src/engine/executor.rs:568-573 | Removing the chosen ids one by one leaves exactly the rows that were not selected |
| Executors.WriteRows | src/engine/executor.rs:689-696 | Writing the new values one by one changes exactly the selected rows |
| Executors.FindTargets | src/engine/executor.rs:613-636 | Each assignment is for the first column of its name up to case, in order; the first tuple or unknown column is the error |
| Executors.BuildIndexData | src/engine/executor.rs:1111-1148 | The loop builds the index of all rows, or stops if and only if a unique index has two rows with one key |
| Cells.RefusedForUnknownColumn | src/engine/executor.rs:398-413 | An INSERT row is refused exactly when a name that has a value names no column |
| Cells.LastNameCounts | src/engine/executor.rs:398-413 | A cell holds the value of the last name given for it |
| Cells.UnnamedCellIsNull | src/engine/executor.rs:398-413 | A cell no name is for is NULL before defaults |
| Cells.FilledCells | src/engine/executor.rs:424-442 | In one row each NULL becomes the next number of the sequence or the default, other cells stay, the sequence moves on by the numbers used, and the last number is reported |
| Cells.FilledRowCells | src/engine/executor.rs:424-442 | Over all rows of an INSERT the numbers are consecutive, so no two cells share one |
| Cells.AsI64IsCast | src/engine/executor.rs:431-437 | The number stored is the signed 64-bit integer congruent to the one drawn modulo 2^64, the number itself below 2^63 |
| Cells.LastAssignmentCounts | src/engine/executor.rs:676-686 | Of several assignments to a column the last one counts |
| Cells.TargetsAreNamed | src/engine/executor.rs:613-636 | Assignments resolve to the first columns of their names, value for value, or fail with the first tuple or unknown name |
| Cells.UnassignedCellStays | src/engine/executor.rs:676-686 | A cell no assignment is for keeps its value |
| Recovery.InsertSimulates | src/engine/executor.rs:444-455 | INSERT's entry, with ids 0, replays to the rows and ids that the insert stored |
| Recovery.DeleteSimulates | src/engine/executor.rs:575-586 | DELETE's snapshot replays to what it left; without a deleted row nothing needs replaying |
| Recovery.UpdateSimulates | src/engine/executor.rs:717-728 | UPDATE's snapshot replays to the updated table |
| Coherence.CreateIndexStep | src/engine/executor.rs:1038-1161 | CREATE INDEX keeps all indexes in step if and only if it does not answer with a duplicate |
| Coherence.BuildIndexIsExact | src/engine/executor.rs:1112-1144 | An index built from a table files every row once under its key, nothing else, without empty lists |
| Sections.IndexRowsFiles | src/engine/executor.rs:466-499 | On each index the second section of INSERT adds exactly the pairs (current key, id) of the inserted ids |
| Sections.DeleteUnfiles | src/engine/executor.rs:553-566 | On each index DELETE removes exactly the pairs of the chosen rows |
| Sections.UpdateMoves | src/engine/executor.rs:662-715 | On each index UPDATE removes the chosen rows' old pairs and adds their new ones |
| Maintenance.FileRowEffect | src/engine/executor.rs:965-982 | Filing a row adds its id under its key in every index of the table and touches no other entry |
| Maintenance.UnfileRowEffect | src/engine/executor.rs:984-1000 | Unfiling a row removes every copy of its id under its key in every index of the table and touches no other entry |
| Index.IndexData.Insert | src/engine/index.rs:45-54 | Appends the id to the key's posting, and changes nothing else |
| Index.IndexData.Delete | src/engine/index.rs:56-79 | Removes every copy of the id under the key, and the key once its posting is empty |
| Index.RemoveEffect | src/engine/index.rs:56-79 | Exactly the pair (key, id) is gone, postings stay duplicate-free, no empty posting is left |
| Index.AddThenRemove | src/engine/index.rs:45-79 | delete undoes insert: an index that did not hold the id under the key is as before |
| Index.BumpIsNext | src/engine/index.rs:135-153 | bump_value is the immediate successor in the order of values, for Bytes, Text and integers below their maximum |
| Index.LookupRangeExact | src/engine/index.rs:88-106 | lookup_range panics exactly on a B-tree for bounds in the wrong order; otherwise it returns exactly the ids of the keys within both bounds, and none for a hash index |
| Index.PrefixRangeExact | src/engine/index.rs:108-126 | For prefixes not ending in a float, the half-open range to the bumped prefix holds exactly the keys starting with the prefix if and only if the prefix is non-empty and its last component is not NULL and not a maximal integer |
| Index.LookupPrefixExact | src/engine/index.rs:108-126 | lookup_prefix on a B-tree does not panic and returns exactly the ids of the keys that start with such a prefix |
| Cells.SameNameIsSameLetters | src/engine/executor.rs:398-413 | Names agree, and texts for LIKE agree, exactly when they are the same letters A to Z whatever their case and the same other bytes |
| Cells.CellIsNamed | src/engine/executor.rs:1778-1792 | A column name reads the value at the first column of that name up to case, NULL when the name or the value is missing |
| Types.ValueCmpIsLawful | src/engine/types.rs:62-87 | The order of values is total, transitive and antisymmetric, and Equal means identical, floats by their bits included |
| Types.KeyCmpIsLawful | src/engine/types.rs:62-87 | The same for vectors of values, the keys of the B-tree |
| Storage.Storage.InsertRows | src/engine/storage.rs:35-52 | The loop stores every row and returns the ids of the placement function, case-insensitively by table |
| Storage.PlaceAllKeepsWf | src/engine/storage.rs:35-52 | Rows stay stored under their own ids with 1 <= id < next, and none disappears, whatever ids the new rows bring |
| Storage.FreshIds | src/engine/storage.rs:35-52 | A row that comes with id 0, also among rows with explicit ids, gets an id above every id given before it and overwrites nothing present |
| Storage.FreshRows | src/engine/storage.rs:35-52 | Rows without ids get the next ids in order and change no stored row |
| Storage.ReinsertRestores | src/engine/storage.rs:35-52 | Inserting a table's rows into an empty one gives the table back, with the counter as low as its ids allow |
| Storage.Storage.ClearTable | src/engine/storage.rs:71-85 | Removes rows, counter and every index entry whose name begins with the table's name and a colon |
| Storage.EntryTaken | src/engine/storage.rs:71-85 | DROP TABLE t takes the data of index i of table u if and only if u is t, or "t:" begins u, or "u:" begins t and what follows it there, with a colon, begins i; else that data stays as it was |
| Storage.OverlapIsPrefix | src/engine/storage.rs:71-85 | That is the case exactly when the entry name "u:i" begins with "t:" |
| Storage.SharedEntry | src/engine/executor.rs:1087-1148 | Two indexes share an entry exactly when they are one index of one table up to case, or one table's name and a colon begin the other's name and its index is named by the rest, a colon and the other's index |
| Witnesses.DropTakesForeignIndex | src/engine/storage.rs:71-85 | CREATE TABLE "u:b", CREATE TABLE u, CREATE INDEX i ON "u:b": in step; DROP TABLE u then takes the index of "u:b" away |
| Witnesses.IndexesShareEntry | src/engine/executor.rs:1087-1148 | The same tables, CREATE INDEX "b:c" ON u: in step; CREATE INDEX c ON "u:b" then writes over its data |
| Catalog.Catalog.CreateTable | src/engine/catalog.rs:74-100 | New table with its columns, index list and sequence at 1, or the error with nothing changed |
| Catalog.Catalog.DropTable | src/engine/catalog.rs:102-115 | Table, index list and sequence removed, or the error with nothing changed |
| Catalog.Catalog.CreateIndex | src/engine/catalog.rs:141-163 | Definition appended unless one of that name, ignoring case, exists; the error changes nothing |
| Catalog.Catalog.DropIndex | src/engine/catalog.rs:165-188 | The first definition of that name removed, the others in order; the error changes nothing |
| Catalog.Catalog.NextRowId | src/engine/catalog.rs:127-132 | Returns the current number and advances the sequence by count |
| WalEntries.ApplyEntry | src/engine/wal.rs:343-397 | apply_entry updates catalog and storage as the entry's meaning says and reports success accordingly |
| WalEntries.ReplayKeepsWf | src/engine/wal.rs:343-397 | Replaying any log over a well-formed state keeps every row under its own id below the counter |
| WalEntries.SnapshotAbsorbs | src/engine/wal.rs:367-375 | If the last entry about a table is a snapshot, the table is that snapshot, whatever the base state and earlier entries held |
| WalEntries.SecondReplayChangesNothing | src/engine/wal.rs:367-375 | Replaying such a log again leaves that table as it is |
| WalBytes.DeserializeReads | src/engine/wal.rs:188-340 | For each of the seven entry types decoding the entry's type and payload gives the entry back, field offsets recomputed from serialised sizes |
| WalBytes.LogRoundTrip | src/engine/wal.rs:188-340 | Decoding the concatenated serialisations of entries below 2^32 bytes gives the list of entries |
| WalBytes.ReplayTorn | src/engine/wal.rs:115-136 | An entry cut anywhere is ignored |
| WalBytes.Wal.Append | src/engine/wal.rs:83-91 | The file grows by exactly the entry's serialisation |
| WalBytes.Wal.ReplayInto | src/engine/wal.rs:107-162 | The loop over the file leaves catalog, storage and count as replay of the bytes says; an entry that claims fewer than 7 bytes is the slice panic |
| Bincode.ValueCodes | src/engine/types.rs:11-20 | A value of each variant is read back from its code, whatever follows |
| Bincode.RowCodes | src/engine/storage.rs:12-17 | A row is read back from its code, whatever follows |
| Bincode.ColumnCodes | src/engine/types.rs:172-186 | A column with all its attributes is read back from its code, whatever follows |
| Bincode.IndexDefCodes | src/engine/index.rs:22-29 | An index definition is read back from its code, whatever follows |
| Checkpoint.CheckpointRoundTrip | src/engine/wal.rs:399-474 | Loading a checkpoint below 2^32 bytes gives the catalog and every table, empty ones included, each counter just above its largest id, no index data; bytes appended behind it are ignored |
| Checkpoint.CatalogSize | src/engine/wal.rs:442-449 | The catalog's serialised size does not depend on the iteration order of its hash maps, so the tables are found behind it |
| Checkpoint.CatalogReads | src/engine/wal.rs:403-404 | The catalog's code is read back as the listing that was written, whatever follows |
| Checkpoint.BuildCheckpointData | src/engine/wal.rs:399-421 | Catalog, table count and tables in name order, framed as one entry |
| Checkpoint.LoadStorage | src/engine/wal.rs:452-471 | The loop over pos fills a new storage with the tables up to the first missing part, or fails on undecodable bytes |
| Checkpoint.ReplayCheckpoint | src/engine/wal.rs:423-474 | Every outcome: the error for a wrong header, type or code, the panic for a length below 7, the empty storage when nothing follows the catalog |
| OrderBy.StableSort | src/engine/executor.rs:1615-1656 | A permutation of the rows; in the order of the comparison, ties in input order, whenever the comparison is an order |
| OrderBy.SortRows | src/engine/executor.rs:1615-1656 | Sorting stably from the last item to the first gives a permutation; where the keys are orders it is in lexicographic order, ties as they stood; where they are NULL-free columns of one kind the values go up for ascending items and down for descending ones |
| OrderBy.SortedByValues | src/engine/executor.rs:1615-1656 | On such columns, for any two rows of the result: at the first item whose cells differ they compare Less for an ascending item and Greater for a descending one in the order of values, or no item tells them apart and they stand as they stood |
| OrderBy.SortIsUnique | src/engine/executor.rs:1615-1656 | There is only one such result |
| OrderBy.NullsBreakOrder | src/engine/executor.rs:1615-1656 | On a column of one kind the comparison is an order if and only if there is no NULL or all other cells are equal |
| OrderBy.PlainColumnsAreSortable | src/engine/executor.rs:1615-1656 | NULL-free columns of one kind can be sorted by |
| OrderBy.Slice | src/engine/executor.rs:865-879 | Row i of the page is row offset+i; the page is as long as limit and the rows left allow |
| OrderBy.Page | src/engine/executor.rs:865-879 | split_off and truncate give that slice |
| Like.LikeMatch | src/engine/executor.rs:1858-1896 | The loop with recursion terminates and accepts exactly what LIKE means for the pattern with a trailing run of two or more % read as _% |
| Like.LikeIsSound | src/engine/executor.rs:1858-1896 | What the matcher accepts, LIKE accepts |
| Like.LikeIsExact | src/engine/executor.rs:1858-1896 | The matcher agrees with LIKE on all texts if and only if the pattern does not end in %% |
| Timestamp.SplitTimestamp | src/engine/executor.rs:1927-1956 | The year and month loops end with a valid Gregorian date and time whose second count, by the closed day formula, is the input |
| Timestamp.FormatTimestamp | src/engine/executor.rs:1927-1958 | The text shown is that of the one valid stamp with the given second count |
| Timestamp.StampOrder | src/engine/executor.rs:1927-1958 | Valid stamps are ordered, and told apart, by their second counts |
| Timestamp.TextOrderIsTimeOrder | src/engine/executor.rs:1957-1957 | Up to the year 9999 the texts compare as the instants |
| Wire.PacketReads | src/protocol/frame.rs:12-40 | A packet below 2^24 bytes is read back with its sequence number, whatever follows |
| Wire.Pipe.WritePacket | src/protocol/frame.rs:27-40 | Appends length, sequence number and payload |
| Wire.Pipe.ReadPacket | src/protocol/frame.rs:12-25 | Takes one whole packet off the front, or fails when the stream ends inside it |
| Wire.LenIntReads | src/protocol/handshake.rs:237-253 | The client reads every 64-bit length-encoded integer back, over exactly its own bytes |
| Wire.LenStrReads | src/client.rs:174-177 | The client reads a length-encoded string back and ends where it ends |
| ResultSets.ResultSetRoundTrip | src/client.rs:252-284 | For 1 to 2^24-1 columns and payloads below 2^24 bytes the client recovers the column names and every cell, NULL apart from text, and consumes exactly the answer, if and only if no row is without cells |
| ResultSets.RowTakenForEof | src/client.rs:264-268 | A row packet is taken for EOF exactly when it has no cell or its first cell has 2^24 bytes or more |
| ResultSets.RowsRead | src/client.rs:262-280 | All row packets up to the closing EOF are read when none is empty; with an empty one fewer rows are read |
| ResultSets.ManyColumnsReadAsOk | src/client.rs:231-251 | From 2^24 columns on the client takes the count for an OK with no rows |
| ResultSets.ColumnReads | src/client.rs:185-199 | The client finds the column's name in its definition packet |
| ResultSets.FixedFieldsRead | src/protocol/resultset.rs:8-24 | The definition's length byte counts exactly the bytes behind it, which hold charset, length, type, flags and decimals at their places |
| Types.WireCodesDiffer | src/engine/types.rs:101-131 | Different column types have different bytes on the wire |
| ResultSets.CellsRead | src/protocol/resultset.rs:26-40 | A row's cells are read back, NULL apart from the empty string |
| ResultSets.OkRoundTrip | src/protocol/handshake.rs:209-217 | The client reads the row count and insert id of an OK packet back |
| ResultSets.ErrorRoundTrip | src/protocol/handshake.rs:219-227 | The client reads the error code back, and the message behind the marker #HY000 |
| ResultSets.TextRowPayload | src/protocol/resultset.rs:26-40 | The loop over values gives, below 2^24 bytes, a payload of the exact length from which the client reads one cell per value: NULL as no text, a text or binary as its bytes, any other value as its rendering |
| ResultSets.SendRows | src/server/connection.rs:164-195 | The loops write count, definitions, EOF, rows, EOF with consecutive wrapping sequence numbers; what fits packets reads back, whatever follows, as the column names and one cell per value, NULL told apart from the text NULL |
| ResultSets.SentRowsShow | src/client.rs:252-284 | For 1 to 2^24-1 columns, rows of at least one value and packets below 2^24 bytes: the client's result has the column names and, row by row, the values sent |
| ResultSets.ReadCells | src/client.rs:268-278 | The loop over pos gives the cells of the row, or fails out of range |
| ResultSets.ReceiveAnswer | src/client.rs:216-286 | The loops over packets give the answer in the stream and leave what follows it |
| Handshake.HandshakeSucceeds | src/server/connection.rs:27-55 | For every scramble, NUL-free user name and non-empty password: the client reads the scramble and capabilities, the server reads capabilities, name, database and plugin, and accepts |
| Handshake.GreetingReads | src/client.rs:19-93 | For any capabilities the client reads them back, and the whole scramble when they include SECURE_CONNECTION and PLUGIN_AUTH; otherwise only its first 8 bytes |
| Handshake.ResponseReads | src/protocol/handshake.rs:64-136 | The server reads what the client wrote for any greeting with SECURE_CONNECTION or length-encoded data; without CONNECT_WITH_DB it takes the database for the plugin |
| Handshake.AcceptsPreimages | src/protocol/handshake.rs:171-192 | A 20-byte response is accepted if and only if unmasking it gives a preimage of the stored hash |
| Handshake.PasswordChecksAgree | src/protocol/handshake.rs:138-192 | What the check with the password accepts is the client's response, and the check with the stored hash accepts it |
| Handshake.EmptyPasswordRefused | src/client.rs:141-146 | The empty answer to an empty password is accepted only if SHA-1 maps the empty text and its digest to one value |
| Handshake.AndBits | src/client.rs:123-130 | The response's capabilities are exactly those both sides have |
| Handshake.ServerBits | src/server/connection.rs:28-35 | The announced capabilities hold the flags the client needs and not the one for length-encoded data |
| Handshake.XorTwice | src/protocol/handshake.rs:158-166 | Masking twice gives the bytes back |
| Handshake.ParseHandshakeResponse | src/protocol/handshake.rs:64-136 | The parser moving pos along the payload gives the fields, or fails for missing NULs, bad text or lengths out of range |
| Handshake.ParseServerHandshake | src/client.rs:19-93 | The parser moving pos along the greeting gives the fields, or fails |

## Left out

- Several databases, CREATE/DROP DATABASE and USE: replay writes tables to "srrdb" only and storage is keyed by table name alone.
- AUTO_INCREMENT sequences across a restart: replay never rebuilds them, so recovery is stated for everything else.
- DDL racing with DML, and the order of log entries under concurrency: an INSERT logs before it takes the storage lock, so log theorems are for sequential runs.
- UNIQUE is enforced by CREATE INDEX only; the concurrent invariant and the lookups do not depend on it.
- Poisoned mutexes, and what a panicking INSERT leaves behind.
- The file system: the log is a byte sequence, append succeeds, fsync and rename are not modelled. A table file is the table it was saved from; index files are never read.
- SQL parsing, projection of columns, SHOW, DESCRIBE, the REPL, configuration and table printing.
- Upper- and lowercasing beyond ASCII, and LIKE on non-ASCII text.
- Float arithmetic and number rendering; prefixes that end in a float in `lookup_prefix`.
- Random scramble generation, SHA-1 itself, and the client's unused plugin field, which it reads from the middle of the scramble.
- Executors.Executor.ExecuteInsert: the state after the panic `RowTooShort` is given as unchanged, because the numbers already drawn and the poisoned lock are not modelled.
- Executors.Executor.ExecuteQuery: gives whole rows, before projection; for keys whose comparison is no order it promises a permutation only, and that the sort may panic on them is not modelled.
- Executors.Executor.RebuildIndexes: walks the tables of "srrdb" in a given order; the outer loop over databases is left out.
- Executors.Executor.ExecuteDropIndex: the order in which the catalog's hash map of index lists is met is an argument of the statement.
- Like.LikeMatch: the inner loop stands in a method of its own, which the matcher calls where the code has the loop.
- Checkpoint.BuildCheckpointData: takes the catalog as a listing of its hash maps, because their iteration order is not fixed.
- Storage.Storage.InsertRows: ids are natural numbers, so the overflow of a 64-bit counter is not modelled.
- Concurrency.EveryScheduleIsSafe: steps are whole critical sections on storage; reading the definitions before them is covered by the fixed schema.
- Restart.RestartRestoresTable: restarts from the files as they are after the run's last statement, with one database; the sequences and index definitions of the loaded catalog may be any.
- Handshake.ResponseReads: the user name is UTF-8 without NUL, as the client's argument is text and a NUL would end the field early.
