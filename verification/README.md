# A verified model of the replication core

This project models the parts of the repository that decide what a replica ends up holding,
and proves what they promise.

- **Applying remote changes** (`Preflight.dfy`, `Grouping.dfy`, `Engine.dfy`,
  `Policy.dfy`, `Selection.dfy`, `RowWrite.dfy`, `RowMerge.dfy`, `Deletes.dfy`,
  `Reporting.dfy`, `ApplyBatch.dfy`, `Obedience.dfy`, `Clock.dfy`, `Replicas.dfy`). One call runs the preflight, tags and
  regroups the batch, classifies each change, asks the policy, selects last-write-wins
  winners per column, checks new rows against the delete log as it was before the batch,
  inserts or updates, fans out the deletes the batch named, commits, and advances the clock.
  The loops and in-place updates of the source are methods; each is proved against a pure
  description of its effect, for every policy: `Policy.dfy` says what a batch comes to for
  any answers of the policy and SQLite, and `Obedience.dfy` that nothing lands which the
  policy did not grant.
- **Whole runs** (`RowInvariant.dfy`, `Convergence.dfy`, `Runs.dfy`, `Order.dfy`,
  `Replay.dfy`, `BatchReplay.dfy`, `ReplicaRuns.dfy`, `Witness.dfy`). A replica is an object
  that is handed any list of batches. The main results say when a row exists, which columns
  converge, what never goes back, and when a replay changes nothing, for every order, split
  and repetition of the batches.
- **Sending** (`Scanner.dfy`, `CursorScan.dfy`, `Pagination.dfy`, `RoundTrip.dfy`,
  `FirstSyncs.dfy`, `Values.dfy`). The table scan in full and since a cursor, paging, and
  the trip of a table to an empty peer and back.
- **Protocols around it** (`TxContext.dfy`, `WriteTx.dfy`, `Migrations.dfy`). The
  per-transaction timestamp slot driven by SQLite's hooks, the write transaction with its
  byte budget and abort flag, and the two-journal migration engine with concurrent openers.
- **Encodings** (`Preimage.dfy`, `InsertRewrite.dfy`, `InsertMeaning.dfy`). The signature
  preimage with its canonical JSON, and the INSERT rewriter.

HLCs are the stored strings `<time>/<node>`. `Hlc.Rank` turns the (time, node) order into
one number; a part that does not parse counts as zero. The delete log is an ordinary table
of the replica, as in the source, and a tombstone is what its rows say. The local schema,
the JSON parser and printer, Unicode's letter test, SQLite's `=` and the preflight's
comparison of durations are collected in `Model.Env`, and every theorem holds for every
environment. SQLite itself appears as maps from row identities to rows; a transaction is a
copy of the rows that is kept or dropped. The policy's hooks, constraint failures, physical
clock readings and SQLite's replies to a statement are parameters, so the results hold for
all of them.

Laws that are false of the code as it stands are stated with their exact condition, and
`Witness.dfy` holds an input on which each of them fails:

- Full convergence with deletes does not hold. `Order.OrderIndependenceIff` says for which
  columns it does; `ReplicaRuns.OrderShows` plays the two orders on replica objects.
- A replay is not always a no-op, because one row named by two texts of the same key is
  written as two groups. `BatchReplay.BatchReplayIff` gives the condition on the batch,
  `Replay.ReplayIff` the one on the state, and `Replay.ReplayIsNoOp` the case of one
  spelling.
- A copied table does not always scan alike: a column without a usable HLC on the sender
  picks up the copy's row HLC. `RoundTrip.TableRescanIff` gives the condition.
- A scan since a cursor can lose changes, because its prefilter compares text.
  `CursorScan.CursorScanIff` gives the condition; fixed-width timestamps under dominating
  row HLCs meet it.
- The rewritten INSERT names the HLC column twice when the caller spells it in another case
  (`InsertMeaning.DistinctIff`), and repairs two kinds of misfitting rows instead of leaving
  them to fail (`InsertMeaning.ArityIff`). `Database::write` refuses such a column list
  before it is rewritten; the SET clause below is left to the rewriter alone.
- The DO UPDATE branch does not always re-stamp the columns it assigns: `json_set` keeps
  NULL stamps NULL, and a column assigned in another case is stamped under that spelling.
  `InsertMeaning.RestampIff` gives the condition.
- The refusal of caller-set metadata compares spellings, so a metadata column in another
  case gets through. `InsertMeaning.RefusalIff` and `InsertMeaning.SignaturesStayIff` give
  the conditions; the two HLC columns are the rewriter's all the same
  (`InsertMeaning.SetClauseMeans`).
- A malformed string does not always lose to a timestamp (`Hlc.LosesToAllIff`); preflight
  and selection keep such strings from being written (`Engine.StagedAreTimestamps`).

Where comments and code differ the model follows the code. The comment on
`select_staged_columns` (`src/crdt/apply/row.rs:31-36`) says that the last change in batch
order wins a tie; the code (`src/crdt/apply/row.rs:87-107`) keeps the first of maximal HLC.

The theorems about runs assume accept-everything policies, writes that do not fail, table
names in the schema's own spelling, no pruning of the delete log, and a coherent set of
changes: one (row, column, HLC) is one change, one delete-log row is one delete that does
not target the log itself.

## Model

| member | source | states |
|---|---|---|
| `Runs.RowExistence` | src/crdt/apply/engine.rs:104-129 | after any run of accepted batches, in any order, split and repetition, a row is present exactly when some received change to it is strictly newer than every received tombstone for it |
| `Runs.SameRowsEverywhere` | src/crdt/apply/engine.rs:104-129 | two replicas that received the same set of changes hold the same rows |
| `Runs.ColumnConvergence` | src/crdt/apply/row.rs:38-129 | a column whose newest change is above every tombstone of its row ends with that change’s value, HLC and signature |
| `Runs.TombstoneFreeConvergence` | src/crdt/apply/engine.rs:309-375 | without tombstones two replicas that received the same changes have the same rows, the same cells throughout and row HLCs that compare equal |
| `Runs.TombstoneFreeEquality` | src/crdt/apply/engine.rs:309-375 | where moreover one timestamp has one spelling, the two replicas are equal |
| `Runs.TombstoneFreeRow` | src/crdt/apply/row.rs:38-129 | a row no received tombstone targets agrees cell by cell on both, whatever happens to other rows |
| `Runs.ReachableRows` | src/crdt/apply/engine.rs:322-375 | in every reachable state each stored cell (value, HLC, signature present or absent) stems from one received change, and the row HLC is the maximum of its column HLCs and of everything received |
| `Runs.RunInvariant` | src/crdt/apply/engine.rs:75-140 | every reachable replica satisfies the invariant of what it received |
| `Order.OrderIndependenceIff` | src/crdt/apply/delete_propagation.rs:38-51 | full convergence with deletes is false of the code; a stored cell is independent of order and split if and only if the row is dead, the column was never touched, or its newest change is above every tombstone of the row |
| `Order.DeletesLast` | src/crdt/apply/delete_propagation.rs:128-225 | in any run that delivers all data, split in any way, before the first delete-log change, a live row keeps every column it was sent, even if data is delivered again among the deletes |
| `Order.DeletesBetween` | src/crdt/apply/engine.rs:324-337 | in any run that delivers an unsettled column and the deletes, in whatever order and split, before the rest, the row is left without the column |
| `Witness.OrderMatters` | src/crdt/apply/delete_propagation.rs:38-51 | a concrete coherent set (column a at 1, tombstone at 2, column b at 3) whose column a depends on the order of delivery |
| `ReplicaRuns.OrderShows` | src/crdt/apply/engine.rs:75-140 | two replica objects handed the same received changes of an unsettled column in two orders, in batches of any number and size, both commit every batch, and only the first has the column |
| `Order.DeliveryAddsOnlyItsColumns` | src/crdt/apply/engine.rs:309-337 | a delivery stores no column that it has no change for, whatever the state it meets |
| `Order.SurvivorsNeverGoBack` | src/crdt/apply/engine.rs:322-351 | while a row survives a batch, neither its row HLC nor any column HLC decreases, from any state whatever |
| `Replay.ReplayIff` | src/crdt/apply/engine.rs:163-191 | replaying received changes writes and deletes nothing if and only if every present row already covers them |
| `Replay.ReplayIsNoOp` | src/crdt/apply/engine.rs:163-191 | re-applying any part of a batch, tombstones included, to the state it produced is a no-op when the batch spells each row’s primary key one way |
| `Replay.OneSpellingIsCovered` | src/crdt/apply/engine.rs:87-100 | a batch that spells each row’s key one way leaves every present row covering all of its changes |
| `Witness.RespellingBreaksReplay` | src/crdt/apply/engine.rs:194-235 | with one row under two key spellings behind a tombstone, a second delivery of the same batch writes again: idempotence fails without the spelling condition |
| `BatchReplay.BatchReplayIff` | src/crdt/apply/engine.rs:309-337 | a second delivery of a batch, in any grouping, is a no-op if and only if the first left nothing behind: no change of a living row was shadowed before a later group brought the row, unless that group or a later one outdid it |
| `ReplicaRuns.ApplyTwice` | src/crdt/apply/engine.rs:75-140 | the same batch twice on a replica object: when both calls commit, the second reports nothing applied and leaves the rows alone if and only if the first left nothing behind, and always when each row is spelled one way |
| `BatchReplay.CoveredIff` | src/crdt/apply/engine.rs:309-337 | a change of a surviving row is covered in the end exactly when the row had landed with its group or the change was outdone after it landed |
| `BatchReplay.PresentIff` | src/crdt/apply/row.rs:135-147 | part-way through the write loop a row is present exactly when it was at the start or an earlier group had a change no stored tombstone shadows |
| `Convergence.StepKeepsInv` | src/crdt/apply/engine.rs:104-129 | one batch, writes first and deletes after, takes the replica invariant for what was received to the invariant for what is received now |
| `Convergence.AfterWrites` | src/crdt/apply/engine.rs:109-120 | after the write loop every row satisfies its invariant against the tombstones from before the batch |
| `Convergence.KillsAreTombs` | src/crdt/apply/delete_propagation.rs:128-225 | whether a tombstone named in the batch takes a row is the same as whether any received tombstone is as new as the row |
| `Convergence.LogMatchesReceived` | src/crdt/apply/delete_propagation.rs:69-106 | the tombstones stored for a row are exactly the received ones |
| `Convergence.GroupedHitsAreHits` | src/crdt/apply/grouping.rs:34-79 | grouping hands the write loop exactly the changes of the batch that can compete for the row |
| `Convergence.DeleteKeepsRow` | src/crdt/apply/delete_propagation.rs:38-51 | deleting what a newer tombstone covers turns the old tombstones’ row invariant into the new ones’ |
| `RowInvariant.GroupKeepsRow` | src/crdt/apply/engine.rs:309-375 | write, suppressed insert and nothing staged all keep a row’s invariant |
| `RowInvariant.WriteKeepsProvenance` | src/crdt/apply/write.rs:93-262 | both writers keep every cell traceable, value, HLC and signature together, to one received change |
| `RowInvariant.WriteKeepsRowHlc` | src/crdt/apply/engine.rs:322-351 | a write keeps the row HLC the maximum and covers every change of the group |
| `RowInvariant.ColumnsNeverGoBack` | src/crdt/apply/row.rs:87-107 | no column HLC decreases in a write |
| `RowInvariant.WinnersBeatHits` | src/crdt/apply/row.rs:58-129 | what a group stages are its own changes, strictly newer than stored, and at least as new as every rival |
| `RowInvariant.ShadowedMeans` | src/crdt/apply/row.rs:131-147 | an insert is shadowed exactly when some known tombstone of the row is as new as it |
| `ReplicaRuns.DeliverAll` | src/crdt/apply/engine.rs:75-140 | a fresh replica object handed any list of batches ends in the state of the run of exactly the batches whose results say they committed, in order; a batch commits exactly when every change passes the preflight, every admitted value decodes and the stored log is readable; and the rows obey the existence law |
| `ReplicaRuns.AllCommit` | src/crdt/apply/engine.rs:75-140 | acceptable, decodable batches whose delete-log rows arrive whole all commit |
| `ReplicaRuns.CommittedIsNext` | src/crdt/apply/engine.rs:102-129 | in a reachable state a committed accept-everything batch is exactly one step of a run |
| `Selection.SelectStagedColumns` | src/crdt/apply/row.rs:38-129 | the in-place stage/evict loop returns, per column, the first complete candidate of maximal HLC if strictly newer than stored, in candidate order; every decision is staged or recorded as skipped exactly once, and each skip for its own reason: policy for a refused column, superseded when a change of the column that beats the store came by its position, stale otherwise; a wrong decision count is the only failure |
| `Selection.WinnersStep` | src/crdt/apply/row.rs:87-128 | adding a candidate changes the winners exactly as the stage/evict step does |
| `Selection.RunningDecides` | src/crdt/apply/row.rs:87-107 | beating the running HLC is the same as winning over all candidates seen so far and the stored HLC |
| `Selection.SomeoneWins` | src/crdt/apply/row.rs:87-107 | if any complete candidate beats the stored HLC, its column has a winner at least as new |
| `Selection.DistinctWinners` | src/crdt/apply/row.rs:58-128 | no two winners share a column |
| `RowWrite.MaxHlcIsMaximal` | src/crdt/apply/row.rs:149-156 | the row’s HLC candidate is one of the staged HLCs, none is newer, and among equals it is the last |
| `RowWrite.PutCells` | src/crdt/apply/engine.rs:343-349 | a staged column holds its winner’s value and HLC, every other column keeps its cell |
| `RowWrite.PutSigCells` | src/crdt/apply/write.rs:218-262 | a staged column’s signature is replaced, removed or kept as its winner says, every other signature stays |
| `RowWrite.KeepsLeaveSigs` | src/crdt/apply/write.rs:93-120 | when no winner touches a signature, leaving the signature map unwritten is the same as merging |
| `RowWrite.WriteInsert` | src/crdt/apply/write.rs:156-216 | the row an INSERT leaves |
| `RowWrite.WriteUpdate` | src/crdt/apply/write.rs:93-154 | the row an UPDATE leaves: columns outside the staged ones and, without a signature column, the signatures stay |
| `Engine.BuildRow` | src/crdt/apply/engine.rs:339-375 | UPDATE for an existing row and INSERT for a new one both leave the merged row with the maximal row HLC |
| `Grouping.PartitionConserves` | src/crdt/apply/grouping.rs:34-79 | grouping by any key loses and duplicates nothing |
| `Grouping.Bucketize` | src/crdt/apply/grouping.rs:34-41 | the hash-map pass collects exactly the key classes, each in arrival order |
| `Grouping.OrderBuckets` | src/crdt/apply/grouping.rs:42-44 | draining the unordered map and sorting yields every class once, ascending |
| `Grouping.GroupByHlc` | src/crdt/apply/grouping.rs:34-45 | transaction groups are the HLC classes in ascending HLC order |
| `Engine.GroupByRow` | src/crdt/apply/grouping.rs:55-79 | row groups are the row classes ordered by earliest HLC, then table and key text in byte order |
| `ApplyBatch.GroupBatch` | src/crdt/apply/engine.rs:85-97 | the two passes arrange exactly the batch, one group per row text, ascending by HLC inside each group and by earliest HLC between them |
| `ApplyBatch.BatchAccounted` | src/crdt/apply/engine.rs:265-432 | after the last group every change of the batch is written or skipped exactly once |
| `Reporting.BooksBalance` | src/crdt/apply/engine.rs:265-432 | applied plus the per-change skip counters, and applied plus the skipped entries, equal the batch length |
| `Reporting.NoteAllBooks` | src/crdt/apply/row.rs:161-173 | recording skips keeps every counter equal to the number of entries with its reasons |
| `Engine.ClassifyGroup` | src/crdt/apply/engine.rs:265-285 | each change of a group is eligible or skipped with its column reason, none lost |
| `Model.KnownIff` | src/crdt/apply/engine.rs:204-247 | a text names a row exactly when its table carries the metadata columns and it parses to one bindable value for each key column, safely named, and for nothing else |
| `Model.UnknownIff` | src/crdt/apply/engine.rs:204-247 | otherwise the reason is a missing table, missing metadata or an unusable key, checked in this order |
| `Model.ClassifyMeans` | src/crdt/apply/row.rs:179-201 | a column is ruled out as unknown, reserved or local, checked in this order |
| `Model.SafeIdentifierMeans` | src/crdt/trigger/mod.rs:87-92 | a name is safe when it is not empty and each character is alphanumeric, an underscore or a hyphen |
| `Engine.SkipAll` | src/crdt/apply/row.rs:161-173 | a whole-group skip raises the counter by the group’s size and lists every change |
| `Engine.SignaturePrepareRow` | src/crdt/apply/signature_policy.rs:43-54 | the default policy accepts every eligible column with the change’s own signature, or fails on a malformed value |
| `Engine.SignatureAcceptsAll` | src/crdt/apply/signature_policy.rs:43-54 | under the default policy the accepted candidates are all eligible changes, decoded |
| `Engine.WriteStaged` | src/crdt/apply/engine.rs:318-432 | for any answers of SQLite and the policy: a new row a stored tombstone shadows is skipped whole; a write that lands is credited whole unless the hook after it fails; an insert constraint skips the row exactly when the policy says so, and every other failure fails the call |
| `Engine.ProcessEligible` | src/crdt/apply/engine.rs:287-432 | for any policy: an error or a wrong decision count fails the call, a refused row changes nothing and is noted change by change as refused, and otherwise exactly the winners among the accepted columns are written with the accepted value and signature; every eligible change is booked once, each skip for its own reason |
| `Engine.ProcessRowGroup` | src/crdt/apply/engine.rs:194-432 | one row group under any policy: when it fails, what it writes, the rows it leaves and the reason of every skip are exactly what the policy’s and SQLite’s answers call for |
| `Policy.StepIsGranted` | src/crdt/apply/engine.rs:287-316 | every column a group writes is one the policy accepted for that change of that row, with the value and signature it gave |
| `Policy.WrittenCells` | src/crdt/apply/engine.rs:339-375 | a write touches the cells of its own columns in its own row: value, HLC and signature as decided, a kept signature as it was |
| `Policy.RunObeysPolicy` | src/crdt/apply/engine.rs:109-120 | after any number of groups under any policy, a row or cell that differs from the start does so by a column some group’s policy granted: its value, its HLC, its signature |
| `Obedience.BatchObeys` | src/crdt/apply/engine.rs:75-140 | after a committed batch every surviving row is as before but for granted columns, and a row is gone only if a collected log entry is its tombstone |
| `Obedience.RefusalIsFinal` | src/crdt/apply/engine.rs:163-308 | a change the policy refuses, alone or with its row, is reported as refused and nothing else, is not written, and if it is a delete-log entry deletes nothing |
| `Obedience.ReportedRefusalsAreReal` | src/crdt/apply/engine.rs:294-308 | a change is reported as refused only if the policy refused it |
| `Engine.PlainStep` | src/crdt/apply/engine.rs:287-432 | under the accept-everything policy a group fails exactly on a malformed value and otherwise has its pure effect |
| `Engine.PlainNotes` | src/crdt/apply/engine.rs:265-432 | under the accept-everything policy a skip is structural, a last-write-wins loss or a stored tombstone |
| `ApplyBatch.PlainRuns` | src/crdt/apply/engine.rs:109-120 | under the accept-everything policy the write loop is the pure run and fails exactly on a malformed value |
| `ApplyBatch.RunGroups` | src/crdt/apply/engine.rs:109-120 | the write loop over all groups, for any policy: it fails at the first failing group; otherwise its rows and written columns are the group steps one after another, and every skip was recorded for the reason that applied when its group came up |
| `ApplyBatch.CollectInboundIds` | src/crdt/apply/engine.rs:163-191 | the collected ids are exactly those of delete-log changes not rejected |
| `ApplyBatch.PlainRejections` | src/crdt/apply/engine.rs:163-179 | under the accept-everything policy a delete-log change is rejected exactly when the core does not admit it |
| `ApplyBatch.PlainIds` | src/crdt/apply/engine.rs:163-191 | the ids that fan out are exactly those named by admitted delete-log changes, won or lost |
| `ApplyBatch.RunTransaction` | src/crdt/apply/engine.rs:102-129 | the transaction for any policy: it ends well exactly when the log is readable and no group fails, and then leaves a complete account, the collected ids and the rows after the fan-out; under the accept-everything policy exactly when the log is readable and no value is malformed |
| `ApplyBatch.ApplyToRows` | src/crdt/apply/engine.rs:75-129 | for any policy the batch commits exactly when it is not refused, the transaction begins, the log is readable, no group fails and the last hook agrees; an uncommitted call changes nothing; refusal happens exactly on a failed preflight |
| `Preflight.CheckIdentifiersAndDrift` | src/crdt/apply/preflight.rs:75-140 | the batch is refused exactly when some change is unacceptable, naming the first such change |
| `Deletes.LoadDeleteShadow` | src/crdt/apply/delete_propagation.rs:69-106 | the shadow map holds exactly the readable stored tombstones; an unreadable row fails the load |
| `Deletes.ShadowMapDecides` | src/crdt/apply/delete_propagation.rs:108-118 | looking an insert up in the shadow map decides whether a stored tombstone as new as it targets its row |
| `Deletes.PropagateOne` | src/crdt/apply/delete_propagation.rs:150-223 | one id deletes exactly the valid target that is not strictly newer than its tombstone |
| `Deletes.KilledByIff` | src/crdt/apply/delete_propagation.rs:150-223 | a named log entry takes a row exactly when its two text columns name it, its HLC is at least the row’s, and the target is the exact key of a CRDT table with safe names |
| `Deletes.Propagate` | src/crdt/apply/delete_propagation.rs:128-225 | in whatever order the ids come, only rows some named tombstone takes go, and such a row stays only if the log rows of the tombstones that take it were deleted themselves; when no tombstone targets the log exactly those rows go; no per-change counter is touched, and the spared targets are counted: only entries older than their target, and every such entry whose own row and target stay |
| `Replicas.FoldMaxCovers` | src/crdt/apply/engine.rs:448-462 | the folded maximum covers exactly the written HLCs |
| `Replicas.MaxCoversWrites` | src/crdt/apply/engine.rs:390-395 | the clock is advanced exactly when something was written, to a received timestamp at least as new as every write |
| `Engine.FoldMaxAccepted` | src/crdt/apply/engine.rs:448-462 | on parseable input the fold’s two parse calls cannot fail and the maximum stays parseable |
| `Engine.StagedAreTimestamps` | src/crdt/apply/preflight.rs:100-107 | after preflight everything selection stages is a parseable timestamp, so the expected-parse calls are unreachable |
| `Clock.NextTimestampDominates` | src/crdt/hlc.rs:259-280 | a timestamp drawn after the clock covered an HLC’s time is strictly newer than that HLC |
| `Clock.MaskedMeans` | src/crdt/hlc.rs:86-98 | masking a reading rounds it down to a multiple of the counter’s unit |
| `Replicas.Replica.ApplyRemoteChanges` | src/crdt/apply/engine.rs:75-140 | one call on the replica object, for any policy: when it is refused, commits or rolls back; committed, no cell and no row differs but by what the policy granted or a named tombstone deletes; under the accept-everything policy it commits exactly on a readable log and decodable values; uncommitted it changes neither rows nor clock; applied, the clock covers every written HLC; the clock fails after the commit exactly when a written HLC is beyond the clock’s own tolerance, which takes a physical clock that did not gain the slack between the two drift tests |
| `Replicas.DriftWasChecked` | src/crdt/hlc.rs:86-98 | an HLC the preflight’s duration test accepted is within the clock’s own test whenever the masked reading has since grown by the slack between them |
| `Replicas.ApplyThenWrite` | src/crdt/hlc.rs:259-280 | within one open the next local timestamp is strictly newer than every HLC the call wrote |
| `Clock.HlcService.AdvancePastRemote` | src/crdt/hlc.rs:259-280 | an empty string is ignored, an unparseable one refused, a timestamp beyond the clock’s masked reading plus the tolerance refused; otherwise the clock moves to at least the remote time, and never back |
| `Hlc.Newer` | src/crdt/hlc.rs:339-363 | the tolerant comparison is a strict total preorder by (time, node) |
| `Hlc.PrintedTimestampReadsBack` | src/crdt/hlc.rs:339-358 | the decimal time and hexadecimal node of a printed timestamp read back as the same numbers |
| `Hlc.UnparsableLoses` | src/crdt/hlc.rs:339-363 | a string neither part of which parses ranks zero and loses to every timestamp |
| `Hlc.LosesToAllIff` | src/crdt/hlc.rs:339-363 | a string loses to every timestamp if and only if both its parts count as zero |
| `Witness.MalformedCanCompareNewer` | src/crdt/apply/row.rs:87-91 | a malformed string whose time parses can compare newer than a timestamp |
| `Scanner.ShippedIsEligible` | src/crdt/scanner/mod.rs:439-446 | the columns the scanner ships are exactly the ones apply lets in |
| `Scanner.BuildPkJson` | src/crdt/scanner/emit.rs:42-73 | the key is printed as one JSON object in schema order |
| `Scanner.EmitRowChanges` | src/crdt/scanner/emit.rs:23-143 | one row appends its changes column by column, with the row HLC where a column has none |
| `Scanner.ScanTable` | src/crdt/scanner/mod.rs:208-352 | a scan is refused exactly on an unsafe filter name, a table without key or one without metadata, in that order; otherwise it goes over each stored row once, and a change is shipped if and only if it tells what a stored row of the table holds in a syncing column (its value, its own HLC or else the row’s, its signature) and meets the cursor and every filter: newer HLC and row text, origin node, wanted key, and a declared column that SQL finds equal |
| `Scanner.ScannedRowMeans` | src/crdt/scanner/mod.rs:295-352 | the same for one stored row |
| `Scanner.PrintedKeyBinds` | src/crdt/scanner/emit.rs:42-73 | a printed key names the same columns and binds to the same SQL values |
| `CursorScan.CursorScanIff` | src/crdt/scanner/mod.rs:295-310 | a scan since a cursor is the full scan filtered by numeric order if and only if no selected row fails the text prefilter while it has a column newer than the cursor to ship |
| `CursorScan.CursorScanRefinesFullScan` | src/crdt/scanner/mod.rs:295-310 | with dominating row HLCs and fixed-width timestamps that is always so |
| `CursorScan.TextOrderIsClockOrder` | src/crdt/hlc.rs:339-363 | on fixed-width timestamps text order is clock order |
| `CursorScan.DigitsInTextOrder` | src/crdt/hlc.rs:339-363 | on digit strings of one length text order is numeric order, in both radixes |
| `CursorScan.EmittedSince` | src/crdt/scanner/emit.rs:95-139 | the per-column re-check emits exactly what a full emission has after the cursor |
| `Witness.CursorLosesNews` | src/crdt/scanner/mod.rs:295-310 | a row at 10 scanned since 9: the scan since the cursor differs from the filtered full scan |
| `RoundTrip.FullScanReproduces` | src/crdt/scanner/emit.rs:23-143 | a full scan applied to a peer without that table’s rows or tombstones creates exactly the rows with a usable HLC, each with its syncable values, effective HLCs and signatures |
| `FirstSyncs.SyncAndRescan` | src/crdt/apply/engine.rs:75-140 | scan, apply on a peer object and scan there: the call commits exactly when every shipped change passes the preflight and the peer’s log is readable; then the table is reproduced, every other table is as it was, and the peer’s scan yields the same changes exactly when every row ships nothing or everything |
| `FirstSyncs.CommittedScan` | src/crdt/apply/engine.rs:75-140 | a committed scan of one table is one step of the peer and leaves the rows of every other table alone |
| `RoundTrip.TableRescanIff` | src/crdt/scanner/emit.rs:95-139 | scanning the peer’s table after a first sync yields the sender’s changes again, each once and up to the device id, if and only if every row of the sender’s table ships nothing or has a usable HLC in every syncable column |
| `RoundTrip.RescanIff` | src/crdt/scanner/emit.rs:95-139 | the same for one row and its reproduced copy, change by change in order |
| `RoundTrip.ScanHasNoDuplicates` | src/crdt/scanner/emit.rs:23-143 | a scan ships no change twice |
| `Witness.HalfStampedRescansDifferently` | src/crdt/scanner/emit.rs:95-109 | a row with a stamp for one of two columns whose copy ships the other one too |
| `Witness.HalfCanSync` | src/crdt/scanner/emit.rs:95-109 | that row can be synced to an empty peer |
| `RoundTrip.PeerHits` | src/crdt/apply/engine.rs:265-285 | what the peer accepts for a row is what that row ships |
| `Values.EncodeHex` | src/db/core/value.rs:104-113 | the loop’s output is the lowercase hex spelling and decodes back to the bytes |
| `Values.DecodeInvertsEncode` | src/db/core/value.rs:104-143 | decoding an encoding gives the bytes back |
| `Values.EncodeInvertsDecode` | src/db/core/value.rs:127-143 | whatever decodes is the one spelling the encoder produces |
| `Values.StoredValueRoundTrip` | src/db/core/value.rs:31-102 | a stored NULL, integer, text or BLOB comes back unchanged from its JSON form |
| `Values.BlobSpellingIsUnique` | src/db/core/value.rs:31-60 | a JSON value is stored as a given BLOB exactly when it is that BLOB’s tagged spelling |
| `Values.InboundValueMeans` | src/db/core/value.rs:31-60 | only a malformed BLOB tag is refused; booleans become 1 and 0, integers stay where they fit, and everything else is stored as its text |
| `Pagination.PaginateChanges` | src/crdt/scanner/mod.rs:380-412 | a page is the longest prefix of whole transaction groups whose sizes sum to at most the budget, at least one group: below the saturation value a page of several groups is within the budget and one more group would exceed it; more remains exactly when a group was left out |
| `Pagination.ResumeAsksForTheRest` | src/crdt/scanner/mod.rs:380-412 | resuming strictly after a page’s newest HLC asks for exactly what the page left out |
| `Pagination.CursorSplits` | src/crdt/scanner/mod.rs:380-412 | everything on the page is at most as new as the cursor, everything left is newer |
| `Pagination.Drain` | src/crdt/scanner/mod.rs:380-412 | paging to the end terminates and yields every change exactly once, ascending between pages, no transaction split, each page within budget or one group |
| `TxContext.Run` | src/db/connection_context.rs:50-136 | over any events the answers of `current_hlc()` and the observer’s deliveries are a function of the event history |
| `TxContext.OneTimestampPerTransaction` | src/db/connection_context.rs:96-114 | all calls after a transaction’s first row write answer alike, and like the last call before it |
| `TxContext.LaterTransactionsAreNewer` | src/db/connection_context.rs:96-136 | every answer in a later transaction is strictly newer than every answer in an earlier one |
| `TxContext.ReadOnlyCallsAreFresh` | src/db/connection_context.rs:89-114 | a call with no row write before it in its transaction is newer than every earlier answer |
| `TxContext.RecordedMeans` | src/db/connection_context.rs:50-63 | the set a commit publishes holds exactly the tables written since the last boundary, without those whose names begin as the crate’s own tables do |
| `TxContext.EveryDeliveryIsACommit` | src/db/connection_context.rs:66-81 | the observer is handed exactly the non-empty sets of commits that happened while it was installed |
| `TxContext.Step` | src/db/core/init.rs:145-182 | each hook event changes the context as the installed hooks do: reset before publish or discard, mark before record |
| `TxContext.ConnectionContext.CurrentOrNewTxHlc` | src/db/connection_context.rs:96-114 | a pinned timestamp is reused, any other call draws a strictly newer one |
| `TxContext.ConnectionContext.CommitHook` | src/db/core/init.rs:149-158 | a commit clears the slot and hands a non-empty change set to an installed observer |
| `TxContext.ConnectionContext.RollbackHook` | src/db/core/init.rs:160-168 | a rollback clears the slot and forgets the changes |
| `TxContext.TxScopedHlc` | src/db/core/execute/mod.rs:75-96 | the stamp of a statement is the slot’s timestamp, and the shared clock covers it |
| `WriteTx.RunWrite` | src/database/write.rs:368-392 | whatever calls a closure issues and whatever errors it ignores: every call replies, reaches SQLite and aborts exactly as its own inputs, the bytes charged before it and the abort flag call for; parameters of writes that reach SQLite total at most the limit, after an abort or a crossed limit no later write reaches SQLite, and only an unaborted Ok commits |
| `WriteTx.LimitIsExactUnlessSaturated` | src/database/write.rs:325-336 | the saturating check enforces the limit on true totals exactly when the limit is below the saturation value or is not exceeded |
| `WriteTx.FoldIsSaturatedTotal` | src/database/write.rs:484-506 | the saturating fold over parameters is the saturated true total, or fails on an unconvertible parameter |
| `WriteTx.UnsizedWeighsAll` | src/database/write.rs:490-496 | a parameter of no known size fits no transaction |
| `WriteTx.StoredSizes` | src/database/write.rs:484-506 | text and BLOB count their length, a number eight bytes, NULL nothing |
| `WriteTx.CrdtTransaction.RunStatement` | src/database/write.rs:219-250 | a statement reaches SQLite if and only if the transaction is open, it parses, it is a query or its convertible parameters fit the remaining budget and the transformer takes it, and the schema change begins and the guard installs; which reply it gets, what is charged and when it aborts are exact as well |
| `WriteTx.CrdtTransaction.Prepare` | src/database/write.rs:255-278 | a statement is ready exactly when it parses and is a query or a write that fits and is transformed; the reason of a refusal and the charge are exact |
| `WriteTx.CrdtTransaction.RunPrepared` | src/database/write.rs:227-249 | from a prepared statement to SQLite, the reply and the abort flag, guarded or not, with or without a schema change |
| `WriteTx.RepliesAreUnique` | src/database/write.rs:219-250 | exactly one reply fits a call’s inputs |
| `WriteTx.SaturationDecidesAlike` | src/database/write.rs:325-336 | a saturated byte count decides every call as the true count does |
| `WriteTx.RepliesMean` | src/database/write.rs:219-250 | a success reached SQLite and aborts nothing, an interrupt aborts, a refusal for size has overcharged |
| `WriteTx.CrdtTransaction.CopyVerbatim` | src/database/write.rs:187-214 | the same for a verbatim copy: it reaches SQLite if and only if the write is guarded and in schema mode, the statement parses and is a rebuild copy, its parameters fit, and schema change and guard start |
| `WriteTx.CrdtTransaction.Charge` | src/database/write.rs:325-336 | bytes stay charged when the limit is crossed; an unconvertible parameter charges nothing |
| `WriteTx.CrdtTransaction.Finish` | src/database/write.rs:283-303 | an interrupt, or a failure after which SQLite left the transaction, sets the abort flag |
| `Migrations.ExactlyOnceInOrder` | src/db/migrations/engine.rs:127-218 | for any interleaving of any number of openers no body is committed twice, each source runs in its own order, crate-owned bodies before consumer-owned ones |
| `Migrations.ExecutedMeansJournaled` | src/db/migrations/engine.rs:179-218 | a body is committed only for a name not journaled at the start, and its digest is journaled with it |
| `Migrations.JournaledMeansExecuted` | src/db/migrations/engine.rs:179-218 | a journal never loses or changes an entry and gains one only through a committed body |
| `Migrations.OkMeansComplete` | src/db/migrations/engine.rs:127-165 | once any opener has finished, both journals hold exactly their source’s names with their digests, and stay so |
| `Migrations.CountsAddUp` | src/db/migrations/engine.rs:157-164 | the counts all openers report add up to the bodies committed |
| `Migrations.CountsAddUpBySource` | src/db/migrations/engine.rs:157-164 | and source by source |
| `Migrations.OpenerFinishes` | src/db/migrations/engine.rs:127-218 | over sound journals an opener whose own turns meet no lock and no failing body has finished after exactly one turn per migration and four more, whatever other openers do in between and whatever befalls them |
| `Migrations.StepKeepsInv` | src/db/migrations/engine.rs:127-218 | one step of any opener keeps the invariant of the shared journals |
| `Migrations.Connection.ReconcileAndApply` | src/db/migrations/engine.rs:127-165 | alone, a pass ends Ok exactly when the journal is consistent, every name loads and every pending body succeeds; then it has committed exactly the pending bodies in source order, counted them, and the journal is complete; otherwise it has committed a prefix of them and reports the name that does not load or the unjournaled body that failed; an inconsistent journal is refused untouched |
| `Migrations.PendingIsWhatIsMissing` | src/db/migrations/engine.rs:157-164 | the pending bodies are exactly those whose names are not journaled |
| `Migrations.Connection.CheckJournal` | src/db/migrations/engine.rs:135-155 | the check passes exactly when every journaled name is still in the source with its content, and otherwise reports the first broken entry by name: gone from the source, not loading, or drifted |
| `Migrations.Connection.RunMigrations` | src/db/migrations/engine.rs:57-89 | the call ends Ok exactly when both passes succeed; it has then committed the pending crate-owned bodies and after them the pending consumer-owned ones, and reports the two numbers; otherwise it reports why the first failing pass failed |
| `Preimage.LengthPrefixed` | src/crdt/apply/preimage.rs:70-78 | the buffer can be parsed back to its parts when each is shorter than 2^32 bytes |
| `Preimage.PreimageIsUnambiguous` | src/crdt/apply/preimage.rs:38-50 | two preimages are equal exactly when their five parts are |
| `Preimage.PreimageReadsBack` | src/crdt/apply/preimage.rs:38-50 | table, row key, column, HLC and canonical value can be read back from a preimage, in this order |
| `Preimage.PreimagesAgreeIff` | src/crdt/apply/preimage.rs:38-50 | over an injective serializer two changes share a preimage exactly when their fields agree and their values differ at most in key order |
| `Preimage.CanonicalizeIff` | src/crdt/apply/preimage.rs:52-68 | two values canonicalize alike exactly when they differ only in object key order at any depth |
| `Preimage.CanonicalizeIsIdempotent` | src/crdt/apply/preimage.rs:52-68 | canonicalization is idempotent |
| `Preimage.CanonicalFormIsTheSameValue` | src/crdt/apply/preimage.rs:52-68 | a canonical form is well-formed and differs from its value at most in key order |
| `InsertRewrite.Insert.TransformInsert` | src/crdt/insert_transformer.rs:233-316 | the statement is accepted exactly when supported and is then rewritten in place; a refused one keeps its rows and its conflict clause |
| `InsertRewrite.Insert.RejectCallerMetadata` | src/crdt/insert_transformer.rs:128-146 | the SET clause is refused exactly when it names a metadata column in the crate’s own spelling |
| `InsertMeaning.AssignsMetadataMeans` | src/crdt/insert_transformer.rs:103-146 | the names refused are exactly those of the three metadata columns |
| `InsertMeaning.AssignedNamesMean` | src/crdt/insert_transformer.rs:82-101 | a plain target assigns the last part of its name, a tuple that of each of its names |
| `InsertRewrite.Insert.BuildColumnHlcsJsonSet` | src/crdt/insert_transformer.rs:194-221 | the built call re-stamps the touched columns in order |
| `InsertMeaning.StampedValuesMean` | src/crdt/insert_transformer.rs:233-316 | for distinct columns and rows of matching arity the rewritten VALUES statement denotes the same rows with the HLC column set to the stamp, named by the caller or not |
| `InsertMeaning.StampedSelectMeans` | src/crdt/insert_transformer.rs:69-76 | the same for the items of a SELECT source |
| `InsertMeaning.DistinctIff` | src/crdt/insert_transformer.rs:43-55 | the rewritten column list still names each column once exactly when the caller did not spell the HLC column in another case |
| `Witness.MisspeltHlcColumnIsNamedTwice` | src/crdt/insert_transformer.rs:43-55 | a column list with the HLC column in another case, which the rewriter extends to name it twice |
| `InsertMeaning.ArityIff` | src/crdt/insert_transformer.rs:59-67 | a rewritten row fits its column list exactly when it did before, or in two misfits the rewriter repairs: one value too many with the HLC column unnamed, or one too few with it named last |
| `Witness.MisfittingRowsAreRepaired` | src/crdt/insert_transformer.rs:59-67 | a row of each kind: the surplus value is overwritten, the missing one is filled with the stamp |
| `InsertMeaning.RestampIff` | src/crdt/insert_transformer.rs:158-221 | false of the code as promised; for the columns of a table under SQL’s case folding and a nullable stamp column, the SET clause re-stamps exactly the columns it assigns if and only if each assigned column is at that stamp already, or the stored stamps are not NULL and the column is assigned in its own spelling |
| `InsertMeaning.StampsAfterMeans` | src/crdt/insert_transformer.rs:194-221 | NULL stamps stay NULL; otherwise a stamp is replaced exactly for the spellings the caller assigns |
| `Witness.NullStampsStayNull` | src/crdt/insert_transformer.rs:194-221 | an assigned column of a row whose stamps are NULL is not stamped |
| `Witness.OtherCaseIsNotStamped` | src/crdt/insert_transformer.rs:158-173 | a column assigned in another case keeps its stamp while a stamp for the other spelling appears |
| `InsertMeaning.SetClauseMeans` | src/crdt/insert_transformer.rs:158-186 | the caller’s assignments stay as a prefix and decide every column except the row HLC and the column HLCs, which are always the rewriter’s, even where the caller assigned them in another case: the stamp, and a json_set over the stored column HLCs |
| `InsertMeaning.SignaturesStayIff` | src/crdt/insert_transformer.rs:148-157 | the rewritten SET clause leaves the signatures alone exactly when the caller does not assign them in any case |
| `InsertMeaning.RefusalIff` | src/crdt/insert_transformer.rs:103-146 | refusing what is spelled as metadata is refusing what SQL assigns as metadata if and only if a caller that misspells a metadata column also names one correctly |
| `Witness.MisspeltSignaturesAreAssigned` | src/crdt/insert_transformer.rs:103-146 | a signature column in another case is assigned in SQL and not refused |
| `InsertMeaning.TouchedMeans` | src/crdt/insert_transformer.rs:158-173 | the touched names are exactly the assigned ones that are not spelled as metadata |

## Left out

- SQLite, SQLCipher, the SQL parser and the JSON library: tables are maps, an AST is a small datatype, JSON parsing and printing are parameters.
- The clock's internals: a drawn timestamp is newer than all before it and an accepted remote one moves the clock to at least its time; the physical clock is a parameter and the counter's 64-bit bound is not modelled. The preflight's drift test compares durations and the clock's compares its own units; the conversion between them is a parameter, so agreement is stated up to a slack.
- Real numbers, integers beyond 64 bits other than as text, non-UTF-8 text, and signatures over the older base64 spelling of BLOBs.
- Column defaults and NOT NULL columns: a column no change set reads as NULL, and a failed constraint is an outcome the environment picks. A delete-log row without its two text columns cannot be stored, so the read error of the fan-out on such a row does not arise.
- Primary keys that are spelled differently as JSON values but bind to the same SQL value: the model keeps them as different rows.
- Table names in another case: SQLite finds the table of a change to "Items" under the name items, while the delete log and its shadow map are matched by exact spelling. The model looks tables up by exact spelling and skips such a change as naming a missing table.
- Corrupt metadata JSON in stored rows: the column HLC and signature maps are maps.
- The SQL a policy runs in its own hooks; a hook here succeeds or fails.
- Local writes on the apply theorems’ replicas: triggers raise the row HLC on their own and are not part of this model.
- Retention pruning of the delete log, generated trigger text, schema changes inside a guarded write, file locking and opening.
- Legacy schema renames and the bookkeeping that precedes the first migration pass.
- Deletes.Propagate: an entry that spares a row is counted or not when another entry of the batch deletes that row or the entry itself, because that depends on the iteration order of a hash set.
- Hlc.Newer: says nothing beyond the order on ranks, because the comparison is total on malformed strings by design.
- InsertMeaning.RestampIff: covers column names that are one plain JSON path label; a name with a dot, a bracket or a double quote addresses something else inside the metadata.
- InsertMeaning.StampedSelectMeans: speaks of the projected items of a row and not of DISTINCT, ORDER BY or grouping of the query, which stay as they are.
- TxContext.Run: poisoned mutexes, an uninitialized clock and a panicking observer are not modelled.
- WriteTx.RunWrite: a write is whatever the parser does not read as a query; an adaptive closure is the list of calls it turned out to make; the SQL of the savepoint around a schema change is one begin and one complete outcome.
- TxContext.TxScopedHlc: the clock's refusal of a timestamp it issued itself, which takes a physical clock that fell back by the whole tolerance, is not modelled.
