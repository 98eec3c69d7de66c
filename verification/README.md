# Verified models of the brain store, indexer and coordination code

This project models the stateful core of the repository in Dafny and proves what the code and its documentation
promise about it. `dafny verify dfyconfig.toml` checks everything. There is one module per source file, or a few
for the larger ones:

- `ContainedPath`: the lexical gate that every stored path passes (`lib/util/contained-path.js`).
- `StateRoot`, `StateStore`, `StateHistory`, `StateSafety`, `StateReplay`, `StateTombstones`, `StateOperations`: the
  multi-machine canonical state root (`lib/brain/canonical-state-root.js`). `StateRoot` gives each operation as a
  function of one key's directory, `StateStore` runs the operations on a store object that they update in place, and
  the others prove what an operation promises its caller and what holds over whole runs by any machines.
- `Jsonl`, `JsonlRecords`, `Chunker`, `ChunkReasons`, `TranscriptIndex`, `IndexDrafts`, `IndexRuns`, `IndexGap`: the
  resumable reader, the segmenter, the indexing of one transcript, and every interleaving of several indexers
  (`lib/brain/index-transcripts.js`, `lib/brain/chunker.js`).
- `AssetTransport`, `AssetBisection`: the batch planner and the 413 splitter (`lib/brain/asset-transport.js`).
- `CanonicalWrite`: writes to the canonical git ref, with other processes moving the repository between any two
  git commands (`lib/brain/canonical-write.js`).
- `SecretGuard`: the glob-to-regex rewriting as string passes, and the skip decision (`lib/brain/secret-guard.js`).
- `CollabSession`: the autonomous player/coach loop (`scripts/collab-session.ts`).
- `PortRegistry`, `Semaphore`, `ManifestLock`, `MemoryTrim`: the port allocator, the counting semaphore, the
  promise-chain mutex and the in-place trimming of MEMORY.md.
- `Basics`: bytes and options.

SHA-256, JSON parsing, the outcome of each git command, the machine's free ports, the server's answers and the
results of the player and coach processes are parameters: every theorem holds for all of them. Collision freedom of the
hash is assumed only where it is named, and only of the bodies that occur in the run.

## What came out differently from the documentation

- Draining a replay queue can resurrect a deleted file. The drain drops queued files by their path as spelled in
  the queue (`lib/brain/canonical-state-root.js:375`), while a publish canonicalizes it
  (`lib/brain/canonical-state-root.js:280`), so a queued `./a` lifts the tombstone of `a`.
  `StateTombstones.TombstonesKeptExactly` and `StateTombstones.QueueKeepsTombstonesExactly` say exactly which items and
  which queues keep every tombstone, over all stores that runs produce.
- A drain with a current lease can still leave items behind, namely those with a rejected path
  (`StateReplay.NothingRemainsExactly`, `StateReplay.RejectedItemRemains`).
- The containment gate is not idempotent: it accepts `./C:/x` and returns `C:/x`, which it then rejects. An index
  with such a path cannot be materialized (`ContainedPath.GateIsIdempotentExactly`, `ContainedPath.DriveFailsReentry`,
  `StateSafety.DrivePathStopsProjection`, `StateSafety.EveryCommitRebuilds`).
- Fencing tokens do not only ever increase: releasing restarts them at 1. `StateSafety.HoldsExactly` says exactly who
  passes the fence after every run, and `StateSafety.EveryLeaseReturns` that every lease can come to pass it again.
- The compare-and-swap on the canonical ref does not make every commit a child of the commit that the plan saw. It does
  exactly when the ref still had the plan's value when the worktree was added, and so whenever the others only
  fast-forward it (`CanonicalWrite.Git.WriteToCanonicalRef`, `CanonicalWrite.FastForwardsMakeTheSwapSound`,
  `CanonicalWrite.MovingBackDefeatsTheSwap`).
- Between two slashes `**` stands for one or more segments, not for zero or more. `SecretGuard.DoubleStarExactly` says
  which paths that misses, for every text around it.
- A last record that is valid but not yet terminated is consumed, so bytes added to it later are read as a record of
  their own. `Jsonl.ResumesExactly` gives the exact condition under which resuming agrees, for every reader.
- The allocation lock is released before the scan ends. `PortRegistry.OverlappingAllocations` says exactly when two
  first allocations that overlap share a port or lose one.
- Chunk numbers can get a gap: with rewritten files and commits in one millisecond an indexer can meet its own record
  again after having read more rows (`IndexGap.RecordsCanComeBack`). `IndexRuns.LaidExactly` says exactly when the rows
  stay gapless.
- Trimming MEMORY.md can remove hand-written text: a heading of one hash, or of more than three, does not end an
  auto-extracted block (`MemoryTrim.OtherHeadingsEndNoBlock`).
- An error in the player's turn overwrites the feedback of the previous round's iteration
  (`CollabSession.Session.RunAndRoute`).

## Model

| member | source | states |
|---|---|---|
| `ContainedPath.TraversesExactly` | lib/util/contained-path.js:42-47 | the four substring tests together mean exactly: some slash-separated segment is `..` |
| `ContainedPath.ContainExactly` | lib/util/contained-path.js:27-58 | a path is accepted if and only if it is not blank, holds no NUL, starts at no root or drive, has no `..` segment and names something; the result joins exactly its proper segments |
| `ContainedPath.ContainedIsNormal` | lib/util/contained-path.js:53-57 | every path the gate returns is in normal form: no empty, `.` or `..` segment, no backslash, NUL or outer slash |
| `ContainedPath.NormalReentry` | lib/util/contained-path.js:27-58 | the gate on a normal-form path returns it unchanged, except that blank and drive-like ones are rejected |
| `ContainedPath.GateIsIdempotentExactly` | lib/util/contained-path.js:27-58 | the gate accepts its own answer if and only if that is neither blank nor drive-like |
| `ContainedPath.DriveFailsReentry` | lib/util/contained-path.js:38-41 | for every drive letter and canonical name: `./C:/name` is accepted as `C:/name`, and `C:/name` is rejected |
| `ContainedPath.DottedSpelling` | lib/util/contained-path.js:41-57 | every normal-form path has a second accepted spelling, `./` in front, with the same canonical path |
| `StateStore.AcquireLease` | lib/brain/canonical-state-root.js:184-196 | takes the store to the state of Acquire, whose run properties are TokensIncrease and OldLeaseIsFenced; other keys are untouched |
| `StateStore.ReleaseLease` | lib/brain/canonical-state-root.js:198-204 | the lease file goes, or another machine's lease refuses; other keys are untouched |
| `StateOperations.AcquireExactly` | lib/brain/canonical-state-root.js:184-196 | granted if and only if there is a clock and no other machine's lease is still running; the returned lease is on file, passes the fence at once and carries the next token |
| `StateOperations.ReleaseExactly` | lib/brain/canonical-state-root.js:198-204 | goes through if and only if the lease is the caller's own or missing |
| `StateStore.ApplyContents` | lib/brain/canonical-state-root.js:279-286 | writes blobs up to the first rejected path, never over an existing digest, and enters files and lifts tombstones under canonical paths |
| `StateStore.ApplyDeletions` | lib/brain/canonical-state-root.js:288-294 | removes the entry and leaves a tombstone of the next revision for each canonical path; fails exactly if a path is rejected |
| `StateStore.PublishState` | lib/brain/canonical-state-root.js:266-299 | the update in place equals Publish, with its three refusals and with the blobs that a rejected path leaves behind |
| `StateOperations.PublishExactly` | lib/brain/canonical-state-root.js:266-299 | accepted if and only if the base is the current revision, machine and token are those on file and no path is rejected; any other base is refused as stale with the area as it was, whoever holds the lease; the returned index is the one then on file |
| `StateOperations.StaleWriterIsRefused` | lib/brain/canonical-state-root.js:266-270 | over every run: once anything has been committed on a key, a publish on the revision from before is refused as stale and changes nothing |
| `StateOperations.BasesIncrease` | lib/brain/canonical-state-root.js:266-299 | over every run: the bases of accepted publishes on a key strictly increase, so no two share one |
| `StateOperations.WritesLeaveEntries` | lib/brain/canonical-state-root.js:279-294 | an accepted publish leaves for each file that has the last word on its path an entry of its digest and length under the writer's name, and no tombstone |
| `StateOperations.OtherPathsStay` | lib/brain/canonical-state-root.js:276-294 | a publish changes nothing on paths that it neither writes nor deletes |
| `StateOperations.StoredKeeps` | lib/brain/canonical-state-root.js:143-151 | a blob on file is never rewritten |
| `StateStore.RollbackState` | lib/brain/canonical-state-root.js:343-352 | the update in place equals Rollback: the old entries and tombstones under the next revision, only for the lease holder |
| `StateOperations.RollbackExactly` | lib/brain/canonical-state-root.js:343-352 | goes through if and only if the caller holds the lease; what it returns is what is then on file, the old entries and tombstones under the next revision |
| `StateStore.LiveFiles` | lib/brain/canonical-state-root.js:374-376 | keeps, in order, the queued files whose path as spelled has no tombstone |
| `StateOperations.LiveByPosition` | lib/brain/canonical-state-root.js:374-376 | the live files are exactly the queued ones without a tombstone, each once, in order |
| `StateStore.DrainOne` | lib/brain/canonical-state-root.js:372-394 | one queue item rebased on the current revision: dropped, applied or remaining as DrainItem says, one key changed |
| `StateStore.DrainReplay` | lib/brain/canonical-state-root.js:370-397 | the whole drain equals Drain, and the two returned lists are the queue's applied and remaining items in order |
| `StateStore.WriteEntries` | lib/brain/canonical-state-root.js:314-323 | in any enumeration order: succeeds exactly if every entry is contained, stored and uncorrupted, and else reports a faulty entry's own fault; on a settled index (as every run's is) the checkout has all bodies in place, or after an error those of some entries, and nothing else has changed |
| `StateStore.FaultExactly` | lib/brain/canonical-state-root.js:315-318 | what each reported fault says of its entry, and none if and only if the entry is readable |
| `StateStore.RemoveTombstoned` | lib/brain/canonical-state-root.js:325-334 | succeeds exactly if every tombstone's path is accepted; on a settled index exactly the tombstoned files that were present are removed and reported, or after an error some of them are removed |
| `StateStore.MaterializeState` | lib/brain/canonical-state-root.js:308-337 | succeeds exactly if the area is materializable; on a settled index the checkout is then the projection and the receipt lists what was written and removed, and after an error it is half projected, with the fault that stopped it |
| `StateHistory.PublishedSound` | lib/brain/canonical-state-root.js:279-296 | publishing on a sound commit gives a sound commit of the overlaid files: entries and tombstones disjoint, digests stored, tombstone revisions bounded |
| `StateHistory.StoredSound` | lib/brain/canonical-state-root.js:143-151 | content-addressed writing keeps every blob under its own hash, loses none, and stores every body |
| `StateHistory.StepKeeps` | lib/brain/canonical-state-root.js:184-397 | acquire, release, publish, rollback and drain each keep the invariant of every key |
| `StateHistory.RunKeeps` | lib/brain/canonical-state-root.js:184-397 | so does every legal run by any machines over any keys |
| `StateHistory.DrainErases` | lib/brain/canonical-state-root.js:370-397 | the recorded history is only an annotation: a history step changes the store exactly as the drain does |
| `StateSafety.EveryCommitRebuilds` | lib/brain/canonical-state-root.js:308-352 | after every legal run the lease holder can roll back to every index ever committed, and an empty checkout then becomes the published files byte for byte |
| `StateSafety.CurrentIndexProjects` | lib/brain/canonical-state-root.js:308-337 | after every legal run the current index materializes exactly if no path is blank or drive-like; every published file is in place and no tombstoned one is |
| `StateSafety.DrivePathStopsProjection` | lib/brain/canonical-state-root.js:279-320 | for every drive letter: acquiring a lease and publishing to `./C:/name` is accepted and leaves an index that cannot be materialized |
| `StateSafety.NoBlobIsEverMissing` | lib/brain/canonical-state-root.js:266-299 | without any assumption on the hash: every entry of every commit has a stored, uncorrupted blob, and commit i has revision i |
| `StateSafety.HoldsExactly` | lib/brain/canonical-state-root.js:184-204 | over every run: a machine and token pass the fence if and only if the last grant since the last release that went through was to that machine and the token is the number of grants since then |
| `StateSafety.TokensIncrease` | lib/brain/canonical-state-root.js:184-196 | between two releases that go through, tokens of successive grants strictly increase |
| `StateSafety.OldLeaseIsFenced` | lib/brain/canonical-state-root.js:271-274 | once another machine has been granted the lease, and until the old one asks for it again, whatever else happens, every publish and rollback of the old one is refused and index and blobs stay as they were |
| `StateSafety.OldTokenIsFenced` | lib/brain/canonical-state-root.js:271-274 | an earlier token of the same machine stays refused until a release goes through |
| `StateSafety.OnlyTheHolderWrites` | lib/brain/canonical-state-root.js:266-299 | an index changes only by publish, rollback or drain under the machine and token on file, by one revision for a publish or rollback |
| `StateSafety.DrainNeedsTheLease` | lib/brain/canonical-state-root.js:370-397 | a drain without the key's current lease leaves that key's whole area alone |
| `StateSafety.ReleaseForgetsTheToken` | lib/brain/canonical-state-root.js:192-204 | a released lease passes the fence again whenever the grants since then are as many as its token, the last to its machine |
| `StateSafety.EveryLeaseReturns` | lib/brain/canonical-state-root.js:184-204 | for every lease that was ever held there is a run of its own machine alone after which it passes again |
| `StateReplay.FateOfAnItem` | lib/brain/canonical-state-root.js:372-394 | dropped exactly if nothing is live and nothing deleted; applied exactly if there is work, the lease is current and all paths pass; else remaining |
| `StateReplay.NothingRemainsExactly` | lib/brain/canonical-state-root.js:370-397 | with a current lease for every key, nothing remains if and only if every item, as the drain finds it, has no work left or no rejected path |
| `StateReplay.NothingRemains` | lib/brain/canonical-state-root.js:370-397 | in particular if no queued path is rejected |
| `StateReplay.RejectedItemRemains` | lib/brain/canonical-state-root.js:388-394 | a write to a rejected path stays in the queue under any lease, unless that spelling is tombstoned |
| `StateReplay.FencedDrainIsIdle` | lib/brain/canonical-state-root.js:370-397 | with a lease current for no queued key, the store is unchanged |
| `StateReplay.SelectKeepsOrder` | lib/brain/canonical-state-root.js:370-397 | applied, remaining and dropped split the queue, each in queue order |
| `StateReplay.CanonicalItemKeepsTombstones` | lib/brain/canonical-state-root.js:374-387 | draining an item that is spelled canonically, or holds a rejected deletion, lifts no tombstone of any key |
| `StateReplay.TombstonesOnlyGrow` | lib/brain/canonical-state-root.js:370-397 | so a queue of such items only adds tombstones, in any store at all |
| `StateReplay.OtherSpellingLifts` | lib/brain/canonical-state-root.js:374-387 | with a current lease and every rejected path tombstoned, an item that spells a path otherwise than the gate lifts that path's tombstone |
| `StateTombstones.TombstonesAreCanonical` | lib/brain/canonical-state-root.js:288-294 | after every legal run every tombstone is a path in normal form, which the gate sends to itself or rejects |
| `StateTombstones.TombstonesKeptExactly` | lib/brain/canonical-state-root.js:370-397 | draining an item keeps every tombstone after every legal run, whoever drains it, if and only if each accepted file is spelled canonically or deleted by the same item, or a deletion is rejected, or a file is rejected whose path is no canonical one |
| `StateTombstones.QueueKeepsTombstonesExactly` | lib/brain/canonical-state-root.js:370-397 | at no point of draining a queue has any tombstone of any key gone, after every legal run and whoever drains it, if and only if each of its items meets that condition |
| `StateReplay.OtherSpellingResurrects` | lib/brain/canonical-state-root.js:374-387 | replaying one write under another spelling of a tombstoned path is applied, lifts the tombstone and makes the path an entry again |
| `StateReplay.DottedReplayResurrects` | lib/brain/canonical-state-root.js:374-387 | with the repository's own gate, a queued `./p` is such a spelling of every canonical `p` |
| `StateReplay.NoSilentAbsence` | lib/brain/canonical-state-root.js:288-294 | in a run without rollbacks a path once known stays an entry or a tombstone |
| `StateReplay.DeletionsLeaveTombstones` | lib/brain/canonical-state-root.js:288-294 | an accepted publish marks every path it deletes with its machine and revision, also one it writes at the same time |
| `Jsonl.ParseConsumableJsonl` | lib/brain/index-transcripts.js:636-671 | the cursor loop computes the record-by-record reading Parse |
| `JsonlRecords.ParseDescribes` | lib/brain/index-transcripts.js:636-671 | for a buffer written as newline-free records and a last one: exactly one JSON value per non-blank record that parses, in order; invalid if and only if some non-blank record does not parse; partial if and only if that is the unterminated last one; consumed up to the end, or to the last newline if partial |
| `JsonlRecords.EveryBufferIsWritten` | lib/brain/index-transcripts.js:644-646 | every buffer is of that form |
| `Jsonl.ConsumesAllUnlessPartial` | lib/brain/index-transcripts.js:786-789 | the whole buffer is consumed exactly if the last record is not partial, so the substituted offset equals the consumed one |
| `Jsonl.ConsumedPrefixStandsAlone` | lib/brain/index-transcripts.js:636-671 | the consumed prefix read on its own gives the same messages |
| `Jsonl.TwoInstalments` | lib/brain/index-transcripts.js:772-786 | resuming where the first reading stopped gives the messages and the offset of reading at once, for every reader, if what was consumed is empty or ends with a newline or the added bytes are empty or start with one; a record that broke off in the middle is no exception |
| `Jsonl.ResumesExactly` | lib/brain/index-transcripts.js:644-656 | for every reader: resuming agrees if and only if that condition holds, or the two halves of the record that the cut divides read as one record what they read as two and, if unterminated, neither is malformed |
| `Jsonl.CleanCutExactly` | lib/brain/index-transcripts.js:644-656 | for a reader that takes every non-blank record, with no blank half, resuming agrees at clean cuts only |
| `Jsonl.ManyInstalments` | lib/brain/index-transcripts.js:636-671 | any number of fully read segments, each meeting the exact condition, hold the messages of their concatenation |
| `Chunker.Dominant` | lib/brain/chunker.js:174-188 | the tool with more than half of the uses, and none exactly if there is no such tool |
| `Chunker.CountTools` | lib/brain/chunker.js:175-182 | the two counting loops give each tool's count and the total |
| `Chunker.DominantToolType` | lib/brain/chunker.js:174-188 | counting and searching finds the majority tool |
| `Chunker.DetectBoundary` | lib/brain/chunker.js:207-279 | the six rules in priority order, with the counts of the tool-shift rule made by loops |
| `ChunkReasons.BoundaryExactly` | lib/brain/chunker.js:207-279 | the boundary at a message is the first signal that fires, each spelled out on the messages (the length, the time difference, the user's text, the shares of all tool uses, the files touched), and there is none if and only if none fires |
| `ChunkReasons.SegmentationExactly` | lib/brain/chunker.js:434-442 | spans are the segmentation if and only if they tile the transcript, no signal fires inside one, and the first that fires at its end is its reason |
| `ChunkReasons.WindowExactly` | lib/brain/chunker.js:208-211 | a span that is not the last has reason fixed window if and only if it is as long as the window |
| `ChunkReasons.PlainTranscript` | lib/brain/chunker.js:207-279 | a transcript without signals is cut into full windows and a remainder |
| `ChunkReasons.CountIsMultiplicity` | lib/brain/chunker.js:175-182 | a tool's count is its multiplicity among all tool uses |
| `Chunker.FinalizeChunk` | lib/brain/chunker.js:346-432 | the row for a run of messages: count, tokens, tool counts, files, reason, number |
| `ChunkReasons.RowExactly` | lib/brain/chunker.js:346-432 | the row counts exactly its span's messages, tokens, tool uses and files, under the span's reason |
| `Chunker.ChunkMessages` | lib/brain/chunker.js:330-452 | the walk emits one row per span of the segmentation, each with the final total |
| `Chunker.SegmentationIsSound` | lib/brain/chunker.js:207-279 | spans tile the transcript, are non-empty and at most the window, and hold no over-threshold gap, skill invocation or phase marker after their first message |
| `Chunker.SegmentationIsUnique` | lib/brain/chunker.js:434-442 | it is the only tiling into maximal runs |
| `Chunker.AppendingKeepsChunks` | lib/brain/chunker.js:434-442 | appending messages leaves every chunk but the last unchanged |
| `Chunker.ChunkingConserves` | lib/brain/chunker.js:346-432 | the chunks' message, token and per-tool counts add up to the transcript's |
| `TranscriptIndex.NextIndex` | lib/brain/index-transcripts.js:833-836 | one past the largest number in use |
| `TranscriptIndex.InsertedAt` | lib/brain/index-transcripts.js:838-908 | which rows exist after the insertion, with which chunk under which number |
| `TranscriptIndex.TranscriptDb.NextChunkIndex` | lib/brain/index-transcripts.js:833-836 | the fold over the rows in any order computes NextIndex |
| `TranscriptIndex.TranscriptDb.InsertRows` | lib/brain/index-transcripts.js:887-920 | fails exactly if an id is taken; else all chunks are inserted and every row, old and new, carries the new total |
| `TranscriptIndex.TranscriptDb.BackfillTotals` | lib/brain/index-transcripts.js:912-920 | sets every total to the number of rows and changes nothing else |
| `TranscriptIndex.TranscriptDb.PrecomputeMessages` | lib/brain/chunker.js:126-162 | the user and assistant messages among the parsed lines, in order |
| `IndexDrafts.PrecomputedByPosition` | lib/brain/chunker.js:126-162 | exactly one message per line that is a user or assistant message, in order |
| `TranscriptIndex.TranscriptDb.CommitEmpty` | lib/brain/index-transcripts.js:800-816 | the transaction without messages equals Commit |
| `TranscriptIndex.TranscriptDb.CommitChunks` | lib/brain/index-transcripts.js:873-933 | the inserting transaction equals Commit, or leaves the database as it was |
| `TranscriptIndex.TranscriptDb.PrepareDraft` | lib/brain/index-transcripts.js:756-843 | everything before the transaction, replacement detection and offsets included, equals Prepare |
| `IndexDrafts.ForcedExactly` | lib/brain/index-transcripts.js:768-790 | a forced indexing is refused if and only if some record of the file is malformed, and else replaces by the whole file |
| `IndexDrafts.UnforcedExactly` | lib/brain/index-transcripts.js:768-819 | an indexing does nothing if and only if there are no new bytes, or no valid new record and the last one broke off or some are malformed without a replacement; else it drafts up to the end, or the last newline if the last record broke off |
| `IndexDrafts.ReplacementExactly` | lib/brain/index-transcripts.js:765-771 | where the hash tells prefixes apart, the file counts as replaced if and only if it no longer begins with the bytes that the record stands for |
| `TranscriptIndex.TranscriptDb.IndexFile` | lib/brain/index-transcripts.js:756-935 | one uninterrupted indexing: its outcome and the new record and rows |
| `IndexRuns.InsertedIsLaid` | lib/brain/index-transcripts.js:833-843 | inserting chunks at the next free number lays them out behind the others: no id is taken, and the rows are all chunks in order, numbered 0..n-1, with total n |
| `IndexRuns.LaidExactly` | lib/brain/index-transcripts.js:824-920 | over every interleaving of appends, rewrites, forced and other indexings, from any database whose rows are laid out: they stay so at every point if and only if no commit that is not a replacement meets its own record with a first number beyond the number of rows |
| `IndexRuns.RunKeeps` | lib/brain/index-transcripts.js:756-933 | no commit does, and the invariant is kept, in every run in which no commit brings back a record in flight |
| `IndexRuns.RowsAreTheChunks` | lib/brain/index-transcripts.js:756-933 | under exactly that condition the rows are the chunks of the segments committed since the last replacement, in order, numbered 0..n-1 with total n; they account for those segments' messages, tokens and tool uses; the record says n and hashes the prefix it was made from |
| `IndexRuns.ClockMakesFresh` | lib/brain/index-transcripts.js:679-703 | if the clock advances between commits, no commit brings back a record in flight |
| `IndexRuns.StaleRowsLeaveAGap` | lib/brain/index-transcripts.js:824-920 | a commit that meets the guard goes through and leaves rows that no list of chunks lays out |
| `IndexGap.RecordsCanComeBack` | lib/brain/index-transcripts.js:756-933 | for every reader, hash and segmenter and any two texts that give chunks: a run from the empty database, with two indexers and one rewrite, that meets the guard |
| `IndexRuns.AppendingIsFresh` | lib/brain/index-transcripts.js:756-933 | nor does any while the file only grows, whatever the clock says |
| `IndexRuns.OneCommitPerRecord` | lib/brain/index-transcripts.js:877-880 | no two commits start from the same record, and offsets strictly increase |
| `IndexRuns.RowsMatchTheFile` | lib/brain/index-transcripts.js:873-933 | over a growing file the committed segments concatenate to the indexed prefix and the rows are exactly their chunks; chunk_count is their number |
| `IndexRuns.RowsMatchOneReading` | lib/brain/index-transcripts.js:756-933 | if each instalment meets the exact condition, the rows hold the messages, tokens and tool uses of the indexed prefix read once from scratch |
| `IndexRuns.NeverReplaces` | lib/brain/index-transcripts.js:765-772 | over a growing file replacement is never detected and no draft lies behind its record |
| `AssetTransport.LongestFitIsLongest` | lib/brain/asset-transport.js:69-84 | the linear scan finds the longest fitting prefix |
| `AssetTransport.SearchFit` | lib/brain/asset-transport.js:69-84 | the binary search returns a fitting, non-empty prefix, and for a monotone size the linear scan's |
| `AssetTransport.PlanBatches` | lib/brain/asset-transport.js:40-89 | refusals exactly outside the limits; for every size function every batch is non-empty, within budget and file count, and every item lands exactly once, in order, in a batch or among the oversized; for a monotone size the plan of the linear scan |
| `AssetTransport.GreedySplits` | lib/brain/asset-transport.js:53-87 | every item lands exactly once, in order, in a batch or among the oversized |
| `AssetTransport.OversizedExactly` | lib/brain/asset-transport.js:56-67 | an item is set aside if and only if it alone exceeds the budget |
| `AssetTransport.GreedyIsOptimal` | lib/brain/asset-transport.js:53-87 | no feasible slices of the input that cover the eligible items are fewer than the batches |
| `AssetTransport.PayloadIsMonotone` | lib/brain/asset-transport.js:30-33 | an envelope around comma-separated entries meets the monotonicity that the planner needs |
| `AssetBisection.BisectionConserves` | lib/brain/asset-transport.js:109-124 | for every server: leaves concatenate to the items in order, and requests are twice the leaves less one, so at most 2n-1 |
| `AssetBisection.LeavesAreFinal` | lib/brain/asset-transport.js:109-124 | every leaf carries the server's answer to its own request, and a 413 leaf is a single item |
| `AssetBisection.EveryOtherAnswerIsFinal` | lib/brain/asset-transport.js:109-115 | only a 413 for several items is retried: every other answer to any request is a leaf |
| `AssetBisection.HalvesAreEven` | lib/brain/asset-transport.js:117-123 | a retry sends two halves, first and second, that differ by at most one item |
| `AssetBisection.ItemsAreResentRarely` | lib/brain/asset-transport.js:115-123 | for every server: all requests for n items together carry at most n times (depth + 1) items, for every depth with n at most 2 to the depth |
| `AssetBisection.Client.SendWith413Split` | lib/brain/asset-transport.js:109-124 | sends and returns what Bisect says, and the callback sees each leaf once in that order |
| `CanonicalWrite.RefOnlyAdvances` | lib/brain/canonical-write.js:347-350 | over every run in which the others only fast-forward a ref that we do not update, it never disappears nor goes back |
| `CanonicalWrite.RefStays` | lib/brain/canonical-write.js:360-364 | a ref that neither the others name nor we update is where it was, over every run |
| `CanonicalWrite.FastForwardsMakeTheSwapSound` | lib/brain/canonical-write.js:347-350 | if the swap succeeds after fast-forwards only, the ref had the plan's value when the worktree was added |
| `CanonicalWrite.PlanExactly` | lib/brain/canonical-write.js:168-206 | a plan is made if and only if the ref exists, nothing is ahead of a known upstream, the dirty paths are known and, with the ref checked out, none is a target; otherwise it is refused for exactly the reason that holds |
| `CanonicalWrite.Git.PlanWrite` | lib/brain/canonical-write.js:168-206 | planning updates no ref; for every schedule a plan implies a known upstream with nothing ahead, known dirty paths and, in place, none among the targets; in a quiet repository it says exactly what holds of the repository; a command that fails reads as no commit, or as no branch |
| `CanonicalWrite.Git.FindProposal` | lib/brain/canonical-write.js:326-337 | an existing proposal is reused if its tree is the staged one and refused otherwise |
| `CanonicalWrite.Git.CommitAndUpdate` | lib/brain/canonical-write.js:339-352 | commits on the worktree's head, then updates one ref as its last step, for COMMIT only from the expected value; a refusal updates none |
| `CanonicalWrite.Git.ApplyIsolated` | lib/brain/canonical-write.js:301-352 | a written result is a child of the worktree's head with the contents laid over its tree, and one ref has moved to it; else no ref of ours has moved, and in a quiet repository none at all |
| `CanonicalWrite.Git.ApplyInPlace` | lib/brain/canonical-write.js:301-357 | the in-place commit is a child of what the moved branch held; in a quiet repository exactly the canonical ref moves, from the plan's commit |
| `CanonicalWrite.Git.WriteToCanonicalRef` | lib/brain/canonical-write.js:276-384 | for every schedule: the repository is what the others' moves and our steps make of it; PROPOSE, DRY_RUN and every refusal leave the canonical ref where the others put it; an isolated COMMIT moves it from the plan's commit to a child of its value at the worktree's creation, so of the plan's commit if and only if it had not moved by then, and always under fast-forwards; every write implies what the plan checks, and its tree holds the contents; in a quiet repository each refusal of the plan is given exactly when its reason holds, and when none does, changed contents are written |
| `CanonicalWrite.Git.ProposeTwice` | lib/brain/canonical-write.js:317-337 | proposing the same content again finds the first proposal and moves nothing |
| `CanonicalWrite.MovingBackDefeatsTheSwap` | lib/brain/canonical-write.js:347-350 | after every run and for every other commit: moving the ref there for the worktree's creation and back lets the swap install a child of a commit the plan never saw |
| `SecretGuard.PassesDoNotInterfere` | lib/brain/secret-guard.js:91-98 | the five textual passes produce exactly the text of the pattern's tokens |
| `SecretGuard.TextReadsBack` | lib/brain/secret-guard.js:78-109 | the finished text is a well-formed regular expression and reads back as those tokens, anchored or not |
| `SecretGuard.GlobIsMatch` | lib/brain/secret-guard.js:91-98 | matching the tokens is the direct recursive glob matcher |
| `SecretGuard.RegexIsGlob` | lib/brain/secret-guard.js:78-109 | for every pattern and path the compiled pattern accepts what the glob matcher accepts, with the optional tail, ignoring case |
| `SecretGuard.NoSlashMatchesAnySegment` | lib/brain/secret-guard.js:79-107 | a pattern without a slash, or with one at its end only, matches from the start of every segment |
| `SecretGuard.SlashMatchesFromTheRoot` | lib/brain/secret-guard.js:83-104 | a leading or inner slash ties the pattern to the root |
| `SecretGuard.MetacharactersAreEscaped` | lib/brain/secret-guard.js:90-92 | each of the twelve characters that mean something to a regular expression is escaped, and without the escape would not stand for itself |
| `SecretGuard.DoubleStarNeedsBothSlashes` | lib/brain/secret-guard.js:93-98 | for every rest and path: `/**/` matches a slash, a run on one line and a later slash, and nothing shorter |
| `SecretGuard.DoubleStarExactly` | lib/brain/secret-guard.js:60-98 | for every text before and after it: the code accepts exactly the paths with at least one segment for the `**`, and so misses exactly those whose only documented reading has none |
| `SecretGuard.LineBreaksStopTheStars` | lib/brain/secret-guard.js:98 | `**` stops at a line feed, a carriage return and the two Unicode separators |
| `SecretGuard.PlainZeroSegmentsAreMissed` | lib/brain/secret-guard.js:60-98 | for all plain text around it: `p/**/q` does not match `p/q`, if q has no slash |
| `SecretGuard.AnyHit` | lib/brain/secret-guard.js:207-218 | some compiled pattern hits the base name or the path |
| `SecretGuard.FoldRules` | lib/brain/secret-guard.js:219-230 | the walk finds the last rule that matches, by index, and its verdict; none if and only if no rule matches |
| `SecretGuard.CompiledHit` | lib/brain/secret-guard.js:207-218 | compiled patterns hit exactly what one of their globs matches |
| `SecretGuard.ShouldSkip` | lib/brain/secret-guard.js:189-255 | outside the root or under a strict pattern always; else by the last matching rule, the one at an index with no later match: a negation lets through, overridable patterns skip, a positive rule skips, as far as each is honoured |
| `CollabSession.CappedIsTail` | scripts/collab-session.ts:1274-1280 | the three-way cap is the last BRIEF_MAX characters of brief and addendum |
| `CollabSession.BriefIsTailOfEverything` | scripts/collab-session.ts:1267-1283 | after any number of revisions the brief is the last BRIEF_MAX characters of everything ever written to it |
| `CollabSession.RevisionsAreBounded` | scripts/collab-session.ts:1267-1292 | how many rounds the loop goes on for, with a bound, and why it then stops |
| `CollabSession.Session.RunRound` | scripts/collab-session.ts:1122-1223 | the state and iterations that each ending of a round leaves |
| `CollabSession.Session.RunAndRoute` | scripts/collab-session.ts:1237-1302 | one turn of the loop: next state, round, brief and iterations for every verdict and error |
| `CollabSession.Session.RunAutonomousLoop` | scripts/collab-session.ts:1236-1303 | the loop ends in a terminal state after the accepted revisions and one more round, with their feedback in the brief; or it is escaped by the first failing save of a routed round, with the state, round and brief of that point |
| `CollabSession.LoopOutcome` | scripts/collab-session.ts:1236-1303 | at most max(1, max_rounds - round + 1) rounds; COMPLETE exactly if the last one approved, else STALLED, unless interrupted |
| `CollabSession.RevisionsAreFollowed` | scripts/collab-session.ts:1267-1292 | a REVISE below the limit is always followed by another round, and a last REVISE was at the limit; an interrupt's terminal state stays |
| `CollabSession.BriefAtTheEnd` | scripts/collab-session.ts:1267-1283 | the final brief is the initial one or the tail of it and all addenda |
| `PortRegistry.Registry.ScanAndClaim` | lib/brain/port-registry.js:192-208 | the scan claims the first unclaimed bindable port, or changes nothing |
| `PortRegistry.Registry.AllocatePort` | lib/brain/port-registry.js:244-267 | a recorded port unconditionally, else a scan |
| `PortRegistry.Registry.ReallocatePort` | lib/brain/port-registry.js:274-305 | a recorded port if it can be bound, else a scan that also avoids the stale one |
| `PortRegistry.ReleaseExactly` | lib/brain/port-registry.js:315-330 | a release takes away its own allocation and no other, and from distinct ports leaves its port unused |
| `PortRegistry.RunKeepsDistinct` | lib/brain/port-registry.js:244-330 | over every sequential run, from distinct ports to distinct ports across all daemon types |
| `PortRegistry.StepIsLocal` | lib/brain/port-registry.js:157-180 | an operation changes no other allocation, also when the legacy map is migrated |
| `PortRegistry.LegacyGoesWithTheInbox` | lib/brain/port-registry.js:157-180 | a write for the inbox takes the legacy map away, any other write leaves it |
| `PortRegistry.ReleasedInboxPortIsFree` | lib/brain/port-registry.js:315-330 | from distinct ports, a released inbox port, legacy or not, can be allocated to any daemon |
| `PortRegistry.AllocationIsStable` | lib/brain/port-registry.js:252-258 | until released or reallocated, an id keeps its port through every run |
| `PortRegistry.AllocateExactly` | lib/brain/port-registry.js:192-208 | a new port is in range, bindable and unused; failure means every port in range is recorded or unbindable |
| `PortRegistry.RecordedIsInUse` | lib/brain/port-registry.js:116-144 | the ports set aside are exactly those in use, unless a legacy map is shadowed |
| `PortRegistry.ReallocateNeverReturnsAnOccupiedPort` | lib/brain/port-registry.js:274-305 | a reallocated port is the recorded one and bindable, or bindable, in range and used by nobody, the stale port included; failure means no port of the range is left and changes nothing |
| `PortRegistry.UpToDateIsSequential` | lib/brain/port-registry.js:244-330 | any interleaving of reads and writes in which every operation writes onto the configuration it read does what its operations do one after another, and keeps ports distinct |
| `PortRegistry.OverlappingAllocations` | lib/brain/port-registry.js:244-267 | two first allocations that overlap, of any daemons and ranges: for different daemons they share a port, and distinctness is lost, if and only if their first free ports coincide; for one daemon the first allocation is lost |
| `Semaphore.ArriveKeeps` | scripts/pr-loop-daemon.ts:60-66 | an arrival enters or queues so that callers enter in arrival order, the count is that of the callers inside, and nobody waits while there is room |
| `Semaphore.LeaveKeeps` | scripts/pr-loop-daemon.ts:68-75 | a departure wakes the first in the queue, if any, and keeps the same |
| `Semaphore.RunKeeps` | scripts/pr-loop-daemon.ts:56-78 | every matched run keeps the invariant |
| `Semaphore.SemaphoreIsFair` | scripts/pr-loop-daemon.ts:176-185 | the count stays within the limit, waiting means full, entry is in arrival order and nobody is lost |
| `Semaphore.NobodyIsLeftBehind` | scripts/pr-loop-daemon.ts:176-185 | when all who entered have left, all have entered |
| `ManifestLock.BeginIsNext` | lib/brain/transcript-manifest-lock.js:80-86 | a call whose awaited promise is resolved is the first of its key that has not finished, and nobody of that key is running |
| `ManifestLock.FinishKeeps` | lib/brain/transcript-manifest-lock.js:87-90 | a call that finishes, by success or error, makes only its successor runnable, and the map entry goes exactly when none is left |
| `ManifestLock.RunKeeps` | lib/brain/transcript-manifest-lock.js:78-91 | every run of arrivals, starts and finishes keeps the invariant of every key |
| `ManifestLock.OneAtATimeInOrder` | lib/brain/transcript-manifest-lock.js:78-91 | per key at most one call runs, calls run in arrival order, and a missing entry means that all have finished |
| `ManifestLock.NextMayBegin` | lib/brain/transcript-manifest-lock.js:84-90 | while somebody waits and nobody runs, the next in line may begin |
| `MemoryTrim.FindSections` | lib/analysis/memory-writer.js:313-323 | the two scanning loops find the auto-extracted blocks |
| `MemoryTrim.BlocksAreDisjoint` | lib/analysis/memory-writer.js:313-323 | blocks are in order and never overlap |
| `MemoryTrim.SpliceIsDeletion` | lib/analysis/memory-writer.js:328-334 | deleting one more block keeps the lines before it and closes up those after it |
| `MemoryTrim.OneMoreTrimmed` | lib/analysis/memory-writer.js:328-334 | splicing at the running offset deletes exactly the next block of the original lines |
| `MemoryTrim.TrimMemoryMd` | lib/analysis/memory-writer.js:308-337 | the result is the original without its first k blocks, for the k that is just enough |
| `MemoryTrim.JustEnoughIsUnique` | lib/analysis/memory-writer.js:328-334 | the least k that reaches 200 lines, or all blocks if none does, is one number |
| `MemoryTrim.OnlyAutoTextIsRemoved` | lib/analysis/memory-writer.js:311-323 | a line lies in a block if and only if it is an auto heading or follows one with no heading of two or three hashes between |
| `MemoryTrim.HeadingsEndBlocks` | lib/analysis/memory-writer.js:318 | a line of two or three hashes and white space, after any indentation, ends a block |
| `MemoryTrim.IndentedAutoIsAuto` | lib/analysis/memory-writer.js:314-315 | an auto heading behind any white space is one |
| `MemoryTrim.OtherHeadingsEndNoBlock` | lib/analysis/memory-writer.js:316-320 | a heading of one hash, or of more than three, ends no block |

## Left out

- The state root's operations are atomic here: two machines inside one publish, partial and failed file writes,
  unreadable or malformed index and lease files, and directories in the way of files are not modelled.
- The order of the receipt's `written` and `removed` lists (sets here), `collectIgnoredState`, `stateKey`,
  `canonicalJson` and `queueReplay`.
- Property names with a meaning of their own in JavaScript, and keys that JavaScript would reorder: a change's
  contents come in enumeration order.
- ContainedPath: POSIX rules for absolute paths only; strings are sequences of Dafny characters, not UTF-16 units.
- A clock that is NaN, and fractional times.
- JSON decoding, the normalization of one message, tool-name classification, timestamp parsing, skill and phase
  regular expressions, and the content, hints and correction counts of a chunk.
- Migration of portable sources, `dryRun`, embeddings, `syncable`, `last_error`, FTS, and several sources in one
  database: one file's record and rows are modelled.
- Chunker.FinalizeChunk: does not model content, hints, skill references, timestamps and correction count, which no
  later step reads.
- TranscriptIndex.TranscriptDb.CommitChunks: does not model embeddings, `syncable` and `last_error`,
  which the record comparison ignores.
- TranscriptIndex.TranscriptDb.IndexFile: does not model dry runs, source migration and `last_error`.
- What `makePayload` puts into a request: the planner works on any size function, and the optimality result on a
  monotone one. The path text of an oversized entry.
- AssetBisection.Client.SendWith413Split: asks for a non-empty batch, as every batch of the planner is; an
  empty one that is answered 413 would split for ever.
- Contents with rejected paths in a canonical write, receipts, worktree removal, what a COMMIT does when the
  canonical ref is outside `refs/heads/` beyond moving another branch, and git commands that succeed with empty output.
- How `.gitignore` lines are split, and patterns that the regular-expression engine itself would limit; the hard-coded
  lists of patterns are parameters.
- StateStore.WriteEntries: does not say what the checkout becomes for an index that is not settled, which no legal run
  produces.
- StateStore.RemoveTombstoned: the same.
- StateStore.MaterializeState: the same.
- Feedback that itself starts with `file:`, which the loop would take for a reference.
- The director's own loop, round files and their recovery, notifications and the decimal text in an addendum's heading.
- Port values that are not numbers, and the outcome of overlapping port operations other than two first allocations.
- PortRegistry.RunKeepsDistinct: claims sequential runs, because the lock is released before the scan ends;
  UpToDateIsSequential and OverlappingAllocations say what overlapping operations keep.
- The SQLite lock behind the promise queue, and the set of reviews in flight.
- Everything that is plumbing around these cores: HTTP clients, device login, daemons, cryptography, schema and
  configuration validators.
