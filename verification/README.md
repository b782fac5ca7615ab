# Models of the concurrency, caching, backup and protocol core

A Dafny model of the parts of this repository whose correctness is hardest to see from the code:
the mutex protocol of the B-tree layer, the page cache with its slab allocator, the in-place SQL
editor behind `ALTER TABLE RENAME`, the replica that follows a primary, the bottomless backup and
restore chain, Hrana batches and their wire format, and the top-query statistics.

`dafny verify dfyconfig.toml` checks everything. Code that updates state in place is modelled by
classes and methods with loops, each proved against a function on values; the theorems are about
those functions, over all inputs, all runs or all reachable states.

| file | models |
|---|---|
| `BtreeMutex.dfy`, `BtreeMutexCalls.dfy` | any number of connections locking shared B-trees, as a step relation; the C functions as methods that take those steps |
| `PageCache.dfy`, `SharedSlab.dfy`, `SlabLimit.dfy` | pagers drawing pages from one slab with a free list packed into flag words; the callbacks as methods on one object |
| `SqlEditor.dfy` | the editing loop on a fixed output buffer, against a one-pass substitution |
| `WalLog.dfy` | frames, transactions, and what writing frames does to the pages of a database |
| `Replica.dfy`, `ReplicaTask.dfy`, `ReplicaFailures.dfy` | the replicator and its injector against a client and a database that may fail anywhere; runs that go wrong |
| `PageFile.dfy`, `TransactionCache.dfy`, `LocalReplay.dfy` | a database file as bytes; the page cache of one transaction, in memory or spilled; replay of a local generation |
| `RestoreWal.dfy`, `FullRestore.dfy` | restoring one remote generation from paged listings; restoring a chain of generations |
| `FrameCounters.dfy`, `WalCopier.dfy`, `CompletionProgress.dfy`, `UploadRuns.dfy` | which frames are due, how they are cut into batches, what has been uploaded, and the three together |
| `BackupRestore.dfy` | from a log to the bucket and back |
| `Collections.dfy` | optional values, and listings that arrive in pages |
| `Lexicographic.dfy`, `GenerationId.dfy`, `ObjectNames.dfy` | names whose sort order carries meaning |
| `WalChecksum.dfy` | the checksum chain of the write-ahead log |
| `HranaBatch.dfy`, `HranaWire.dfy` | conditional batches and how the server runs them; the hand-written protobuf code |
| `TopQueries.dfy` | bounded sets with a rejection threshold |

What a foreign component does (the scheduler, the file system, the network, a database statement)
is an argument of the model: a schedule, an outcome, a list of answers.

Some properties do not hold as the code or its comments suggest; each is stated with the exact
condition under which it does, and with a case in which it does not.

- `Allocator::new` casts links to 32 bits: its free list ends, and the cache is free of panics, if and
  only if there are fewer than 2^32 pages (`PageCache.NewListEnds`, `SlabLimit.SafeExactly`).
- A failing `flush` of the replicator drops frames and does not tell the client: the replica stays in
  step if and only if the client has received nothing since its recorded index
  (`Replica.FlushFollowsExactly`, `ReplicaFailures.LostFrames`).
- Rolling the injector back does not forget the greatest frame number seen, so a commit records the
  right index if and only if nothing larger is left over (`Replica.CommitIndex`,
  `Replica.LeftoverExactly`, `Replica.LeftoverIndex`). After a snapshot that breaks, going back to
  the log can put the index ahead of the database (`ReplicaFailures.BrokenSnapshot`); loading a newer
  snapshot is safe.
- One commit of a log frame whose index is lost is harmless (`Replica.OneLostWrite`); two in a row are
  not (`ReplicaFailures.TwoLostWrites`). The commit of a snapshot whose index is lost leaves the
  database at the snapshot's end and the stored index where it was: within one transaction of each
  other, by definition, if and only if the log has no commit in between
  (`Replica.LostSnapshotExactly`, `ReplicaFailures.LostSnapshotIndex`).
- Pages of the listing make no difference to a restore if and only if the time limit ends the scan, or
  no batch behind the one that stops it would resume it (`RestoreWal.PagesMatterExactly`). That is so
  when no frame was copied twice (`RestoreWal.PagesDoNotMatter`); with repeated frames it may not be
  (`RestoreWal.RepeatEndsThePage`, `RestoreWal.RepeatsMakePagesMatter`).
- "committed <= sent always" is lost when the log is cut below the confirmed frame, and comes back with
  the next frames handed over (`FrameCounters.CommittedBelowSent`, `FrameCounters.CommittedAboveSent`).
- Upload progress is right if and only if every report starts above the baseline, replaces a detached
  range only by a longer one, and overlaps no other (`CompletionProgress.TrackedExactly`,
  `CompletionProgress.OverlapSticks`, `CompletionProgress.ReplacementForgets`). A rollback below the
  last frame sent leads to reports that do not fit (`UploadRuns.RepeatsAfterACut`).
- A renamed token reads back as the new name in the edited text unless the next listed token follows
  without a gap and is then written in the same quotes (`SqlEditor.EditedTokenReadsBack`,
  `SqlEditor.GapReadsBack`, `SqlEditor.AdjacentTokensMerge`).
- Merging an encoded value gives that value unless it is the absent value, which leaves what was
  there (`HranaWire.MergeEncoded`).
- A transactional batch is all or nothing if and only if its statements let no write escape and roll
  none back on the way to COMMIT (`HranaBatch.AtomicExactly`, `HranaBatch.OwnCommitEscapes`).

## Model

| member | source | states |
|---|---|---|
| `BtreeMutex.StepPreserves` | sqlanywhere-sqlite3/src/btmutex.c:27-152 | every step of Enter, of the careful lock and of Leave by any connection keeps the invariant: flags agree with mutex holders, locked means wanted, lists stay ascending |
| `BtreeMutex.MutualExclusion` | sqlanywhere-sqlite3/src/btmutex.c:27-50 | in every reachable state a mutex has at most one holder, `pBt->db` names it, and outside an acquire a connection has locked exactly the entries with `wantToLock > 0` |
| `BtreeMutex.WaitsAboveEverythingHeld` | sqlanywhere-sqlite3/src/btmutex.c:105-137 | whenever a connection can block, it holds only mutexes of smaller address |
| `BtreeMutex.AscendingAlongCycle` | sqlanywhere-sqlite3/src/btmutex.c:105-137 | along a cycle of waiters the addresses waited for never fall |
| `BtreeMutex.DeadlockFree` | sqlanywhere-sqlite3/src/btmutex.c:105-137 | no reachable state, for any number of connections and any interleaving, has a cycle of waiters |
| `BtreeMutex.Progress` | sqlanywhere-sqlite3/src/btmutex.c:71-152 | from a connection inside an acquire, following the holders it waits for ends at a connection that can move without entering anything new |
| `BtreeMutex.AcquireTerminates` | sqlanywhere-sqlite3/src/btmutex.c:105-137 | each own step brings an acquire closer to its end, nobody else's step sets it back, and the number of steps is bounded by the list length |
| `BtreeMutex.WantFollowsBalance` | sqlanywhere-sqlite3/src/btmutex.c:71-152 | over any run the want-count changes by enters minus leaves |
| `BtreeMutex.BalancedCallsRestoreLocks` | sqlanywhere-sqlite3/src/btmutex.c:71-152 | balanced nested calls, interleaved with all other connections, give back exactly the starting locks |
| `BtreeMutexCalls.RunsProject` | sqlanywhere-sqlite3/src/btmutex.c:71-152 | in any interleaving, one connection's part is a sequence of its own permitted steps |
| `BtreeMutexCalls.Connection.ReleaseLater` | sqlanywhere-sqlite3/src/btmutex.c:123-130 | the release loop performs the releasing steps of the protocol and reaches the blocking state |
| `BtreeMutexCalls.Connection.RelockLater` | sqlanywhere-sqlite3/src/btmutex.c:131-137 | the relock loop performs the protocol's steps back to rest |
| `BtreeMutexCalls.Connection.LockCarefully` | sqlanywhere-sqlite3/src/btmutex.c:105-137 | the careful lock performs protocol steps only and ends settled, whether or not the try-lock works |
| `BtreeMutexCalls.Connection.Enter` | sqlanywhere-sqlite3/src/btmutex.c:71-97 | one enter performs protocol steps, leaves the entry locked and counts one more want |
| `BtreeMutexCalls.Connection.Leave` | sqlanywhere-sqlite3/src/btmutex.c:143-152 | one leave is one protocol step; the lock goes with the last want |
| `BtreeMutexCalls.Connection.EnterAll` | sqlanywhere-sqlite3/src/btmutex.c:186-202 | all sharable slots are entered once per use and locked; the skip flag is set exactly if none is sharable |
| `BtreeMutexCalls.Connection.LeaveAll` | sqlanywhere-sqlite3/src/btmutex.c:203-214 | every slot is left once per use, by protocol steps only |
| `BtreeMutexCalls.EnterAllLeaveAll` | sqlanywhere-sqlite3/src/btmutex.c:186-214 | entering all and leaving all restores counts and locks |
| `PageCache.Words` | sqlanywhere-server/src/pager.rs:25-88 | free, pinned and unpinned flag words are told apart and give back what was packed into them |
| `PageCache.FetchKeeps` | sqlanywhere-server/src/pager.rs:213-259 | a fetch never panics and keeps the ownership invariant, in each of its four branches |
| `PageCache.UnpinKeeps` | sqlanywhere-server/src/pager.rs:261-274 | unpinning, with or without discard, never panics and keeps the invariant |
| `PageCache.RekeyKeeps` | sqlanywhere-server/src/pager.rs:276-299 | rekeying, also onto a key in use, never panics and keeps the invariant |
| `PageCache.FreeThenMove` | sqlanywhere-server/src/pager.rs:276-299 | freeing the page under the new key after the move is freeing it before |
| `PageCache.FreeKeysKeeps` | sqlanywhere-server/src/pager.rs:301-325 | releasing any set of a pager's pages, in any order, keeps the invariant |
| `PageCache.FreeKeysLists` | sqlanywhere-server/src/pager.rs:301-325 | exactly the released keys leave the pager's map |
| `PageCache.DestroyKeeps` | sqlanywhere-server/src/pager.rs:164-172 | dropping a pager gives back all its pages |
| `PageCache.RunsAreSafe` | sqlanywhere-server/src/pager.rs:91-325 | after any callbacks by any number of pagers nothing panicked, the free list is an acyclic chain ending at the page count, each page is on it or owned once, and free plus owned is the capacity |
| `PageCache.Conservation` | sqlanywhere-server/src/pager.rs:91-172 | the invariant alone implies that free plus owned pages is the capacity |
| `PageCache.FetchGives` | sqlanywhere-server/src/pager.rs:213-259 | what a fetch returns: listed and pinned under its key, zeroed extra for a new key, kept extra for a cached one, and null exactly when nothing can be had |
| `PageCache.UnpinGives` | sqlanywhere-server/src/pager.rs:60-68 | an unpinned page stays cached under its key with its contents and joins the pages that may be reused; a discarded one leaves under exactly its key, zeroed, and heads the free list; no other page changes |
| `PageCache.RekeyGives` | sqlanywhere-server/src/pager.rs:276-299 | the page moves from the old key to the new one with its contents and stays pinned; a page that was under the new key heads the free list; no other page changes |
| `PageCache.ReleasesExactly` | sqlanywhere-server/src/pager.rs:301-325 | truncating keeps exactly the keys below the limit, shrinking exactly the pinned pages, each where it was |
| `PageCache.PinnedStays` | sqlanywhere-server/src/pager.rs:213-325 | until it is unpinned, rekeyed, truncated or destroyed, no callback of its pager moves or changes a pinned page |
| `PageCache.Isolation` | sqlanywhere-server/src/pager.rs:213-325 | no callback of one pager changes a page of another or its place in the other's map |
| `PageCache.NewListEnds` | sqlanywhere-server/src/pager.rs:91-121 | the initial free list ends if and only if the page count is below 2^32; otherwise it is a cycle through page 0 |
| `SlabLimit.SafeExactly` | sqlanywhere-server/src/pager.rs:91-152 | all runs are free of panics if and only if the slab has fewer than 2^32 pages; otherwise the free list comes back to page 0 while it is in use, and the allocation that meets it panics |
| `SharedSlab.Slab.constructor` | sqlanywhere-server/src/pager.rs:91-121 | a new slab of any size is the initial one, and satisfies the invariant with all pages free below 2^32 pages |
| `SharedSlab.Slab.Release` | sqlanywhere-server/src/pager.rs:145-152 | freeing in place is the freeing step of the model |
| `SharedSlab.Slab.FetchPage` | sqlanywhere-server/src/pager.rs:213-259 | the fetch callback on the shared slab is the fetch step, for whichever unpinned page is reused |
| `SharedSlab.Slab.UnpinPage` | sqlanywhere-server/src/pager.rs:261-274 | the unpin callback is the unpin step and keeps the slab valid |
| `SharedSlab.Slab.RekeyPage` | sqlanywhere-server/src/pager.rs:276-299 | the rekey callback is the rekey step and keeps the slab valid |
| `SharedSlab.Slab.TruncatePages` | sqlanywhere-server/src/pager.rs:301-309 | truncation releases exactly the pages at or above the limit |
| `SharedSlab.Slab.ShrinkPages` | sqlanywhere-server/src/pager.rs:317-325 | shrinking releases exactly the unpinned pages |
| `SharedSlab.Slab.DestroyPager` | sqlanywhere-server/src/pager.rs:311-315 | destroying a pager releases all its pages and the pager |
| `SqlEditor.DequoteQuoted` | sqlanywhere-sqlite3/src/util.c:298-319 | dequoting a quoted text gives the text back |
| `SqlEditor.DequoteBrackets` | sqlanywhere-sqlite3/src/util.c:298-319 | the same for brackets, which close with another character |
| `SqlEditor.DequoteInPlace` | sqlanywhere-sqlite3/src/util.c:298-319 | the in-place loop, reading and writing one buffer, computes the dequoted text |
| `SqlEditor.ReplacementBound` | sqlanywhere-sqlite3/src/alter.c:1303-1318 | a replacement is at most the quoted name and a space, or 2n-1 bytes when quotes are fixed |
| `SqlEditor.FixKeepsValue` | sqlanywhere-sqlite3/src/alter.c:1343-1357 | the token becomes a literal in single quotes with the same value, followed by a space exactly if a single quote comes next |
| `SqlEditor.RenamesTo` | sqlanywhere-sqlite3/src/alter.c:1334-1342 | never quoted: the name; always: a literal in double quotes that dequotes to the name, with a space exactly if a double quote comes next; as the token was: the name for an identifier, the literal for a quoted token |
| `SqlEditor.ReadsBackExactly` | sqlanywhere-sqlite3/src/alter.c:1343-1349 | a quoted text is read back from the start of a longer one if and only if its quote character does not follow |
| `SqlEditor.FixedText` | sqlanywhere-sqlite3/src/alter.c:1343-1357 | the replacement built in the two scratch buffers is never cut off by the bounded print |
| `SqlEditor.PickedIsRightmost` | sqlanywhere-sqlite3/src/alter.c:1134-1146 | all tokens left after a pick end before the picked one starts |
| `SqlEditor.RenameCtx.TokenFind` | sqlanywhere-sqlite3/src/alter.c:1060-1082 | the first token of the element moves to the list, and the others stay |
| `SqlEditor.ParseTokens.Lookup` | sqlanywhere-sqlite3/src/alter.c:1060-1082 | without a context the first token of the element is found and stays where it is |
| `SqlEditor.RenameCtx.Next` | sqlanywhere-sqlite3/src/alter.c:1134-1146 | the token with the greatest offset is unlinked |
| `SqlEditor.Splice` | sqlanywhere-sqlite3/src/alter.c:1359-1367 | one move and one copy replace the token in the buffer and keep the terminator |
| `SqlEditor.RenameCtx.ReplaceNext` | sqlanywhere-sqlite3/src/alter.c:1327-1369 | one round keeps the part left of the edit original, the rest edited, and enough room in the buffer |
| `SqlEditor.ReplacesToken` | sqlanywhere-sqlite3/src/alter.c:1327-1369 | the one-pass substitution from a token on is its replacement, the text up to the next edited part, and that part |
| `SqlEditor.EditedTokenReadsBack` | sqlanywhere-sqlite3/src/alter.c:1327-1369 | reading the edited text where a quoted token was gives its new value if and only if a space was added or the edited text does not go on with the quote character |
| `SqlEditor.GapReadsBack` | sqlanywhere-sqlite3/src/alter.c:1327-1369 | so it is wherever the next token does not follow without a gap |
| `SqlEditor.AdjacentTokensMerge` | sqlanywhere-sqlite3/src/alter.c:1327-1369 | two listed tokens without a gap, the second in brackets: both new names are read as one |
| `SqlEditor.RenameCtx.EditSql` | sqlanywhere-sqlite3/src/alter.c:1280-1379 | the result is the simultaneous substitution of all listed tokens, and every access stays inside the buffers the source allocates |
| `WalLog.Overwritten` | sqlanywhere-replication/src/replicator.rs:328-343 | frames whose pages are all written again have no effect |
| `Replica.FailedStepIsClean` | sqlanywhere-replication/src/replicator.rs:253-295 | a step whose attempt fails leaves no open transaction and no buffered frame, with the client at its recorded index |
| `Replica.NeverStepsAfterExit` | sqlanywhere-replication/src/replicator.rs:243-251 | the exit state is left before anybody can step it, and an error is returned only with a clean injector |
| `Replica.StepReturns` | sqlanywhere-replication/src/replicator.rs:243-295 | a call returns when the log has been read to its end; after a handshake or a snapshot it goes on reading; a missing handshake or a needed snapshot is seen to within the call, except a missing handshake in the handshake, which is fatal; any other error is returned |
| `Replica.CallGoesOn` | sqlanywhere-replication/src/replicator.rs:243-251 | a call is its first step and, if that goes on, the rest |
| `Replica.HandshakeExactly` | sqlanywhere-replication/src/replicator.rs:216-241 | a handshake takes the first answer within the limit that is not a client error, and times out without one |
| `Replica.BufferIsBounded` | sqlanywhere-replication/src/injector/sqlite_injector/mod.rs:153-175 | the buffer is emptied exactly by a frame that ends a transaction or makes it full |
| `Replica.CommitReachesBoundary` | sqlanywhere-replication/src/injector/sqlite_injector/mod.rs:153-222 | committing leads to the image after the transaction, also when it was applied before |
| `Replica.FlushFollowsExactly` | sqlanywhere-replication/src/replicator.rs:345-354 | a flush outside a step keeps the replica in step with its client if and only if it works or the client has received nothing since its recorded index |
| `Replica.FlushFollows` | sqlanywhere-replication/src/replicator.rs:345-354 | otherwise frames are lost, but the replica is on the log again when the next stream starts at the recorded index |
| `Replica.SnapshotReaches` | sqlanywhere-server/src/rpc/replication/replication_log.rs:395-454 | the last version of every page written since some position, newest first, takes the database from any position between that one and the snapshot's end to the image at its end |
| `Replica.SnapshotFollows` | sqlanywhere-replication/src/replicator.rs:307-326 | loading a snapshot of the log since the client's index, pending, broken at any frame, failing at its commit or whole, leaves the database at a boundary of the log with no index ahead of it; a whole one leaves the replica in step at the snapshot's end; one that fails leaves exactly the doubts it must: a frame number left over, or an end the client has not heard of |
| `Replica.StepFollows` | sqlanywhere-replication/src/replicator.rs:253-343 | any step, streaming the log or loading a snapshot, against failures anywhere, leaves the replica in step with its client, or at a boundary of the log with nothing on its way; a stream of the log, failing or not, leaves no doubt about the index or the frame number left over |
| `Replica.OneLostWrite` | sqlanywhere-replication/src/meta.rs:154-171 | after one commit of a log frame whose index is not stored, or not even recorded, the process may stop: the database is at the stored index or one transaction after it |
| `Replica.LostSnapshotExactly` | sqlanywhere-replication/src/meta.rs:154-171 | after the commit of a snapshot whose index is not stored, or not even recorded, that is so if and only if the log has no commit after the stored index and before the snapshot's end |
| `Replica.ReplicaIsAtABoundary` | sqlanywhere-replication/src/replicator.rs:243-354 | after any calls, snapshots, failures, flushes and restarts the committed image is the primary's at a transaction boundary, and the recorded index is not ahead of it; it is at most one transaction behind unless, since the last stream, the end of a snapshot or an index that a restart needs was lost |
| `Replica.SoundRunIsAtABoundary` | sqlanywhere-replication/src/replicator.rs:243-354 | if snapshots are loaded to their end and restarts find the database within one transaction of the stored index, then over any calls, failures and flushes the image is the primary's at the recorded index or one transaction after it; nothing is asked of the database or of the frame number left over |
| `ReplicaFailures.LostFrames` | sqlanywhere-replication/src/replicator.rs:345-354 | a failed flush after which the stream goes on behind the lost frame: the index is recorded and a page is missing |
| `ReplicaFailures.TwoLostWrites` | sqlanywhere-replication/src/meta.rs:154-171 | two commits in a row whose indices are not stored, and a restart: the image is none of the primary's |
| `ReplicaFailures.BrokenSnapshot` | sqlanywhere-replication/src/injector/sqlite_injector/mod.rs:142-222 | a snapshot breaks after a frame has left the buffer, and the log is streamed again: the first commit records the snapshot's index over the first transaction's image |
| `ReplicaFailures.LostSnapshotIndex` | sqlanywhere-replication/src/meta.rs:154-171 | one snapshot whose index is not stored, and a restart: the image is none of the primary's |
| `Replica.CatchesUp` | sqlanywhere-replication/src/replicator.rs:297-305 | an undisturbed stream brings the replica to the last whole transaction, recorded as such |
| `Replica.CallCatchesUp` | sqlanywhere-replication/src/replicator.rs:243-305 | a whole call in which nothing fails shakes hands, reads the log from the recorded index and returns with the last whole transaction recorded |
| `Replica.CommitIndex` | sqlanywhere-replication/src/injector/sqlite_injector/mod.rs:153-222 | the index a commit returns, exactly: right if and only if no larger number is left over |
| `Replica.LeftoverExactly` | sqlanywhere-replication/src/injector/sqlite_injector/mod.rs:142-222 | at any point of a transaction of the log, whatever is left over, its commit records the index after it if and only if no larger frame number is left over |
| `Replica.LeftoverIndex` | sqlanywhere-replication/src/injector/sqlite_injector/mod.rs:142-148 | frame 7 of an abandoned transaction makes the commit of frame 3 report 7 |
| `ReplicaTask.SqliteInjector.FlushBuffer` | sqlanywhere-replication/src/injector/sqlite_injector/mod.rs:153-222 | the flush on the object is the flush of the model, with its failures |
| `ReplicaTask.SqliteInjector.Inject` | sqlanywhere-replication/src/injector/sqlite_injector/mod.rs:132-140 | a frame is buffered, and flushed at a commit or when the buffer is full |
| `ReplicaTask.Task.FlushInjector` | sqlanywhere-replication/src/replicator.rs:345-354 | the public flush is the flush event of the runs, and leaves the client alone when it fails |
| `ReplicaTask.Task.Consume` | sqlanywhere-replication/src/replicator.rs:297-305 | the stream loop stops at the first failure and does what the model's recursion does |
| `ReplicaTask.Task.Snapshot` | sqlanywhere-replication/src/replicator.rs:307-326 | pending snapshots are waited out after one rollback |
| `ReplicaTask.Task.Handshake` | sqlanywhere-replication/src/replicator.rs:216-241 | client errors are retried up to the limit, other errors end the handshake |
| `ReplicaTask.Task.TryStep` | sqlanywhere-replication/src/replicator.rs:253-295 | the step on the object is the step of the model |
| `ReplicaTask.Task.Run` | sqlanywhere-replication/src/replicator.rs:243-251 | the call loop is the model's run of steps |
| `PageFile.LastWritesSuffice` | bottomless/src/transaction_cache.rs:129-154 | writing only the last content of each page, in any order of the pages, gives the same bytes as writing every frame in order |
| `PageFile.FileHoldsImage` | bottomless/src/transaction_cache.rs:129-154 | page p is the page-size bytes from (p - 1) times the page size on, and holds what the last frame for it held, or what was there before |
| `TransactionCache.TransactionPageCache.Insert` | bottomless/src/transaction_cache.rs:29-59 | the cache stands for the pages inserted, in memory, spilled, or kept in memory when spilling fails; it spills exactly when a new page meets a full memory and the recovery file takes every page; a failed write tears no page but its own |
| `TransactionCache.TransactionPageCache.Persist` | bottomless/src/transaction_cache.rs:61-82 | a page is overwritten in its place or appended, and all others stay, also when only part of it is written |
| `TransactionCache.TransactionPageCache.Swap` | bottomless/src/transaction_cache.rs:85-127 | spilling changes where the pages are and never which they are |
| `TransactionCache.TransactionPageCache.Flush` | bottomless/src/transaction_cache.rs:129-154 | every page, from wherever it is, is written to its place in the database file |
| `LocalReplay.ApplyWal` | bottomless-cli/src/replicator_extras.rs:316-418 | whatever the recovery file does, the database file ends as if each frame of the whole transactions received had been written directly, and nothing else |
| `LocalReplay.ReceivesTheLog` | bottomless-cli/src/replicator_extras.rs:360-401 | batches cut from one log give back an unbroken stretch of it |
| `LocalReplay.StopsAtAGap` | bottomless-cli/src/replicator_extras.rs:374-378 | the replay stops exactly at a frame no object holds |
| `RestoreWal.Restore` | bottomless/src/replicator.rs:1569-1703 | the restore loops leave the database with the whole transactions of the frames scanned, and report whether there were any |
| `RestoreWal.PagesDoNotMatter` | bottomless/src/replicator.rs:1592-1701 | however the listing is cut into pages, exactly the batches that continue one another from frame 1 up to the first refused one are restored, although a gap ends only one page |
| `RestoreWal.OnePage` | bottomless/src/replicator.rs:1592-1701 | on one page, for any objects at all, exactly the batches that continue one another up to the first refused one are restored |
| `RestoreWal.RepeatEndsThePage` | bottomless/src/replicator.rs:1628-1632 | a batch that does not continue the ones before, because its frames were copied again after a rollback or because of a gap, ends what is restored of its page |
| `RestoreWal.RepeatsMakePagesMatter` | bottomless/src/replicator.rs:1592-1632 | with batches 1-3, 4-5, 4-6 and 6-7 on one page the restore ends at frame 5; with 6-7 on a page of its own it reaches frame 7 |
| `RestoreWal.PagesMatterExactly` | bottomless/src/replicator.rs:1592-1701 | for any objects at all, every cut into pages gives what one page gives if and only if the time limit has ended the scan, or no batch with frames that is not refused starts, behind the stop, right after what was restored |
| `RestoreWal.InjectsWholeTransactions` | bottomless/src/replicator.rs:1662-1686 | only whole transactions reach the database, for any buffer capacity |
| `RestoreWal.LastConsistentFrame` | bottomless/src/replicator.rs:1827-1856 | the loop over listing pages returns the last frame of the last batch named |
| `RestoreWal.LastIsGreatest` | bottomless/src/replicator.rs:1844-1856 | for a listing in order that is the greatest frame of any batch |
| `RestoreWal.LaterUploadsIgnored` | bottomless/src/replicator.rs:1633-1639 | a restore limited to it gives what was listed then, whatever has been uploaded since |
| `FullRestore.Restore` | bottomless/src/replicator.rs:1368-1450 | the walk over dependencies and the replay of the stack compute the recursive rebuild of the chain |
| `FullRestore.SucceedsExactly` | bottomless/src/replicator.rs:1383-1409 | a restore succeeds if and only if a snapshot is at most 100 generations back or the chain ends at most 99 back; cycles without one are given up |
| `FullRestore.RestoresTheChain` | bottomless/src/replicator.rs:1383-1434 | the restored image is what the walk started from and then the whole transactions of the logs of the chain, the oldest first; only the newest log is cut, before the first batch beyond the frame limit; a generation without metadata adds nothing; a log was applied if and only if some generation has metadata |
| `FullRestore.ReplaysTheLog` | bottomless/src/replicator.rs:1415-1434 | replaying a generation adds the whole transactions of its log up to the limit |
| `FullRestore.AnySnapshotWillDo` | bottomless/src/replicator.rs:1383-1434 | whichever ancestor supplied the snapshot, the result is the replay of the whole chain |
| `FrameCounters.Replicator.PendingFrames` | bottomless/src/replicator.rs:706-708 | the pending count is exact and cannot underflow |
| `FrameCounters.Replicator.ResetFrames` | bottomless/src/replicator.rs:740-745 | both counters after a reset, with sent still below next |
| `FrameCounters.Replicator.RegisterLastValidFrame` | bottomless/src/replicator.rs:869-884 | registering resets the counters unless the frame is the expected one |
| `FrameCounters.Replicator.SubmitFrames` | bottomless/src/replicator.rs:887-894 | frames are counted, and a flush is requested exactly when a batch is full |
| `FrameCounters.Replicator.TakePending` | bottomless/src/replicator.rs:395-399 | the flusher takes exactly the frames after the last one sent |
| `FrameCounters.HandedOverOnce` | bottomless/src/replicator.rs:395-403 | after any run every frame up to the last one sent has been handed over since its latest submission, no later frame has, and no submission is handed over twice |
| `FrameCounters.CountersAreLengths` | bottomless/src/replicator.rs:706-745 | after any run the counters are the length of the log, by what was submitted and cut, and how much of it has been handed over |
| `FrameCounters.CommittedBelowSent` | bottomless/src/replicator.rs:53-57 | after any run the confirmed frame is at or below the last one sent if and only if the log has not been cut below it since the last frames were handed over |
| `FrameCounters.CommittedAboveSent` | bottomless/src/replicator.rs:53-57 | rolling back to frame 1 after confirming frame 3, and the next flush that restores the order |
| `WalCopier.Flush` | bottomless/src/backup.rs:44-139 | the batches sent and the pair returned, for an empty range, for an outbox closed anywhere, and for a frame number that would overflow; an error exactly if the metadata before frame 1 is not sent |
| `WalCopier.BatchesPartition` | bottomless/src/backup.rs:86-99 | the batches are consecutive, not empty, within the limit, and reach from the start to the end |
| `WalCopier.BatchesAreFull` | bottomless/src/backup.rs:86-90 | every batch but the last has exactly the maximum number of frames, so their number is the range divided by it, rounded up |
| `WalCopier.InOneBatch` | bottomless/src/backup.rs:86-99 | a frame is in exactly one batch if it is in the range and in none otherwise |
| `WalCopier.UploadsReachTheEnd` | bottomless/src/completion_progress.rs:101-120 | when the batches of all flushes are uploaded, in any order, the published frame is the last one flushed |
| `BackupRestore.BucketInOrder` | bottomless/src/backup.rs:91-99 | a bucket of batches under their printed names, listed by name beside other objects, is read in the order of the frames |
| `BackupRestore.BackupThenRestore` | bottomless/src/backup.rs:86-138 | a log flushed by any jobs, stored under printed names, listed by name in any pages, parsed and restored is the image of its whole transactions |
| `UploadRuns.HandedInSequence` | bottomless/src/replicator.rs:395-403 | unless the log is cut below the last frame sent, the flushes of a run follow one another from frame 1 to that frame |
| `UploadRuns.PublishedReachesSent` | bottomless/src/replicator.rs:395-403 | then, once all batches are reported in any order, the frame published is the last frame sent |
| `UploadRuns.RepeatsAfterACut` | bottomless/src/replicator.rs:740-745 | after such a cut the next flush starts at a frame already sent, and a report of it does not fit |
| `CompletionProgress.Tracker.Update` | bottomless/src/completion_progress.rs:101-120 | the loop that pops and reinserts takes over exactly the ranges that continue the baseline, and publishes it |
| `CompletionProgress.Tracker.Reset` | bottomless/src/completion_progress.rs:122-126 | nothing is tracked, and 0 is published |
| `CompletionProgress.TracksExactly` | bottomless/src/completion_progress.rs:101-120 | after a report the state is still right if and only if the report starts above the baseline, replaces a detached range only by a longer one, and overlaps no other |
| `CompletionProgress.TrackedExactly` | bottomless/src/completion_progress.rs:101-120 | over a sequence of reports the state is right all the way if and only if every report fits |
| `CompletionProgress.ApartFit` | bottomless/src/completion_progress.rs:101-120 | ranges that do not overlap fit, in any order |
| `CompletionProgress.BaselineIsFrontier` | bottomless/src/completion_progress.rs:101-120 | when every report fits, the baseline is the largest n with all of 1..n uploaded |
| `CompletionProgress.EverythingUploaded` | bottomless/src/completion_progress.rs:101-120 | fitting reports that make up 1..last leave the baseline at last and nothing detached |
| `CompletionProgress.StaleRangeBlocks` | bottomless/src/completion_progress.rs:104-115 | a detached range at or below the baseline stays forever and keeps all others from being taken over |
| `CompletionProgress.OverlapSticks` | bottomless/src/completion_progress.rs:101-120 | an overlap after which the baseline stays at 8 although 1..9 is uploaded |
| `CompletionProgress.ReplacementForgets` | bottomless/src/completion_progress.rs:117-119 | a shorter report in place of a longer one: the baseline ends at 10 although 1..12 is uploaded, with nothing detached |
| `Lexicographic.ValueOrder` | bottomless/src/backup.rs:91-99 | with equally many digits the order of names is the order of numbers |
| `GenerationId.Layout` | bottomless/src/uuid_utils.rs:10-29 | the two time fields together are the 48-bit time in big-endian order, and the version and variant bits are those of UUIDv7 |
| `GenerationId.RoundTrip` | bottomless/src/replicator.rs:757-769 | decoding an identifier gives the exact millisecond back, for all random bytes |
| `GenerationId.TimeReversed` | bottomless/src/replicator.rs:751-762 | an earlier millisecond gives a lexicographically larger identifier, for all random bytes |
| `GenerationId.TextOrder` | bottomless/src/replicator.rs:1191-1216 | the order of the textual names is the order of the identifiers |
| `GenerationId.SearchPage` | bottomless/src/replicator.rs:1207-1252 | skipping a name already looked at does not change what a page gives |
| `GenerationId.LatestGenerationBefore` | bottomless/src/replicator.rs:1185-1257 | the paged search finds the first qualifying key of the whole listing |
| `GenerationId.FoundIsNewest` | bottomless/src/replicator.rs:1185-1257 | the generation found is the newest of those listed at or before the threshold, and one is found whenever there is one |
| `GenerationId.NewestStarted` | bottomless/src/replicator.rs:757-769 | for generations made by this program, newest is by the time they started |
| `ObjectNames.NoDotBefore` | bottomless/src/replicator.rs:1293-1309 | on any key whose frame numbers parse, the timestamp slice is in bounds |
| `ObjectNames.RoundTrip` | bottomless/src/replicator.rs:1293-1309 | a printed key parses to the frame range, time and compression it was printed from, in any directory |
| `ObjectNames.KindRoundTrip` | bottomless/src/replicator.rs:2171-2190 | the printed compression parses back |
| `ObjectNames.NameLayout` | bottomless/src/backup.rs:91-99 | a name is two twelve-digit frame numbers and the time, joined by hyphens, and the ending of its compression |
| `ObjectNames.KeysInFrameOrder` | bottomless/src/backup.rs:91-99 | the batch with the smaller first frame has the smaller key |
| `ObjectNames.ListedInFrameOrder` | bottomless/src/backup.rs:91-99 | batches that do not overlap are listed in the order of their frames |
| `WalChecksum.ChecksumStep` | bottomless/src/wal.rs:273-289 | the loop over pairs of words computes the checksum |
| `WalChecksum.Composes` | bottomless/src/wal.rs:273-289 | extending a checksum over a second piece is checksumming both in one |
| `WalChecksum.FibonacciWeights` | bottomless/src/wal.rs:273-289 | each sum is the start and the words with Fibonacci weights in reverse order, modulo 2^32 |
| `WalChecksum.UndoChecksum` | bottomless/src/wal.rs:273-289 | the checksum can be run backwards |
| `WalChecksum.ChecksumUndo` | bottomless/src/wal.rs:273-289 | every state is reached: for fixed data the checksum is a bijection |
| `WalChecksum.Verify` | bottomless/src/wal.rs:51-73 | verification accepts exactly if header and page sum to the stored checksum |
| `WalChecksum.WrittenFrameVerifies` | bottomless/src/wal.rs:51-73 | a frame with this checksum in its last eight header bytes, most significant first, verifies if and only if it is the checksum of the first eight header bytes and the page, whatever the salts are |
| `WalChecksum.VerifiesFromOne` | bottomless/src/wal.rs:51-73 | a frame verifies from exactly one starting checksum |
| `WalChecksum.ChangeShows` | bottomless/src/wal.rs:273-289 | any change inside one pair of words changes the checksum, in both byte orders |
| `WalChecksum.PageChangeFails` | bottomless/src/wal.rs:51-73 | changing any word of the page makes verification fail |
| `WalChecksum.HeaderChangeFails` | bottomless/src/wal.rs:51-73 | changing the page number or the size in the header makes verification fail |
| `HranaBatch.Transactional` | sqlanywhere-hrana/src/proto.rs:295-321 | the steps built: BEGIN, each statement on the success of the one before, COMMIT, and ROLLBACK unless COMMIT succeeded |
| `HranaBatch.FromIter` | sqlanywhere-hrana/src/proto.rs:324-342 | each statement on the success of the one before |
| `HranaBatch.AcceptedHasValue` | sqlanywhere-server/src/hrana/batch.rs:32-80 | an accepted condition always has a value when its step is reached |
| `HranaBatch.ConditionMeans` | sqlanywhere-server/src/hrana/batch.rs:32-80 | conjunction, disjunction, negation, error and autocommit mean what they say on accepted conditions |
| `HranaBatch.Run` | sqlanywhere-server/src/connection/program.rs:138-198 | the machine runs the steps in order, a skipped or failed step counting as false |
| `HranaBatch.ControlFlow` | sqlanywhere-hrana/src/proto.rs:295-321 | for all statements and outcomes: what ran is a prefix, COMMIT ran exactly if everything before succeeded, ROLLBACK exactly if COMMIT did not |
| `HranaBatch.AtomicExactly` | sqlanywhere-hrana/src/proto.rs:295-321 | a list of any statements is all or nothing under all outcomes if and only if, where its statements succeed, no write becomes durable before the batch's COMMIT and COMMIT is not reached with writes rolled back |
| `HranaBatch.ContainedIsAtomic` | sqlanywhere-hrana/src/proto.rs:295-321 | for such a list the writes are durable, all and in order, if COMMIT succeeded, and none otherwise, and the transaction is closed if COMMIT or ROLLBACK succeeded |
| `HranaBatch.WritesAreContained` | sqlanywhere-hrana/src/proto.rs:295-321 | a list of writes alone is all or nothing |
| `HranaBatch.OwnCommitEscapes` | sqlanywhere-hrana/src/proto.rs:295-321 | a write followed by a COMMIT of its own is not |
| `HranaBatch.SequenceStopsAtFailure` | sqlanywhere-hrana/src/proto.rs:324-342 | a plain sequence makes durable exactly the statements before the first that fails |
| `HranaWire.EncodedLenIsExact` | sqlanywhere-hrana/src/protobuf.rs:327-353 | the announced length of a value is the length written |
| `HranaWire.EncodedBytes` | sqlanywhere-hrana/src/protobuf.rs:327-345 | the bytes of every value as Protocol Buffers has them: key byte, then folded integer, eight bytes, or length and contents |
| `HranaWire.VarintIsBase128` | sqlanywhere-hrana/src/protobuf.rs:327-345 | variable-length integers are base 128, least significant first, with the high bit on all bytes but the last, and as short as possible |
| `HranaWire.OtherFieldsSkipped` | sqlanywhere-hrana/src/protobuf.rs:354-397 | fields with other numbers are skipped |
| `HranaWire.WrongWireFails` | sqlanywhere-hrana/src/protobuf.rs:354-397 | a value in the wrong wire type is an error |
| `HranaWire.MergeEncoded` | sqlanywhere-hrana/src/protobuf.rs:354-397 | merging an encoded value gives that value over anything, with anything following; the absent value leaves what was there |
| `HranaWire.Message.MergeAll` | sqlanywhere-hrana/src/protobuf.rs:354-397 | the loop over fields overwrites the value as the merge of the model does, and fails exactly when that does |
| `HranaWire.RoundTrip` | sqlanywhere-hrana/src/protobuf.rs:327-402 | every value decodes from its encoding |
| `HranaWire.EncodeMap` | sqlanywhere-hrana/src/protobuf.rs:410-420 | the loop appends the entries of the messages that are there |
| `HranaWire.EncodedMapLen` | sqlanywhere-hrana/src/protobuf.rs:422-434 | the summed length is the length written |
| `HranaWire.EncodeBatchResult` | sqlanywhere-hrana/src/protobuf.rs:160-167 | results under tag 1, then errors under tag 2 |
| `HranaWire.BatchResultLen` | sqlanywhere-hrana/src/protobuf.rs:169-172 | the announced length of a batch result is the length written |
| `HranaWire.EntryLength` | sqlanywhere-hrana/src/protobuf.rs:436-459 | the length prefix of a map entry is the length of its body |
| `HranaWire.EntryBytes` | sqlanywhere-hrana/src/protobuf.rs:436-459 | the bytes of a map entry: index under key 8, message under key 18 |
| `HranaWire.BatchRoundTrip` | sqlanywhere-hrana/src/protobuf.rs:159-172 | a receiver gets back every result and every error at its index, and nothing else |
| `TopQueries.TopOrder` | sqlanywhere-server/src/stats.rs:19-26 | the entries of the model are ordered as the derived order, and distinct queries are distinct entries |
| `TopQueries.SlowOrder` | sqlanywhere-server/src/stats.rs:39-45 | the same for the slowest queries, whose text comes before the counts |
| `TopQueries.RejectKeeps` | sqlanywhere-server/src/stats.rs:450-452 | an entry below the threshold would not have been kept |
| `TopQueries.FullKeeps` | sqlanywhere-server/src/stats.rs:442-447 | a full set that takes an entry and gives up its least is again the greatest ten |
| `TopQueries.OneGreatest` | sqlanywhere-server/src/stats.rs:434-448 | there is only one such set |
| `TopQueries.ShowsTheGreatest` | sqlanywhere-server/src/stats.rs:434-487 | after any updates and resets the set holds the ten greatest distinct entries seen since the last reset, and the threshold is the least score kept once there were more than ten |
| `TopQueries.Stats.Update` | sqlanywhere-server/src/stats.rs:281-340 | both sets are offered the query, a statement that touched no row counting as one row read |
| `TopQueries.Stats.AddTopQuery` | sqlanywhere-server/src/stats.rs:434-448 | insertion, eviction and the new threshold |
| `TopQueries.Stats.AddSlowestQuery` | sqlanywhere-server/src/stats.rs:463-474 | the same for the slowest queries |
| `TopQueries.Stats.ResetTopQueries` | sqlanywhere-server/src/stats.rs:458-461 | an empty set with threshold 0 |

## Left out

- Machine integers: counters, page numbers and sizes are unbounded unless the model says otherwise; the wrap of frame counters, of the editor's output length and of row sums at their integer widths is not modelled.
- Replica.ReplicaIsAtABoundary: a stream is the log from the client's position or its recorded index, and from the latter with nothing on its way. Only after a snapshot that failed and left a frame number, the next stream finds no number from beyond its first transaction, or the next snapshot ends beyond it; only after the end of a snapshot or an index that a restart needs was lost, the next stream finds the database within one transaction of the index, or the next snapshot does not end before the database. The file size after a commit is not modelled.
- BtreeMutex.DeadlockFree: the list of a connection's sharable B-trees does not change during a run; opening and closing B-trees is not modelled.
- WalCopier.Flush: a missing log file, an unset generation and errors while copying end the source's flush and are not modelled; the batch size is a 32-bit number.
- TransactionCache.TransactionPageCache.Flush: errors of reading the recovery file and of writing the database file are not modelled.
- LocalReplay.ApplyWal: read errors of the objects and write errors of the database file are not modelled, and checksum failures, which the source only logs, are not either; pages are numbered from 1 and have the page size.
- RestoreWal.Restore: an error of the store, of the injector or of checksum verification ends the source's restore and removes the file; the model has no such runs.
- FullRestore.Restore: errors while fetching snapshots, dependencies and metadata end the source's restore and are not modelled.
- FullRestore.AnySnapshotWillDo: the snapshot of a generation is taken to be what the generation before ended with.
- BackupRestore.BackupThenRestore: each batch is stored once; what a restore makes of batches copied again is stated on their listing only.
- HranaBatch.Run: an error of the result builder, which stops the source's machine in the middle of a batch, is not modelled.
- HranaBatch.SequenceStopsAtFailure: only writes outside a transaction are covered.
- HranaWire.Message.MergeAll: text is bytes, without the check for valid UTF-8, and groups are rejected where a field is skipped.
- GenerationId.Layout: shifts and masks are written as division and remainder.
- FrameCounters.HandedOverOnce: the flusher's load and swap are one step.
- UploadRuns.PublishedReachesSent: a run is of one generation, since the progress is reset with a new one.
- The comparison with a local database before a restore, tombstones, and the metadata object: shallow case distinctions.
- Frame offsets and counts of a write-ahead log file, and the copying of its bytes: easy arithmetic.
- Gzip and zstd, encryption, retries, metrics, and all network and file access.
- The rest of `alter.c`, which depends on the parser, and the linked-list pointers of its token list, which is a sequence here.
- Raw pointers and `unsafe` code in the pager: slab indices and sequences stand for them.
- The query histogram, and reloading persisted statistics.
