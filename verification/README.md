# cloudetcd, verified

A Dafny model of cloudetcd: an etcd v3 server that keeps its state as an
append-only log of records, groups transactions into batches validated by
optimistic concurrency, indexes keys in a radix tree, compacts index and log,
follows the log for watchers and keeps leases from its events. Code that
updates things in place is modelled by classes and loops, each proved against
a function of values; what the system promises is then proved about those
functions, over all inputs, runs and interleavings.

`dafny verify dfyconfig.toml` checks the whole project.

## What is where

| files | contents |
|---|---|
| `Bytes`, `Records` | keys in byte order; events, records, and what a log means as a key-value store |
| `GroupCommit`, `Batching` | group commit as a value and its runs; the batching layer's objects |
| `KeyIndex`, `RadixTree`, `BPTree` | the index as a map, as a tree value, and as linked nodes updated in place |
| `Listing`, `Mvcc`, `System`, `Chain`, `Restart` | evaluation of requests against what they mean; the whole system as a step machine; version histories; replay of a compacted log |
| `MemoryStorage`, `Watch`, `Paging`, `RangeReads` | the store's object, its watchers, the client that lists page by page, and range reads inside transactions |
| `Wire`, `LogCodec`, `LogCodecLoops` | the Protocol Buffers encoding of records and files, and the loops that read and write it |
| `LogFiles`, `Recovery`, `LogSteps`, `FileIndex`, `Rewriting`, `FileNames`, `RecordCache`, `Compaction`, `FilesystemLog` | the log on files: what a directory holds, what any crash leaves of it, the index over it, what a compaction does while the log goes on, and the object that updates them |
| `Leases`, `LeaseManager` | lease lists kept from log events; the lease objects |
| `Joint` | the store's compaction and the files' together |
| `Examples` | runs that reach the cases where the system does not do what one might expect |

The main results are `System.LogIsSerial` (log order is a serial order),
`FilesystemLog.Log.Open` with the crash states every method of
`FilesystemLog.Log` records (recovery), `System.NextKeepsInv` (index and log
stay joined), `Chain.EveryPutContinues` (version histories),
`Joint.CompactedRestart` (restart after compaction),
`BPTrees.BPTree` against `KeyIndex` (the radix tree is a map),
`LogCodec.CutIsExact` (codec and torn tails), `Watch.MemoryWatcher.CatchUp`
(watch delivery), `Leases.EveryRunLosesNone` (leases) and
`Paging.ListPrefix` (paging).

Some claims one might expect do not hold of the code. Each has a lemma with an
input that breaks it and one that says exactly when it holds:

- A delete that finds nothing records no read, so a transaction with one is
  not always serial (`Examples.StaleDeleteRun`, `System.LogIsSerial`).
- A range reader is checked against the start of its batch
  (`GroupCommit.RangeReaderBehindWriter`, `GroupCommit.RangeReadIsExact`,
  `RangeReads.RangeResponseIsExact`).
- A read-only transaction whose snapshot is overtaken by index compaction can
  miss a key (`System.LostReadExample`, `Examples.OvertakenPage`,
  `System.ReadIsExact`).
- A range read returns every put of the records it reaches
  (`Paging.ListIsExact`).
- A delete of a deleted key ends the process (`Examples.DeletedTwice`,
  `System.ExitIsExact`).
- A transaction that writes one key twice leaves lookups, log and compaction
  in disagreement (`Examples.DoubleWrite`, `Records.FirstEventIsExact`,
  `Mvcc.WritesOnceIsDistinct`).
- Compaction can bring back a deleted key for a process started on what it
  leaves (`Restart.RevivedKey`, `Restart.RestartIsExact`).
- A cache can stay over its budget, where its comment says it never does
  (`RecordCache.OversizedReplacementStays`, `RecordCache.OverBudgetIsExact`).
- The mark of an expiring lease can outlive the lease
  (`Leases.MarkStays`, `Leases.BecomesStranded`, `Leases.MarkOutlives`).
- A crash inside a new file's header makes the log unopenable
  (`FilesystemLog.HeaderCrash`).

## How things are modelled

- The order in which goroutines run is any order: the steps of `System.Next`,
  `GroupCommit.Step` and `Leases.Next` may follow one another in every way.
  Checking a watch's start and registering it is one step, and so is finding a
  log file and reading from it.
- A rewrite of log files runs while others commit, rotate and look up: what they
  do at each moment (`World`) and what the store answers at each moment whether a
  record is live (`Ask`) are parameters, so the contracts hold for every
  interleaving. Renaming a replacement into place and putting it in the index is
  one step; a commit in between would touch neither.
- A directory is a map from names to bytes. Its operations are durable and
  happen in order; `FilesystemLog.Disk` records every state one may be cut off
  in, an append after any of its bytes. A file's header arrives with the file.
- The order of files that compare equal, the order in which a map is walked,
  which leases are due, what a callback answers and whether a lease record's
  value can be read are parameters.
- Every event in the log carries its key-value pair, and every batch fits the
  encoding (64-bit revisions above 0, a message length that fits in memory).
- Revisions are unbounded numbers, except in the wire format, where widths,
  wrap-around and sign are spelled out. A missing byte string and an empty one
  are the same.
- Result channels are numbered tickets. Files are indexed when they are
  opened, rather than on first read.
- Where records are decoded by the Protocol Buffers library, the model uses the
  decoder that `logcodec` itself has; both read the same format.

## Model

| member | source | states |
|---|---|---|
| `GroupCommit.EveryRunKeepsInv` | pkg/persistence/batch/batching.go:100-195 | Over every run of arrivals and flushes: what committed is a subsequence of what arrived, at contiguous revisions; every transaction that no longer waits has exactly one result, naming its own place in the log; what waits is exactly what has no result yet; `writes` holds each key's last committed revision |
| `GroupCommit.AddKeepsInv` | pkg/persistence/batch/batching.go:100-127 | An arrival keeps that invariant: it waits behind everything that arrived before it, in a batch it is compatible with |
| `GroupCommit.FlushKeepsInv` | pkg/persistence/batch/batching.go:137-195 | A turn of the flusher keeps it |
| `GroupCommit.NextBatchWaits` | pkg/persistence/batch/batching.go:151-158 | The batch flushed next holds the transactions that have waited longest, and is compatible |
| `GroupCommit.VerdictIsPerTxn` | pkg/persistence/batch/batch.go:155-190 | Within a batch the order of validation does not matter: each verdict is the one the transaction would get alone |
| `GroupCommit.ConflictIsExact` | pkg/persistence/batch/batch.go:198-235 | A point-read transaction with a true read set is rejected if and only if a key it read or wrote was committed after its snapshot |
| `GroupCommit.DisjointNeverAbort` | pkg/persistence/batch/batch.go:205-206 | Transactions on disjoint keys never abort each other |
| `GroupCommit.RangeReadIsExact` | pkg/persistence/batch/batch.go:155-216 | In every state of every run: what an accepted range reader read of a range is current at its own revision if and only if no member accepted ahead of it in its batch writes in the range |
| `GroupCommit.AheadIsWritten` | pkg/persistence/batch/batch.go:155-190 | What commits ahead of a member of a batch is exactly what the accepted members before it write |
| `GroupCommit.RangeReaderBehindWriter` | pkg/persistence/batch/batch.go:158-160 | A range reader behind a writer of its range, in one batch: both are accepted |
| `GroupCommit.LastCommitted` | pkg/persistence/batch/batch.go:36-40 | The revision is 0 or one at which the key was written, and no committed write of the key is later |
| `Batching.CheckTogether` | pkg/persistence/batch/batch.go:64-84 | Two transactions may share a batch exactly when neither writes what the other writes and the later reads nothing the earlier writes |
| `Batching.ValidateTxn` | pkg/persistence/batch/batch.go:213-235 | The loops over the read and write sets decide `Validate` |
| `Batching.StampRecord` | pkg/persistence/batch/batch.go:165-179 | Re-stamping in place gives every event the commit revision, and a creation revision too where the key was created |
| `Batching.CommittedWrites.Record` | pkg/persistence/batch/batch.go:180-186 | The shared map gains exactly the written keys at the new revision |
| `Batching.TxnBatch.JoinsWith` | pkg/persistence/batch/batch.go:52-62 | A transaction joins when it can be batched with every member |
| `Batching.TxnBatch.Add` | pkg/persistence/batch/batch.go:107-120 | The batch gains the transaction at its end |
| `Batching.TxnBatch.Prepare` | pkg/persistence/batch/batch.go:145-196 | The survivors, stamped; the shared map; and the accepted and rejected channels are those that processing the batch one transaction at a time gives, every member in exactly one of the two lists |
| `Batching.Batching.Add` | pkg/persistence/batch/batching.go:100-127 | Queuing a transaction does to open batch and queue what `AddTxn` says, and keeps the invariant of every run |
| `Batching.Batching.Deliver` | pkg/persistence/batch/batching.go:187-194 | Every channel of the batch gets one result, the one its transaction earned; no channel is sent to twice |
| `Batching.Batching.Flush` | pkg/persistence/batch/batching.go:175-195 | Committing a batch extends the log and moves the last position as `FlushNext` says, and acknowledges all of it |
| `Batching.Batching.Flusher` | pkg/persistence/batch/batching.go:137-171 | One turn flushes the oldest batch; it ends only when told to stop with nothing waiting; each turn leaves strictly less waiting |
| `Batching.Batching.Close` | pkg/persistence/batch/batching.go:197-205 | Close returns only when nothing is queued, and every channel ever handed out has its result |
| `Mvcc.EvaluateAgrees` | pkg/storage/memorystorage/memory.go:389-569 | A request evaluated at a snapshot and re-stamped commits what it means on the store just before its revision, if and only if none of its deletes is stale (found nothing, of a key that is there) |
| `Mvcc.EvaluateResponds` | pkg/storage/memorystorage/memory.go:219-284 | The responses are those of that store, range reads aside |
| `Mvcc.EvaluateEvents` | pkg/storage/memorystorage/memory.go:219-284 | Each event carries its true predecessor and continues its creation revision and version |
| `Mvcc.EvaluateExit` | pkg/storage/memorystorage/memory.go:817-821 | If every lookup finds its record, evaluation ends the process if and only if its compares can be decided and the operations taken reach, with those before it going through, a delete of an already deleted key |
| `Mvcc.WritesOnceIsDistinct` | pkg/storage/memorystorage/memory.go:513-569 | A transaction writes no key twice if and only if the operations it ran write distinct keys |
| `System.NextKeepsInv` | pkg/storage/memorystorage/memory.go:145-182 | Every step of the system (evaluate, submit, flush, apply, compact, drop, watch, deliver, close) keeps the whole invariant |
| `System.EveryRunKeepsInv` | pkg/storage/memorystorage/memory.go:368-387 | So does every run, whatever the interleaving |
| `System.RunGrows` | pkg/storage/memorystorage/memory.go:145-182 | Log, applied revision and compaction point only ever move on |
| `System.LogIsSerial` | pkg/storage/memorystorage/memory.go:340-366 | Log order is a serial order: each committed record is what its request means on the store just before its own revision, if and only if it holds no stale delete; index compaction racing past the snapshot does not matter |
| `Examples.StaleDeleteRun` | pkg/storage/memorystorage/memory.go:800-808 | A run in which a delete that finds nothing is not protected: its transaction commits behind a put of the key, and the key stays |
| `System.ResponsesAreSerial` | pkg/storage/memorystorage/memory.go:402-415 | A client whose transaction had no stale delete was told about single keys what that store holds; range reads are in `RangeReads` |
| `RangeReads.RangeResponseIsExact` | pkg/storage/memorystorage/memory.go:540-552 | A range read inside a transaction that writes told its client a page of the store its batch found, and that is the page just before its own revision if no member accepted ahead writes in the range; the two stores differ in the range if and only if one does |
| `RangeReads.HistoryResponse` | pkg/storage/memorystorage/memory.go:880-887 | A range read at an explicit revision told its client a page of the history at that revision |
| `RangeReads.KeyChanges` | pkg/persistence/batch/batch.go:155-190 | Between the start of a batch and one of its members a key changes if and only if a member accepted ahead writes it |
| `System.EventsContinue` | pkg/storage/memorystorage/memory.go:219-284 | Every event of every committed record names its true predecessor, although it was staged at another revision |
| `System.ReadIsExact` | pkg/storage/memorystorage/memory.go:674-687 | A read is right if and only if it is at or above the compaction point, or the key was not there, or the key was not written between the read and the point |
| `System.LostReadExample` | pkg/storage/memorystorage/memory.go:1011-1038 | A key that a reader at a snapshot below the point can no longer find |
| `System.LookupIsWhole` | pkg/storage/memorystorage/memory.go:417-427 | No lookup meets a record that is gone or does not mention the key: the "not found" exits are unreachable |
| `System.ExitIsExact` | pkg/storage/memorystorage/memory.go:813-821 | In every reachable state evaluation ends the process exactly then: never for a missing record |
| `Examples.DeletedTwice` | pkg/storage/memorystorage/memory.go:817-821 | A proper state and a request that end the process |
| `System.NextToApplyIsReadable` | pkg/storage/memorystorage/memory.go:161-168 | The next record to apply is always still in the log |
| `System.DroppedIsUnreferenced` | pkg/storage/memorystorage/memory.go:1044-1052 | A record the log may drop is named by no key of the index |
| `System.DeadStaysDead` | pkg/storage/memorystorage/memory.go:1040-1052 | What a background rewrite found dead stays dead under later applies and compactions, so an older `through` does no harm |
| `System.DeadForGood` | pkg/storage/memorystorage/memory.go:1040-1052 | Over every run: what a background rewrite found dead once stays dead, whatever is applied and compacted meanwhile |
| `System.LiveStaysLive` | pkg/storage/memorystorage/memory.go:1040-1052 | And what it found live stays live until the index is compacted further |
| `System.WatcherIsNeverCutOff` | pkg/storage/memorystorage/memory.go:1013-1031 | No open watcher's next revision is ever dropped |
| `System.CompactPoint` | pkg/storage/memorystorage/memory.go:1013-1031 | The point is at most what was asked for and at most where any open watcher has delivered to |
| `Records.FirstEventIsExact` | pkg/storage/memorystorage/memory.go:689-696 | Reading the first event about a key gives what the record leaves the key with if and only if its first and last event about the key leave the same |
| `Examples.DoubleWrite` | pkg/storage/memorystorage/memory.go:219-284 | A transaction that puts a key and deletes it: a lookup finds the put, the log says deleted, and compacting through that revision loses the key |
| `Chain.EveryLogIsChained` | pkg/storage/memorystorage/memory.go:266-272 | In every run of a process, also one started on a compacted log, and at every revision since: a live key has as creation revision its first put since it was absent, as version the count of puts since then, as modification revision its last write, all counted on the whole history |
| `Chain.EveryPutContinues` | pkg/storage/memorystorage/memory.go:231-280 | So does every put the process commits, with its previous value |
| `Chain.EmptyIsChained` | pkg/storage/memorystorage/memory.go:95-110 | The empty log is such a log, so the claim covers every log grown from it |
| `Chain.NothingDropped` | pkg/storage/memorystorage/memory.go:89-102 | A process started on a log that lost nothing is started on all of its history |
| `Chain.ThinIsNotChained` | pkg/persistence/filesystemlog/filesystem_log.go:1071-1075 | On what compaction leaves of a history the count can be wrong, though every key has its value |
| `MemoryStorage.FindIn` | pkg/storage/memorystorage/memory.go:689-696 | The first event of the record about the key |
| `MemoryStorage.MemoryStorage.LookUp` | pkg/storage/memorystorage/memory.go:404-427 | The index and log lookup is `Observe` of the view |
| `MemoryStorage.MemoryStorage.CheckReadRevision` | pkg/storage/memorystorage/memory.go:674-687 | Explicit revisions are accepted exactly between the compaction point and the snapshot |
| `MemoryStorage.MemoryStorage.ListRange` | pkg/storage/memorystorage/memory.go:873-956 | The walk with its callback, stopping where it says so, computes `List` over the ordered keys of the index |
| `MemoryStorage.MemoryStorage.EvaluateTxn` | pkg/storage/memorystorage/memory.go:389-569 | The compare and operation loops compute `Evaluate`, with its error and exit cases |
| `MemoryStorage.Transaction.Check` | pkg/storage/memorystorage/memory.go:400-506 | One compare: what is read is recorded, and the verdict is that of the value found |
| `MemoryStorage.Transaction.Put` | pkg/storage/memorystorage/memory.go:219-284 | Stages the put that `EvalPut` describes |
| `MemoryStorage.Transaction.Delete` | pkg/storage/memorystorage/memory.go:721-848 | Stages a delete, finds nothing, or ends the process |
| `MemoryStorage.Transaction.Get` | pkg/storage/memorystorage/memory.go:602-672 | Reads one key at the snapshot or an explicit revision |
| `MemoryStorage.Transaction.Range` | pkg/storage/memorystorage/memory.go:540-552 | A range read marks the transaction as a range reader |
| `MemoryStorage.MemoryStorage.IndexEvents` | pkg/storage/memorystorage/memory.go:165-178 | The radix tree after a record is the map after it |
| `MemoryStorage.MemoryStorage.ApplyUpTo` | pkg/storage/memorystorage/memory.go:145-182 | Records are applied in log order up to `rev`, or to the first that cannot be read |
| `MemoryStorage.ApplyReaches` | pkg/storage/memorystorage/memory.go:145-182 | In a proper state that is never short of `rev`, and the state stays proper |
| `MemoryStorage.MemoryStorage.ReplayLog` | pkg/storage/memorystorage/memory.go:89-143 | A new process has the index of everything the log still holds; an empty log gets its record 1 |
| `MemoryStorage.MemoryStorage.Compact` | pkg/storage/memorystorage/memory.go:1005-1038 | Compaction goes to the point allowed by the open watchers and not below where it already was |
| `MemoryStorage.WalkLists` | pkg/storage/memorystorage/memory.go:897-950 | A range read over the whole walk is the read over the map's keys in order |
| `KeyIndex.LatestAt` | pkg/bptree/bptree.go:269-285 | A revision of the list at or below the bound; none only if all are above it |
| `KeyIndex.LatestIs` | pkg/bptree/bptree.go:276-284 | It is the one with none between it and the bound |
| `KeyIndex.KeptExactly` | pkg/bptree/bptree.go:182-196 | Trimming a key keeps exactly the revisions that no later one at or below the point supersedes |
| `KeyIndex.CompactKeepsReads` | pkg/bptree/bptree.go:162-196 | A lookup at or above the point finds the same revision as before; a key that goes would have found its delete |
| `KeyIndex.CompactLosesReads` | pkg/bptree/bptree.go:182-196 | A lookup below the point, of a key that stays, is kept if and only if it saw nothing or nothing was written between it and the point |
| `KeyIndex.CompactTwice` | pkg/bptree/bptree.go:182-196 | Compacting at a and then at b >= a is compacting at b |
| `KeyIndex.IndexCompactTwice` | pkg/bptree/bptree.go:166-213 | The same for the whole index |
| `KeyIndex.ApplyKeepsIndex` | pkg/storage/memorystorage/memory.go:158-180 | Applying the next record keeps the index in step with the log |
| `KeyIndex.CompactKeepsIndex` | pkg/bptree/bptree.go:166-179 | So does compaction |
| `KeyIndex.FoundIsLastWrite` | pkg/storage/memorystorage/memory.go:404-415 | A lookup that finds a revision finds the key's last write at or below the bound |
| `KeyIndex.AbsentIsExplained` | pkg/storage/memorystorage/memory.go:411-415 | A lookup that finds nothing means: never written, deleted and forgotten, or written again below the point |
| `RadixTree.AddKeepsWellFormed` | pkg/bptree/bptree.go:217-265 | Edge splitting keeps sibling first bytes distinct and sorted |
| `RadixTree.GetAdd` | pkg/bptree/bptree.go:217-265 | Adding a revision changes the entry of one key and of no other |
| `RadixTree.AddRefines` | pkg/bptree/bptree.go:145-160 | Adding to the tree is adding to the plain map |
| `RadixTree.LatestRefines` | pkg/bptree/bptree.go:269-308 | Lookup in the tree is lookup in the map |
| `RadixTree.CountRefines` | pkg/bptree/bptree.go:119-123 | The tree holds as many items as the map has keys |
| `RadixTree.SearchIsExact` | pkg/bptree/bptree.go:287-308 | Search finds a key with its revisions exactly if the walk passes it |
| `RadixTree.ItemsOrdered` | pkg/bptree/bptree.go:310-314 | The walk is in strictly ascending byte order, so visits each key once |
| `RadixTree.ScanIsExact` | pkg/bptree/bptree.go:327-371 | From any start key the pruned walk passes exactly the items at or after it |
| `RadixTree.VisitIsPrefix` | pkg/bptree/bptree.go:310-325 | A walk stops right after the first item the callback refuses |
| `RadixTree.CompactRefines` | pkg/bptree/bptree.go:198-213 | Compacting the tree compacts the map |
| `RadixTree.CompactBalances` | pkg/bptree/bptree.go:162-179 | Keys and revisions removed, as reported, and those left add up to those there were |
| `BPTrees.CommonPrefixLen` | pkg/bptree/bptree.go:132-140 | The length is the longest common prefix |
| `BPTrees.CompactRevisions` | pkg/bptree/bptree.go:182-196 | The search and the slicing give the kept revisions, their number and whether the key goes |
| `BPTrees.TreeNode.Find` | pkg/bptree/bptree.go:125-130 | Bisection finds the position of the first byte |
| `BPTrees.TreeNode.Lookup` | pkg/bptree/bptree.go:287-308 | The descent loop returns the revisions of the tree value |
| `BPTrees.TreeNode.Split` | pkg/bptree/bptree.go:240-258 | Splitting an edge in place is the split of the value |
| `BPTrees.TreeNode.AddRevision` | pkg/bptree/bptree.go:215-265 | Updating nodes in place, with fresh nodes only, gives the tree with the revision added, and says whether the key is new |
| `BPTrees.TreeNode.Compact` | pkg/bptree/bptree.go:198-213 | Trimming in place gives the compacted tree and its totals |
| `BPTrees.TreeNode.List` | pkg/bptree/bptree.go:327-371 | The recursive walk with callback visits the items in order and stops when told |
| `BPTrees.BPTree.AddRevision` | pkg/bptree/bptree.go:142-160 | The index's map gains the revision; `keys` counts the keys |
| `BPTrees.BPTree.Compact` | pkg/bptree/bptree.go:162-179 | The map is the compacted map, and the two results are exactly how many keys and revisions it lost |
| `BPTrees.BPTree.GetLatestRevisionByKey` | pkg/bptree/bptree.go:267-285 | The largest revision at or below the bound, or none |
| `BPTrees.BPTree.ListRevisionsByKeyRange` | pkg/bptree/bptree.go:310-325 | The walk includes the empty key, then the tree from the start key on |
| `BPTrees.BPTree.WalkIsScan` | pkg/bptree/bptree.go:310-325 | Its keys are those of the map at or after the start, in order |
| `BPTrees.BPTree.Len` | pkg/bptree/bptree.go:118-123 | The number of keys of the map |
| `Restart.ReplayIsIndex` | pkg/storage/memorystorage/memory.go:103-139 | Replaying a log gives an index in step with it |
| `Restart.RestartIsStart` | pkg/storage/memorystorage/memory.go:63-78 | A process on what is left of a log starts in a proper state |
| `Restart.NewLookup` | pkg/storage/memorystorage/memory.go:103-139 | What a lookup in a new process returns is what is left of the log |
| `Restart.RestartIsExact` | pkg/persistence/filesystemlog/filesystem_log.go:1071-1075 | Lookups in a new process return what the log said, at and above the compaction point, if and only if no put outlived the dropped delete that followed it |
| `Restart.RestartAfterCompaction` | pkg/storage/memorystorage/memory.go:1005-1010 | With one event a record and compaction finished up to a file boundary they do, and return what the old process returned |
| `Restart.SystemKeepsLive` | pkg/storage/memorystorage/memory.go:1040-1052 | What a running system drops leaves every live key its record |
| `Restart.RevivedKey` | pkg/persistence/filesystemlog/filesystem_log.go:1094-1103 | A run in which a put kept for another key of its record comes back: the delete that followed it may be dropped, the put may not |
| `Joint.DropsAreAllowed` | pkg/persistence/filesystemlog/filesystem_log.go:1093-1103 | Every record a file compaction drops is a drop the system allows, then and later, although liveness was asked record by record while the index went on changing |
| `Joint.NothingDroppable` | pkg/persistence/filesystemlog/filesystem_log.go:889-896 | After a compaction of the files that left no file with dead records alone, nothing the system allows to drop is left in the files it looked at |
| `Joint.CompactedRestart` | pkg/persistence/filesystemlog/filesystem_log.go:889-896 | From what `FilesystemLog.Log.Compact` promises: then a process started on the files returns, for every key at every revision from the compaction point on, what the log says and what the old process returned |
| `Wire.VarintRoundTrip` | pkg/persistence/logcodec/logcodec.go:93-95 | Every 64-bit number is read back from its varint, which says how long it is |
| `Wire.VarintTorn` | pkg/persistence/logcodec/logcodec.go:170-175 | No proper prefix of a varint is read as one |
| `Wire.Int64RoundTrip` | pkg/persistence/logcodec/logcodec.go:343-388 | Negative 64-bit values survive the unsigned encoding |
| `Wire.Int32RoundTrip` | pkg/persistence/logcodec/logcodec.go:301-341 | Enum values survive it too |
| `Wire.TagRoundTrip` | pkg/persistence/logcodec/logcodec.go:271-299 | A field tag is read back as number and wire type |
| `LogCodec.RecordRoundTrip` | pkg/persistence/logcodec/logcodec.go:77-98 | Decoding the encoding of a record gives it back, with omitted zero fields and 64-bit values |
| `LogCodec.RevisionRoundTrip` | pkg/persistence/logcodec/logcodec.go:191-233 | So it is for the revision, read without decoding the events |
| `LogCodec.RevisionZeroIsLost` | pkg/persistence/logcodec/logcodec.go:226-233 | A record written with revision 0 has none when read |
| `LogCodec.ScanIsExact` | pkg/persistence/logcodec/logcodec.go:157-189 | Scanning a file with a torn tail gives exactly the revisions and spans of its records, and where they end |
| `LogCodec.SpanDecodes` | pkg/persistence/logcodec/logcodec.go:126-135 | Each span's bytes decode to its record and revision |
| `LogCodec.FramesCut` | pkg/persistence/logcodec/logcodec.go:157-160 | Any cut of the encoding is a number of whole records and part of one more |
| `LogCodec.CutIsExact` | pkg/persistence/logcodec/logcodec.go:157-189 | After any cut at or past the header, scanning returns exactly the records before it, and appending at that boundary is a valid file again |
| `LogCodecLoops.AppendRecordsAt` | pkg/persistence/logcodec/logcodec.go:77-98 | The loop writes the frames and the spans of the records, and refuses lists of different length |
| `LogCodecLoops.ScanFile` | pkg/persistence/logcodec/logcodec.go:157-189 | The scanning loop computes `Scan` |
| `LogCodecLoops.Offsets` | pkg/persistence/logcodec/logcodec.go:137-155 | It succeeds only if the whole file is records |
| `LogCodecLoops.ReadRevision` | pkg/persistence/logcodec/logcodec.go:191-233 | The loop over fields finds the header's revision |
| `LogCodecLoops.DecodeAlias` | pkg/persistence/logcodec/logcodec.go:266-299 | The loop over fields computes `Decode` |
| `LogCodecLoops.DecodeEventAlias` | pkg/persistence/logcodec/logcodec.go:301-341 | The same for events |
| `LogCodecLoops.DecodeKeyValueAlias` | pkg/persistence/logcodec/logcodec.go:343-388 | And for key-value pairs |
| `RecordCache.TrimIsLongestFit` | pkg/persistence/recordcache/recordcache.go:103-108 | Eviction keeps the longest run of most recently used records that fits the budget, but always at least one |
| `RecordCache.OverBudgetIsExact` | pkg/persistence/recordcache/recordcache.go:88-109 | A put leaves the cache over its budget exactly when the record is larger than the budget and replaces one, or the cache already was over |
| `RecordCache.OversizedReplacementStays` | pkg/persistence/recordcache/recordcache.go:88-109 | A record that does: it replaces a small one and stays |
| `RecordCache.Cache.Get` | pkg/persistence/recordcache/recordcache.go:68-78 | Returns the cached record and moves it to the front |
| `RecordCache.Cache.Put` | pkg/persistence/recordcache/recordcache.go:88-109 | The recency list after a put; list, map and byte count stay in step |
| `RecordCache.Cache.Remove` | pkg/persistence/recordcache/recordcache.go:111-118 | The record leaves list, map and count |
| `RecordCache.Cache.EvictOldest` | pkg/persistence/recordcache/recordcache.go:120-131 | The last of the list leaves |
| `FileNames.NameRoundTrip` | pkg/persistence/filesystemlog/filesystem_log.go:117-145 | Reading a log file's name gives back its range and whether it is sparse |
| `FileNames.TemporaryIsOther` | pkg/persistence/filesystemlog/filesystem_log.go:967-970 | A temporary file is never taken for a log file |
| `FileNames.NamesSort` | pkg/persistence/filesystemlog/filesystem_log.go:117-119 | Names sort as the revisions they start at, a sparse file before the dense one with the same start |
| `LogFiles.OpenSegments` | pkg/persistence/filesystemlog/filesystem_log.go:301-364 | Opening files that hold a log, the last perhaps torn, gives exactly their ranges, sizes, spans and revisions |
| `LogFiles.KeptHas` | pkg/persistence/filesystemlog/filesystem_log.go:1071-1075 | A file's records are those of its range that compaction has not dropped |
| `Recovery.KeepsLayout` | pkg/persistence/filesystemlog/filesystem_log.go:386-439 | Listing keeps the files of the layout and removes exactly those one of its sparse files supersedes |
| `Recovery.RewriteRecovers` | pkg/persistence/filesystemlog/filesystem_log.go:963-1057 | In the middle of a group rewrite, with the active file grown meanwhile and perhaps torn, and however the directory is listed, opening finds every acknowledged record |
| `Recovery.TidyRecovers` | pkg/persistence/filesystemlog/filesystem_log.go:386-392 | So it does from every state of a directory in use, rewrite or not |
| `Recovery.RemovalRecovers` | pkg/persistence/filesystemlog/filesystem_log.go:419-437 | So it does after any removal that listing itself was cut off in |
| `Recovery.RecoversLater` | pkg/persistence/filesystemlog/filesystem_log.go:319-322 | What was recoverable stays so as the log grows and compaction drops more |
| `Recovery.FoundOpens` | pkg/persistence/filesystemlog/filesystem_log.go:301-364 | What is found is what opening returns |
| `Recovery.OthersDoNotMatter` | pkg/persistence/filesystemlog/filesystem_log.go:967-973 | Temporary files, whole or not, make no difference to recovery |
| `LogSteps.CutRecovers` | pkg/persistence/filesystemlog/filesystem_log.go:546-551 | A commit cut off anywhere in its write, in the middle of a group rewrite or not, leaves every acknowledged record and a prefix of the batch |
| `LogSteps.TidyAppend` | pkg/persistence/filesystemlog/filesystem_log.go:546-551 | An append, with part of a record after it, keeps a directory in use, also in the middle of a group rewrite |
| `LogSteps.LayoutAppend` | pkg/persistence/filesystemlog/filesystem_log.go:546-551 | An append, with part of a record after it, is the layout of the longer log |
| `LogSteps.LayoutNext` | pkg/persistence/filesystemlog/filesystem_log.go:494-519 | A new file with its header is the layout with an empty last segment |
| `LogSteps.TidyNext` | pkg/persistence/filesystemlog/filesystem_log.go:494-519 | So does starting the next file, whose name is free |
| `LogSteps.LayoutRewrite` | pkg/persistence/filesystemlog/filesystem_log.go:986-1019 | The replacement in place holds what the group held, without the dropped records |
| `LogSteps.RewriteStarts` | pkg/persistence/filesystemlog/filesystem_log.go:1014-1019 | Renaming it into place starts a rewrite that can be cut off |
| `LogSteps.RewriteRemoves` | pkg/persistence/filesystemlog/filesystem_log.go:1048-1057 | Removing the group's files in order carries it on |
| `LogSteps.TidyRemoves` | pkg/persistence/filesystemlog/filesystem_log.go:1048-1057 | So does removing the next file of the group |
| `FileIndex.GoodCommit` | pkg/persistence/filesystemlog/filesystem_log.go:553-570 | The index kept while writing describes the grown file |
| `FileIndex.GoodNext` | pkg/persistence/filesystemlog/filesystem_log.go:494-519 | And the new one; its name was free |
| `FileIndex.GoodRewrite` | pkg/persistence/filesystemlog/filesystem_log.go:1014-1029 | And the replacement put in the place of its group |
| `FileIndex.FindFile` | pkg/persistence/filesystemlog/filesystem_log.go:832-842 | The file covering a revision, or none exactly outside the log |
| `FileIndex.Search` | pkg/persistence/filesystemlog/filesystem_log.go:816-817 | The first index at or above a revision |
| `FileIndex.Locate` | pkg/persistence/filesystemlog/filesystem_log.go:805-821 | The position of a record: by offset in a dense file, by bisection in a sparse one |
| `FileIndex.DensePlace` | pkg/persistence/filesystemlog/filesystem_log.go:809-815 | A dense file has every revision it covers, at that position |
| `FileIndex.SparsePlace` | pkg/persistence/filesystemlog/filesystem_log.go:816-820 | A sparse file lacks a revision it covers exactly if it was dropped |
| `Rewriting.IsLive` | pkg/persistence/filesystemlog/filesystem_log.go:1094-1100 | A record is found live if some key it touches was live when asked about, and dead if each was dead when asked about |
| `Rewriting.LiveRecords` | pkg/persistence/filesystemlog/filesystem_log.go:1071-1115 | The live records of a file in order, as they were encoded, and the number of dead ones; answers may change while it asks |
| `Rewriting.WriteRecords` | pkg/persistence/filesystemlog/filesystem_log.go:989-1003 | Streaming them gives a file with the spans and revisions that scanning it would |
| `Rewriting.Weigh` | pkg/persistence/filesystemlog/filesystem_log.go:921-925 | What live records weigh: their bytes and four for each |
| `FilesystemLog.Disk.Append` | pkg/persistence/filesystemlog/filesystem_log.go:546-551 | An append passes through every prefix of the bytes, each a state a crash may leave |
| `FilesystemLog.Disk.Rename` | pkg/persistence/filesystemlog/filesystem_log.go:1014-1016 | A rename is one step |
| `FilesystemLog.Log.NewActiveFile` | pkg/persistence/filesystemlog/filesystem_log.go:494-519 | The next file is created under a name that did not exist |
| `FilesystemLog.Log.RotateLocked` | pkg/persistence/filesystemlog/filesystem_log.go:585-605 | A file with records is closed and the next started; an empty one stays; closed files are untouched, also while a group is being replaced |
| `FilesystemLog.Log.CommitBatch` | pkg/persistence/filesystemlog/filesystem_log.go:526-583 | A contiguous, nonempty batch is appended to the log and closed files are untouched; every crash on the way, and every crash recorded before, recovers, also while a group is being replaced |
| `FilesystemLog.Log.Meanwhile` | pkg/persistence/filesystemlog/filesystem_log.go:541-551 | Whatever others commit, rotate and look up at one moment keeps all that |
| `FilesystemLog.Log.RecordBytes` | pkg/persistence/filesystemlog/filesystem_log.go:694-737 | The bytes found decode to the record appended at that revision; a miss means outside the log or dropped |
| `FilesystemLog.Log.GetLogEntry` | pkg/persistence/filesystemlog/filesystem_log.go:664-692 | The record appended at the revision, through cache, file search and position; "compacted" only if it was dropped |
| `FilesystemLog.Log.Read` | pkg/persistence/filesystemlog/filesystem_log.go:844-887 | Exactly the records from a revision on that were not dropped, in order, up to the first the callback stops at |
| `FilesystemLog.Log.WriteGroup` | pkg/persistence/filesystemlog/filesystem_log.go:978-1003 | The temporary file gets exactly the records of the group found live, while others go on |
| `FilesystemLog.Log.Publish` | pkg/persistence/filesystemlog/filesystem_log.go:1014-1029 | The replacement takes the place of its group in directory and index; the files it replaces have still to go |
| `FilesystemLog.Log.CompactGroup` | pkg/persistence/filesystemlog/filesystem_log.go:961-1069 | The group becomes one sparse file; exactly its records found dead are dropped; other closed files are untouched; every crash on the way, with whatever others do in between, recovers |
| `FilesystemLog.Log.RemoveReplaced` | pkg/persistence/filesystemlog/filesystem_log.go:1048-1057 | The replaced files go one by one, with commits and rotations in between, each time leaving a recoverable directory |
| `FilesystemLog.Log.Measure` | pkg/persistence/filesystemlog/filesystem_log.go:914-931 | Which records of a file are dead, how many, and what the live ones weigh |
| `FilesystemLog.Log.FlushGroup` | pkg/persistence/filesystemlog/filesystem_log.go:933-948 | A lone file with no dead record, or fewer than a tenth, is left; any other group is rewritten |
| `FilesystemLog.Log.Eligible` | pkg/persistence/filesystemlog/filesystem_log.go:901-908 | The closed files at or below `through`, which come first |
| `FilesystemLog.Log.Compact` | pkg/persistence/filesystemlog/filesystem_log.go:889-959 | With others going on and answers changing: only records at or below `through` found dead are dropped; an eligible file keeps only records found live, or is left as it is with no dead record or fewer than a tenth; files above lose nothing; neighbours are put together as long as their live bytes fit and no longer, and each group becomes one file |
| `FilesystemLog.Log.ListFiles` | pkg/persistence/filesystemlog/filesystem_log.go:386-439 | What is kept, what is removed, and every directory on the way |
| `FilesystemLog.CheckRevisions` | pkg/persistence/filesystemlog/filesystem_log.go:328-343 | A sparse file's revisions ascend in its range, a dense one's follow from its first |
| `FilesystemLog.Log.IndexFiles` | pkg/persistence/filesystemlog/filesystem_log.go:301-364 | The result is that of opening the files; a torn tail of the last is cut off |
| `FilesystemLog.Log.Open` | pkg/persistence/filesystemlog/filesystem_log.go:288-384 | A directory any crash left opens to a prefix of the log that has every acknowledged record, less only what compaction dropped; a directory that cannot be opened is refused |
| `FilesystemLog.IndexIsRescan` | pkg/persistence/filesystemlog/filesystem_log.go:556-570 | In every state the spans, sizes and revisions kept in memory are those a fresh scan of the file gives |
| `FilesystemLog.HeaderCrash` | pkg/persistence/filesystemlog/filesystem_log.go:499-515 | If a new file's header did not arrive whole, opening fails; if it did, opening succeeds; in the middle of a group rewrite too |
| `Watch.ToSendHas` | pkg/storage/memorystorage/watch.go:227-305 | A watcher is sent an event exactly if the log has it and the watcher asked for it |
| `Watch.MemoryWatcher.Collect` | pkg/storage/memorystorage/watch.go:227-305 | The filter loops give the events asked for, without previous values unless wanted |
| `Watch.MemoryWatcher.ShouldSend` | pkg/storage/memorystorage/watch.go:236-279 | Internal keys, filters and the three kinds of range |
| `Watch.MemoryWatcher.Pass` | pkg/storage/memorystorage/watch.go:184-216 | One response: at most 256 revisions, always some progress; what has been sent in all stays exactly the filtered events of the log from the start to the new position; a failure names the record or the refused response |
| `Watch.MemoryWatcher.CatchUp` | pkg/storage/memorystorage/watch.go:165-218 | The watcher reaches the head it was told of; the responses concatenated are the filtered log, without gap or repeat, however they were cut; in a system it stops short only where the callback refuses the response it was given |
| `Watch.MemoryWatcher.OnLogEntry` | pkg/storage/memorystorage/memory.go:1094-1106 | The head moves; nothing sent changes |
| `Watch.OpenWatch` | pkg/storage/memorystorage/watch.go:43-126 | A watch at or below the compaction point is refused; one that is opened starts at or above it |
| `Watch.LogGrows` | pkg/storage/memorystorage/watch.go:184-216 | What was sent for a stretch of the log stays right when the log grows |
| `Watch.MemoryWatcher.GrowthKeeps` | pkg/storage/memorystorage/watch.go:184-216 | What was sent stays right when the log grows |
| `Leases.EveryRunLosesNone` | pkg/lease/lease.go:472-541 | Over every run of log events, expiries and deletions: a key with a lease is on that lease's list or awaits deletion for it; no key is on two lists or twice on one |
| `Leases.LogEventKeeps` | pkg/lease/lease.go:472-541 | Every event whose previous value is true keeps that |
| `Leases.NextKeeps` | pkg/lease/lease.go:193-261 | So does every step of expiry, deletion and retry |
| `Leases.ReplayKeeps` | pkg/lease/lease.go:33-41 | Replaying a log whose events continue one another loses no key |
| `Leases.DeleteRequestIs` | pkg/lease/lease.go:389-426 | The transaction issued for each key of a retired lease deletes the key exactly if it still hangs on the lease |
| `Leases.LeaseKeyRoundTrip` | pkg/lease/lease.go:43-58 | A lease's key names it, for all 64-bit ids, and is hidden from clients |
| `Leases.BecomesStranded` | pkg/lease/lease.go:450-457 | A mark comes to outlive its revoke at exactly those steps that answer the revoke of a lease which has lost its last key since it was marked and has not come back |
| `Leases.MarkOutlives` | pkg/lease/lease.go:193-236 | Over every run: a lease is marked with no revoke on its way if and only if some answered revoke left it so and it was not granted and revoked again since |
| `Leases.MarkStays` | pkg/lease/lease.go:533-538 | A sequence in which it is: a lease granted again under that id never expires |
| `LeaseManager.Queue.Push` | pkg/lease/lease.go:113-126 | The linked queue gains the lease at its end |
| `LeaseManager.Queue.Pop` | pkg/lease/lease.go:150-165 | First in, first out |
| `LeaseManager.RemoveKey` | pkg/lease/lease.go:527-533 | The first occurrence of the key leaves the list |
| `LeaseManager.Manager.ApplyLogEvent` | pkg/lease/lease.go:472-541 | The lease objects after an event are the table `OnLogEvent` describes; no two leases share a list |
| `LeaseManager.Manager.ApplyLeaseRecord` | pkg/lease/lease.go:428-462 | A grant adds a lease, a revoke retires it with its keys |
| `LeaseManager.Manager.RetireLease` | pkg/lease/lease.go:452-458 | The lease moves from the table to the queue if it has keys |
| `LeaseManager.Manager.CheckExpiredOnce` | pkg/lease/lease.go:193-236 | Exactly the leases that are due and unmarked are revoked, each handled as its revoke came out |
| `Paging.PrefixEndOf` | pkg/workload/keys.go:111-121 | The loop over the buffer computes the end of the prefix's range |
| `Paging.PrefixRange` | pkg/workload/keys.go:111-121 | For every key: it has the prefix if and only if it lies in the range |
| `Paging.ListKeysIs` | pkg/storage/memorystorage/memory.go:897-950 | A range read returns the puts of the records reached, in key order, up to the limit, and says there is more exactly when the limit was reached |
| `Paging.ListIsExact` | pkg/storage/memorystorage/memory.go:928-939 | That is the live values of the range if and only if no record reached puts another key |
| `Paging.ListIsPage` | pkg/storage/memorystorage/memory.go:873-956 | Then a range read is a page of the store's live values |
| `Paging.StoreServes` | pkg/storage/memorystorage/memory.go:873-887 | Every page at a revision that is not compacted away is a page of one history, however the log has grown, unless a key's last write there put another key too |
| `Paging.RunServes` | pkg/storage/memorystorage/memory.go:850-871 | A store in use answers every request of a client that pages from the history at the first snapshot, or fails because that is compacted away; later headers may be later |
| `Paging.OneEventNoExtras` | pkg/storage/memorystorage/memory.go:928-939 | With one event a record no key's last write puts another key |
| `Paging.StateKeys` | pkg/storage/memorystorage/memory.go:928-939 | In every history a value is filed under its own key, which is what the next page is asked from |
| `Paging.ListPrefix` | pkg/workload/executor.go:218-244 | Paging a store in use with any limit ends, and returns exactly the visible keys with the prefix that were live at the first snapshot, in order, whatever happens between the pages; it fails only at a request by which that revision is compacted away |
| `Examples.OvertakenPage` | pkg/storage/memorystorage/memory.go:368-380 | A run in which the first snapshot is overtaken by index compaction, and the first page misses a live key |
| `Paging.NextAnswer` | pkg/workload/executor.go:243-243 | What follows the last key of a page is what the next page starts with |
| `Bytes.SuccessorIsNext` | pkg/workload/executor.go:243-243 | Nothing lies between a key and the key with a zero byte after it |

## Left out

- The archive: uploading closed files, restoring from it, and reconciling the two.
- Memory mapping, read handles and pin counts: reads are from the file's bytes.
- A removal of a replaced file that fails: the code logs it and goes on, and the model has removals succeed, in order.
- Time: batch windows, rotation by age, TTL arithmetic, retry delays.
- The gRPC server, traffic recording, load generation other than the paging loop, `logfactory`, `memorylog`.
- `Txn` retries a rejected transaction up to 64 times: each attempt is a run of its own here.
- `ForceReplayLog`, `Dump`, `Status`, `DecodeRecord` and the snapshotter.
- Freedom from deadlock.
- The JSON of a lease's value, and the leases' answers to clients (grant, keep alive, time to live).
- Mvcc.EvaluateResponds: says nothing of range reads inside a transaction that also writes; RangeReads.RangeResponseIsExact and RangeReads.HistoryResponse do.
- System.ResponsesAreSerial: the same.
- System.LogIsSerial: takes each transaction to write a key at most once, which Mvcc.WritesOnceIsDistinct reads off the request; the code does not enforce it, and Examples.DoubleWrite shows what else happens.
- Restart.RestartAfterCompaction: the compaction point itself is not kept across a restart.
