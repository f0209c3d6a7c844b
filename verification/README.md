# A verified model of dsfs

dsfs is a file system whose metadata is an append-only log of transactions in one channel of a
chat server and whose file bodies are attachments in another. This project models the middle of
it, between the FUSE calls and the network, and proves what the parts promise together.

| file | what it models |
|---|---|
| `Ranges.dfy`, `Load.dfy` | the readiness tracker: an unsorted list of half-open ranges, sorted lazily, trimmed by swap removal during iteration |
| `Cache.dfy` | the memory cache: a slice of a reused backing array |
| `FileModel.dfy`, `FileData.dfy` | one open file: Read, Write, Truncate and block arrival as locked sections, and all their runs |
| `Blocks.dfy`, `Transfer.dfy` | cutting a body into blocks; the upload of Release, the download of Open, the patching of ApplyLiveTx |
| `Syncing.dfy` | the dirty mark, and changes made while an upload runs |
| `Tx.dfy`, `TxLog.dfy` | transactions, lines, messages, and replay into a map of paths |
| `Convergence.dfy`, `Owners.dfy` | several clients over one log, as a step system; what one writer for each path gives |
| `Writer.dfy` | the batching writer and what reading its messages back gives |
| `Setup.dfy` | loading the log page by page, and compaction |
| `Persistence.dfy` | what operations send, through batching, loading and compaction, back to the map of paths |
| `Paths.dfy`, `Namespace.dfy`, `Dsfs.dfy` | the tree that a flat map of paths and the open files stand for; Getattr and Readdir |

Objects whose methods update fields are classes (`Load`, `MemoryCache`, `FileData`, `Replica`,
`Writer`, `MapDB`, `Dsfs`). Their methods are verified against functions or relations on values,
and the results about runs are lemmas on those values. The block size, the message limits and the
page size are symbolic and positive. A slice or index panic is an outcome (`None`, `ok == false`,
`Panic`), not a precondition.

## Assumptions

- A locked section is one atomic step. Below that, three places are taken to be atomic too: the
  in-place sort that Read makes under a read lock, the unlocked look-up of the open file by the
  download job, and the test-and-set of the flag that keeps one upload per file.
- Checksums (SHA-1, written in the URL-safe base64 of section 5 of RFC 4648) are one function on
  blocks that is never empty, and injective where blocks are told apart by it.
- Transaction encoding round-trips and yields one non-empty line without a trailing carriage
  return; a line fits the line scanner.
- An encoded transaction fits one message, so the error paths taken after the map of paths has
  already changed do not occur.
- The kernel passes clean absolute paths, has looked up the parent as a folder, found a created
  path absent, and a rename target absent or of the same type, distinct from the source and not
  inside it.
- Between the two locked sections of a rename no upload ends and no live transaction arrives, so
  that the two are one step of a run. The kernel keeps other calls out by locking both
  directories, but uploads and live replay are not kernel calls. `EndRenameExact` and
  `CommitInsideRename` say what the second section does when something did come in between.
- In runs of the namespace an upload ends while its file is still open under the path it was
  released under.
- Sends are started in separate goroutines, so nothing in the code orders them.
  `ConvergesExactly` decides convergence for every run. `Converged` names a discipline that is
  enough: one client writes each path, its transactions on one path enter the log in the order
  in which it applies them, and other clients handle every entry once and in the order of the log.
- The code gives no such delivery: it registers its message handler without asking for events
  to be handled one at a time, passes over a message whose body it cannot fetch, and drops those
  that arrive between the loading of the log and its being ready. Runs have steps for entries
  that are missed and for entries handled late or again; only `Converged` and `Owners.dfy`
  assume that there are none.
- Paths have `/` as their separator on the host. A backslash is then a character like any other
  in a name, though `getDir` replaces it; no result assumes that there is none, except
  `RenameBack` and `PlainIsListedRight`, where the condition is `PlainFolders`.
- A rename changes the path inside the shared transaction record before its second section; the
  model changes a copy.
- RadixDB meets the contract given for `MapDB`.

## Where the code does less than intended

The model follows the code. Each place below has an exact condition, or a lemma that shows the
failure for a whole family of inputs.

- `truncate` iterates over an old slice header while removal shrinks the slice. `TruncateExact`
  says from the list alone when it panics: with d ranges to remove, one of the last d - 1 needs a
  change, or the one before those needs clipping.
- A growing Truncate marks `size` bytes from the old end. `TruncateKeepsBoundedExactly` and
  `GrowthMakesReadsPanic` give the consequence for Read.
- The gap opened by a write past the end is never marked (`WriteGapStaysUnready`).
- A growing Truncate and a block that arrives past the end make later reads panic until the file
  is cut: `RunPanicsExactly` decides this in any state of any run, from the steps alone.
- A block that arrives overwrites local changes, a block of another file's download is taken for
  the file's own when it was opened under the same path, and a live transaction cut short by a
  refused fetch leaves old bytes marked. `RunFaithfulExactly` and `OpenedRunExactly` decide whole
  runs; `WriteThenDownloadExact`, `CutThenDownloadExact`, `WriteThenStrayExact` and
  `CutShortExact` are the ways to get there.
- Release publishes a file that is not loaded. `CacheIsLogicalExactly` says, in any state of any
  run, when what it uploads is the file; `AppendBeforeDownloadExact` is one case. It marks the file
  clean even when the upload fails (`Release`), and whatever was changed while it ran:
  `UploadExactly` says which changes are lost and `DirtyExactly` when the next Release uploads.
- ApplyLiveTx does not mark blocks that already match (`PatchedFrom`, in the contract of `ApplyLiveTx`).
- Compaction drops the line that overflows its buffer (`CompactionLosslessExactly`,
  `CompactionLosesWitness`).
- The writer counts the held item towards neither limit. `OverfullExactly` says which batches of
  a run exceed the count and which the size; `OverfullWitness` and `OversizeWitness` reach them
  from an empty hold, the latter with one item that is over the limit by itself.
- A line that ends in a carriage return loses it when the log is compacted and read back
  (`LinesOfJoined`; `CompactionPreservesReplay` says when that matters).
- Rmdir and folder Rename decide emptiness by string prefix in the map only. `LooksEmptyExactly`,
  `RmdirDecides` and `RenameFolderDecides` say when that is right, `RmdirExact` and
  `RenameFolderExact` what happens when it is not; `FooBarWitness` and `SiblingBlocksRmdir` are
  cases.
- `getDir` makes every backslash a slash. In a folder with a backslash in its name nothing can be
  created unless another folder is in the place, and its open files are listed in that one:
  `GetDirExactly`, `CreationExact`, `ListsExactly`, `BackslashMkdirWitness`,
  `BackslashReaddirWitness`, `RenameBackExact`.
- What another client logs between the loading of the log and its compaction is lost under the
  new pin, and may be undone under both (`LateTransactionsExactly`, `LateTransactionsLost`).
- Renaming a closed file over an open one leaves the replaced file visible
  (`RenameMovesAttributes`).
- An upload that ends after its file and folder were removed leaves an orphan (`CommitExact`,
  `LateCommitOrphans`).
- An upload that ends between the two sections of a rename is wiped from the author's map, while
  the log may keep it (`CommitInsideRename`).
- Clients diverge from the log. Witnesses are two writers of one path, one writer whose sends
  overtake each other, an operation between the acknowledgement of an upload and its insertion,
  a delivery that is missed, and one that is handled late (`TwoWritersDiverge`,
  `OvertakingDiverges`, `LateInsertionDiverges`, `MissedDeliveryDiverges`,
  `LateDeliveryDiverges`). All follow from `ConvergesExactly`. With one writer for each path and
  deliveries in order, only the writer of a path can differ there (`OthersFollowTheLog`).

## Model

| member | source | states |
|---|---|---|
| `Ranges.TruncateExact` | load.go:36-44 | the trimming loop completes exactly on lists whose swapped-in tail needs no change; then the survivors are the kept ranges clipped, as a multiset, and the covered set is the old one below the cut |
| `Ranges.TruncateSafeIs` | load.go:36-44 | that condition in plain comparisons of starts and ends with the cut |
| `Ranges.ClippedIs` | load.go:36-44 | the survivors: as many as do not start past the cut, each from its start to its end or the cut |
| `Ranges.TruncatePanicWitness` | load.go:28-44 | three disjoint ranges cut at 15 panic; without the third they do not |
| `Ranges.ReadyRunDecidesReady` | load.go:48-82 | the ready test holds of a request exactly when the ready byte count reaches its length |
| `Ranges.ReadyRunUnique` | load.go:16-20 | the byte count depends on the covered set only, not on order, ties, empty or inverted ranges |
| `LoadTracker.Load.SortRanges` | load.go:16-20 | some sorted order of the same ranges; nothing about ties |
| `LoadTracker.Load.AddRange` | load.go:23-25 | appends one range to the live slice |
| `LoadTracker.Load.RemoveRange` | load.go:28-32 | swap removal in the backing array, a panic outside the live slice |
| `LoadTracker.Load.Truncate` | load.go:36-44 | panics exactly off the safe lists; otherwise leaves what the loop on values leaves |
| `LoadTracker.Load.IsReady` | load.go:48-64 | true exactly when the request, or its single offset if empty, is covered |
| `LoadTracker.Load.BytesReady` | load.go:68-82 | the greatest n such that n bytes from the start are covered |
| `FileCache.MemoryCache.ReadRange` | cache.go:30-32 | copies as much as fits of the backing array between the offsets, past the length too; panics exactly outside the capacity |
| `FileCache.MemoryCache.WriteRange` | cache.go:35-37 | overlays the bytes of the backing array; what lands past the length is not seen; panics exactly outside the capacity |
| `FileCache.MemoryCache.Truncate` | cache.go:40-46 | cuts, leaving the hidden bytes, or extends with zeros; the backing array is replaced exactly when it is too small |
| `FileCache.MemoryCache.Size` | cache.go:49-51 | the number of visible bytes |
| `FileCache.RunOpsByteAt` | cache.go:35-46 | after any operations each byte is that of the last write to reach it since the file was last too short for it, else zero |
| `FileCache.Drive` | cache.go:25-51 | a real cache driven through any operations holds those bytes; only a write past the length can panic |
| `FileModel.ReadYourWrites` | fs.go:433-499 | a read right after a non-empty write at the same offset answers without retrying, with at least the smaller of the two lengths, and those bytes are what was written |
| `FileModel.PollPanicsExactly` | fs.go:438-460 | Read slices out of bounds exactly at a marked offset beyond the cache, and retries exactly at an unmarked one |
| `FileModel.BoundedNeverPanics` | fs.go:438-460 | no read panics while every range ends within the cache |
| `FileModel.WriteKeepsBounded` | fs.go:485-494 | Write keeps ranges within the cache |
| `FileModel.TruncateKeepsBoundedExactly` | fs.go:398-409 | Truncate keeps them so exactly when it shrinks or grows an empty file |
| `FileModel.DownloadKeepsBoundedExactly` | fs.go:173-176 | a download keeps them so exactly when its block fits |
| `FileModel.GrowthMakesReadsPanic` | fs.go:405-409 | after growing a non-empty file every offset in the surplus range panics Read |
| `FileModel.RunPanicsExactly` | fs.go:158-497 | in any state of any run of an opened file, a read panics exactly at an offset past the end that a growth or a block marked, with no cut since |
| `FileModel.WriteAgain` | fs.go:485-494 | writing the same bytes again changes neither bytes nor marks and adds no range |
| `FileModel.WriteGapStaysUnready` | fs.go:485-494 | an unmarked offset in the gap of a write past the end holds zero and is never served |
| `FileModel.DownloadFaithfulExactly` | fs.go:173-176 | from any state with right marked bytes, the arrival of a block keeps them right exactly when the block agrees with the logical file |
| `FileModel.LiveFaithfulExactly` | fs.go:718-766 | after a live transaction, whole or cut short, marked bytes are right exactly when every mark kept above what was dealt with is on bytes that already were the transaction's |
| `FileModel.RunFaithfulExactly` | fs.go:158-497 | over any run, marked bytes are right throughout exactly when every block agrees on arrival, be it of the file's own download, of another's or of a live transaction, and no live transaction is cut short over marks on older bytes |
| `FileModel.OpenedRunExactly` | fs.go:158-497 | the same from an opened file, said of the steps: no own block arrives after local changes that left other bytes in its place, no other one disagrees with the file as changed so far, and no live transaction stops over older marks |
| `FileModel.RunSound` | fs.go:158-210 | from an opened file, in every state of every run whose local changes stay clear of blocks still to come, marked bytes are the logical file's and so are the blocks to come |
| `FileModel.ReadsLogical` | fs.go:437-460 | while marked bytes are right, Read returns a slice of the logical file |
| `FileModel.CacheIsLogicalExactly` | fs.go:542-583 | in any state of any run of an opened file, the cache, which is what Release uploads, is the logical file exactly when marked bytes are right and at each unmarked offset the steps left what the logical file has |
| `FileModel.FullyReadyIsLogical` | fs.go:534-583 | a fully marked cache with right marked bytes is the logical file |
| `FileModel.WriteThenDownloadExact` | fs.go:173-176 | a case of it: a block arriving after one write is right exactly when it agrees with the bytes the write changed |
| `FileModel.CutThenDownloadExact` | fs.go:398-409 | another: a block arriving after its place was cut away and grown back is right exactly when it is zeros there |
| `FileModel.WriteThenStrayExact` | fs.go:161-176 | a block of another file's download over a write of the same extent is right exactly when it holds the same bytes |
| `FileModel.CutShortExact` | fs.go:727-755 | a live transaction cut short over a loaded file of the same size is right exactly when the rest is equal |
| `FileModel.AppendBeforeDownloadExact` | fs.go:542-583 | a case of `CacheIsLogicalExactly`: after an append to an unloaded file the cache is right exactly when the stored bytes were zeros |
| `OpenFiles.FileData.Write` | fs.go:483-499 | the locked section of Write, as the relation `Wrote` |
| `OpenFiles.FileData.Truncate` | fs.go:398-412 | the locked section of Truncate, and exactly when it panics |
| `OpenFiles.FileData.Arrive` | fs.go:173-176 | a block reaching the download job: written and marked; panics exactly when it ends past the capacity |
| `OpenFiles.FileData.Read` | fs.go:433-463 | with arbitrary changes between polls, ends within 21 polls with the answer of its last poll, which is nothing only after all of them; alone it leaves bytes, marks and the dirty mark |
| `Blocks.StoresContent` | fs.go:585-589 | block-wise agreement with a body fixes the concatenation of the stored blocks |
| `Blocks.WellFormedStores` | fs.go:718-766 | a well-formed transaction stores the concatenation of its blocks |
| `Transfer.PublishedStores` | fs.go:544-612 | what an upload publishes is well formed and stores exactly the cache, old ids standing only for identical blocks |
| `Transfer.EveryVersionStays` | fs.go:591-603 | after any number of uploads, each reusing blocks of the one before, every version is still stored byte for byte |
| `Transfer.Release` | fs.go:502-631 | a transaction exactly when the file was dirty and no request was refused; clean afterwards; idle on a clean file; wherever the transaction before has the right checksum for the bytes at the same place its id is kept, and nowhere else; one new attachment for each other block and no more; bytes already stored are not sent again |
| `Transfer.KeptIds` | fs.go:568-573 | which id block i gets, from the bytes at i times the block size and the recorded checksum alone |
| `Transfer.RepublishSendsNothing` | fs.go:591-603 | publishing again what the transaction before stores gives its ids and leaves the store as it was |
| `Transfer.OrderCovers` | fs.go:180-209 | every offset is in a block that is asked for |
| `Transfer.MarkedAfter` | fs.go:180-209 | what is marked after k blocks, from offsets alone: the first block, then the last, then on from the first |
| `Transfer.AllArrived` | fs.go:158-210 | once all blocks have arrived in that order the cache is the content and all of it is marked |
| `Transfer.DownloadJob` | fs.go:158-210 | blocks arrive until the first refused request; at any point what is marked is right, and is exactly the first block, after two also the last one, after k the bytes up to the end of the (k - 1)-th; complete exactly when none was refused; the dirty mark stays |
| `Transfer.ReleaseThenOpen` | fs.go:140-210 | publishing a cache and downloading the result gives the same bytes, all ready, exactly when the file was dirty and no request was refused |
| `Syncing.DirtyExactly` | fs.go:495-542 | in every run of changes, releases and ends of uploads the file is dirty exactly when some change came after the last end |
| `Syncing.NextReleaseExactly` | fs.go:514-542 | so Release starts an upload exactly then, if none is running |
| `Syncing.UploadExactly` | fs.go:534-612 | an upload with changes of bytes while it reads publishes the file as it is at its end exactly when no block was changed after it was read; the file is clean and the next Release idle either way |
| `Syncing.PublishedChanges` | fs.go:534-624 | what is published changes only when an upload that has read all blocks ends well; any end clears the mark |
| `Syncing.LostChangeWitness` | fs.go:534-542 | a change between reading and end: clean, and not what was published |
| `Transfer.ApplyLiveTx` | fs.go:718-766 | uninterrupted: panics exactly when trimming does; otherwise ends done exactly when no fetch was refused, with the transaction's whole content whatever the cache held, marking exactly what survived the cut and the blocks that differed; after a refused fetch, the blocks before the refused one are patched and the rest as trimming left them; the dirty mark stays in every case |
| `Transfer.WriteThenApplyThenRelease` | fs.go:485-631 | after a local write and a live transaction, a Release none of whose requests is refused returns a transaction |
| `Transfer.PatchedIsLive` | fs.go:718-766 | what it leaves, also after a refused fetch, is the live step of the run model, and so when marked bytes are then right |
| `Transfer.ReleaseThenApply` | fs.go:706-767 | a file released by one client and applied by another that has it open: done exactly when the file was dirty, nothing was refused and the cut is safe, and then the same bytes there |
| `TxLog.ReplayDependsOnProjections` | tx.go:72-96 | logs that agree on each path's own order replay alike |
| `TxLog.ReplaySuffixAgain` | tx.go:72-96 | replaying any suffix again changes nothing |
| `TxLog.ReplayPerPath` | tx.go:72-96 | the last known transaction of a path decides it |
| `TxLog.LinesOfJoined` | tx.go:57-63 | the line scanner recovers newline-terminated lines, each less a carriage return at its end |
| `TxLog.LinesCRLF` | tx.go:57-63 | one carriage return before a newline is dropped, and only one |
| `TxLog.SkippedLine` | tx.go:62-96 | a blank line, one that does not decode and one of an unknown kind leave no trace, wherever they are |
| `TxLog.TakenLine` | tx.go:65-103 | any other line adds its transaction and itself at its place |
| `TxLog.Replica.ApplyMessageTxs` | tx.go:47-107 | messages, attachments, lines: the map becomes the replay of the understood lines in order, live replay drops deleted paths from the open files, the buffer gets those lines |
| `Convergence.ConvergesExactly` | tx.go:109-124 | in every state of every run, with any writers and any order of sends, a client's map is the fresh replay of the log exactly when, path by path, the last transaction it applied and the last one logged have the same effect |
| `Convergence.Converged` | tx.go:109-124 | a corollary: after a disciplined run, once all is published, settled and delivered, every client's map is a fresh replay of the log |
| `Convergence.StepConsistent` | fs.go:617-624 | why the discipline is enough: each disciplined step, including send-then-insert of Release, keeps each client's view of each path |
| `Convergence.TwoWritersDiverge` | tx.go:109-124 | two writers of one path end with different maps |
| `Convergence.OvertakingDiverges` | fs.go:239-246 | a delete that overtakes its write leaves its author out of step with every replay |
| `Convergence.LateInsertionDiverges` | fs.go:618-624 | so does a delete between the acknowledgement of an upload and its insertion, with one writer and sends in order |
| `Convergence.MissedDeliveryDiverges` | tx.go:51-55 | one writer, all sent in order and published: a listener that missed an entry ends without its path |
| `Convergence.LateDeliveryDiverges` | main.go:90-114 | so does one that handles a write after the delete that follows it |
| `PathOwners.OthersFollowTheLog` | tx.go:109-124 | with one writer for each path and deliveries in order, in every state, whatever order the sends take, a client holds at a path it does not write the replay of what has been delivered to it |
| `PathOwners.WriterPermutes` | fs.go:617-624 | once all is logged and applied, the writer of a path applied what the log has there, in some order |
| `PathOwners.ConvergesByWriters` | tx.go:109-124 | then all clients hold the replay exactly when each path's writer applied last a transaction with the effect of the one logged last |
| `BatchingWriter.CollectConserves` | writer.go:45-61 | a round takes items in order, loses none, holds at most one, within both limits |
| `BatchingWriter.CollectExactly` | writer.go:50-63 | what a round takes and why it ends: the count, the end of events, the timer, or an item that would exceed the size, which is held |
| `BatchingWriter.RunConserves` | writer.go:43-88 | sent items and then the held one are exactly the dequeued items, over every run |
| `BatchingWriter.RunBounded` | writer.go:45-65 | a held item heads the very next batch, which is otherwise within the limits |
| `BatchingWriter.RunIsRounds` | writer.go:45-67 | the batches of a run are its non-empty rounds, held item first |
| `BatchingWriter.OverfullExactly` | writer.go:45-61 | in every round of every run: over the count exactly with a held item and a full count, over the size exactly when the held item and the bytes taken are; and an item is held only when it would have put the round before over the size |
| `BatchingWriter.OverfullWitness` | writer.go:45-61 | from an empty hold, a run whose second batch is a held item and any round of items, so one over the count when they fill it and over the size when they do together |
| `BatchingWriter.OversizeWitness` | writer.go:53-56 | from an empty hold, an item over the limit by itself is sent in the next round, alone if nothing else comes |
| `BatchingWriter.EverySenderAnswered` | writer.go:76-87 | item i of batch k is answered at its own place, with an id exactly when its batch was accepted, and that is the id of attachment i of that message, which holds its data |
| `BatchingWriter.DeliveredExactly` | writer.go:67-76 | the channel gets exactly one message for each accepted batch, in order, with its items as attachments in order |
| `BatchingWriter.BatchesReadBack` | tx.go:49-63 | message and attachment boundaries leave no trace in the lines read back |
| `BatchingWriter.BatchingInvisible` | writer.go:45-88 | however the queue was cut, the lines read back encode the queued transactions in order, and replaying them is folding those |
| `BatchingWriter.Writer.Gather` | writer.go:47-61 | the select loop, as one round |
| `BatchingWriter.Writer.Send` | writer.go:67-87 | one message, or none if it is refused; each item answered by position, with the id of its own attachment exactly when the message was accepted |
| `BatchingWriter.Writer.ProcessQueue` | writer.go:43-90 | the loop over all events: the batches of the run, and every sender answered by the fate of its own batch |
| `Setup.ReverseInPlace` | db.go:213-216 | two closing indices reverse a page |
| `Setup.LoadLog` | db.go:197-222 | the pinned message and every later one, once each, in chronological order |
| `Setup.PackAccounts` | db.go:259-298 | no message exceeds the limit; what is sent is the original less exactly one line per flush in the loop |
| `Setup.PackKeeps` | db.go:283-285 | a line that fits joins the message being made |
| `Setup.PackDrops` | db.go:271-282 | a line that does not fit sends that message and is in neither it nor the next |
| `Setup.CompactionLosslessExactly` | db.go:271-285 | every line is kept exactly when all fit one message, and fewer are sent otherwise |
| `Setup.CompactionPreservesReplay` | db.go:253-312 | the compacted log carries the same transactions exactly when the lines fit one message and none needs a carriage return at its end; it then replays alike, alone or after the old log under two pins |
| `Setup.LateTransactionsExactly` | db.go:197-312 | with transactions of others between loading and compaction, the new pin gives the map of the whole log exactly when they changed nothing, both pins exactly when they changed no path in the old log |
| `Setup.CompactionWithLate` | db.go:197-312 | the same of messages and their compaction |
| `Setup.LateTransactionsLost` | db.go:197-312 | a late delete of a logged path is undone under either, a late new path lost under the new pin |
| `Setup.CompactionLosesWitness` | db.go:271-285 | two transactions that fit only one at a time: the second path is lost |
| `Setup.Compact` | db.go:259-298 | the packing loop on bytes sends those messages: all of them exactly when every send is accepted, otherwise just those before the first refused one |
| `Setup.SetupDB` | db.go:188-229 | start-up leaves the replay of the pinned message and all later ones; with compaction, it sends what `Compact` says of their understood lines, otherwise nothing |
| `Paths.PathParts` | utils.go:13-16 | what the code's directory is before its backslashes are replaced: a path is its parent, a slash and its base; its parent is a proper prefix |
| `Paths.GetDirExactly` | utils.go:13-16 | the code's directory is the parent exactly when the parent has no backslash |
| `Namespace.RunTree` | fs.go:51-117 | the tree shape survives every run of local operations under the kernel's guarantees with nothing open below a removed folder |
| `Namespace.LooksEmptyExactly` | fs.go:263-270 | in a tree, the emptiness test passes exactly when there is no child in the map and no key that continues the name |
| `Namespace.RmdirDecides` | fs.go:249-282 | so a folder is removed exactly then; and removal goes by childlessness if and only if there is a child in the map, or an open child exactly where a key continues the name |
| `Namespace.RefusedChangesNothing` | fs.go:51-353 | an operation that fails changes nothing and sends nothing |
| `Namespace.MknodAnswers` | fs.go:58-81 | every answer, and what is added: one open file |
| `Namespace.MkdirAnswers` | fs.go:89-107 | every answer, and what is added: one folder record |
| `Namespace.OpenAnswers` | fs.go:123-148 | every answer; a recorded file is open afterwards, with its recorded attributes if it was not open before |
| `Namespace.UnlinkAnswers` | fs.go:219-237 | every answer: any file, recorded or only open, can be removed, and nothing else goes |
| `Namespace.RmdirAnswers` | fs.go:253-272 | every answer, for every path and state; only the record goes |
| `Namespace.RenameFileDecides` | fs.go:290-327 | a file, recorded or only open, can be renamed to any name, taken or not, exactly when the program finds the directory; else ENOENT and nothing changes |
| `Namespace.RenameRecords` | fs.go:290-350 | after a rename, every path's record and every open file |
| `Namespace.RenameFolderDecides` | fs.go:290-319 | the same for renaming a folder, once the target's directory is found |
| `Namespace.RmdirExact` | fs.go:263-271 | removing a folder that looks empty leaves a tree exactly when no child of it is open |
| `Namespace.RenameFolderExact` | fs.go:307-319 | the same for renaming a folder |
| `Namespace.SiblingBlocksRmdir` | fs.go:263-270 | a case: any key that goes on from the folder's path blocks its removal |
| `Namespace.CreationExact` | fs.go:64-98 | where the kernel would create, Mknod and Mkdir do so exactly when the parent has no backslash or what it becomes is recorded; else ENOENT |
| `Namespace.BackslashMkdirWitness` | fs.go:89-92 | in a tree whose one folder has a backslash in its name nothing can be created in it |
| `Namespace.FooBarWitness` | fs.go:263-270 | a tree in which a childless folder cannot be removed, for all such names |
| `Namespace.EndRenameExact` | fs.go:347-350 | whatever came before it, the second section of a file's rename leaves a tree exactly when the target's folder is still there |
| `Namespace.CommitInsideRename` | fs.go:329-350 | an upload ending between the two sections is wiped from the map, which is what replay gives if its transaction precedes the rename's and not if it follows |
| `Namespace.CommitExact` | fs.go:622-624 | the end of an upload leaves a tree exactly when the folder of its path is still there |
| `Namespace.LateCommitOrphans` | fs.go:622-624 | an upload ending after unlink and rmdir leaves a path without a parent |
| `Namespace.LocalIsReplay` | fs.go:106-114 | every operation changes the map of paths as the replay of what it sends |
| `Namespace.SendsExactly` | fs.go:106-345 | which transactions each operation sends: none for what is only open or fails, one for a record made or removed, two for a recorded path renamed |
| `Namespace.RunIsReplay` | fs.go:106-114 | replaying all that a run of operations sends, in order, gives the map of paths the run ended with |
| `Persistence.LogRebuildsNamespace` | writer.go:43-90 | the same through the writer: however the sends were batched, loading the messages gives that map |
| `Persistence.CompactedLogRebuildsNamespace` | db.go:253-312 | and through compaction: the compacted log carries every send exactly when their lines fit one message, and then that map comes back from either pin |
| `Namespace.RenameBackExact` | fs.go:284-353 | renaming a file to an absent name and back restores both maps, exactly when what the code takes for the two parents is recorded |
| `Namespace.RenameBack` | fs.go:284-353 | so it does where no folder has a backslash in its name |
| `FileSystem.MapDB.Iterator` | db.go:104-115 | every key with the prefix once, in no particular order |
| `FileSystem.Dsfs.Mknod` | fs.go:51-82 | the new state and error, as the step on values |
| `FileSystem.Dsfs.Mkdir` | fs.go:84-117 | the same |
| `FileSystem.Dsfs.Open` | fs.go:119-149 | the same, for the entry in the open files |
| `FileSystem.Dsfs.Unlink` | fs.go:215-247 | the same |
| `FileSystem.Dsfs.FindsOther` | fs.go:263-270 | the prefix scan finds another key exactly when there is one |
| `FileSystem.Dsfs.Rmdir` | fs.go:249-282 | the same as for Mknod |
| `FileSystem.Dsfs.BeginRename` | fs.go:288-329 | the first locked section: the checks, the move of an open file, and the record to be moved |
| `FileSystem.Dsfs.EndRename` | fs.go:347-350 | the second: insertion under the new path, deletion of the old |
| `FileSystem.Dsfs.Rename` | fs.go:284-353 | both with nothing in between, as the step on values |
| `FileSystem.Dsfs.Getattr` | fs.go:355-382 | field by field the open file's attributes if there is one, else the recorded ones; zeros for a folder |
| `FileSystem.ShownAsFolderExactly` | fs.go:355-382 | a path is shown as a folder exactly when it is recorded as one and not open |
| `FileSystem.CreationShows` | fs.go:73-107 | what was just made is shown with its own attributes, and no other path's change |
| `FileSystem.Dsfs.Readdir` | fs.go:638-686 | ".", "..", then once each whatever the code takes for a child, with Getattr's attributes; that is each child and nothing else exactly when no backslash misleads it; in any state with clean keys, orphans included |
| `FileSystem.ListsExactly` | fs.go:650-684 | the listing is that of the children exactly when there is none under a folder with a backslash, and no open file's parent becomes this folder by replacement |
| `FileSystem.PlainIsListedRight` | fs.go:650-684 | so every listing is right where no folder has a backslash in its name |
| `FileSystem.BackslashReaddirWitness` | fs.go:673-676 | with folders /a/b and /a\b, a file made in /a\b is listed in /a/b only |
| `FileSystem.CleanKeysStay` | fs.go:51-353 | every operation keeps keys clean and the root closed, even where it breaks the tree |
| `FileSystem.DescribedIsListed` | fs.go:650-684 | children described once each make a listing: each shown, nothing else, no name twice |
| `FileSystem.OpenKeepsAttributes` | fs.go:140-148 | opening a file changes no path's attributes |
| `FileSystem.RemovalIsExact` | fs.go:215-282 | Unlink and Rmdir take away exactly the path removed |
| `FileSystem.CommitKeepsAttributes` | fs.go:622-624 | the end of an upload of an open file changes no reported attribute |
| `FileSystem.RenameMovesAttributes` | fs.go:320-350 | Rename moves the source's attributes and touches no other path; an open target hides a closed source |

## Left out

- The FUSE bindings, mounting, option parsing, logging, session set-up and channel preparation: foreign calls.
- RadixDB and DiskCache: an unseen library and operating system calls; DiskCache also does not track a write past its size.
- Statfs, Opendir, Releasedir and the values of times: constants and opaque values.
- Widths of offsets: sizes are unbounded integers, so overflow of 64-bit sums such as the end of a grown range is not modelled.
- The pin and unpin calls after compaction, and which message gets the new pin: only what either pin replays to is stated.
- `ofst > filesize` in the upload and the change check in ApplyLiveTx under interference: the methods are proved without other sections in between, and `Changed` is then unreachable. The run model of an open file has each section of a live transaction as a step, and `Syncing.dfy` each block an upload reads.
- Which file a download job finds under its path, and when: in the run model its blocks arrive in the file they were asked for, in another one as stray blocks, or no longer, as an abandoned download.
- FileSystem.Dsfs.Open: gives the entry in the open files; the cache it creates is the constructor of `OpenFiles.FileData`.
- Convergence.Converged: requires every send to reach the log; a dropped one stays in its author's outbox for good, a run that `Convergence.ConvergesExactly` decides.
- FileSystem.Dsfs.Rename: has nothing between its two sections; see the assumption on rename.
