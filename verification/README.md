# Nimbus pruners, block import and bindings: a Dafny model

This project models the parts of the Nimbus Ethereum clients that walk a chain with gaps and keep durable
progress while doing so, and proves what they guarantee. Where a promise of the code fails in a corner, the
model keeps the code as it is, shows a failing input, and proves exactly when the promise holds.

| file | models |
|---|---|
| `Words.dfy` | optional values and wrapping unsigned 64-bit arithmetic |
| `CoreDb.dfy` | headers, database frames with holes, the canonical chain behind them |
| `BalSearch.dfy` | the two binary searches of the block access list pruner, and the retention rule of EIP-7928 |
| `BalPruner.dfy`, `BalPrunerProofs.dfy` | one resumable pruning pass, its batches, the cycle around it; safety, convergence, independence of batches, cancellation and crashes, whole runs |
| `HistoryPruner.dfy`, `HistoryPrunerProofs.dfy` | the background pruner of bodies and receipts, whose deletes run ahead of its saved tail; crash consistency, whole runs |
| `SlotSearch.dfy` | the gap-skipping search from block number to slot, in the variant of the import and of `nrpc` and in that of the execution layer sync |
| `ElSync.dfy` | feeding the execution layer one payload at a time |
| `BlockImport.dfy`, `BlockImportContents.dfy`, `BlockImportProofs.dfy` | the `ere`, `era1` and `era` import with its checkpoints and statistics; what one run persists of its archive; splitting an import into runs |
| `GoBinding.dfy` | request routing in the Go binding: callers, event loop and library callbacks in any interleaving |
| `PromiseTable.dfy` | the promise table of the WebAssembly binding |
| `StdioInput.dfy` | the doubling input buffer of the native zkVM interface |

`dafny verify dfyconfig.toml` checks all of it.

## How it is modelled

Loops and objects of the source are methods and classes here (`BalPrunerRef`, `BackgroundPrunerRef`,
`Importer`, `NimbusVerifiedProxy`, `Input`, ...). Each method is proved equal to a function of the old state
and the environment (`PruneResult`, `Scan`, `ImportResult`, `SearchSlot`, `Feed`, ...), and the promises are
theorems about that function over all inputs and runs.

* **Database.** A frame is a number-to-hash map and a hash-to-header map, either of which may have holes; a
  header is found through its hash. A pass takes a non-empty sequence of frames, one at its start and one
  after each of its sleeps. Running out of frames is a cancellation in a sleep, so a theorem over all frames
  covers every interruption point and every change of readability in between.
* **Canonical chain.** Whatever a frame can read up to the head agrees with one chain of distinct hashes
  whose slot numbers never decrease and, once present, stay present. Nothing says that anything is readable.
* **Crashes.** The history pruner has a budget of writes, each delete of one root and each save of the tail, and
  dies when it is spent, also within a block. For the block access list pruner the lists of a batch are deleted
  before its tail is written (`execution_chain/pruner/db_utils.nim:63-71` is two writes, although a test speaks
  of one); a pass may die in any batch with any part of that batch's lists gone and the tail not written.
* **Beacon chain.** A sequence of optional block numbers by slot. From the first slot after the merge on, of two
  proposed slots with only empty ones between them the later has the next number; the blocks below have no
  payload of their own and read as number zero, so nothing is assumed of them but, in the `era` files, that no
  number exceeds the last one before the merge. Lookups may miss blocks.
* **Limits.** An import's limit is any number, the unlimited default included.
* **Machine words.** Block numbers, slots and timestamps are below 2^64, and the subtractions and additions
  that can wrap do wrap.

## What was found

* **First-block search over holes** (`ConvergenceFromZero`, `FirstBalSearchJumpsOverAHole`). From a non-zero
  tail, repeated passes reach the first retained block exactly. From a zero tail they do so if and only if
  the first-block search does not answer above that block; it can, because a hole makes it move up. When
  readable lists are upward closed, they do if and only if the first retained block has its list, or it is
  genesis and there are no lists (`ConvergenceWithUpperLists`).
* **Interruption at a hole** (`InterruptAndRerun`, `CancelledAtAHole`). Any number of cancelled or dead passes
  followed by a finished one delete what an uninterrupted pass deletes. The tail agrees if and only if the last
  interruption did not come exactly at an unreadable block; then the finished pass has stepped over that block.
* **Orphan hashes** (`OrphanHashBreaksIndependence`, `OrphanAtTheStop`). The above needs every readable hash up
  to where the uninterrupted pass stops to have its header. A hash without a header below that place can make
  an interrupted pass leave a list behind for good. With one exactly there the two agree if and only if the
  interruptions have left the lists and the tail from there on alone and the bisection of the last pass finds
  the same cutoff.
* **Wrapping batch ends** (`SweepAdvances`, `WrappedBatchNeverMoves`). Batches move the tail if and only if
  their size is positive and the end of the first one does not wrap; otherwise the pass repeats an empty batch
  after every sleep, changes nothing, and ends only when it is cancelled.
* **History restart** (`RestartReachesSameState`, `RestartAtTheHead`). After any number of interruptions a restart
  reaches the state of an uninterrupted cycle unless the saved tail was left exactly at a head that may be
  pruned.
* **Shared roots** (`RetainedDataSurvives`). Bodies and receipts are deleted by content root. After any run, a
  block above everything touched still has all its data if and only if no deleted block has one of its
  non-empty roots, nor was such a root deleted of a block within which the process died; transactions and
  receipts share one key space.
* **Young clock** (`CutoffIsRetention`). The history cutoff wraps when the clock is younger than the period.
* **Slot guesses** (`GuessOvershoots`, `SearchFindsTarget`, `SearchAfterFindsSuccessor`). The guesses overshoot
  on a chain with too few empty slots since the merge, one for the import and `nrpc`, two for the execution
  layer sync. After an overshoot the unsigned jump back lands as many slots too high as there are empty slots
  in between, for the sync one fewer.
* **What a sync attempt feeds** (`SyncFeedsExactlyWhen`, `DenseChainIsOneBehind`, `OvershootSkipsABlock`). After
  an overshoot it may start one block early, land harmlessly in the gap after the head's slot, or land beyond
  it and skip blocks for good. It feeds exactly the successors of the head if and only if all of them are at
  hand, the search meets no missing data, and the guess does not overshoot or the jump lands in that gap.
* **Missing blocks** (`FeedsAllExactlyWhenAtHand`). The feeding loop takes a missing block for an empty slot.
* **Era resumption** (`LegacyImportResumes`, `RunsImportTheSame`, `StoppedInsideLastFiles`). Above the merge a
  run resumes if and only if it is asked for nothing, nothing is left, its first block is refused, or the check
  of the last files passes and the guess finds that block; otherwise it and all later runs import nothing. An
  import that has stopped inside the last `era` files is never resumed. The same holds after a run that has
  died within a chunk and is continued from its last checkpoint (`DeadRunResumes`).
* **Stopped event loop** (`SendingCallCanReturn`, `StuckCallIsReachable`). The timeout of a Go call does not
  cover handing its task over: once the loop has stopped and the task channel is full, a call never returns.
* **Malformed interval** (`DestroySettlesAll`, `MalformedIntervalIsLost`). A promise is left pending after
  `destroy` if and only if a later completion of an interval call succeeded with a body that does not parse.

## Model

| member | source | states |
|---|---|---|
| BalSearch.RetentionIsMonotone | execution_chain/block_access_list/bal_utils.nim:26-40 | a later block stays retained at least as long as an earlier one, and no later head retains what an earlier head let go |
| BalSearch.RetentionBoundary | execution_chain/block_access_list/bal_utils.nim:19-40 | a block is retained exactly from the first slot of the epoch after the one 14299 epochs behind the head; a young chain retains every block that has a slot |
| BalSearch.RetentionEndsAt | execution_chain/block_access_list/bal_utils.nim:19-40 | a block with a slot is retained for 457568 slots, counted from the start of its epoch, and no longer |
| BalSearch.FirstBalIsBoundary | execution_chain/bal_pruner.nim:31-56 | on any pattern of readable headers and lists the answer holds a list and the block below it is not seen to; no answer means the head is not seen to hold one |
| BalSearch.FirstBalIsLeast | execution_chain/bal_pruner.nim:31-56 | when readable lists are upward closed the answer is exactly the least of them, and there is none exactly when there are none |
| BalSearch.FindFirstBalBlock | execution_chain/bal_pruner.nim:31-56 | the loop terminates after at most 64 probes without leaving the word and meets the boundary condition |
| BalSearch.CutoffIsLocalBoundary | execution_chain/bal_pruner.nim:58-81 | below the cutoff lies the tail or a readable expired block; at the cutoff lies the end of the range or a block that is unreadable or retained |
| BalSearch.FindRetentionCutoff | execution_chain/bal_pruner.nim:58-81 | the loop terminates after at most 64 probes and meets the local boundary condition; a head below the tail leaves the tail |
| BalSearch.NothingRetainedBelow | execution_chain/bal_pruner.nim:58-81 | with slots that never decrease no readable block below an expired one is retained |
| BalSearch.CutoffStopsAtRetained | execution_chain/bal_pruner.nim:58-81 | no cutoff jumps past a readable retained block, wherever the holes are |
| BalPrunerProofs.SweepAdvances | execution_chain/bal_pruner.nim:111-137 | batches move the tail over a readable block if and only if their size is positive and the end of the first one does not wrap around |
| BalPrunerProofs.WrappedBatchNeverMoves | execution_chain/bal_pruner.nim:111-137 | otherwise the pass repeats an empty batch after every sleep: it changes nothing and never ends by itself |
| BalPruner.Kvt.DeleteBlockAccessListsBe | execution_chain/pruner/db_utils.nim:63-71 | exactly the named lists are gone and the tail is the given one; or, after a death in between, some of them and the old tail |
| BalPruner.BalPrunerRef.constructor | execution_chain/bal_pruner.nim:166-176 | the batch size is at least one, and the given one if that is |
| BalPruner.BalPrunerRef.CollectHashes | execution_chain/bal_pruner.nim:114-121 | the inner loop collects the hashes of exactly the blocks up to the first one without a hash or the end of the batch |
| BalPruner.BalPrunerRef.DeleteBatch | execution_chain/bal_pruner.nim:111-137 | a batch that survives leaves the stored tail at the first block whose list has not been deleted, and the rest of the pass is the pass from there |
| BalPruner.BalPrunerRef.DeleteBatches | execution_chain/bal_pruner.nim:105-142 | finished, cancelled or dead, the loop leaves the lists, the tail and the count the pass specifies, for every batch size |
| BalPruner.BalPrunerRef.Prune | execution_chain/bal_pruner.nim:83-142 | a pass leaves exactly the lists and the tail the theorems below speak about, on every branch |
| BalPruner.BalPrunerRef.PruneCycle | execution_chain/bal_pruner.nim:144-157 | a cycle passes at the saved head, and does nothing when its header or slot is missing; the cycle theorems below say what passing achieves |
| BalPrunerProofs.SweepDeletesWhatItPasses | execution_chain/bal_pruner.nim:105-142 | whatever the frames, the lists gone are exactly those of the canonical blocks the tail moved over, and after a death perhaps some of the one batch above it |
| BalPrunerProofs.PruneFromCases | execution_chain/bal_pruner.nim:98-111 | a located pass steps over an unreadable tail, stays at a retained one or above the head, or sweeps up to a block right after an expired one |
| BalPrunerProofs.RetentionSafety | execution_chain/bal_pruner.nim:83-142 | no pass deletes the list of a retained block, nor one at or above the new tail unless it dies, and then less than a batch above; whatever is unreadable, changes during the sleeps, or is the batch size |
| BalPrunerProofs.PassAdvances | execution_chain/bal_pruner.nim:98-142 | every pass that does not die, cancelled or not, moves the tail up by at least one block, and none moves it past the first retained block |
| BalPrunerProofs.Convergence | execution_chain/bal_pruner.nim:83-142 | from a located tail at or below it, repeated passes bring the tail to exactly the first retained block, in at most as many passes without a death as there are blocks in between |
| BalPrunerProofs.ConvergenceFromZero | execution_chain/bal_pruner.nim:91-96 | from a zero tail they reach it if and only if the first-block search does not answer above it |
| BalPrunerProofs.ConvergenceWithUpperLists | execution_chain/bal_pruner.nim:91-96 | with upward closed readable lists they reach it if and only if its list is readable, or it is genesis and there are no lists |
| BalPrunerProofs.CancelledAfterWholeBatches | execution_chain/bal_pruner.nim:111-137 | batches of a positive size that do not wrap are cancelled only after deleting a whole batch per sleep |
| BalPrunerProofs.CycleAdvances | execution_chain/bal_pruner.nim:144-157 | every cycle at a readable head with a slot moves a tail below the first retained block up unless it dies, and never past that block |
| BalPrunerProofs.CyclesConverge | execution_chain/bal_pruner.nim:144-164 | over any run of such cycles every one without a death moves the tail up until it is exactly at the first retained block, with the lists of all readable blocks passed gone; as many as there are blocks in between are enough |
| BalPrunerProofs.CyclesConvergeFromZero | execution_chain/bal_pruner.nim:144-164 | from a zero tail enough cycles get there if and only if the first-block search does not answer above it |
| BalPrunerProofs.LocatedAboveStays | execution_chain/bal_pruner.nim:98-104 | from a tail at a retained block passes change nothing, so lists below it are never visited |
| BalPrunerProofs.FirstBalSearchJumpsOverAHole | execution_chain/bal_pruner.nim:39-46 | a chain with holes where the search misses a lower readable block with a list, which is the first retained one |
| BalPrunerProofs.SweepOnFixedFrame | execution_chain/bal_pruner.nim:105-142 | when nothing becomes readable or unreadable, batches that end stop at the first hole whatever their size, and interrupted ones are on the way there, with no list beyond it gone |
| BalPrunerProofs.PassStopVersusScan | execution_chain/bal_pruner.nim:58-81 | the bisection never stops short of a linear scan, and stops with it exactly when the scan ends at the cutoff or at a block without a hash |
| BalPrunerProofs.PassRefinesScan | execution_chain/bal_pruner.nim:83-142 | when every hash up to where it stops has its header a finished pass deletes and counts exactly what a linear scan would, for every batch size |
| BalPrunerProofs.InterruptAndRerun | execution_chain/bal_pruner.nim:83-142 | after any sequence of cancelled and dead passes a finished one leaves the lists of one uninterrupted pass; the tails agree if and only if the block of the last interruption is readable, and differ by one otherwise |
| BalPrunerProofs.OrphanAtTheStop | execution_chain/bal_pruner.nim:58-81 | with a hash without a header exactly where an uninterrupted pass stops, any number of interruptions and a finished pass agree with it if and only if they have deleted nothing from there on and the last bisection finds the same cutoff |
| BalPrunerProofs.CancelledAtAHole | execution_chain/bal_pruner.nim:98-101 | a pass cancelled exactly at a hole, whose repetition ends one block further than an uninterrupted pass |
| BalPrunerProofs.CrashBetweenWrites | execution_chain/pruner/db_utils.nim:63-71 | after a death before the first tail write, with any part of that batch deleted, the next pass ends in the state and with the count of a pass without it, whatever is unreadable |
| BalPrunerProofs.CancelAt | execution_chain/bal_pruner.nim:130-137 | with batches of one block a pass can be cancelled at any block below its end, leaving the tail exactly there |
| BalPrunerProofs.OrphanHashBreaksIndependence | execution_chain/bal_pruner.nim:98-101 | for every hash without a header inside the pruned range there is a cancellation after which its list is never deleted, while one uninterrupted pass deletes it |
| BalPrunerProofs.PassKeepsTailBelowHead | execution_chain/bal_pruner.nim:83-142 | a pass at a readable head leaves the tail between its old value and the head |
| BalPrunerProofs.CycleKeepsInvariant | execution_chain/bal_pruner.nim:144-157 | a cycle at an equal or later head, dying or not, keeps the tail at most the head, and every list gone expired, below the head, and below the tail or within the slack of a death |
| BalPrunerProofs.RunKeepsInvariant | execution_chain/bal_pruner.nim:144-164 | over every run from a fresh database, with cancellations and deaths between the two writes, the tail never decreases or exceeds the head, the head's list and all retained ones are kept, and at most one batch is missing above the tail |
| HistoryPruner.HistoryKvt.DeleteBlockBodyAndReceiptsBe | execution_chain/pruner/db_utils.nim:28-61 | exactly the data under the header's roots is gone, or, after a death, that of the deletes before it in order; the empty roots are never touched |
| HistoryPruner.DeletesInOrder | execution_chain/pruner/db_utils.nim:56-61 | a block with data of every kind loses its transactions, ommers, withdrawals and receipts, in this order |
| HistoryPruner.CutoffIsRetention | execution_chain/pruner.nim:26-28 | the cutoff selects exactly the blocks older than 12681216 seconds if the clock is not younger than that period, and some that are not otherwise |
| HistoryPruner.BackgroundPrunerRef.constructor | execution_chain/pruner.nim:42-55 | the loaded state becomes active and the batch size is kept as given |
| HistoryPruner.BackgroundPrunerRef.Cycle | execution_chain/pruner.nim:63-120 | one turn of the loop leaves the durable state the theorems below speak about; unless the process died, the reported tail is the stored one |
| HistoryPruner.BackgroundPrunerRef.ScanFrom | execution_chain/pruner.nim:84-116 | the scan ends, completed, cancelled or dead before any of its writes, within a block too, with the specified durable state |
| HistoryPrunerProofs.ScanDeletesWhatItPasses | execution_chain/pruner.nim:84-93 | whatever the frames and the end, the data gone is that of exactly the blocks passed and, after a death, a part of the next one, all older than the cutoff |
| HistoryPrunerProofs.ScanStaysWithinOneBatch | execution_chain/pruner.nim:95-116 | at every interruption at most one batch of touched blocks lies beyond the stored tail, and none unless the process died |
| HistoryPrunerProofs.SavedAfterWholeBatches | execution_chain/pruner.nim:95-112 | until a scan completes the tail has moved by whole batches only, one for every sleep if it was cancelled |
| HistoryPrunerProofs.ScanCompletes | execution_chain/pruner.nim:84-116 | with five writes left for each block and one more, and no cancellation, a scan completes |
| HistoryPrunerProofs.CycleOnFixedFrame | execution_chain/pruner.nim:80-116 | a completed cycle has deleted exactly the blocks from the tail to the first that is unreadable, too new or above the head; an interrupted one a prefix of those |
| HistoryPrunerProofs.CycleKeepsRange | execution_chain/pruner.nim:63-120 | a cycle from any crashed state keeps the data gone one contiguous range of old blocks, with at most one of them partly gone, at most one batch beyond the tail |
| HistoryPrunerProofs.RestartReachesSameState | execution_chain/pruner.nim:80-116 | after any sequence of crashes and cancellations a completed cycle reaches the state of an uninterrupted one, if and only if the tail was not left exactly at a head that may be pruned |
| HistoryPrunerProofs.RestartAtTheHead | execution_chain/pruner.nim:80-82 | two old blocks and a batch of one, where the restart leaves the second block that one cycle would prune |
| HistoryPrunerProofs.RunPrunesOneRange | execution_chain/pruner.nim:57-120 | over every run of complete, cancelled and crashed cycles, with a clock that may step back, the data gone is that of one range from the first tail, all past retention at the latest reading, at most one batch beyond a tail that never decreases |
| HistoryPrunerProofs.UninterruptedCyclePrunesAll | execution_chain/pruner.nim:63-120 | whatever came before, an uninterrupted cycle deletes exactly the data of the blocks from the stored tail up to the first that is unreadable, not older than 12681216 seconds, or above the head, and leaves the tail there |
| HistoryPrunerProofs.RetainedDataSurvives | execution_chain/pruner/db_utils.nim:28-61 | after every run, a block above all touched ones has all its data if and only if no deleted block has an equal non-empty transactions, receipts, ommers or withdrawals root, and none of a partly deleted one is gone |
| SlotSearch.SlotDistance | execution_chain/nimbus_import.nim:253-259 | after the merge, slots between two proposed blocks are their number difference plus the empty slots, the ground for the arithmetic jumps |
| SlotSearch.NumberIsProposed | execution_chain/nimbus_import.nim:266-291 | every number between two proposed ones is proposed between them, so the check of the last files gives the search a target |
| SlotSearch.JumpStaysBelow | execution_chain/nimbus_import.nim:308-310 | from an earlier block the jump moves up and never past the target's slot, in both variants |
| SlotSearch.SearchFromBelow | execution_chain/nimbus_import.nim:293-312 | from a guess that does not overshoot, the search ends exactly at the target's slot whatever other slots are missing |
| SlotSearch.SearchFromAbove | nrpc/nrpc.nim:114-130 | from a guess that does, the wrapped jump back lands above the target's slot by the empty slots in between, or the search never ends |
| SlotSearch.SearchFindsTarget | nrpc/nrpc.nim:108-130 | the search answers the target's slot if and only if the guess does not overshoot or no slot between the target and the first block seen is empty |
| SlotSearch.OvershootMissesTarget | nrpc/nrpc.nim:114-130 | a chain whose guess overshoots and whose answer is an empty slot |
| SlotSearch.SearchesAgree | execution_chain/el_sync.nim:69-88 | where every block from the guess on is at hand the two variants give one answer, except that the sync steps once more after landing on the target |
| SlotSearch.SearchAfterFromBelow | execution_chain/el_sync.nim:65-88 | from a guess that does not overshoot, the sync's search answers the slot after the target's, or gives up on missing data at or below it |
| SlotSearch.SearchAfterFromAbove | execution_chain/el_sync.nim:71-86 | from one that does, it answers as many slots above the target's as there are empty ones in between, unless data is missing before the first block seen |
| SlotSearch.SearchAfterFindsSuccessor | execution_chain/el_sync.nim:59-88 | it answers the slot after the target's if and only if the guess does not overshoot or exactly one slot in between is empty |
| SlotSearch.GuessOvershoots | execution_chain/el_sync.nim:65-66 | how many slots must have stayed empty since the merge for each of the two guesses not to overshoot |
| SlotSearch.GuessIsAfterMerge | execution_chain/nimbus_import.nim:293-296 | for a block after the merge the guess lies after the first slot after the merge, so no search looks at the slots below |
| SlotSearch.FindSlot | nrpc/nrpc.nim:108-130 | the loop terminates with the specified answer and, from a good guess, probes no slot or number above the target's |
| SlotSearch.FindSlotAfter | execution_chain/el_sync.nim:59-88 | the same for the sync, which also gives up on missing data |
| ElSync.SyncToEngineApi | execution_chain/el_sync.nim:90-214 | an attempt ends as specified on every early exit and in the loop; reaching the beacon head means as many payloads as the numbers it moved |
| ElSync.EarlyExits | execution_chain/el_sync.nim:108-141 | each of the five early exits is taken if and only if its own condition on the inputs holds, and then nothing is sent and the number is kept; one block behind is in sync |
| ElSync.FeedsConsecutiveBlocks | execution_chain/el_sync.nim:145-214 | with the blocks at hand the payloads are consecutive, all but a rejected last one accepted, and the loop ends at the beacon head, a refusal or a node that moves on its own |
| ElSync.SendsOnlyWhatIsAtHand | execution_chain/el_sync.nim:147-150 | nothing is sent that is not a block at hand |
| ElSync.FeedStopsAtFirstRefusal | execution_chain/el_sync.nim:192-214 | the number kept counts exactly the valid answers, a rejection is the first answer that is not valid, and the node's own head was checked at every 1024th block |
| ElSync.FeedsAllExactlyWhenAtHand | execution_chain/el_sync.nim:145-150 | from any slot on, a cooperative node is brought to the beacon head with exactly the successors of its head if and only if the loop starts in the gap after the head, or at the head's slot with that block missing, and every successor is at hand |
| ElSync.SyncFeedsSuccessors | execution_chain/el_sync.nim:108-214 | from a good guess a whole attempt sends the successors of the execution layer's head in order, each once, and keeps the number of the last accepted one |
| ElSync.SyncFeedsExactlyWhen | execution_chain/el_sync.nim:59-214 | a whole attempt feeds a cooperative node exactly the successors of its head up to the beacon head if and only if all of them are at hand, the search meets no missing data, and the guess does not overshoot or the jump back makes a right start |
| ElSync.OvershootSkipsABlock | execution_chain/el_sync.nim:65-86 | a chain on which an attempt reaches the beacon head's number without ever sending the first missing block |
| ElSync.DenseChainIsOneBehind | execution_chain/el_sync.nim:50-65 | on a chain without empty slots or a merge the attempt starts with the block the execution layer already has and ends one short |
| BlockImport.NumberedBounds | execution_chain/nimbus_import.nim:240-245 | a run only adds blocks, never exceeds its limit or the last number |
| BlockImport.Importer.PersistBlock | execution_chain/core/chain/persist_blocks.nim:62-87 | a block is applied and counted if and only if it has the next number and its validation and execution succeed |
| BlockImport.Importer.Checkpoint | execution_chain/nimbus_import.nim:164-180 | one report at most, with at least one block; the reported differences add up to the totals on disk; fewer than a chunk of blocks stay behind, none when forced |
| BlockImport.Importer.ImportByNumber | execution_chain/nimbus_import.nim:240-245 | the `ere` and `era1` loops persist the specified blocks with fewer than a chunk of them not yet on disk |
| BlockImport.Importer.ImportBySlot | execution_chain/nimbus_import.nim:392-400 | the same for the `era` loop |
| BlockImport.Importer.UpdateLastImportedSlot | execution_chain/nimbus_import.nim:260-313 | it finds nothing, or the slot of the search above, depending on the check of the last files |
| BlockImport.Importer.Import | execution_chain/nimbus_import.nim:112-405 | for any limit, a completed import has every persisted block on disk and reports that add up to all of them |
| BlockImportContents.EreImportIsRun | execution_chain/nimbus_import.nim:234-245 | an `ere` import persists exactly the accepted blocks of the files numbered consecutively from its start, up to its limit or the first one missing, and fails only at one that is there and refused |
| BlockImportContents.LegacyImportIsRun | execution_chain/nimbus_import.nim:315-405 | so does an import over `era1` and `era` files that starts at or below the merge, or whose start passes the check and is found by its guess; any other persists nothing |
| BlockImportContents.PreMergeOnlyIsRun | execution_chain/nimbus_import.nim:345-353 | so does an import without an `era` directory, up to the merge |
| BlockImportContents.RunIsDetermined | execution_chain/nimbus_import.nim:112-405 | archive, start and limit leave only one such run |
| BlockImportContents.HasMoreWhen | execution_chain/nimbus_import.nim:271-291 | when the check of the last files passes, in terms of the first block in them and its place |
| BlockImportProofs.NumberedImportResumes | execution_chain/nimbus_import.nim:335-341 | the stages by number resume unconditionally: two runs persist what one with both limits together persists |
| BlockImportProofs.EreImportResumes | execution_chain/nimbus_import.nim:234-245 | an `ere` import split in two is the same as one, in its blocks and its end |
| BlockImportProofs.HasMoreFindsBlock | execution_chain/nimbus_import.nim:271-291 | when the check of the last files passes, a block at or after the next one is there |
| BlockImportProofs.StoppedInsideLastFiles | execution_chain/nimbus_import.nim:287-290 | once an import has stopped inside the last files their check never passes again, also when they start before the merge |
| BlockImportProofs.NextBlock | execution_chain/nimbus_import.nim:392-400 | if the files have anything left, the next block is in them, right after the last imported one but for empty slots |
| BlockImportProofs.SearchEndsAt | execution_chain/nimbus_import.nim:293-312 | for an arbitrary guess the search answers the next block's slot exactly when the guess finds it, and a later slot or never otherwise |
| BlockImportProofs.LateStartImportsNothing | execution_chain/nimbus_import.nim:392-400 | from a slot above the next block's nothing is imported |
| BlockImportProofs.SearchResumes | execution_chain/nimbus_import.nim:260-313 | a passed check and a guess that finds it lead to the slot of the very next block |
| BlockImportProofs.EraImportContinues | execution_chain/nimbus_import.nim:367-400 | then the later run continues the `era` stage with exactly the blocks and the end one run would have |
| BlockImportProofs.EraImportFrom | execution_chain/nimbus_import.nim:367-400 | without them it imports nothing, whatever its limit |
| BlockImportProofs.EraImportResumes | execution_chain/nimbus_import.nim:367-400 | the `era` stage resumes, for an arbitrary guess and any limits, if and only if nothing is asked for, nothing is left, the next block is refused, or the check passes and the guess finds that block |
| BlockImportProofs.RunStages | execution_chain/nimbus_import.nim:315-400 | a run is its pre-merge blocks and, once they are complete, the post-merge stage, within the limit |
| BlockImportProofs.EmptyRunResumes | execution_chain/nimbus_import.nim:335-400 | a run that could import and found nothing changes nothing for later runs |
| BlockImportProofs.PreMergeRunResumes | execution_chain/nimbus_import.nim:315-345 | a run stopped below the merge is resumed unconditionally, across the merge too |
| BlockImportProofs.BoundaryRunResumes | execution_chain/nimbus_import.nim:344-376 | so is one stopped exactly at the merge |
| BlockImportProofs.PostMergeRunResumes | execution_chain/nimbus_import.nim:367-400 | one stopped above it is resumed under exactly the condition of the `era` stage, and by a run that imports nothing otherwise |
| BlockImportProofs.LegacyImportResumes | execution_chain/nimbus_import.nim:112-405 | all cases of a completed run together: the next one persists the rest of what one run would if and only if the first stopped at or below the merge, imported nothing, or the condition of the `era` stage holds; otherwise it imports nothing |
| BlockImportProofs.PreMergeOnlyResumes | execution_chain/nimbus_import.nim:345-353 | without an `era` directory an import stopped at or below the merge is resumed with exactly the missing blocks |
| BlockImportProofs.SmallerLimit | execution_chain/nimbus_import.nim:112-405 | a run with a smaller limit persists exactly the first blocks of a run with a larger one, however that one ends |
| BlockImportProofs.DeadRunResumes | execution_chain/nimbus_import.nim:164-180 | a run that has died within a chunk and one from its last checkpoint together persist what one run does, if and only if the latter resumes |
| BlockImportProofs.NextHasRoom | execution_chain/nimbus_import.nim:114 | whatever the limits, the next run's first block number fits the word if those of the archive do |
| BlockImportProofs.RunsImportTheSame | execution_chain/nimbus_import.nim:112-405 | however an import is split into any number of runs with any limits, all but the last complete, they persist the very blocks, in order, of one run with all limits together if and only if every run resumes |
| BlockImportProofs.NothingAfterDeadEnd | execution_chain/nimbus_import.nim:112-405 | once a run has failed to resume neither it nor any later run imports anything |
| GoBinding.StepKeepsInvariant | nimbus_verified_proxy/library/bindings/go/verifproxy/verifproxy.go:248-279 | every step of any caller, the event loop or the library keeps tasks unique, handles matched to pending requests, and channels holding at most their own call's answer |
| GoBinding.RunKeepsInvariant | nimbus_verified_proxy/library/bindings/go/verifproxy/verifproxy.go:248-279 | so does every interleaving |
| GoBinding.CallReturnsItsOwnResult | nimbus_verified_proxy/library/bindings/go/verifproxy/verifproxy.go:322-343 | in every run a call that returns an answer began with the request the library was asked under its handle, in the order in which tasks were handed over, and returns the very result with which that handle was later called back |
| GoBinding.CallerSeesTheLibrarysAnswer | nimbus_verified_proxy/library/bindings/go/verifproxy/verifproxy.go:334-342 | a success is a response the library gave this call with status zero; an error is its answer with another status, or a timeout |
| GoBinding.AnsweredCallCanReceive | nimbus_verified_proxy/library/bindings/go/verifproxy/verifproxy.go:151-161 | no answer is lost: a call that still waits after its handle was called back can receive exactly that answer |
| GoBinding.WaitingCallCanBeAnswered | nimbus_verified_proxy/library/bindings/go/verifproxy/verifproxy.go:330-342 | no request is lost: a waiting call that has no answer yet can still return any answer if and only if the event loop is running |
| GoBinding.CallbackNeverBlocks | nimbus_verified_proxy/library/bindings/go/verifproxy/verifproxy.go:151-161 | in every run the event loop finds its handle live and room in the channel, also long after the caller timed out |
| GoBinding.LiveHandlesArePendingRequests | nimbus_verified_proxy/library/bindings/go/verifproxy/verifproxy.go:151-161 | in every run the live handles are exactly the dispatched requests not yet called back, and as many |
| GoBinding.ReturnsOnce | nimbus_verified_proxy/library/bindings/go/verifproxy/verifproxy.go:334-342 | what a call has returned never changes, whatever is called back later |
| GoBinding.SendingCallCanReturn | nimbus_verified_proxy/library/bindings/go/verifproxy/verifproxy.go:330-334 | a call still handing its task over can return if and only if the event loop runs or the task channel has room |
| GoBinding.TasksPileUpAfterStop | nimbus_verified_proxy/library/bindings/go/verifproxy/verifproxy.go:269-273 | after a stop calls keep filling the task channel, up to its capacity |
| GoBinding.StuckCallIsReachable | nimbus_verified_proxy/library/bindings/go/verifproxy/verifproxy.go:203-209 | some run leaves a call that can never return, with 64 tasks in the channel |
| PromiseTable.NimbusVerifiedProxy.IssueCall | nimbus_verified_proxy/library/bindings/wasm/verifproxy.js:133-176 | every call gets an id never used before, also when it is completed before it returns |
| PromiseTable.NimbusVerifiedProxy.UnifiedCallback | nimbus_verified_proxy/library/bindings/wasm/verifproxy.js:100-116 | a completion settles a waiting promise once, a stale one does nothing, an unparsable interval throws and loses its promise |
| PromiseTable.NimbusVerifiedProxy.DestroyProxy | nimbus_verified_proxy/library/bindings/wasm/verifproxy.js:178-201 | whatever waits is rejected, and nothing else changes |
| PromiseTable.FirstCompletionDecides | nimbus_verified_proxy/library/bindings/wasm/verifproxy.js:100-176 | in every run a promise still undecided at its first completion ends up resolved with the body or its number if the status is zero, and rejected with body and status otherwise, whatever follows |
| PromiseTable.DestructionRejects | nimbus_verified_proxy/library/bindings/wasm/verifproxy.js:178-201 | in every run a promise still undecided at a destruction ends up rejected as destroyed |
| PromiseTable.ImmediateCompletionDecides | nimbus_verified_proxy/library/bindings/wasm/verifproxy.js:133-176 | a call completed before it returns is settled by that completion, and rejected if that does not parse |
| PromiseTable.RunKeepsPartition | nimbus_verified_proxy/library/bindings/wasm/verifproxy.js:100-201 | over every run each id is fresh, waiting, settled or lost and only one of these, and settled promises keep their outcome |
| PromiseTable.DestroySettlesAll | nimbus_verified_proxy/library/bindings/wasm/verifproxy.js:178-201 | after a destruction every earlier promise is settled if and only if no later completion of an interval call failed to parse |
| PromiseTable.MalformedIntervalIsLost | nimbus_verified_proxy/library/bindings/wasm/verifproxy.js:154-160 | a completion that does not parse leaves its promise pending even after a destruction |
| StdioInput.Input.Grow | execution_chain/stateless/zkvm/native/zkvm_io_stdio.c:63-71 | a full buffer doubles and keeps its bytes, or the process dies exactly when the memory is not there |
| StdioInput.Input.ReadChunk | execution_chain/stateless/zkvm/native/zkvm_io_stdio.c:62-82 | one turn of the loop moves bytes from the input to the buffer in order, losing none, within the capacity bounds |
| StdioInput.Input.Load | execution_chain/stateless/zkvm/native/zkvm_io_stdio.c:48-93 | however the input is chunked the buffer is exactly the input, at most twice as long as needed, with linear copying; it fails exactly on a read error or missing memory, and loads once |

## Left out

- BalPruner.BalPrunerRef.Prune: requires a head below the largest word, above which the search bounds wrap.
- BalPrunerProofs.InterruptAndRerun: requires every readable hash up to where the uninterrupted pass stops to have its header; `OrphanHashBreaksIndependence` and `OrphanAtTheStop` show what happens otherwise. The theorems on one frame assume that nothing becomes readable or unreadable meanwhile.
- BalPrunerProofs.Convergence: as in `CyclesConverge`, each pass starts from the same frame at the same head, later frames of a pass are arbitrary, and batches do not wrap below the head (`WrappedBatchNeverMoves`).
- BlockImportContents.LegacyImportIsRun: the `era` files begin with the first block after the last `era1` one and hold consecutive blocks from there; slot zero, if the merge is there, holds genesis. Imports from the block after an existing one only, so not of genesis.
- BlockImportProofs.LegacyImportResumes: the `era` files hold consecutive blocks from the first slot after the merge on, and the last files at least two slots; the slots and the next block's number together fit the word.
- BlockImportProofs.RunsImportTheSame: the block numbers of the archive, with its slots on top, fit the word.
- SlotSearch.FindSlot: requires the slots and the target together to fit the word, and a positive target, as its callers guarantee.
- BlockImport.Importer.PersistBlock: whether a block's validation and execution on its parent succeed is a given of the block. A state root mismatch found only by a checkpoint, after which the blocks since the last one are lost, is a death like any other (`DeadRunResumes`).
- BlockImport.Importer.ImportBySlot: the block of a slot is given; era file windows, historical roots and the arithmetic that places the last files (`windowStart` here) are not modelled.
- GoBinding.StepKeepsInvariant: goroutines and channels are values of a state machine rather than objects changed in place; the library is assumed to call back at most once for each handle, on the event loop's thread. Callbacks made while the library stops are steps before the stop.
- PromiseTable.NimbusVerifiedProxy.UnifiedCallback: the periodic tick that destroys the proxy when a callback throws is a completion followed by a destruction; ids do not wrap at 32 bits; only a call's own completion can come before the call returns.
- HistoryPruner.HistoryKvt.DeleteBlockBodyAndReceiptsBe: the range delete under one root is one step, and a delete the database refuses, which is only logged, is not modelled.
- Past the last known slot the source probes for ever; the model reports `Endless`, `NoMoreSlots` or `Stuck` instead.
- The endless loops of both pruners are finite sequences of cycles of any length; delays, logging, metrics and CSV text are not modelled.
- The in-memory cache of block hashes and the stateless hash lookup of a frame: a frame is what they answer.
- Missing `era1` directories and unreadable historical summaries, which end the process before anything is imported.
- Payload versions, pre-Bellatrix and Gloas blocks, and failing connections in the execution layer sync.
- The main loop of `nrpc` with its reorg handling, and interrupts by signal; a stopped import is a smaller limit.
- The bump heaps of the two zkVM guests, the sender cache, and the output side of the native interface are not modelled.
