# Hecuba, modelled and proved in Dafny

Hecuba keeps n-dimensional arrays and dictionaries in Cassandra.  This project
models the parts of it where correctness is hard to see, in the form the source
has (classes with mutable state, loops, step relations for threads), and proves
what those parts are for.

**Arrays as rows.**  An array is cut into blocks; a block is named by its
mixed-radix counter, turned into a Morton code, turned into a (cluster, block)
pair; its bytes are copied out by a recursive tessellation, and a merge puts
partitions back.  `MixedRadix`, `Boxes`, `Tessellation`, `Morton`, `Partitions`,
`ZorderCurve` and `ZorderGenerator` build up to the theorem that split then merge
is the identity for every number of dimensions and every shape, in any order of
the partitions, with no exception raised.  `ArrayStore` adds the table: storing
some blocks over a stored array is an exact overlay; `RoundTrip` has the whole trips.
`FortranOrder` does the same for column-major arrays.

**The asynchronous write path.**  `WriterProtocol` is a step relation for the
writers, the bounded queue, the worker thread, its two semaphores and two
counters, the driver, the callbacks and the retries under a global error budget.
`WriterRuns` proves conservation, exactness of `is_write_completed`, the semaphore
accounting, the two-read quiescence check, termination and progress over all its
runs, `WriteOrder` which write of a key gives way and in which order writes are queued,
and `ErrorBudget` what failures cost.  `LazyWriter` is the coalescing of lazy writes, whose stamped queue may reach the
store in any order; `KVCache` is the LRU list and map.  `CacheTable` puts caches,
timestamps and a last-writer-wins store, with any rows in it, around the protocol and
proves that every `get_crow` returns what a plain map would; `LostPuts` shows that the
age of the stored rows is exactly what this takes.

**Lazy arrays.**  `Slices` composes slices of one dimension and proves exactly when
the composition means what numpy means; `Views` does so for all dimensions and chains
of views.  `BlockSets` has the blocks that an index names, and `IndexBlocks` decides on
the index alone whether they all exist.  `LazyArray` is the persistent array that loads
blocks on demand and writes them through; it behaves as a plain array.  `PhantomRuns`
are runs on it that do not.

**Token ranges and prefetching.**  `TokenRanges` cuts the ring into ranges, ranges
into pieces and pieces into groups per node, without losing, repeating or
misplacing a token.  `Prefetch` is the producer/consumer iterator.

`Arith` holds the integer facts behind the addresses, `Collections` shared types, and
`Timestamps` the timestamp generator.  `dafny verify
dfyconfig.toml` checks the whole project.

## What the model says about the code

Where the code does not do what one would expect, the model keeps the code and a
lemma says exactly when.

- Composing a slice onto a slice is right exactly when the composed start lands on
  the first selected element, or nothing is selected and the composed slice is empty
  (`Slices.SliceExact`).  Spelled out: a stop of 0 reads as no stop
  (`Slices.ZeroStopExact`, `Slices.ZeroStopWrong`); a negative start needs an aligned
  old slice unless nothing is selected (`Slices.NegativeStartExact`,
  `Slices.LongStepExact`, `Slices.NegativeStartWrong`); a start or stop before the
  front is not clipped (`Slices.FarStartExact`, `Slices.FarStopExact`,
  `Slices.WholeAxisFar`, `Slices.FarStartWrong`, `Slices.FarStopWrong`), nor is a
  negative start on an axis that shows nothing (`Slices.EmptyAxisExact`).  Starts from
  the front with any stop that leaves something are right under every old slice
  (`Slices.FrontStartRight`).
- A negative int index under a stepped slice is right exactly when the span of the
  slice is a whole number of steps: `Slices.NegativeIntExact`, `Slices.NegativeIntWrong`.
- Two kinds of index name a block that does not exist: the int equal to an extent that
  is a multiple of the block side, which the bounds check lets through
  (`Views.BoundsCheckExact`), and a slice from before the front, such as `x[-10:3]` of
  eight elements.  These are all of them (`IndexBlocks.RealBlocksExact`), and exactly
  they spoil an array whose flag is not set yet (`LazyArray.StorageNumpy.GetItem`): such
  a block can make it count as fully loaded when it is not, after which reads are stale
  (`PhantomRuns.PhantomRun`, `PhantomRuns.PhantomSliceRun`).  The flag is right exactly
  when every loaded coordinate is a block of the array (`BlockSets.FlagExact`).
- Timestamps come from a steady clock, which may start over, and from a generator that
  starts at 0.  A put over a stored row that its timestamp does not exceed, one of an
  earlier boot or of another client, is acknowledged and lost (`LostPuts.LosingRun`).  A table is a plain map in all its runs
  exactly when every stored row is older than the first timestamp it can give
  (`LostPuts.CurrentExactly`).
- With more new indices than slices in the view, `view_composer_internal` raises an
  IndexError exactly when the last dimension is an int, and otherwise ignores what is
  left over (`Views.ComposeOutcome`, `Views.LeftOverIgnored`,
  `Views.LeftOverExamples`).
- A write that is given up never leaves the count of its Writer, so
  `is_write_completed` stays false for good after an abort
  (`WriterRuns.AbortIsFinal`, `WriterRuns.AbortReachable`); at the end of any maximal
  run that is the only reason besides dirty blocks (`WriterRuns.MaximalRun`).
- The cluster enumeration repeats ids exactly in one dimension of more than two blocks
  (`ZorderCurve.ClusterIdsDistinctExact`, `ZorderCurve.OneDimensionRepeats`).
- A prefetch call that reads `completed` before it is set, and pops after the abort,
  waits for ever on an empty queue; this is the only way to be stuck, and it can
  happen whatever the ranges return (`Prefetch.StuckExactly`, `Prefetch.LostWakeup`).
- `generate_token_ranges` never uses the greatest token as a bound, although its
  comment shows it as one; the ranges still cover the ring exactly
  (`TokenRanges.ClusterExact`).
- `tokens_partitions` divides by zero on an empty list of ranges
  (`TokenRanges.TokensPartitions`).

## Model

| member | source | states |
|---|---|---|
| `MixedRadix.GetIndexes` | hecuba_core/src/SpaceFillingCurve.cpp:172-189 | getIndexes gives the mixed-radix digits of a counter, each below its dimension |
| `MixedRadix.GetBlockCounter` | hecuba_core/src/SpaceFillingCurve.cpp:161-170 | getBlockCounter gives the row-major rank of block coordinates |
| `MixedRadix.RankOfDigits` | hecuba_core/src/SpaceFillingCurve.cpp:82-87 | getBlockCounter undoes getIndexes |
| `MixedRadix.DigitsOfRank` | hecuba_core/src/SpaceFillingCurve.cpp:82-87 | getIndexes undoes getBlockCounter on every block of the grid |
| `MixedRadix.RankBound` | hecuba_core/src/SpaceFillingCurve.cpp:161-170 | the counter of a block of the grid is below the number of blocks |
| `MixedRadix.DigitsInShape` | hecuba_core/src/SpaceFillingCurve.cpp:172-189 | a counter below the number of blocks gives coordinates inside the grid |
| `MixedRadix.GetIdFromIndexes` | hecuba_core/src/SpaceFillingCurve.cpp:191-211 | getIdFromIndexes gives the row-major element offset of a corner |
| `Boxes.SrcInBlock` | hecuba_core/src/SpaceFillingCurve.cpp:232-253 | a position of the dense block maps to an array byte of the block, and back to itself |
| `Boxes.RelInBlock` | hecuba_core/src/SpaceFillingCurve.cpp:436-457 | an array byte of the block maps to a position of the dense block, and back to itself |
| `Boxes.ExtentFits` | hecuba_core/src/SpaceFillingCurve.cpp:335-339 | a block at its corner reads and writes inside the array |
| `Boxes.OwnerInGrid` | hecuba_core/src/SpaceFillingCurve.cpp:108-122 | every byte of the array is owned by a block of the grid |
| `Boxes.OwnerIffInBlock` | hecuba_core/src/SpaceFillingCurve.cpp:328-379 | the bytes copied for a block are exactly the bytes whose coordinates divide to it: blocks, edge blocks included, partition the array |
| `Tessellation.Tessellate` | hecuba_core/src/SpaceFillingCurve.cpp:221-254 | the recursive copy fills the output with the block, byte for byte, and nothing else changes; it fails exactly when the block does not fit before the end |
| `Tessellation.SubsetSizes` | hecuba_core/src/SpaceFillingCurve.cpp:237-246 | the spacing of subsets in array and block, with the division by the last dimension being exact |
| `Tessellation.CopyBlockToArray` | hecuba_core/src/SpaceFillingCurve.cpp:426-458 | the recursive copy back pastes the block and touches no byte outside it; it fails exactly when the chunk is too short |
| `Morton.ZorderBits` | hecuba_core/src/SpaceFillingCurve.cpp:133-149 | bit j of the code is bit j / n of coordinate j % n, for every n, also one that does not divide 64 |
| `Morton.ComputeZorder` | hecuba_core/src/SpaceFillingCurve.cpp:133-149 | the interleaving loops compute that code, below 2^31 |
| `Morton.ComputeZorderInverse` | hecuba_core/src/SpaceFillingCurve.cpp:151-159 | the loop over 64 bits computes the inverse |
| `Morton.InverseOfZorder` | hecuba_core/src/SpaceFillingCurve.cpp:151-159 | zorderInverse undoes computeZorder |
| `Morton.ZorderOfInverse` | hecuba_core/src/SpaceFillingCurve.cpp:133-159 | computeZorder undoes zorderInverse on every 31-bit code |
| `Morton.NameDecodes` | hecuba_core/src/SpaceFillingCurve.cpp:489-492 | joining cluster and block id and inverting gives back the block coordinates |
| `Morton.NamesDistinct` | hecuba_core/src/SpaceFillingCurve.cpp:287-298 | two blocks have the same (cluster, block) name exactly when they are the same block |
| `Partitions.BlockFits` | hecuba_core/src/SpaceFillingCurve.cpp:97-106 | no block is larger than BLOCK_SIZE |
| `Partitions.OwnChunkAccepted` | hecuba_core/src/SpaceFillingCurve.cpp:513-517 | a chunk cut from an array always passes the size test of the merge |
| `Partitions.SizeExact` | hecuba_core/src/SpaceFillingCurve.cpp:513-540 | a block with elements beyond it in every dimension takes exactly a full block of bytes, a block at the end of some dimension at least the elements left |
| `Partitions.PasteBlockAt` | hecuba_core/src/SpaceFillingCurve.cpp:499-543 | merging a chunk changes a byte exactly when the chunk's block owns it, to the right byte of the chunk |
| `Partitions.MergedAt` | hecuba_core/src/SpaceFillingCurve.cpp:489-544 | a byte after merging any chunks in any order: untouched when no chunk names its owner, the agreed byte otherwise |
| `Partitions.MergeRestores` | hecuba_core/src/SpaceFillingCurve.cpp:461-545 | merging any chunks of an array over any buffer restores exactly the bytes of the named blocks |
| `Partitions.MergeRebuilds` | hecuba_core/src/SpaceFillingCurve.cpp:461-545 | merging a chunk for every block rebuilds the array |
| `ZorderCurve.PlaceOfPartition` | hecuba_core/src/SpaceFillingCurve.cpp:312-319 | the merge reads back the block that getNextPartition named |
| `ZorderCurve.SplitHasBlock` | hecuba_core/src/SpaceFillingCurve.cpp:313-321 | every block of the grid is in the split |
| `ZorderCurve.SplitNamesDistinct` | hecuba_core/src/SpaceFillingCurve.cpp:316-319 | no two partitions of a split carry the same name |
| `ZorderCurve.SplitMergeIdentity` | hecuba_core/src/SpaceFillingCurve.cpp:461-545 | split then merge is the identity: the partitions of an array in any order rebuild it byte for byte over any buffer, and none is refused |
| `ZorderCurve.AnchorCluster` | hecuba_core/src/SpaceFillingCurve.cpp:405-415 | a block is in the cluster of its anchor for every number of dimensions |
| `ZorderCurve.ClusterIdsComplete` | hecuba_core/src/SpaceFillingCurve.cpp:399-416 | draining computeNextClusterId yields exactly the cluster ids of all blocks |
| `ZorderCurve.ClusterIdsDistinct` | hecuba_core/src/SpaceFillingCurve.cpp:399-416 | from two dimensions up no cluster id is yielded twice |
| `ZorderCurve.ClusterIdsDistinctExact` | hecuba_core/src/SpaceFillingCurve.cpp:399-416 | no cluster id is yielded twice exactly from two dimensions up, or in one dimension of at most two blocks |
| `ZorderCurve.OneDimensionIds` | hecuba_core/src/SpaceFillingCurve.cpp:405-415 | in one dimension the k-th id yielded is k / 2 |
| `ZorderCurve.OneDimensionRepeats` | hecuba_core/src/SpaceFillingCurve.cpp:115-116 | six blocks in one dimension yield the cluster ids 0, 0, 1 |
| `ZorderGenerator.FullBlockSize` | hecuba_core/src/SpaceFillingCurve.cpp:105-106 | row_elements to the power of ndims, times the element size |
| `ZorderGenerator.IsBound` | hecuba_core/src/SpaceFillingCurve.cpp:328-333 | the loop detects blocks at the end of some dimension |
| `ZorderGenerator.Scale` | hecuba_core/src/SpaceFillingCurve.cpp:499-502 | block coordinates scaled to element coordinates |
| `ZorderGenerator.BoundShape` | hecuba_core/src/SpaceFillingCurve.cpp:356-368 | the shape and size of an edge block are its elements left in each dimension |
| `ZorderGenerator.CutBlock` | hecuba_core/src/SpaceFillingCurve.cpp:335-379 | the chunk is the block's own bytes under their size; the out-of-memory exception is never raised |
| `ZorderGenerator.ZorderCurveGenerator.constructor` | hecuba_core/src/SpaceFillingCurve.cpp:90-130 | block and cluster grids, their sizes, and an undrained generator |
| `ZorderGenerator.ZorderCurveGenerator.IsDone` | hecuba_core/src/SpaceFillingCurve.h:155-158 | done once every block was generated, and for good |
| `ZorderGenerator.ZorderCurveGenerator.GetNextPartition` | hecuba_core/src/SpaceFillingCurve.cpp:300-382 | the next block in counter order, with its name and, when there is data, its bytes; never an exception |
| `ZorderGenerator.ZorderCurveGenerator.ComputeNextClusterId` | hecuba_core/src/SpaceFillingCurve.cpp:399-416 | the next cluster id of the enumeration, CLUSTER_END_FLAG after the last |
| `ZorderGenerator.ZorderCurveGeneratorFiltered.constructor` | hecuba_core/src/SpaceFillingCurve.cpp:565-569 | a generator over a list of block coordinates |
| `ZorderGenerator.ZorderCurveGeneratorFiltered.GetNextPartition` | hecuba_core/src/SpaceFillingCurve.cpp:553-557 | the partition of the first listed block, which is taken off the list |
| `ZorderGenerator.ZorderCurveGeneratorFiltered.IsDone` | hecuba_core/src/SpaceFillingCurve.cpp:559-563 | done exactly when the list is empty or it was done before |
| `ZorderGenerator.MergePartitions` | hecuba_core/src/SpaceFillingCurve.cpp:461-545 | the loop merges all partitions, and fails exactly when some chunk has a size its block does not accept |
| `ArrayStore.StoredAt` | hecuba_core/src/ArrayDataStore.cpp:740-744 | a row is the new block exactly when its coordinates were listed, however often; every other row is untouched |
| `ArrayStore.StoredSound` | hecuba_core/src/ArrayDataStore.cpp:740-744 | storing blocks keeps every payload at least as long as its stated size, which the reader relies on |
| `ArrayStore.OverlayReads` | hecuba_core/src/ArrayDataStore.cpp:723-750 | partial store is an exact overlay: after storing one array whole and some blocks of another, reading gives new bytes on exactly those blocks and old bytes elsewhere, and merges without error |
| `ArrayStore.ArrayDataStore.StoreNumpy` | hecuba_core/src/ArrayDataStore.cpp:681-695 | stores one row per block of the grid |
| `ArrayStore.ArrayDataStore.StoreNumpyByCoords` | hecuba_core/src/ArrayDataStore.cpp:723-750 | stores exactly the rows of the listed blocks, repeats included |
| `ArrayStore.ArrayDataStore.FetchRows` | hecuba_core/src/ArrayDataStore.cpp:907-934 | the partitions of the rows found for the wanted names, in order |
| `ArrayStore.ArrayDataStore.ReadNumpyByCoords` | hecuba_core/src/ArrayDataStore.cpp:884-943 | merges the rows found for the listed blocks (all blocks for an empty list); an exception exactly when no row was found or a size is not accepted |
| `ArrayStore.NamesOfAll` | hecuba_core/src/ArrayDataStore.cpp:898-906 | the names of all blocks, in counter order |
| `ArrayStore.NamesOfCoords` | hecuba_core/src/ArrayDataStore.cpp:900-906 | the names of the listed blocks, in order |
| `ArrayStore.GetClusterIds` | hecuba_core/src/ArrayDataStore.cpp:698-706 | exactly the cluster ids of all blocks, in as many steps as there are clusters |
| `RoundTrip.Drain` | hecuba_core/src/ArrayDataStore.cpp:686-690 | draining a generator yields the partitions of the array, in any order |
| `RoundTrip.SplitThenMerge` | hecuba_core/src/SpaceFillingCurve.cpp:461-545 | drained, shuffled and merged into any buffer, the array is back byte for byte |
| `RoundTrip.OverlayThenRead` | hecuba_core/src/ArrayDataStore.cpp:723-750 | storing an array, then blocks of another, then reading any blocks gives exactly the overlay |
| `RoundTrip.StoreThenRead` | hecuba_core/src/ArrayDataStore.cpp:884-943 | an array stored whole reads back byte for byte |
| `FortranOrder.UnpackOfPack` | hecuba_core/src/SpaceFillingCurve.cpp:945-955 | the variable-width packing of coordinates into a block id is undone, for any number of dimensions within 31 bits |
| `FortranOrder.BitsLeast` | hecuba_core/src/SpaceFillingCurve.cpp:780 | the width of a field is the binary length of its number of blocks |
| `FortranOrder.GetBlockID` | hecuba_core/src/SpaceFillingCurve.cpp:776-786 | the packing loop |
| `FortranOrder.DecodeBlockID` | hecuba_core/src/SpaceFillingCurve.cpp:946-955 | the unpacking loop |
| `FortranOrder.FNameDecodes` | hecuba_core/src/SpaceFillingCurve.cpp:944-964 | the merge decodes a column-major name to the block it was given to, for any number of dimensions |
| `FortranOrder.FPartitionReadable` | hecuba_core/src/SpaceFillingCurve.cpp:944-964 | the merge reads back every partition of a one- or two-dimensional array |
| `FortranOrder.GetIdFromIndexesByColumns` | hecuba_core/src/SpaceFillingCurve.cpp:692-711 | the column-major element offset |
| `FortranOrder.ColumnRankIsRank` | hecuba_core/src/SpaceFillingCurve.cpp:826-837 | the column-major offset is the row-major offset in the array with its dimensions exchanged |
| `FortranOrder.ColumnSplitMergeIdentity` | hecuba_core/src/SpaceFillingCurve.cpp:934-1020 | column-major split then merge is the identity for one and two dimensions, in any order and with repeats |
| `FortranOrder.ColumnDrainRebuilds` | hecuba_core/src/SpaceFillingCurve.cpp:795-885 | the partitions that draining the generator yields, in any order, rebuild the array byte for byte |
| `FortranOrder.FortranOrderGenerator.constructor` | hecuba_core/src/SpaceFillingCurve.cpp:580-616 | grid and block sizes of an undrained generator |
| `FortranOrder.FortranOrderGenerator.GetNextPartition` | hecuba_core/src/SpaceFillingCurve.cpp:795-885 | the next block with its column-major name and bytes, or without data its name for any number of dimensions; never an exception |
| `FortranOrder.FortranOrderGenerator.CutColumnBlock` | hecuba_core/src/SpaceFillingCurve.cpp:817-882 | a block is cut as a block of the array with its dimensions exchanged |
| `FortranOrder.MergeColumns` | hecuba_core/src/SpaceFillingCurve.cpp:934-1020 | the loop merges all chunks, and fails exactly when some size is not accepted |
| `FortranOrder.MergeColumn` | hecuba_core/src/SpaceFillingCurve.cpp:944-1018 | one chunk pastes exactly its block |
| `WriterProtocol.ConservedStep` | hecuba_core/src/WriterThread.cpp:103-203 | every step keeps each accepted write in exactly one place |
| `WriterProtocol.WriterCountsStep` | hecuba_core/src/Writer.cpp:444-450 | Writer::ncallbacks always counts the writes of the writer not yet acknowledged |
| `WriterProtocol.ThreadCountsStep` | hecuba_core/src/WriterThread.cpp:190-203 | WriterThread::ncallbacks always counts what the worker, driver and callbacks hold, plus a worker about to pop |
| `WriterProtocol.SlotCountsStep` | hecuba_core/src/Semaphore.cpp:7-24 | free slots plus requests that hold one always equal writer_par |
| `WriterProtocol.SignalledStep` | hecuba_core/src/WriterThread.cpp:103-109 | the pending semaphore, the pushes not yet signalled and a woken worker account for every queued item |
| `WriterRuns.InvStep` | hecuba_core/src/WriterThread.cpp:103-215 | the whole invariant is kept by every step |
| `WriterRuns.WritesConserved` | hecuba_core/src/WriterThread.cpp:103-203 | in every state of every run each accepted write is in exactly one of: dirty, superseded, user, queue, worker, driver, callback, acknowledged, aborted; which of two writes gives way is `WriteOrder.SupersededExactly` |
| `WriterRuns.CompletedIff` | hecuba_core/src/Writer.cpp:335-349 | is_write_completed holds exactly when every write of the writer is acknowledged or superseded, retries and aborts included |
| `WriteOrder.SupersededExactly` | hecuba_core/src/Writer.cpp:366-390 | in every run a write is superseded exactly when a later lazy write of the same writer and key was issued while it waited |
| `WriteOrder.DirtyExactly` | hecuba_core/src/Writer.cpp:366-390 | in every run a write is dirty exactly when it was the last one issued of its key, lazily, and no flush has taken it |
| `WriteOrder.LastWriteAcked` | hecuba_core/src/Writer.cpp:335-349 | when a writer reports completion the last write issued of each key, lazy or eager, has been acknowledged |
| `WriteOrder.QueueKeepsOrder` | hecuba_core/src/Writer.cpp:315-390 | the writes of one key enter the queue in the order of issue, however the writer is switched between lazy and eager |
| `WriteOrder.FlushDrains` | hecuba_core/src/Writer.cpp:315-328 | when a flush has returned and nothing was issued since it began, the writer has nothing dirty |
| `WriteOrder.CoalescedRun` | hecuba_core/src/Writer.cpp:315-390 | a run in which two lazy writes of one key and a flush put only the newer one into the queue |
| `WriteOrder.LazyExactly` | hecuba_core/src/Writer.cpp:355-364 | a writer is lazy exactly after a switch to lazy writes |
| `ErrorBudget.BudgetExact` | hecuba_core/src/WriterThread.cpp:169-187 | in every run every failure is counted or waits to be, and every error beyond the budget of ten has given up one write |
| `ErrorBudget.FewFailures` | hecuba_core/src/WriterThread.cpp:169-187 | a run with at most ten failures gives up nothing |
| `ErrorBudget.SettledCost` | hecuba_core/src/WriterThread.cpp:169-187 | a run that has come to rest has given up exactly one write for each failure beyond ten |
| `WriterRuns.AbortIsFinal` | hecuba_core/src/WriterThread.cpp:169-175 | once a write has been given up its writer never reports completion again, in any run |
| `WriterRuns.AbortReachable` | hecuba_core/src/WriterThread.cpp:169-187 | a run in which any given write of any writer is given up |
| `WriterRuns.SettledCompleted` | hecuba_core/src/Writer.cpp:335-349 | at rest a writer has completed exactly when it left nothing dirty and had no write given up |
| `WriterRuns.FlightBounded` | hecuba_core/src/WriterThread.cpp:136-167 | free slots plus held slots equal writer_par, so the driver never has more requests than that |
| `WriterRuns.WakeFindsItem` | hecuba_core/src/WriterThread.cpp:205-215 | every wake-up of the worker finds an item to pop |
| `WriterRuns.OneSlotKeepsOrder` | hecuba_core/src/WriterThread.cpp:136-167 | with writer_par 1 and no failure the store has applied a prefix of the queue order |
| `WriterRuns.QuiescenceSound` | hecuba_core/src/WriterThread.cpp:80-87 | queue seen empty, then ncallbacks seen zero with no push between: nothing is queued, with the worker or in flight |
| `WriterRuns.MeasureFalls` | hecuba_core/src/WriterThread.cpp:111-215 | every step that is no user call strictly decreases the measure of item stages and error budget |
| `WriterRuns.RunBounded` | hecuba_core/src/WriterThread.cpp:111-215 | a run without user calls is no longer than the measure: no endless retries |
| `WriterRuns.Progress` | hecuba_core/src/WriterThread.cpp:190-215 | unless everything is at rest some step other than a failure is possible |
| `WriterRuns.MaximalRun` | hecuba_core/src/WriterThread.cpp:80-215 | every maximal run, whatever failed on the way, ends at rest, each writer completed exactly when it left nothing dirty and had no write given up |
| `WriterRuns.MaximalCleanRun` | hecuba_core/src/WriterThread.cpp:80-215 | a maximal failure-free run ends with empty queues, all counters zero and every write acknowledged, apart from those left or replaced in dirty_blocks |
| `LazyWriter.WriteDirty` | hecuba_core/src/Writer.cpp:368-382 | a lazy write keeps the queue coalesced: per key a subsequence of what was issued, the last value dirty |
| `LazyWriter.FlushOne` | hecuba_core/src/Writer.cpp:319-325 | queueing one dirty block keeps the queue coalesced |
| `LazyWriter.SameTable` | hecuba_core/src/Writer.cpp:366-390 | with nothing dirty, applying the queue in order gives the table of the eager writes |
| `LazyWriter.DirtyOverQueue` | hecuba_core/src/Writer.cpp:366-390 | at any time the queue overridden by the dirty blocks stands for every issued write |
| `LazyWriter.Writer.constructor` | hecuba_core/src/Writer.cpp:355-390 | an eager writer with nothing issued |
| `LazyWriter.Writer.QueueAsyncQuery` | hecuba_core/src/Writer.cpp:444-450 | one request at the end of the queue, counted once, with a timestamp newer than every one before it whatever the clock shows |
| `LazyWriter.Writer.FinishAsyncCall` | hecuba_core/src/Writer.cpp:312-314 | acknowledging one queued request keeps the counter equal to the requests not acknowledged, never below 0 |
| `LazyWriter.Writer.IsWriteCompleted` | hecuba_core/src/Writer.cpp:335-337 | true exactly when every queued request was acknowledged and nothing is dirty; the queue then stands for every issued write |
| `LazyWriter.AnyOrder` | hecuba_core/src/Writer.cpp:444-450 | stamped requests applied in any order and any number of times, as long as the last one of every key is: over older rows a reader sees the table of the queue |
| `LazyWriter.Writer.StoreHoldsIssued` | hecuba_core/src/Writer.cpp:366-450 | with nothing dirty, any such order of the coalesced queue leaves in the store the table of every issued write |
| `LazyWriter.Writer.FlushDirtyBlocks` | hecuba_core/src/Writer.cpp:315-328 | queues every dirty block once, in any order, and leaves none dirty |
| `LazyWriter.Writer.WriteToCassandra` | hecuba_core/src/Writer.cpp:366-390 | eager: queued; lazy: dirty, or everything flushed past the threshold; the queue stays coalesced |
| `LazyWriter.Writer.EnableLazyWrite` | hecuba_core/src/Writer.cpp:355-357 | later writes are lazy |
| `LazyWriter.Writer.DisableLazyWrite` | hecuba_core/src/Writer.cpp:359-364 | nothing dirty, later writes eager |
| `LazyWriter.Writer.FlushElements` | hecuba_core/src/Writer.cpp:342 | the flush before the wait: afterwards the queue gives the same table as eager writing, over any starting table |
| `KVCache.LruExact` | hecuba_core/src/KVCache.h:37-73 | after any history of get and add the keys are the most recently touched distinct ones in recency order, at most the maximum, each with its last added value; touches are counted without looking at the cache |
| `KVCache.Cache.constructor` | hecuba_core/src/KVCache.h:20-22 | an empty cache of any capacity |
| `KVCache.Cache.Get` | hecuba_core/src/KVCache.h:37-48 | a hit returns the value and moves its node to the front; a miss changes nothing; list and map stay in step |
| `KVCache.Cache.MoveToFront` | hecuba_core/src/KVCache.h:43-44 | the splice moves one node to the front and keeps the order of the others |
| `KVCache.Cache.AddEntry` | hecuba_core/src/KVCache.h:53-73 | add replaces and moves to the front, or evicts the last entry and pushes in front |
| `KVCache.Cache.EvictLast` | hecuba_core/src/KVCache.h:58-64 | the last entry leaves list and map |
| `KVCache.Cache.PushFront` | hecuba_core/src/KVCache.h:66-67 | a new entry in front, indexed by its key |
| `KVCache.Cache.RemoveEntry` | hecuba_core/src/KVCache.h:75-81 | remove drops the entry of the key and nothing else |
| `KVCache.Cache.Clear` | hecuba_core/src/KVCache.h:83-87 | an empty cache |
| `Timestamps.TimestampGenerator.Next` | hecuba_core/src/TimestampGenerator.cpp:6-20 | timestamps are strictly increasing whatever the clock does: the clock when it is ahead of the last one, else the next number |
| `CacheTable.SysInvStep` | hecuba_core/src/CacheTable.cpp:182-185 | every event keeps the invariant of caches, timestamps, store and protocol |
| `CacheTable.ReadCorrect` | hecuba_core/src/CacheTable.cpp:460-474 | once the writer has completed, a query returns the plain map's value |
| `CacheTable.HitCorrect` | hecuba_core/src/CacheTable.cpp:520-531 | a cache hit returns the plain map's value |
| `CacheTable.LogicalIsPlain` | hecuba_core/src/CacheTable.cpp:182-185 | the logical content is the plain map that the puts and deletes issued make of the rows stored at the start |
| `CacheTable.GetsAreCurrent` | hecuba_core/src/CacheTable.cpp:520-577 | over any stored rows older than the first timestamp of their table, in every run, any cache size, any order of applies, callbacks, retries and late deliveries: each get_crow that returns gives what a sequential map would |
| `CacheTable.CacheIsLru` | hecuba_core/src/CacheTable.cpp:182-185 | in every run without deletes the cache of a table is the LRU cache after its puts, hits and reads, whose contents `KVCache.LruExact` gives |
| `CacheTable.GetAnswers` | hecuba_core/src/CacheTable.cpp:520-531 | an idle table takes a delete of any key; a get is answered from the cache exactly when the key is there, and asks the store otherwise |
| `CacheTable.CallGoesOn` | hecuba_core/src/CacheTable.cpp:460-577 | a call under way can go on unless it waits for the writes of its table |
| `LostPuts.PutIt` | hecuba_core/src/CacheTable.cpp:182-186 | a put_crow from the call to its acknowledgement and the cache, as one run: what the store, the clock, the plain map and the cache are after it |
| `LostPuts.LosingRun` | hecuba_core/src/TimestampGenerator.cpp:6-20 | over any stored row that is not older than the first timestamp of its table, with a cache of any size or none, some run puts a value, sees it acknowledged and reads the old row |
| `LostPuts.CurrentExactly` | hecuba_core/src/TimestampGenerator.cpp:6-20 | every run of a table returns what a sequential map would exactly when every stored row is older than the first timestamp of its table |
| `Views.ViewComposer` | hecuba_py/hecuba/hnumpy.py:475-500 | the loops compute the dimension-by-dimension composition, or its error |
| `Views.SkipInts` | hecuba_py/hecuba/hnumpy.py:492-493 | the inner loop finds the next dimension that is no int, or runs off the end, where the code reads out of range |
| `Views.ComposeOutcome` | hecuba_py/hecuba/hnumpy.py:485-532 | any new indices on any view: not implemented exactly when one that meets a slice is refused, an IndexError exactly when indices are left over and the last dimension is an int, a view otherwise |
| `Views.LeftOverIgnored` | hecuba_py/hecuba/hnumpy.py:490-497 | indices left over without an error change nothing |
| `Views.LeftOverExamples` | hecuba_py/hecuba/hnumpy.py:490-497 | x[1, 3] of a one-dimensional array composes to x[1], and x[1][3] is an IndexError |
| `Slices.SliceOfSlice` | hecuba_py/hecuba/hnumpy.py:515-528 | a slice of a slice is the composed slice, position by position |
| `Slices.ComposeDimMeaning` | hecuba_py/hecuba/hnumpy.py:502-532 | one dimension, every int in range and every forward slice: the composed entry is an entry again and selects what indexing the old selection selects exactly when the index is composable |
| `Slices.SliceExact` | hecuba_py/hecuba/hnumpy.py:515-528 | every forward slice of every slice: the composed slice selects what numpy selects exactly when its start lands on the first selected element, or it is empty and nothing is selected |
| `Slices.FrontStartRight` | hecuba_py/hecuba/hnumpy.py:515-528 | a start counted from the front and a stop that leaves something are composable under every old slice, aligned or not |
| `Slices.NegativeStartExact` | hecuba_py/hecuba/hnumpy.py:468-472 | a negative start in range: right exactly under an aligned slice, or when the stop leaves nothing of it |
| `Slices.LongStepExact` | hecuba_py/hecuba/hnumpy.py:468-472 | the same under a step longer than the array: right exactly when numpy brings the composed start back to the only element |
| `Slices.FarStartExact` | hecuba_py/hecuba/hnumpy.py:468-472 | a start before the front of the old slice: right exactly when what numpy makes of the composed start is the front |
| `Slices.FarStopExact` | hecuba_py/hecuba/hnumpy.py:521-528 | a stop at or before the front of the old slice, any start: right exactly when the composed bounds are empty as numpy reads them, which under a start from the front is when the composed stop is not negative or comes back no further than the start |
| `Slices.EmptyAxisExact` | hecuba_py/hecuba/hnumpy.py:468-472 | a negative start on an axis that shows nothing: right exactly when the composed start falls before the array, no further from the old stop than the length |
| `Slices.WholeAxisFar` | hecuba_py/hecuba/hnumpy.py:456-472 | on a whole axis a start or stop before the front is right exactly from twice the length before the end on |
| `Slices.NegativeStartWrong` | hecuba_py/hecuba/hnumpy.py:468-472 | x[0:5:2][-1:] shows element 3 instead of 4 |
| `Slices.FarStartWrong` | hecuba_py/hecuba/hnumpy.py:468-472 | x[-7:3] of five elements shows nothing instead of three |
| `Slices.FarStopWrong` | hecuba_py/hecuba/hnumpy.py:521-528 | x[:-7] of five elements shows three instead of nothing |
| `Views.ComposeMeaning` | hecuba_py/hecuba/hnumpy.py:475-500 | a view of a view is the view of the composed index, for any shape and view |
| `Views.FitsExactly` | hecuba_py/hecuba/hnumpy.py:475-532 | those indices are exactly the ones whose composed index is a view again that selects what numpy selects, in all dimensions together |
| `Views.ChainMeaning` | hecuba_py/hecuba/hnumpy.py:542-557 | for any chain of views the composed view selects the same base elements, in the same order, as applying them one by one |
| `Slices.ZeroStopExact` | hecuba_py/hecuba/hnumpy.py:413-416 | with an explicit stop of 0, any start: right exactly when the start is at or past the end, or a negative start falls before the array by no more than its length |
| `Slices.ZeroStopWrong` | hecuba_py/hecuba/hnumpy.py:413-416 | x[0:0] of five elements shows all five |
| `Slices.ZeroStep` | hecuba_py/hecuba/hnumpy.py:408-411 | a step of 0, which numpy refuses, composes as a missing step |
| `Slices.NegativeIntExact` | hecuba_py/hecuba/hnumpy.py:468-472 | a negative int is right exactly when the old span is a whole number of steps |
| `Slices.NegativeIntWrong` | hecuba_py/hecuba/hnumpy.py:468-472 | x[0:5:2][-1] shows element 3 instead of 4 |
| `Views.BlockRanges` | hecuba_py/hecuba/hnumpy.py:419-446 | one range of block coordinates per dimension, or an IndexError exactly when some bound is out of range |
| `Views.SpanCovers` | hecuba_py/hecuba/hnumpy.py:428-440 | the range of a dimension contains the block of every selected element |
| `Views.BoundsCheckExact` | hecuba_py/hecuba/hnumpy.py:430-433 | an int that passes the bounds check names a block of the array unless it equals an extent that is a multiple of the block side |
| `BlockSets.RangesCover` | hecuba_py/hecuba/hnumpy.py:448-454 | the blocks of a view hold the block of every selected cell, and are all blocks of the array |
| `BlockSets.FitsBlocks` | hecuba_py/hecuba/hnumpy.py:755-766 | indices that fit touch only blocks of the array, and every block they need |
| `BlockSets.SelectedCells` | hecuba_py/hecuba/hnumpy.py:929 | numpy selects cells of the array only |
| `BlockSets.SelectedOrder` | hecuba_py/hecuba/hnumpy.py:929 | numpy selects exactly the cells whose positions lie on the selected axes, each once, in row-major order |
| `BlockSets.WithinCount` | hecuba_py/hecuba/hnumpy.py:50-63 | there are as many coordinates within ranges as the product of their lengths |
| `BlockSets.AllBlocksLoaded` | hecuba_py/hecuba/hnumpy.py:785-789 | a set of blocks of the array has as many members as the array has blocks exactly when it is all of them |
| `BlockSets.FlagExact` | hecuba_py/hecuba/hnumpy.py:785-789 | when the count sets the flag, everything is loaded exactly when every loaded coordinate is a block of the array |
| `IndexBlocks.DimSpan` | hecuba_py/hecuba/hnumpy.py:419-446 | one index on a whole dimension: composer and bounds check let it through exactly when it is an int from -n to n or a slice that does not step back and whose stop is not before the front, and then its first and last block |
| `IndexBlocks.BlocksForExact` | hecuba_py/hecuba/hnumpy.py:755-766 | any expression: it names blocks exactly when every index that meets a dimension passes, and they are the product of the spans |
| `IndexBlocks.RealBlocksExact` | hecuba_py/hecuba/hnumpy.py:419-446 | an expression that passes names only blocks of the array exactly when it names none, or no int equals an extent that the block side divides and no slice starts before the front |
| `LazyArray.WriteThrough` | hecuba_py/hecuba/hnumpy.py:936-950 | writing cells of current blocks keeps loaded blocks current, and storing those blocks brings the table up to date |
| `LazyArray.AssignWrites` | hecuba_py/hecuba/hnumpy.py:943 | an assignment gives every cell its own value and changes no other cell |
| `LazyArray.SetThenGet` | hecuba_py/hecuba/hnumpy.py:907-953 | x[idx] = values, then x[other]: element by element what was assigned, and what was there elsewhere; x[idx] gives back the values |
| `LazyArray.SetThenReopen` | hecuba_py/hecuba/hnumpy.py:907-953 | the same when another object over the table is read |
| `PhantomRuns.PhantomSliceRun` | hecuba_py/hecuba/hnumpy.py:785-789 | reading x[-10:3] of eight elements in blocks of four returns the right three elements and sets the full-load flag with block 1 missing; x[4] then shows what memory held before |
| `PhantomRuns.PhantomRun` | hecuba_py/hecuba/hnumpy.py:785-789 | reading x[0] and x[8] of eight elements in blocks of four sets the full-load flag with block 1 missing; x[4] then shows what memory held before |
| `LazyArray.StorageNumpy.constructor` | hecuba_py/hecuba/hnumpy.py:740-752 | nothing loaded, the table is the array |
| `LazyArray.StorageNumpy.CalculateNBlocks` | hecuba_py/hecuba/hnumpy.py:50-63 | the product of the block ranges of a view, or an IndexError exactly when some bound is out of range |
| `LazyArray.StorageNumpy.LoadBlocks` | hecuba_py/hecuba/hnumpy.py:769-799 | any coordinates become loaded and what exists of them current; the flag is the count of coordinates; the object stays sound exactly with blocks of the array only, and then the flag means every block is loaded |
| `LazyArray.StorageNumpy.EnsureLoaded` | hecuba_py/hecuba/hnumpy.py:939-940 | nothing is read once everything counts as loaded |
| `LazyArray.StorageNumpy.ReadMemory` | hecuba_py/hecuba/hnumpy.py:929 | numpy's own indexing of the memory, in row-major order, with its IndexError |
| `LazyArray.StorageNumpy.SelectBlocks` | hecuba_py/hecuba/hnumpy.py:755-766 | the blocks of the composed view, or the error of composing or of its bounds |
| `LazyArray.StorageNumpy.GetItem` | hecuba_py/hecuba/hnumpy.py:907-929 | any ints and forward slices: exactly what is loaded, and when an error is raised; a sound object stays sound exactly when the flag was set, an index was refused, or the expression names only blocks that exist; while the flag tells the truth and the indices fit, every element returned is the current one; the elements come in row-major order of their cells |
| `LazyArray.StorageNumpy.SetItem` | hecuba_py/hecuba/hnumpy.py:931-953 | any ints and forward slices: when an error is raised, with nothing written; only blocks that exist are recorded exactly when the flag was set or the expression names no other; while the flag tells the truth and the indices fit, every selected cell of the plain array gets its own value, no other changes, and table and loaded blocks follow |
| `TokenRanges.DiscreteTokenRanges` | hecuba_py/hecuba/tools.py:138-157 | any list of tokens, unsorted and with repeats, gives ranges that hold every token of the ring exactly once; the empty list gives none |
| `TokenRanges.RingExact` | hecuba_py/hecuba/tools.py:149-157 | the ranges between sorted tokens hold every token from the least up to the greatest exactly once |
| `TokenRanges.PiecesExact` | hecuba_py/hecuba/tools.py:122-126 | the pieces of a range are no wider than the step and hold its tokens, each once |
| `TokenRanges.PieceAt` | hecuba_py/hecuba/tools.py:122-126 | the pieces one by one: full steps from the start of the range, and what is left at its end |
| `TokenRanges.CutRange` | hecuba_py/hecuba/tools.py:122-126 | the while loop cuts one range into its pieces |
| `TokenRanges.CutRanges` | hecuba_py/hecuba/tools.py:120-126 | the loop cuts every range of a node into its pieces |
| `TokenRanges.ChunksFlat` | hecuba_py/hecuba/tools.py:127-129 | the groups of a node are its pieces, none lost or repeated |
| `TokenRanges.ChunkAt` | hecuba_py/hecuba/tools.py:127-129 | the groups one by one: consecutive pieces in order, all groups but the last of the full size |
| `TokenRanges.FewGroups` | hecuba_py/hecuba/tools.py:127-129 | a node yields at most 2 * splits_per_node - 1 groups, at least splits_per_node when it has that many pieces, and one a piece when it has no more |
| `TokenRanges.FewGroupsTight` | hecuba_py/hecuba/tools.py:127-129 | that bound is met |
| `TokenRanges.Regroup` | hecuba_py/hecuba/tools.py:127-129 | the yield loop makes those groups |
| `TokenRanges.AssignToNodes` | hecuba_py/hecuba/tools.py:97-103 | every range goes to the node of its first token, nodes in order of first use |
| `TokenRanges.OwnerExact` | hecuba_py/hecuba/tools.py:98-103 | the node of a token is the host of the next ring token after it, or of the first one when none follows |
| `TokenRanges.NodesInOrder` | hecuba_py/hecuba/tools.py:97-103 | the nodes come in the order of their first ranges |
| `TokenRanges.OfNodeInOrder` | hecuba_py/hecuba/tools.py:97-103 | the ranges of a node keep their order |
| `TokenRanges.GroupsConserve` | hecuba_py/hecuba/tools.py:97-129 | subdividing and grouping any list of ranges neither loses nor repeats a token |
| `TokenRanges.LinkOwner` | hecuba_py/hecuba/tools.py:97-103 | every token of a ring range belongs to the node of the start of the range |
| `TokenRanges.RingSplit` | hecuba_py/hecuba/tools.py:97-129 | splitting a whole ring: every token in exactly one piece, each piece on the node that owns its tokens, few groups per node, none empty |
| `TokenRanges.TokensPartitions` | hecuba_py/hecuba/tools.py:97-129 | yields exactly those groups, with the configured range size as the step, or else the widest step that cuts the ring into enough parts for the splits and the estimated size; no piece is wider than the step and only the last of a range is narrower; ZeroDivisionError exactly for no ranges, IndexError exactly for a ring without tokens |
| `TokenRanges.InsertedSorted` | hecuba_core/src/StorageInterface.cpp:240-255 | inserting a token keeps the list sorted, adds it and loses none |
| `TokenRanges.StorageInterface.InsertToken` | hecuba_core/src/StorageInterface.cpp:240-255 | the loop inserts before the first greater token |
| `TokenRanges.StorageInterface.GenerateTokenRanges` | hecuba_core/src/StorageInterface.cpp:286-303 | appends the ranges between the tokens but the last, closed by the limits of the ring |
| `TokenRanges.PushRanges` | hecuba_core/src/StorageInterface.cpp:290-302 | the loop that pushes those ranges |
| `TokenRanges.ClusterExact` | hecuba_core/src/StorageInterface.cpp:286-303 | for three or more sorted tokens those ranges hold every token of the ring exactly once |
| `TokenRanges.ClusterUncrossed` | hecuba_core/src/StorageInterface.cpp:286-303 | no such range crosses a token other than the greatest |
| `Prefetch.InvStep` | hecuba_core/src/Prefetch.cpp:96-191 | every step of producer and consumer keeps: returned plus queued is what was pushed, a prefix of all rows |
| `Prefetch.DeliveredInOrder` | hecuba_core/src/Prefetch.cpp:96-191 | in every interleaving the rows returned are a prefix of the rows of all ranges; NULL comes only after every row of the ranges finished, which are all ranges exactly when no range had more than ten failed queries; without a failed query every row is returned |
| `Prefetch.GivesUpExactly` | hecuba_core/src/Prefetch.cpp:130-165 | the producer gives up exactly when more than ten queries of one range have failed |
| `Prefetch.GiveUpRun` | hecuba_core/src/Prefetch.cpp:130-165 | a run of eleven failed queries of the first range in which it gives up |
| `Prefetch.NullIsFinal` | hecuba_core/src/Prefetch.cpp:96-107 | after NULL no call returns a row |
| `Prefetch.MeasureFalls` | hecuba_core/src/Prefetch.cpp:96-191 | every step but the start of a call brings the end nearer |
| `Prefetch.CallsEnd` | hecuba_core/src/Prefetch.cpp:96-107 | a run without new calls is bounded: no call retries for ever |
| `Prefetch.StuckExactly` | hecuba_core/src/Prefetch.cpp:96-107 | a call is stuck exactly when its pop began on an empty queue after the final abort, and then it had read completed before it was set |
| `Prefetch.LostNeverThrew` | hecuba_core/src/Prefetch.cpp:96-107 | a call whose pop was woken by the abort is never lost |
| `Prefetch.LostWakeup` | hecuba_core/src/Prefetch.cpp:96-107 | for every result of the ranges, a run that delivers every row and then loses a call that way |

## Left out

- The block side `row_elements` is a parameter: any r >= 1 with r^ndims * elem_size <= BLOCK_SIZE; the floating-point root that computes it is not modelled.
- Integers are unbounded where the source uses 64-bit values for positions in memory; Morton codes are kept within the 31 bits that the shift on an `int` allows, and `cluster_id << CLUSTER_SIZE` is taken modulo 2^32.
- The 8-byte size in front of a payload is a field of `Chunk` instead of bytes of the buffer; allocation and freeing of buffers are not modelled.
- FortranOrder.ColumnRankIsRank: one and two dimensions; with three or more the code exchanges only the last two, which is not the column-major layout.
- FortranOrder.ColumnSplitMergeIdentity: one and two dimensions, for the same reason; so are `ColumnDrainRebuilds`, `CutColumnBlock`, `MergeColumns`, `MergeColumn` and the generator when it has data.
- FortranOrder.FortranOrderGenerator.GetNextPartition: the cluster counter, `isDone` and the filtered variant of that generator are left out.
- `SpaceFillingGenerator` (a single copy), `getNextPartitionIdxs` and the cluster ids of the filtered generator.
- `read_numpy_from_cas`, which expects columns its query does not select; the reader by coordinates is modelled.
- Arrow files, columnar access, `_load_blocks(None)`, numpy-array indices and views of a `StorageNumpy` other than the whole array.
- LazyArray.StorageNumpy.GetItem: ints and forward slices; negative steps, which only an array that counts as fully loaded accepts, are left out.  Currency of what is returned is promised for indices that fit, while the flag tells the truth: the code breaks it outside (`Slices.SliceExact`, `PhantomRuns.PhantomSliceRun`).  Coordinates of blocks that do not exist are recorded, and otherwise skipped; in the code a load that finds no row at all, such as that of `x[8]` of eight elements, raises its own error before numpy does, with the coordinates already recorded.
- LazyArray.StorageNumpy.SetItem: takes the values cell by cell as numpy broadcasts them, and covers the same indices as GetItem; the block store acts as a map.  Storing a block that does not exist, as in `x[-10:3] = v`, changes nothing and reports Done, where the code cuts a block outside the buffer.
- Views.ComposeMeaning: asks for indices that fit, that is, each composable and no more of them than slices are left.  Composable is exactly where the code is right and gives an entry again (`Slices.ComposeDimMeaning`, `Views.FitsExactly`); too many indices are `Views.ComposeOutcome`.
- Entries of a view with a negative start or a stop below 1: composing onto them again is not modelled.
- The list order of `get_cluster_ids`, which is that of a set.
- Shutdown of the writer thread and destruction of writers; the semaphores are counters of the step relation, and condition variables are not modelled.
- WriterRuns.Progress: lets callbacks run on as many threads as they need; that a driver thread blocked in a retry starves others is not modelled.
- WriterRuns.QuiescenceSound: a callback may still have to tell its Writer after the thread's counter reached zero, as in the code.
- LazyWriter.Writer.StoreHoldsIssued: with timestamps disabled the driver orders the writes, which is left out.
- TimestampGenerator::next is one atomic step, although the code reads `last` once more after unlocking.
- CacheTable.GetsAreCurrent: over stored rows that are older than the timestamps; what happens otherwise is `LostPuts.CurrentExactly`.  It covers eager, timestamped writes with whole keys of fixed width; lazy mode, partial writes, failed deletes and failed reads are left out, as is the liveness of the waiting loop.
- Streams (`send_event`, `poll`, `add_to_cache`), Kafka, `TupleRow` and `TupleRowFactory`, hash collisions of dirty blocks.
- KVCache.LruExact: histories of get and add; remove is covered by `Cache.RemoveEntry` alone.
- KVCache.Cache.AddEntry: needs a capacity of at least 1, because the code reads the last entry of an empty list otherwise.
- TokenRanges.TokensPartitions: needs a step of at least 1; with a configured step below 1 the loop of the code does not end on a range wider than the step; the ratio of estimated to target size is a parameter.
- TokenRanges.PushRanges: three or more tokens, as in GenerateTokenRanges.
- TokenRanges.StorageInterface.GenerateTokenRanges: rings of one or two tokens are left out, because the code then reads an uninitialised token.
- Host lookup by token in C++ (`get_host_per_token`).
- Prefetch.DeliveredInOrder: one consumer, no destruction of the iterator while rows are being fetched.
- The Cassandra driver, CQL, schema creation, `StorageObj`, `StorageDict`, `hfilter.py`, `qbeast.py`, the Java interface and the Python C API.
