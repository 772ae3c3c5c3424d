# Verified models of Walrus

A Dafny model of the parts of Walrus where the logic is most intricate, with proofs about every input
or every run. Each module follows one component.

| file | component |
|---|---|
| `Merkle.dfy`, `MerkleBytes.dfy`, `MerkleBinding.dfy` | the Merkle tree in a flat vector, its proofs, the bytes it hashes, and what a root commits to |
| `BlobMetadata.dfy` | blob metadata, its root hash and the blob ID |
| `TaskBuffer.dfy`, `SorterRuns.dfy`, `SorterGuarantees.dfy`, `SorterFetches.dfy`, `SorterProgress.dfy` | the indexer's async task sorter: its buffer, all interleavings of its steps, its guarantees, what it fetches and loads, and when it can still deliver everything |
| `DownloadCoordinator.dfy`, `DownloaderRuns.dfy`, `DownloaderFilling.dfy`, `DownloaderProgress.dfy` | the parallel checkpoint downloader: its reorder loop, the protocol of coordinator, workers and pool monitor, how full it keeps its channels, and when it gets stuck |
| `KeyCodecs.dfy`, `ColumnFamily.dfy`, `IndexStore.dfy` | the index keys and their scan bounds, an ordered column family, the primary and object index |
| `RangeBounds.dfy` | key ranges as iterator bounds |
| `Bft.dfy`, `Committees.dfy` | thresholds and quorums, the committee tracker |
| `ConfigOverlay.dfy` | the network defaults laid under a client configuration |
| `Quilt.dfy` | patch layout and patch IDs of a quilt |
| `ByteStrings.dfy` | byte order and fixed-width integers, shared by the others |

`dafny verify dfyconfig.toml` checks everything.

## How to read it

Code that updates variables or fields is a method or a class here, and each such method is proved against
a function of its inputs or of the old state. The properties are lemmas about those functions. Concurrent
components are step relations: a run is a list of steps each of which was enabled, so a lemma about runs
covers every interleaving.

The hash function is a parameter of the Merkle and blob ID modules. Security statements have the form
"the property holds, or this lemma returns two different hashed inputs with the same hash", and the inputs
returned are among those that tree, proof or metadata really hash. UTF-8 validity, the parsing of object
IDs and the built-in configurations are parameters as well.

Some expected properties do not hold of the code as it is. For each there is a lemma with a failing case
and one with the exact condition under which it does hold:

- The sorter can lose tasks: an overflow drops tasks while a fetch with older bounds is in flight, and the
  fetch then comes back empty (`DroppedTaskIsLost`, `CompleteUnlessDroppedInFlight`). Every configuration
  with room for catching up and non-empty drop batches has such runs (`LossExactly`).
- The downloader's coordinator can wait forever with nothing in flight, behind a message channel full of
  shutdowns. This can happen exactly in configurations whose pool can change size (`ScalingPoolStarves`,
  `StarvationExactly`), and it is the only way to get stuck (`DeliverableUnlessStarved`). In the
  run constructed, idle workers leave all messages alone while the monitor completes
  `2 * max_workers * buffer_factor` rounds of scaling down and up; workers that keep the queued shutdowns below the channel size prevent it
  (`PromptWorkersPreventStarvation`).
- A lookup by identifier also returns blobs whose identifier continues the queried one after a slash, unless
  enough entries of the queried one lie above them to use up the limit (`LookupReturnsOtherIdentifier`,
  `LookupExactly`).
- Reusing a primary index key can strand the object that points to it (`ReusedKeyStrandsObject`,
  `ConsistentExactly`).
- An excluded lower bound of 0xFF bytes is not excluded (`ExcludedLargestKeyIsYielded`,
  `ScanIsRangeExactly`).
- Quorums of `2f + 1` shards intersect in a correct shard only if `n == 3f + 1`
  (`DisjointQuorums`, `QuorumsIntersectExactly`).
- Verified metadata with one blob ID can differ in whether a sliver hash is `Empty` or all zero
  (`BlobIdConfusesEmptyWithZero`), exactly when it has a hash of those bytes (`DeterminedUnlessZeroPair`,
  `BlobIdDeterminesMetadata`).

Merkle proofs read out of a tree are accepted for every tree that fits in memory. `Completeness` states this
for at most 2^63 leaves, and also what the word-sized shift would do beyond that.

Where comments and code disagree, the model follows the code: setting a next committee with a different
shard assignment is an error and not a panic, and the saturating increment leaves the largest value
unchanged, not the smallest.

## Model

| member | source | states |
|---|---|---|
| `Merkle.NNodes` | crates/walrus-core/src/merkle.rs:334-343 | the capacity loop returns the length of the flat vector of every tree with that many leaves |
| `Merkle.FlatLength` | crates/walrus-core/src/merkle.rs:234-259 | the flat vector of any leaf list has `NodeCount` entries |
| `Merkle.LevelsFillVector` | crates/walrus-core/src/merkle.rs:287-304 | level offsets are cumulative: each level ends where the next begins, the last one ends the vector |
| `Merkle.FlatLayout` | crates/walrus-core/src/merkle.rs:234-259 | every node of the recursive reference tree, padding included, sits at its level's offset plus its index |
| `Merkle.RootIsReference` | crates/walrus-core/src/merkle.rs:274-276 | the last entry is the root of the reference tree |
| `Merkle.PathLengthIsHeight` | crates/walrus-core/src/merkle.rs:346-351 | the closed form `ilog2(n-1)+1` counts the iterations of the round-up-and-halve loop |
| `Merkle.PathLengthIsLeast` | crates/walrus-core/src/merkle.rs:346-351 | it is the least exponent of a power of two covering all leaves |
| `Merkle.PushParents` | crates/walrus-core/src/merkle.rs:251-256 | the inner loop appends exactly the pair hashes of the current level |
| `Merkle.BuildFromLeafHashes` | crates/walrus-core/src/merkle.rs:226-266 | the building loops produce the flat layout of the leaves, and record the leaf count |
| `Merkle.TreeRoot` | crates/walrus-core/src/merkle.rs:274-276 | `root` of the built tree is the reference root, `Empty` for no leaves |
| `Merkle.ReadSibling` | crates/walrus-core/src/merkle.rs:291-304 | one iteration reads the sibling and moves base, index and size to the next level |
| `Merkle.GetProof` | crates/walrus-core/src/merkle.rs:281-309 | reads exactly the siblings of the leaf's ancestors, `path_length` many; an index out of range is an error |
| `Merkle.ProofPathIsReference` | crates/walrus-core/src/merkle.rs:287-304 | entry `j` of a proof is the reference tree's sibling on level `j` |
| `Merkle.ProofPathLength` | crates/walrus-core/src/merkle.rs:346-351 | every proof has length `path_length(n)` |
| `Merkle.ComputeRoot` | crates/walrus-core/src/merkle.rs:150-169 | the loop folds the path, and refuses an index whose shifted value is not zero, the shift distance taken modulo the word width |
| `Merkle.VerifyProof` | crates/walrus-core/src/merkle.rs:80-93 | errors in order: path length, index, root mismatch; otherwise accepted |
| `MerkleBytes.VerdictExactly` | crates/walrus-core/src/merkle.rs:80-93 | accepted if and only if the path is at most `path_length` long, the index fits it, and its fold is the root; a longer path is `PathLengthTooLarge`, and the other errors likewise |
| `Merkle.FoldProofPath` | crates/walrus-core/src/merkle.rs:150-169 | folding the proof of any entry of any level gives the root above it |
| `Merkle.Completeness` | crates/walrus-core/src/merkle.rs:150-177 | a proof read out of a tree is accepted for its own leaf if and only if there are at most 2^63 leaves or the index is 0 |
| `MerkleBytes.LeafBytes` | crates/walrus-core/src/merkle.rs:313-321 | entry `i` of the vector is the hash of a 0 byte and leaf `i` |
| `MerkleBytes.InnerBytes` | crates/walrus-core/src/merkle.rs:323-332 | every node above the leaves is the hash of a 1 byte, its left child's bytes and its right child's bytes, the children adjacent on the level below |
| `MerkleBytes.PaddingBytes` | crates/walrus-core/src/merkle.rs:236-249 | a stored node without a leaf below it is `Empty`, 32 zero bytes |
| `MerkleBytes.SmallRoots` | crates/walrus-core/src/merkle.rs:226-276 | the roots of no, one and two leaves, written out |
| `MerkleBytes.FoldBytes` | crates/walrus-core/src/merkle.rs:150-169 | one folding step hashes a 1 byte, then the current node and the sibling, the current one first if and only if its index is even |
| `MerkleBinding.ProofSoundness` | crates/walrus-core/src/merkle.rs:80-93 | any accepted path, of any length and for any claimed leaf count, is for the leaf at that index, or a collision or a preimage of 32 zero bytes is extracted from tree and proof |
| `MerkleBinding.FoldIsHashOfInput` | crates/walrus-core/src/merkle.rs:313-332 | the fold of any path is the hash of the prefixed leaf or of the last prefixed pair of children |
| `MerkleBinding.RootBinding` | crates/walrus-core/src/merkle.rs:226-276 | two leaf lists with the same root bytes are equal, or a break is extracted; a collision when they are equally long |
| `Metadata.ComputeRootHash` | crates/walrus-core/src/metadata.rs:571-578 | the sliver pair root is the Merkle root of primary and secondary hash bytes, pair by pair |
| `Metadata.VerifyExactly` | crates/walrus-core/src/metadata.rs:423-452 | accepted if and only if the hash count is the shard count, the length is at most the maximum of the encoding type, and the blob ID is that of the metadata; each error exactly when its check is the first to fail |
| `Metadata.MetadataLeaf` | crates/walrus-core/src/metadata.rs:571-578 | leaf `i` under the root hash is a 0 byte, the primary and then the secondary hash of pair `i` |
| `Metadata.BlobIdBytes` | crates/walrus-core/src/lib.rs:158-175 | a blob ID is the hash of 41 bytes: encoding type, length low byte first, root |
| `Metadata.BlobIdBinding` | crates/walrus-core/src/metadata.rs:423-452 | two metadata values that verify under one configuration with one blob ID agree on encoding type, length and all sliver hash bytes, or a collision among the hashed inputs is extracted |
| `Metadata.BlobIdIsOfContent` | crates/walrus-core/src/lib.rs:136-176 | converse: metadata of equal content has equal blob IDs |
| `Metadata.DeterminedUnlessZeroPair` | crates/walrus-core/src/metadata.rs:423-452 | verified metadata is the only value of its content and blob ID if and only if none of its sliver hashes has the bytes of `Empty` |
| `Metadata.BlobIdDeterminesMetadata` | crates/walrus-core/src/metadata.rs:423-452 | metadata without such hashes equals all that verifies with its blob ID, or a collision is extracted |
| `Metadata.BlobIdConfusesEmptyWithZero` | crates/walrus-core/src/metadata.rs:638-643 | agreement on the nodes themselves is false: two different metadata values verify under one configuration with one blob ID |
| `TaskBuffer.TaskBuffer.constructor` | crates/walrus-indexer/src/async_task_sorter.rs:196-231 | an empty buffer, catching up, without a watermark |
| `TaskBuffer.TaskBuffer.DropTasks` | crates/walrus-indexer/src/async_task_sorter.rs:96-114 | dropping in a loop equals moving the longest possible prefix at once, with its watermark and state change |
| `TaskBuffer.TaskBuffer.AddLoadedTasks` | crates/walrus-indexer/src/async_task_sorter.rs:118-192 | loading skips what is queued, stops before the latest queue, and sets watermark and state accordingly |
| `TaskBuffer.TaskBuffer.PushToLatest` | crates/walrus-indexer/src/async_task_sorter.rs:234-254 | a task not above the last one is ignored; a full queue overflows first |
| `TaskBuffer.TaskBuffer.PullOnce` | crates/walrus-indexer/src/async_task_sorter.rs:259-311 | catchup queue first, then the latest queue when up to date; when a fetch is asked for |
| `TaskBuffer.DropOneMore` | crates/walrus-indexer/src/async_task_sorter.rs:96-114 | dropping `n + 1` tasks is dropping `n`, then one |
| `TaskBuffer.Position` | crates/walrus-indexer/src/async_task_sorter.rs:130-160 | the position loop finds the longest prefix below the bound |
| `SorterRuns.ReadIsSlice` | crates/walrus-indexer/src/lib.rs:42-50 | a fetch reads a contiguous stretch of the stored IDs starting right above the watermark |
| `SorterRuns.StepKeepsInv` | crates/walrus-indexer/src/async_task_sorter.rs:314-389 | every step of the sorter keeps the invariant on queues, watermark and fetch in flight |
| `SorterRuns.RunKeepsInv` | crates/walrus-indexer/src/async_task_sorter.rs:435-444 | so does every interleaving |
| `SorterGuarantees.DeliveredInOrder` | crates/walrus-indexer/src/async_task_sorter.rs:406-411 | over every run delivered IDs are strictly increasing and stored, and everything queued comes after them |
| `SorterGuarantees.CompleteUnlessDroppedInFlight` | crates/walrus-indexer/src/async_task_sorter.rs:118-192 | every state of a run accounts for all stored tasks if and only if no fetch comes back empty after an overflow during its flight |
| `SorterGuarantees.CompleteIfNoDropsInFlight` | crates/walrus-indexer/src/async_task_sorter.rs:96-114 | without overflow during a flight nothing is lost: dropped tasks are read again |
| `SorterGuarantees.DroppedTaskIsLost` | crates/walrus-indexer/src/async_task_sorter.rs:118-135 | without that condition completeness is false: a run that delivers task 2 and never task 1 |
| `SorterGuarantees.DrainDeliversEverything` | crates/walrus-indexer/src/async_task_sorter.rs:259-311 | pulling an up-to-date sorter until its queues are empty has delivered exactly what was stored |
| `SorterGuarantees.PullNeverStalls` | crates/walrus-indexer/src/async_task_sorter.rs:295-301 | a pull that finds nothing while catching up leaves a fetch in flight, if and only if the catchup queue has capacity |
| `SorterGuarantees.FetchMakesProgress` | crates/walrus-indexer/src/async_task_sorter.rs:118-192 | a completed fetch ends the catching-up state or raises the watermark |
| `SorterGuarantees.FetchesAreBounded` | crates/walrus-indexer/src/async_task_sorter.rs:335-347 | without new tasks there are at most as many completed fetches as stored tasks above the watermark, plus one |
| `SorterGuarantees.QueuesStayBounded` | crates/walrus-indexer/src/async_task_sorter.rs:246-251 | the catchup queue never exceeds its maximum; nor does the latest queue when its maximum and the drop batch are positive |
| `SorterProgress.DeliverableUnlessStuck` | crates/walrus-indexer/src/async_task_sorter.rs:259-389 | with room for catching up: after every run all that is stored can still be delivered without new tasks, if and only if nothing is lost and the fetch in flight has not come back empty after a drop |
| `SorterProgress.DeliverableWithoutCapacity` | crates/walrus-indexer/src/async_task_sorter.rs:335-347 | without room for catching up: if and only if nothing is stored |
| `SorterProgress.EverythingCanBeDelivered` | crates/walrus-indexer/src/async_task_sorter.rs:259-389 | in particular after every run without an overflow during a flight |
| `SorterProgress.OverflowLoses` | crates/walrus-indexer/src/async_task_sorter.rs:118-135 | for every configuration with room for catching up and non-empty drop batches, a run that loses a task |
| `SorterProgress.LossExactly` | crates/walrus-indexer/src/async_task_sorter.rs:15-30 | a configuration can lose a task if and only if it is one of those |
| `SorterFetches.TriggerExactly` | crates/walrus-indexer/src/async_task_sorter.rs:314-347 | a request launches a fetch if and only if its bounds are not crossed, none is in flight and the catchup queue has room; its limit is all that room |
| `SorterFetches.PullLaunchesExactly` | crates/walrus-indexer/src/async_task_sorter.rs:25-29 | in every state that keeps the invariant, a pull without a fetch in flight launches a fetch if and only if the sorter is catching up, has capacity, and at most half of it is queued |
| `SorterFetches.PullFetchesFreeRoom` | crates/walrus-indexer/src/async_task_sorter.rs:335-359 | such a fetch reads exactly the next tasks above the watermark, as many as fit the catchup queue or are missing |
| `SorterFetches.InitFetchesFreeRoom` | crates/walrus-indexer/src/async_task_sorter.rs:434-437 | the initial fetch likewise, without an upper bound |
| `SorterFetches.PullKeepsFlight` | crates/walrus-indexer/src/async_task_sorter.rs:326-332 | a pull leaves a fetch in flight as it is |
| `SorterFetches.ExecutedIsGone` | crates/walrus-indexer/src/lib.rs:39-50 | a task removed after execution is never read again |
| `SorterFetches.PushExactly` | crates/walrus-indexer/src/async_task_sorter.rs:234-254 | what leaves a full latest queue, what of it moves to the catchup queue and what is dropped, with watermark and state |
| `SorterFetches.PushKeepsOrder` | crates/walrus-indexer/src/async_task_sorter.rs:237-244 | the latest queue stays in order, and a task not above its last one changes nothing |
| `SorterFetches.LoadTakesLoadable` | crates/walrus-indexer/src/async_task_sorter.rs:118-192 | loading appends exactly the tasks above the catchup queue and below the latest queue, a consecutive stretch, and moves the watermark to its last |
| `SorterFetches.LoadSwitchesExactly` | crates/walrus-indexer/src/async_task_sorter.rs:118-192 | it ends the catching-up state if and only if nothing was read or the tasks read reach the latest queue |
| `DownloadCoordinator.Coordinator.constructor` | crates/checkpoint-downloader/src/downloader.rs:436-439 | empty books at the start number |
| `DownloadCoordinator.Coordinator.Issue` | crates/checkpoint-downloader/src/downloader.rs:444-464 | the next number is put in flight |
| `DownloadCoordinator.Coordinator.Receive` | crates/checkpoint-downloader/src/downloader.rs:476-506 | the reorder loop sends the expected entry and all ready ones, and keeps the others |
| `DownloadCoordinator.ReadyIsMaximalRun` | crates/checkpoint-downloader/src/downloader.rs:496-502 | what the loop drains is the longest gapless run in the reorder buffer |
| `DownloaderRuns.DeliversInSequence` | crates/checkpoint-downloader/src/downloader.rs:430-507 | for every completion order and scaling the output is start, start+1, ... each with its own download; issued numbers are the disjoint union of delivered, in flight and pending; the next expected one is in flight or not issued |
| `DownloaderRuns.PoolStaysAlive` | crates/checkpoint-downloader/src/downloader.rs:245-297 | the worker counter stays in [min, max]; it equals live workers minus queued shutdowns when the monitor is idle; more workers live than will be shut down, always |
| `DownloaderRuns.WorkersNeverBlock` | crates/checkpoint-downloader/src/config.rs:136-142 | downloads in flight stay within `max_workers * factor`, so a finished worker always has room in the result channel |
| `DownloaderFilling.FillsUpBeforeWaiting` | crates/checkpoint-downloader/src/downloader.rs:442-466 | over every run the coordinator waits only with at least as many downloads in flight as the workers it saw times the buffer factor, unless it stopped at a full message channel; it issues none beyond that |
| `DownloaderFilling.FixedPoolWaitsFull` | crates/checkpoint-downloader/src/downloader.rs:442-466 | with `min_workers == max_workers` it always waits with exactly `max_workers * factor` in flight |
| `DownloaderFilling.MessagesStayBounded` | crates/checkpoint-downloader/src/config.rs:136-138 | the message channel never exceeds its size |
| `DownloaderFilling.ChannelsStayBounded` | crates/checkpoint-downloader/src/config.rs:136-142 | queued downloads and unread results each take at most half of their channel, and a busy worker finds room for its result |
| `DownloaderFilling.InitialPool` | crates/checkpoint-downloader/src/downloader.rs:107-122 | until the monitor adjusts it the pool has its initial size |
| `DownloaderFilling.TargetsExactly` | crates/checkpoint-downloader/src/downloader.rs:300-411 | an adjustment aims one worker higher or lower, or at the middle of the range, and ends only at its target |
| `DownloaderFilling.PoolCanReachAverage` | crates/checkpoint-downloader/src/downloader.rs:338-357 | after every run the monitor can bring the pool to the middle of its range, the workers making room for shutdowns |
| `DownloaderFilling.DownloadsStartInOrder` | crates/checkpoint-downloader/src/downloader.rs:219-243 | over every run downloads are taken in the order of their numbers |
| `DownloaderProgress.DeliverableUnlessStarved` | crates/checkpoint-downloader/src/downloader.rs:430-507 | after every run the next expected checkpoint can still be delivered if and only if the coordinator is not waiting with nothing in flight |
| `DownloaderProgress.StarvedForever` | crates/checkpoint-downloader/src/downloader.rs:466-473 | no step of workers or monitor ends such a wait |
| `DownloaderProgress.StarvesBehindShutdowns` | crates/checkpoint-downloader/src/downloader.rs:442-473 | the coordinator begins such a wait if and only if nothing is in flight and shutdowns fill the message channel |
| `DownloaderProgress.ScalingPoolStarves` | crates/checkpoint-downloader/src/downloader.rs:245-297 | for every configuration whose pool can change size, a run that ends in such a wait |
| `DownloaderProgress.StarvationExactly` | crates/checkpoint-downloader/src/downloader.rs:300-411 | a configuration has a run into such a wait if and only if `min_workers < max_workers` |
| `DownloaderProgress.StarvedRunsExactly` | crates/checkpoint-downloader/src/downloader.rs:442-473 | a run ends in such a wait if and only if the coordinator stopped filling at some point with nothing in flight and a channel full of shutdowns |
| `DownloaderProgress.PromptWorkersPreventStarvation` | crates/checkpoint-downloader/src/downloader.rs:219-243 | runs in which workers keep the queued shutdowns below the channel size never do, whatever the pool does |
| `DownloaderProgress.FixedPoolAlwaysDelivers` | crates/checkpoint-downloader/src/downloader.rs:430-507 | with `min_workers == max_workers` every run can be continued to deliver the next checkpoint |
| `KeyCodecs.SerializeRoundTrip` | crates/walrus-indexer/src/storage.rs:87-155 | decoding an encoded primary key gives it back, whatever its identifier, or reports invalid UTF-8 |
| `KeyCodecs.DeserializeRoundTrip` | crates/walrus-indexer/src/storage.rs:104-155 | accepted bytes are the encoding of what they decode to |
| `KeyCodecs.SerializedParts` | crates/walrus-indexer/src/storage.rs:87-102 | the bytes of a primary key: manager, slash, identifier, slash, sequence number high byte first |
| `KeyCodecs.DeserializeExactly` | crates/walrus-indexer/src/storage.rs:104-155 | which bytes decode, into which parts, and which error all others get |
| `KeyCodecs.KeyOrderIsSequenceOrder` | crates/walrus-indexer/src/storage.rs:87-102 | for one manager and identifier byte order is sequence order |
| `KeyCodecs.IdentifierScanSelects` | crates/walrus-indexer/src/storage.rs:276-297 | which stored keys the identifier bounds select, for every identifier |
| `KeyCodecs.IdentifierScanExact` | crates/walrus-indexer/src/storage.rs:276-297 | for a slash-free identifier: its own keys and those of identifiers continuing it after a slash |
| `KeyCodecs.ManagerScanExact` | crates/walrus-indexer/src/storage.rs:300-313 | the manager bounds select exactly that manager's keys |
| `KeyCodecs.PatchKeyRoundTrip` | crates/walrus-indexer/src/storage.rs:228-273 | quilt patch keys round trip in both directions; their bytes, and which error other bytes get |
| `KeyCodecs.PatchScanExact` | crates/walrus-indexer/src/storage.rs:316-329 | the patch bounds select exactly that blob ID's keys |
| `ByteStrings.PrefixInterval` | crates/walrus-indexer/src/storage.rs:276-297 | `[p·c, p·(c+1))` holds exactly the strings that start with `p·c` |
| `ColumnFamily.ColumnFamily.Put` | crates/typed-store/src/column_family_handle.rs:72-86 | a write changes the contents at its key only, and keeps the rows ordered |
| `ColumnFamily.ColumnFamily.Get` | crates/typed-store/src/column_family_handle.rs:125-145 | a read returns what is stored under the key, if anything |
| `ColumnFamily.ColumnFamily.ReadRange` | crates/typed-store/src/column_family_handle.rs:150-206 | the scan loop returns the rows up to the first that cannot be read or whose key or value does not decode; it is an error if that is the first |
| `ColumnFamily.DecodedInFull` | crates/typed-store/src/column_family_handle.rs:174-200 | rows that can all be read and decoded are returned one for one |
| `ColumnFamily.DecodedExactly` | crates/typed-store/src/column_family_handle.rs:174-206 | a scan fails with the first row's error, or returns all rows before the first that cannot be read or decoded |
| `ColumnFamily.RangeExact` | crates/typed-store/src/column_family_handle.rs:158-169 | the rows between two seeks are exactly those with keys in `[begin, end)` |
| `ColumnFamily.ReverseScan` | crates/typed-store/src/column_family_handle.rs:162-174 | a reverse scan yields rows of the range, largest key first, at most the limit |
| `ColumnFamily.ReverseScanComplete` | crates/typed-store/src/column_family_handle.rs:174 | a row of the range is yielded, or the limit is used up by larger keys |
| `ColumnFamily.ForwardScan` | crates/typed-store/src/column_family_handle.rs:162-174 | a forward scan yields rows of the range, smallest key first, at most the limit |
| `ColumnFamily.ForwardScanComplete` | crates/typed-store/src/column_family_handle.rs:174 | a row of the range is yielded, or the limit is used up by smaller keys |
| `IndexStore.IndexStore.constructor` | crates/walrus-indexer/src/storage.rs:405-452 | both indices empty |
| `IndexStore.IndexStore.InsertPrimaryIndex` | crates/walrus-indexer/src/storage.rs:456-478 | both indices are updated for a blob, only the primary one for a patch |
| `IndexStore.IndexStore.GetBlobByIdentifier` | crates/walrus-indexer/src/storage.rs:482-492 | the reverse scan over the identifier's bounds |
| `IndexStore.IndexStore.GetBlobByObjectId` | crates/walrus-indexer/src/storage.rs:495-502 | the object's entry, if any |
| `IndexStore.PrimaryIsLastInsert` | crates/walrus-indexer/src/storage.rs:473-475 | over every run the primary index holds the last insert of each key |
| `IndexStore.ObjectIsLastInsert` | crates/walrus-indexer/src/storage.rs:462-471 | over every run the object index points to the last insert naming the object |
| `IndexStore.InsertKeepsPointers` | crates/walrus-indexer/src/storage.rs:456-478 | an insert keeps object entries pointing to primary entries naming them, if and only if it does not overwrite such an entry with another target |
| `IndexStore.ConsistentExactly` | crates/walrus-indexer/src/storage.rs:456-478 | after every run all object entries point to primary entries naming them, if and only if no insert reuses the key of an earlier one that is the last to name its object |
| `IndexStore.PointerValidExactly` | crates/walrus-indexer/src/storage.rs:456-478 | the same for one object |
| `IndexStore.DistinctInsertsKeepPointers` | crates/walrus-indexer/src/storage.rs:456-478 | runs under distinct keys keep the two indices consistent |
| `IndexStore.LookupByObject` | crates/walrus-indexer/src/storage.rs:495-502 | after such a run, following an object's entry finds the blob inserted last for it |
| `IndexStore.ReusedKeyStrandsObject` | crates/walrus-indexer/src/storage.rs:456-478 | with a reused key consistency fails |
| `IndexStore.QuerySound` | crates/walrus-indexer/src/storage.rs:482-492 | every answer is stored and matches, largest key first, at most the limit |
| `IndexStore.QueryComplete` | crates/walrus-indexer/src/storage.rs:482-492 | every stored match is answered, unless larger keys use up the limit |
| `IndexStore.LookupExactly` | crates/walrus-indexer/src/storage.rs:480-492 | for every limit: the answer is exactly that identifier's entries, newest first, cut to the limit, if and only if every stored key of another identifier that matches lies below `limit` of the identifier's own |
| `IndexStore.LookupExactlyWhenAlone` | crates/walrus-indexer/src/storage.rs:480-492 | with a limit above the number of entries, if and only if no such key is stored |
| `IndexStore.LookupByIdentifier` | crates/walrus-indexer/src/storage.rs:480-492 | after every run of inserts under distinct keys without such keys, the answer is exactly the inserts of that manager and identifier, newest first, cut to the limit |
| `IndexStore.IntrudersOfSlashFree` | crates/walrus-indexer/src/storage.rs:276-297 | for a slash-free identifier those are the keys of identifiers that continue it after a slash |
| `IndexStore.LookupReturnsOtherIdentifier` | crates/walrus-indexer/src/storage.rs:276-297 | a lookup of `a` returns a blob stored as `a/b` |
| `RangeBounds.IsMaxBytes` | crates/typed-store/src/rocks.rs:2537-2539 | whether all bytes are 0xFF |
| `RangeBounds.BigEndianSaturatingAddOne` | crates/typed-store/src/rocks.rs:2522-2534 | the in-place loop is the saturating increment |
| `RangeBounds.IncrementIsSuccessor` | crates/typed-store/src/rocks.rs:2522-2534 | the increment is the big-endian value plus one, at the same width |
| `RangeBounds.MaxIsLargest` | crates/typed-store/src/rocks.rs:2537-2539 | exactly the all-0xFF string is the largest value of its width |
| `RangeBounds.CreateReadOptionsWithRange` | crates/typed-store/src/rocks.rs:1386-1435 | the bounds set for each combination of included, excluded and unbounded ends |
| `RangeBounds.ScanExact` | crates/typed-store/src/rocks.rs:1386-1435 | for keys of one width a key is scanned if and only if it is in the range, except an excluded all-0xFF lower bound that the upper bound admits |
| `RangeBounds.ScanIsRangeExactly` | crates/typed-store/src/rocks.rs:1386-1435 | the same as an if-and-only-if about the range |
| `RangeBounds.LowerExact` | crates/typed-store/src/rocks.rs:1397-1413 | for keys of any width: exactly where the lower bound errs |
| `RangeBounds.UpperExact` | crates/typed-store/src/rocks.rs:1415-1432 | for keys of any width: exactly where the upper bound errs |
| `RangeBounds.BetweenExact` | crates/typed-store/src/rocks.rs:2522-2534 | which strings lie strictly between a key and its increment |
| `RangeBounds.ExcludedLargestKeyIsYielded` | crates/typed-store/src/rocks.rs:1401-1408 | the failing case, concretely |
| `Committees.CompareEssential` | crates/walrus-sui/src/types.rs:429-498 | the node-by-node loops accept if and only if epoch, shard count and shard assignment are equal |
| `Committees.EssentialsByNode` | crates/walrus-sui/src/types.rs:429-498 | equal assignment means that every node has the same shards in both committees, its last entry counting |
| `Committees.ReadsAreServed` | crates/walrus-sdk/src/active_committees.rs:153-167 | a reading committee exists exactly for epochs up to the current one; it is current or outgoing and not older than the certification |
| `Committees.FoundExactly` | crates/walrus-sdk/src/active_committees.rs:172-184 | a committee is found for an epoch if and only if it is the current, next or previous one and has that epoch |
| `Committees.CommitteeTracker.constructor` | crates/walrus-sdk/src/active_committees.rs:346-348 | tracks the given committees |
| `Committees.CommitteeTracker.SetCommitteeForNextEpoch` | crates/walrus-sdk/src/active_committees.rs:374-392 | sets the next committee; wrong epoch or shard count panics, other essentials than the known next are an error |
| `Committees.CommitteeTracker.Start` | crates/walrus-sdk/src/active_committees.rs:397-412 | shifts next to current and current to previous, or reports why not |
| `Committees.CommitteeTracker.End` | crates/walrus-sdk/src/active_committees.rs:419-432 | ends the transition and returns the outgoing committee, or reports why not |
| `Committees.CommitteeTracker.UpdateActiveCommittees` | crates/walrus-sdk/src/active_committees.rs:435-437 | replaces the committees |
| `Committees.PanicsExactly` | crates/walrus-sdk/src/active_committees.rs:374-432 | from a consistent state exactly which steps panic: a next committee of wrong epoch or shard count, or an end without a previous committee |
| `Committees.OutcomesExactly` | crates/walrus-sdk/src/active_committees.rs:374-432 | from a consistent state exactly which steps report which error; a failed step changes nothing |
| `Committees.SetThenStart` | crates/walrus-sdk/src/active_committees.rs:374-412 | a next committee that was set is found under its epoch, and is the current one once the change starts |
| `Committees.RunKeepsValid` | crates/walrus-sdk/src/active_committees.rs:195-224 | every run keeps consecutive epochs and equal shard counts |
| `Committees.NeverPanicsExactly` | crates/walrus-sdk/src/active_committees.rs:374-432 | a run is free of panics if and only if every next committee it sets has the next epoch and, where none is known, the current shard count |
| `Committees.ChangesAlternate` | crates/walrus-sdk/src/active_committees.rs:397-432 | the epoch advances once per change started, changes start and end in turn, the shard count is constant |
| `Committees.StartMovesNoRead` | crates/walrus-sdk/src/active_committees.rs:397-412 | starting a change leaves the reading committee of every certified epoch unchanged |
| `Committees.OnlyEndMovesReads` | crates/walrus-sdk/src/active_committees.rs:374-432 | only ending a change moves reads, from the outgoing to the current committee |
| `Committees.ReadsStayUntilEnd` | crates/walrus-sdk/src/active_committees.rs:153-167 | over a run in which no change ends, reads of a certified epoch stay |
| `Committees.KnownNextBecomesCurrent` | crates/walrus-sdk/src/active_committees.rs:383-390 | over every run a known next committee keeps its essentials until it becomes current |
| `Committees.AnnouncedTakesOffice` | crates/walrus-sdk/src/active_committees.rs:374-412 | over every run the committee found for the next epoch, and current after a change starts, is the one announced last for it |
| `Bft.FaultyIsLargestBelowThird` | crates/walrus-core/src/bft.rs:12-14 | the fault bound is the largest number below a third |
| `Bft.CorrectSetsIntersect` | crates/walrus-core/src/bft.rs:21-25 | two sets of `min_n_correct` shards share a shard outside any tolerated faults |
| `Bft.CorrectShardsSuffice` | crates/walrus-core/src/bft.rs:12-25 | without the faulty shards that many remain, and a quorum; a set above the validity threshold has a correct member |
| `Bft.DisjointQuorums` | crates/walrus-sui/src/types.rs:310-312 | two disjoint quorums of three shards |
| `Bft.QuorumsIntersectExactly` | crates/walrus-sui/src/types.rs:310-321 | two quorums of `2f + 1` shards share more than `f` if and only if `n == 3f + 1` |
| `ConfigOverlay.MergeYaml` | crates/walrus-sdk/src/config.rs:431-447 | the recursive loop is the merge |
| `ConfigOverlay.MergeByPath` | crates/walrus-sdk/src/config.rs:431-447 | every setting of the merged value, path by path: the overlay's, merged with the base's, or the base's unless shadowed |
| `ConfigOverlay.MergeAgain` | crates/walrus-sdk/src/config.rs:431-447 | merging over the same base again changes nothing |
| `ConfigOverlay.ApplyNetworkDefaultsToValue` | crates/walrus-sdk/src/config.rs:407-415 | one value with the defaults of its network below it |
| `ConfigOverlay.ApplyNetworkDefaults` | crates/walrus-sdk/src/config.rs:394-405 | a file: each context separately, or the whole value |
| `ConfigOverlay.NamedContractsAreExtracted` | crates/walrus-sdk/src/config.rs:362-376 | the contract IDs extracted are those the configuration names |
| `ConfigOverlay.SameNetworkAfterwards` | crates/walrus-sdk/src/config.rs:348-360 | the merged value is detected as the same network |
| `ConfigOverlay.UserSettingsWin` | crates/walrus-sdk/src/config.rs:407-415 | every user value that is not a mapping wins at its path |
| `ConfigOverlay.DefaultsFillGaps` | crates/walrus-sdk/src/config.rs:378-392 | every path the user left open has the default of the network whose contracts are named |
| `ConfigOverlay.UnknownNetworkUnchanged` | crates/walrus-sdk/src/config.rs:348-360 | a configuration of no known network is left as it is |
| `ConfigOverlay.ContextsApart` | crates/walrus-sdk/src/config.rs:394-405 | in a file with contexts the defaults act inside each context only |
| `ConfigOverlay.ContextsByPath` | crates/walrus-sdk/src/config.rs:394-396 | a file has contexts if and only if a mapping stands at its path `contexts` |
| `ConfigOverlay.FileSettingsWin` | crates/walrus-sdk/src/config.rs:394-405 | in a file without contexts every user value that is not a mapping wins at its path |
| `ConfigOverlay.FileDefaultsFillGaps` | crates/walrus-sdk/src/config.rs:394-405 | and every path left open has the default of the network whose contracts the file names, or nothing for an unknown one |
| `ConfigOverlay.AppliedAgain` | crates/walrus-sdk/src/config.rs:394-405 | applying to a file twice is applying once, except for a file silent about contexts whose defaults have contexts that need defaults |
| `ConfigOverlay.AppliedIsIdempotent` | crates/walrus-sdk/src/config.rs:394-405 | so it is idempotent on every file when the built-in configurations have no contexts |
| `Quilt.PopulateStartIndices` | crates/walrus-core/src/metadata.rs:274-280 | the in-place loop gives each patch the end of the one before it as its start |
| `Quilt.PopulatedAt` | crates/walrus-core/src/metadata.rs:274-280 | the same by position; nothing else changes |
| `Quilt.PopulateRestores` | crates/walrus-core/src/metadata.rs:67-69 | start indices dropped on the wire are restored if and only if the patches were contiguous |
| `Quilt.TilesExactly` | crates/walrus-core/src/metadata.rs:238-243 | the patches' slivers are all indices from the first start to the last end if and only if end indices are sorted, or fall throughout so that there are no slivers |
| `Quilt.PatchesDisjoint` | crates/walrus-core/src/metadata.rs:93-97 | with sorted end indices two patches never share a sliver |
| `Quilt.PatchIdRoundTrip` | crates/walrus-core/src/metadata.rs:177-187 | the five bytes of a patch ID, and that they decode to it |
| `Quilt.AcceptedBytesAreEncodings` | crates/walrus-core/src/metadata.rs:189-215 | accepted are exactly five bytes with the version byte, they encode what they decode to, and which error others get |

## Left out

- Reed-Solomon encoding, sliver recovery and inconsistency proofs.
- Blake2b, signatures, certificates and messages: hash functions are parameters, signatures do not occur.
- RocksDB transactions, snapshots and tombstones: a column family is an ordered list of rows. Its scans take read and decoding errors as parameters; the index store assumes that reads succeed and values decode.
- Value serialization (BCS) and key serialization of typed maps: values are stored as they are, typed keys stand for their bytes.
- UTF-8, hex and YAML parsing, YAML tags, and the order of entries in a YAML mapping: strings are bytes, mappings are maps.
- In-place update of nested YAML values: `MergeYaml` returns the merged value instead of changing its first argument.
- Timers, backoff, retries, lag measurement, cancellation and dropped receivers in the downloader: scaling decisions are free choices of the monitor.
- Wake-ups, shutdown and the retry queue of the sorter, and task payloads: a task is its ID.
- Lock releases inside one sorter operation: storing and pushing a task is one step, and so is capturing the bounds of a fetch and launching it.
- Overflow of the 32-bit epoch and of 64-bit checkpoint numbers: both are unbounded.
- The panic of debug builds when a shift distance reaches the word width: `Merkle.ComputeRoot` has the masked shift of release builds.
- The extended committee comparison (keys and addresses), and the members of committees beyond their shards.
- Quilt encoding and decoding, tags and identifiers of patches, the sequence store and the quilt patch index writer.
- The orchestrator, the proxy, procedural macros, scripts and documentation.
