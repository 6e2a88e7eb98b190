# A verified model of MemWeaver

MemWeaver is a time-bucketed HNSW vector index whose nodes live in packed arena memory, with a
write-ahead log and snapshots for crash recovery. This project models its state-changing core in
Dafny and proves what that core is relied on for:

- the packed words of the arena blocks always read back as one abstract graph, which stays
  undirected, free of duplicates and self-edges, and typed by level, through every insert, batch
  insert and full-row eviction;
- beam search and greedy descent end, and what they return is locally optimal, and exact once the
  beam is as wide as the component searched;
- the arena store behaves as the plain list-based store over every run in which no eviction has to
  choose between equally far neighbours; an addition has the same outcome for every order an arena
  row can have, if and only if it makes no such choice;
- exactly when an acknowledged vector survives, over all interleavings of inserts, log uploads,
  snapshot cycles, pruning, eviction, catalog writes, crash and recovery: a crash is survived if and
  only if recovery finds a log mark and nothing acknowledged rests on log entries up to it. If every
  catalog write was safe, that is to say that the collection was announced: its catalog upload
  succeeded, or there is no catalog and a snapshot cycle was published. A losing run is given for
  each of the two ways to fail. What is acknowledged, logged, staged, pointed to, published and in
  memory is read off the actions of the run alone;
- from any moment between two cycles a snapshot cycle can go through with no step but its own; then
  every stored vector is in a committed snapshot, the log is empty, and a crash changes nothing;
- a new node is linked both ways to every planned neighbour but those whose row is full of closer ones,
  and an old edge is lost only as a farthest one that makes way for the new node;
- the arithmetic slice of the bucket deque equals the scan it replaces for every range, if and only if
  the deque has no gap; the arithmetic eviction is exact on a gap-free deque if and only if its sum
  does not wrap, and its exact condition on any deque is given; inserts keep a deque gap-free exactly
  if they never skip a window, and recovery brings back a gap-free one exactly if the committed
  snapshots have no gap and the replay skips none;
- a batch inserted run by run ends exactly as its entries inserted one by one, if and only if the first
  id of every window it opens comes from a run of that window; the merge of per-bucket answers loses
  nothing;
- moving blocks to disk, evicting, restoring, snapshotting and loading are invisible to reads, and a
  saved index loads as the same index, ready to be searched and inserted into;
- the three top-k selections agree on every input, and the byte formats read back what was written.

`dafny verify dfyconfig.toml` checks the whole project.

## Structure

| files | content |
|---|---|
| `Layout`, `Graph`, `Linking`, `NodeMemory` | node ids and byte layout; the abstract graph; what connecting a node does to it; how words represent it |
| `ArenaAlloc`, `Capacity`, `ArenaStore`, `Footprint` | bump allocation; number of blocks; the arena node store as classes over word arrays |
| `Heaps`, `Reachability`, `Search`, `HnswIndex` | candidate heaps; reachability; what a search result is; the HNSW index |
| `Naive` | the list-based store, and that the arena store refines it |
| `Tiering`, `LevelsFile`, `RestoredIndex`, `Sorting` | chunk files and storage moves; the levels file; a saved index loaded again |
| `TopK`, `Grid`, `TimeBucket`, `BatchWindows`, `BucketIndex`, `BucketGraph` | selection; the window grid; bucket routing; batches in any order; the index class; the graph inside a bucket |
| `BucketChanges`, `Placement` | how buckets change; which bucket an inserted vector ends up in |
| `Protocol`, `Durability`, `Listings`, `Runs`, `LosingRuns` | the durability protocol as a state machine, its invariant, its theorems, and runs that lose a vector |
| `Histories`, `Promises`, `Progress` | the state of the protocol read off the actions of a run; the guarantee in these terms; what a cycle and the log upload achieve |
| `RecoveredWindows`, `CommittedWindows` | the windows after a recovery, and those of committed buckets |
| `Service`, `Bytes`, `WalCodec` | log state, pruning, cleanup and recovery as methods; the log entry format |
| `Arithmetic`, `Options` | division facts; the option type |

Each mutating method is proved against a function of the old state (`AddDirected`, `Connected`,
`InsertOne`, `InsertBatch`, `Recovered`, ...), and the theorems say what those functions do without
naming them: `Linking.ConnectedLinks`, `Placement.InsertLands`, `Histories.WrittenSince`, ....

## Modelling choices

- Vectors are sequences of 32-bit words. Distances and scores are integers given by arbitrary
  functions, so ties occur but rounding and NaN do not. The level of a node is a parameter.
- Block memory is an array of 32-bit words of 2 MiB. Inserts need every block in memory, fewer than
  2^14 blocks, and a node that fits in one block; these are the conditions under which ids decode
  (`Layout.IdRoundTrip`). Checksums are an arbitrary function.
- Binary heaps are sorted sequences (the order in which they would pop). The first phase of a batch
  is a function of the graph before the batch, so its threads need no order.
- In the time-bucket index a bucket is its list of vector ids and its two version counters; what a
  bucket's own graph answers to a query is a parameter of the search. Bucket durations are at least
  one second: the code rejects only a zero duration, and a shorter non-zero one divides by zero
  (crates/index/src/time_bucket/mod.rs:112-115).
- A batch insert asks for room as placing its nodes takes it: before each push there are fewer than
  2^14 blocks (`Capacity.RoomFor`), which `Capacity.MemoryBound` bounds in advance.
- The protocol is about one collection, with vector ids as content. There may be no catalog, one that
  lacks the collection because its upload failed at creation, or one that lists it. Recovery runs
  before requests are served, so no catalog is written while the collection is not in memory. A
  batch's sequence number, in-memory insertion and local log file are one step, and so are the bucket
  list and the log mark a cycle starts from. Log uploads do not fail, there is one snapshot uploader,
  and its snapshot names are distinct. Local log files are lost in a crash. Sequence numbers do not
  overflow. A prefix is deleted in key order, so `bucket_meta.json` goes before the snapshot files.
- `acked` is the set of ids whose insert was acknowledged and whose bucket was not evicted since, as
  `Promises.AckedIffPromised` proves from the actions of a run.
- A directory of chunk files maps a block number to a slot; a hole reads as a damaged slot.

## Where the code and its documentation differ

- An acknowledged insert is documented as durable, its log entry replayed after any crash
  (docs/crash-recovery.md:47). But the catalog upload at creation is best effort
  (crates/grpc/src/lib.rs:885-925), and recovery comes upon a collection only through the catalog or,
  if there is none, through `collection.json` (crates/grpc/src/lib.rs:606-645). Without either, or with
  a catalog that lacks the collection, acknowledged vectors are not recovered although their log
  entries are in storage (`LosingRuns.UnannouncedIsLost`); publishing `collection.json` does not help
  against such a catalog (`LosingRuns.LacksStaysLost`).
- Recovery prefers the catalog's log mark, and every collection creation rewrites it to the current
  sequence number, although only a completed snapshot cycle covers the log up to its mark.
  `LosingRuns.CatalogMarkLosesAcknowledged` gives a run that loses an acknowledged vector;
  `Durability.CatalogWriteIff`, `Runs.StoredIffSafe` and `Runs.SurvivesIff` give the exact conditions.
- The slice and the eviction count are documented as equivalent to a scan because all start times
  are grid-aligned; alignment is not enough, the deque must also have no gap (`Grid.SliceIffGapFree`,
  `Grid.EvictionIffGapFree`) and no repeated start, which a rotation within the current window
  leaves (`Grid.RepeatedStart`). The eviction sum also wraps at 2^64 (`Grid.GapFreeEviction`,
  `Grid.WrappedEvictionKeeps`).
- The set of known ids is documented as the ids currently stored
  (crates/index/src/time_bucket/mod.rs:100-102). Eviction does not remove from it, so an evicted id is
  refused from then on (`TimeBucket.EvictedIsRefused`); the two stay the same exactly when all buckets
  dropped were empty (`TimeBucket.EvictionKeepsKnownIff`).
- Batch insertion opens a window before it looks for duplicates, repeated insertion after
  (`TimeBucket.DuplicateOpensWindow`). For batches in window order the outcome is the same exactly when
  no run opens a window for duplicates alone (`TimeBucket.OrderedBatchIffSequential`), for batches in
  any order exactly when every window opened is put to use (`BatchWindows.BatchEqualsSequentialIff`).
- A cycle that commits some buckets and gives up on one between them leaves snapshots with a gap, and a
  crash then brings back a deque on which slice and eviction go wrong
  (`RecoveredWindows.RecoveredWithGap`).
- Loading a levels file that passes its checksum but is too short panics instead of returning an
  error (`LevelsFile.LoadChecksumOnly`); `LevelsFile.LoadLevels` gives the lengths.
- The two node stores break ties differently: the arena store evicts the last of the farthest
  neighbours, the list store the first, so they can end with different neighbour sets
  (`Naive.TiedStoresDiffer`). Under a tie whether they do depends on the order of the arena row; they
  agree for every order exactly when no eviction chooses between equals (`Naive.AddAgreesIffClear`).

## Model

| member | source | states |
|---|---|---|
| Layout.IdRoundTrip | crates/index/src/hnsw/nodes.rs:356-372 | an id gives back its offset always, its block exactly below 2^14 blocks, and is never the sentinel for a node of at least 16 bytes; the ids of a block are consecutive |
| Layout.IdsDistinct | crates/index/src/hnsw/nodes.rs:356-372 | below 2^14 blocks two placements have the same id if and only if they are the same placement |
| Layout.RowsInsideNode | crates/index/src/hnsw/nodes.rs:203-273 | rows of different levels do not overlap, and the row of a level lies inside every node of at least that level |
| Layout.RowsTile | crates/index/src/hnsw/nodes.rs:203-273 | rows follow one another without gaps, m_max0 slots in row 0 and m in every other, and fill the node after the vector, which is padded to eight bytes |
| ArenaAlloc.MaskRoundsDown | crates/mem/src/arena.rs:332-335 | masking, bit by bit, with all bits from a power of two up drops exactly the remainder |
| ArenaAlloc.AlignUpIsLeast | crates/mem/src/arena.rs:332-335 | add and mask give the least multiple of the alignment that is not below the offset |
| ArenaAlloc.AlignUpOverflows | crates/mem/src/arena.rs:332-335 | alignment fails exactly when offset plus alignment exceeds the word size |
| ArenaAlloc.Arena.AllocRaw | crates/mem/src/arena.rs:277-297 | refuses exactly on overflow or lack of room, without effect; otherwise bumps past the least aligned offset and zeroes only the padding |
| ArenaAlloc.BatchRangesDisjoint | crates/mem/src/arena.rs:77-124 | the arenas cut from one mapping are disjoint, inside it, and each as large as asked |
| Capacity.MemoryBound | crates/index/src/hnsw/nodes.rs:1347-1370 | n > 0 nodes of at most S bytes take at most ceil(n / floor(2 MiB / S)) blocks |
| Capacity.MemoryExact | crates/index/src/hnsw/nodes.rs:1347-1370 | and n nodes of exactly S bytes take exactly that many |
| Footprint.BoundIsLeast | crates/index/src/hnsw/nodes.rs:1347-1370 | the bound is the least number of blocks that holds n nodes at floor(2 MiB / S) a block |
| Footprint.PushAll | crates/index/src/hnsw/nodes.rs:1347-1370 | pushing n nodes into an empty store never has more blocks than that bound, and gives n distinct ids other than the sentinel |
| Graph.ConnectOne | crates/index/src/hnsw/nodes.rs:1394-1495 | adding one edge, eviction of the farthest neighbour on both sides included, keeps the half-connected graph undirected but for the new node's own row, and the neighbour counts as good exactly when the store accepts |
| Graph.ConnectedFacts | crates/index/src/hnsw/index.rs:708-731 | connecting an isolated node keeps the graph well-formed, so undirected, without duplicates or self-edges, and typed by level; it changes rows of that level only, and gives the node a subset of the planned neighbours |
| Linking.OneOffer | crates/index/src/hnsw/nodes.rs:1394-1495 | a neighbour refuses the edge only if its row is full of strictly closer ones; with room it takes it and no other row changes; otherwise no new edge appears between old nodes, and the only edge lost is one to a farthest neighbour no closer than the new node |
| Linking.ConnectedLinks | crates/index/src/hnsw/index.rs:708-731 | connecting an isolated node to planned neighbours: links go both ways and to planned neighbours only; one that is not linked refused, its row full of strictly closer ones; if all have room the node's row is the plan; no other edge is new, and an edge lost made way as a farthest one at an accepted neighbour |
| NodeMemory.RowInside | crates/index/src/hnsw/nodes.rs:213-273 | the words of a row lie after the vector and before the end of its own node |
| NodeMemory.StoredUndirected | crates/index/src/hnsw/nodes.rs:213-273 | in the stored words of a well-formed graph each of two nodes' slots hold the other's id or neither's do, at every level |
| NodeMemory.RowWrite | crates/index/src/hnsw/nodes.rs:773-792 | rewriting the words of one row changes exactly that row of the represented graph |
| NodeMemory.NodePushed | crates/index/src/hnsw/nodes.rs:375-397 | writing a node at the aligned bump of a block adds a new id with that vector and empty rows, and every other node reads as before |
| ArenaStore.FindTarget | crates/index/src/hnsw/nodes.rs:1124-1161 | the scan stops at the first sentinel and finds the last slot before it that holds the target |
| ArenaStore.FindSlot | crates/index/src/hnsw/nodes.rs:1394-1495 | finds the first slot that is free or already holds the id, if there is one |
| ArenaStore.NodeBlock.PushNode | crates/index/src/hnsw/nodes.rs:375-397 | succeeds exactly in memory and with room; the id names the aligned bump, and only the node's own words and padding change |
| ArenaStore.ArenaNodeStore.PushNode | crates/index/src/hnsw/nodes.rs:1347-1370 | refuses only a node no block can hold; otherwise one new isolated node with that vector and level, in the last block if it fits or in one new block, and one more write counted |
| ArenaStore.ArenaNodeStore.VectorAt | crates/index/src/hnsw/nodes.rs:408-436 | the vector of a node, whether its block is in memory or on disk |
| ArenaStore.ArenaNodeStore.NeighborsAt | crates/index/src/hnsw/nodes.rs:439-470 | the row of a node followed by sentinels, whether in memory or on disk; nothing for an unknown block |
| ArenaStore.ArenaNodeStore.SaveNeighbors | crates/index/src/hnsw/nodes.rs:773-792 | the list is written over the start of the row, what it does not reach stays, and all else is unchanged; an empty row becomes the list |
| ArenaStore.ArenaNodeStore.RemoveOutgoingTo | crates/index/src/hnsw/nodes.rs:1124-1161 | the target leaves the row, its slot taken by the last neighbour; sentinel ids and unknown blocks change nothing |
| ArenaStore.ArenaNodeStore.Farthest | crates/index/src/hnsw/nodes.rs:1394-1495 | position and distance of the last among the farthest neighbours |
| ArenaStore.ArenaNodeStore.AddDirectedEdge | crates/index/src/hnsw/nodes.rs:1394-1495 | the new graph and the answer are those of the abstract edge addition: present already, appended, swapped for the farthest with the reverse edge dropped, or refused |
| ArenaStore.ArenaNodeStore.EvictFarthest | crates/index/src/hnsw/nodes.rs:1394-1495 | on a full row, replaces the farthest neighbour on both sides unless the new one is farther |
| ArenaStore.ArenaNodeStore.Len | crates/index/src/hnsw/nodes.rs:1343-1345 | the block counts add up to the number of nodes |
| BucketGraph.InsertOne | crates/index/src/time_bucket/mod.rs:286-308 | inserting into a bucket's graph moves its ids and write counter as the abstract bucket's |
| BucketGraph.MarkClean | crates/index/src/hnsw/nodes.rs:839-843 | a version mark on the graph is the version mark of its bucket, and both are dirty or neither |
| BucketGraph.MarkAfterInserts | crates/index/src/hnsw/nodes.rs:824-843 | a version read, a batch inserted and the version marked clean: the graph still mirrors the bucket, and is clean exactly when the batch was empty |
| Search.ResultLocallyBest | crates/index/src/hnsw/index.rs:492-534 | what the search loop ends with is locally best: every neighbour of a returned node is returned or no closer than the worst of a full result, and a result that is not full is the component |
| Search.ShortIsExhaustive | crates/index/src/hnsw/index.rs:492-534 | fewer than `ef` results are exactly the component of the start node at that level |
| Search.WideIsExhaustive | crates/index/src/hnsw/index.rs:492-534 | a beam at least as wide as the component returns exactly the component |
| Search.BestOfAllIsNearest | crates/index/src/hnsw/index.rs:421-462 | cutting such a search down to k gives the min(k, size) nearest of the component, sorted and distinct |
| HnswIndex.Hnsw.SearchLevel | crates/index/src/hnsw/index.rs:492-534 | ends, with at most `ef` distinct reachable nodes at their true distances, the best of all visited; every neighbour of one is in the result or no closer than its worst; a result that is not full is the whole component |
| HnswIndex.Hnsw.GreedyClosest | crates/index/src/hnsw/index.rs:464-489 | ends at a reachable node no farther than the start and without a strictly closer neighbour |
| HnswIndex.Hnsw.Search | crates/index/src/hnsw/index.rs:421-462 | descends from the entry point by greedy and narrow-beam steps, returns the k best of a level-0 beam as vector ids with distances, and refines brute force over the level-0 component when `ef` covers it |
| HnswIndex.Hnsw.UpdateNeighbors | crates/index/src/hnsw/index.rs:708-731 | the stored graph becomes the abstract connection of the node, offered to the neighbours in order, and so is linked as above |
| HnswIndex.Hnsw.PlanLevel | crates/index/src/hnsw/index.rs:846-903 | the row holds candidates of least score, up to the capacity and in no particular order, of a beam search from the given node, and the next level starts from the first least of them |
| HnswIndex.Hnsw.PlanInsert | crates/index/src/hnsw/index.rs:846-903 | planning reads only; every level is selected from the best of the level above or from the end of a greedy descent from the entry point, holds at most `cap` distinct nodes of that level, and names no unconnected node |
| HnswIndex.PlanCommittable | crates/index/src/hnsw/index.rs:779-844 | a plan made on one graph can be committed on any later one for a node it could not have seen |
| HnswIndex.Hnsw.CommitPlan | crates/index/src/hnsw/index.rs:906-911 | connects the node level by level, so that in the end it is linked at every level as its plan names, as above, and keeps the whole invariant |
| HnswIndex.Hnsw.CommitAndPromote | crates/index/src/hnsw/index.rs:390-419 | as above, and the node becomes the entry point exactly when it is higher than all before |
| HnswIndex.Hnsw.Insert | crates/index/src/hnsw/index.rs:390-419 | the memory represents a well-formed graph with exactly one more node, planned as above and linked at every level as its plan names; entry point, depth and id lists stay right |
| HnswIndex.Hnsw.TrailLinks | crates/index/src/hnsw/index.rs:906-911 | a node connected level by level is, in the last graph against the first, linked at every level as its plan names |
| HnswIndex.Hnsw.CutsChunked | crates/index/src/hnsw/index.rs:769-774 | cutting n vectors after the seeds into chunks: where each begins and ends, and that only the last may be short |
| HnswIndex.HasCloserCommitted | crates/index/src/hnsw/index.rs:33-48 | true exactly when a committed member recorded a smaller score for one of the plan's level-0 neighbours |
| HnswIndex.Hnsw.PlanAll | crates/index/src/hnsw/index.rs:779-844 | phase 1: one plan per member, all against the graph before the batch |
| HnswIndex.Hnsw.CommitFresh | crates/index/src/hnsw/index.rs:779-844 | phase 2: each member is either committed by its first plan or put off, and put off exactly when a member before it took one of its neighbours at a smaller score |
| HnswIndex.Hnsw.CommitDeferred | crates/index/src/hnsw/index.rs:779-844 | the members put off are committed in order, each by a plan made just before against the graph as it was then |
| HnswIndex.Hnsw.TwoPhaseParallel | crates/index/src/hnsw/index.rs:779-844 | every member of the chunk is committed exactly once by a chain of planned connections; those committed early were not overtaken, those committed late were; the invariant holds at the end |
| HnswIndex.Hnsw.InsertBatchParallel | crates/index/src/hnsw/index.rs:742-777 | whenever placing the nodes keeps below 2^14 blocks, adds exactly the given vectors in order, fills the blocks as the placement rule says, and keeps the invariant; an empty index gets min(ef_construction, n) single inserts, the rest goes in two-phase chunks, the j-th from vector seeds + j * num_threads on, all but the last of exactly `num_threads` vectors and the last not empty, each from the graph and entry point the one before left |
| Naive.NaiveNodeStore.AddDirectedEdge | crates/index/src/hnsw/nodes.rs:1278-1330 | the new lists and the answer are those of the abstract list-store addition |
| Naive.PickAgreesIffUnique | crates/index/src/hnsw/nodes.rs:1394-1495 | whatever order the arena row has, both stores give up the same neighbour of a list, if and only if its farthest one is unique |
| Naive.SameAdd | crates/index/src/hnsw/nodes.rs:1278-1330 | an addition that has room, is refused, or has a unique farthest neighbour to evict gives the same answer and the same neighbour sets in both stores |
| Naive.AddAgreesIffClear | crates/index/src/hnsw/nodes.rs:1278-1330 | and only such an addition does so for every order of the arena row |
| Naive.TiedStoresDiffer | crates/index/src/hnsw/nodes.rs:1394-1495 | four nodes, equally far: one addition leaves the two stores with different neighbour sets |
| Naive.ArenaRefinesNaive | crates/index/src/hnsw/nodes.rs:1253-1330 | over any run of pushes, saves into empty rows and edge additions that never evict under a tie, both stores return the same values and end with the same vectors, levels and neighbour sets |
| Naive.RefinesFromStart | crates/index/src/hnsw/nodes.rs:1253-1330 | so from two empty stores |
| Tiering.SwapOut | crates/index/src/hnsw/nodes.rs:975-1005 | fails exactly if a block is evicted; otherwise every block is on disk, each written to its own slot, and contents and counts are kept |
| Tiering.SwapIn | crates/index/src/hnsw/nodes.rs:1015-1032 | fails exactly if a block is evicted; otherwise every block is in memory with its contents |
| Tiering.Evict | crates/index/src/hnsw/nodes.rs:1039-1049 | every block loses its local backing; counts and graph are kept |
| Tiering.SwapInFrom | crates/index/src/hnsw/nodes.rs:1055-1085 | succeeds exactly if every block out of memory has a slot that passes its checksum, and then all is in memory as before |
| Tiering.SnapshotToDir | crates/index/src/hnsw/nodes.rs:937-965 | writes exactly the blocks in memory to their slots and leaves the store alone |
| Tiering.RebuildLens | crates/index/src/hnsw/nodes.rs:848-858 | the count of each block is the number of node ids in it |
| Tiering.LoadFromDir | crates/index/src/hnsw/nodes.rs:869-930 | from a directory that holds an image, succeeds exactly if every slot passes its checksum, and is then the store that was written |
| Tiering.AnyMoves | crates/index/src/hnsw/nodes.rs:937-1085 | any sequence of storage moves, failed ones included, leaves every vector, row, id and count as it was |
| Tiering.EvictAndRestore | crates/index/src/hnsw/nodes.rs:1039-1085 | swap out, evict and restore from the same directory succeeds and gives back the same store |
| Tiering.SnapshotAndLoad | crates/index/src/hnsw/nodes.rs:869-965 | a snapshot into an empty directory loads as the same graph, image and ids, for any number of chunk files |
| Tiering.SwapOutAndLoad | crates/index/src/hnsw/nodes.rs:869-1005 | so does what was swapped out to an empty directory |
| Tiering.SaveAndLoad | crates/index/src/hnsw/index.rs:547-636 | with the id lists saved in the levels file beside, by snapshot or by swapping out: loading both and rebuilding the counts from the loaded ids gives the same lists and the same store |
| RestoredIndex.SaveAndRestore | crates/index/src/time_bucket/mod.rs:569-611 | an index saved with its lists, entry point and depth and loaded again is a valid index in memory with the same nodes, rows, lists, map and entry point, clean, and mirrors the restored bucket |
| LevelsFile.SaveLevels | crates/index/src/hnsw/index.rs:547-575 | the bytes of the file in order, and for parallel lists each at its place, least significant first: version 2, count, node ids, vector ids, levels, and in the last four the checksum of all before |
| LevelsFile.HoldsUnique | crates/index/src/hnsw/index.rs:577-636 | the same data holds at most one triple of lists |
| LevelsFile.LoadLevels | crates/index/src/hnsw/index.rs:577-636 | loads exactly what a checked file holds; the size, checksum and version errors and the panic come exactly when their lengths and fields say |
| LevelsFile.SaveThenLoad | crates/index/src/hnsw/index.rs:547-636 | loading what was saved gives the same lists |
| LevelsFile.LoadChecksumOnly | crates/index/src/hnsw/index.rs:577-636 | a file of four bytes with the right checksum panics |
| TopK.Partition | crates/common/src/algorithms.rs:54-65 | rearranges the segment in place around the pivot's returned position: at most the pivot to the left, greater to the right |
| TopK.QuickselectSmallestK | crates/common/src/algorithms.rs:68-87 | ends, permutes the array, and puts the k smallest first; out-of-range k changes nothing |
| TopK.SmallestIsUnique | crates/common/src/algorithms.rs:30-33 | under the total order by distance then id there is one multiset of k smallest, ties included |
| TopK.TopKQuickselect | crates/common/src/algorithms.rs:90-99 | returns the ids of the k smallest, as a multiset |
| TopK.TopKHeap | crates/common/src/algorithms.rs:36-45 | returns the same multiset of ids, for every input and k |
| TopK.TopKSort | crates/common/src/algorithms.rs:47-51 | returns the same multiset of ids, in sorted order |
| TopK.MonotoneKeepsSmallest | crates/index/src/time_bucket/mod.rs:447-466 | adjusting distances monotonically keeps the nearest the nearest |
| TopK.MergeLosesNothing | crates/index/src/time_bucket/mod.rs:447-466 | merging the k nearest of every bucket gives the k nearest distances over all buckets |
| Grid.StartIsGreatest | crates/index/src/time_bucket/mod.rs:112-115 | the window start is the greatest grid point not above the timestamp |
| Grid.GapFreeSlice | crates/index/src/time_bucket/mod.rs:419-445 | on a gap-free deque the arithmetic slice selects exactly the buckets that overlap the range |
| Grid.SliceIffGapFree | crates/index/src/time_bucket/mod.rs:419-445 | for any aligned starts, repeated or out of order included, the slice is right for every range if and only if the deque has no gap |
| Grid.OldestMissed | crates/index/src/time_bucket/mod.rs:419-445 | on any deque with a gap, the range of the oldest bucket's first unit misses it |
| Grid.GapFreeEviction | crates/index/src/time_bucket/mod.rs:477-493 | on a gap-free deque eviction drops exactly the buckets that start before the time, if and only if the sum does not wrap |
| Grid.WrappedEvictionKeeps | crates/index/src/time_bucket/mod.rs:477-493 | a bucket at 0, slots of 2^63 - 1 and time 2^63 + 2: the sum wraps and nothing is dropped |
| Grid.EvictionExact | crates/index/src/time_bucket/mod.rs:477-493 | for any start times, all evictions that do not wrap are right if and only if every bucket is in step with the oldest one, or it and its place in step are both out of reach |
| Grid.EvictionIffGapFree | crates/index/src/time_bucket/mod.rs:477-493 | for aligned starts whose windows end before 2^64, or strictly descending ones, that is to be gap-free |
| Grid.TieOutOfReach | crates/index/src/time_bucket/mod.rs:477-493 | past 2^64 it is not: with slots of 2^63 a repeated start is out of reach of every eviction |
| Grid.RotateKeepsGapFree | crates/index/src/time_bucket/mod.rs:382-389 | a rotation keeps the deque gap-free if and only if its front ends up one slot ahead of the rest |
| Grid.RepeatedStart | crates/index/src/time_bucket/mod.rs:382-389 | a rotation within the current window repeats its start; a search of the window then misses one of its buckets, and eviction drops only one |
| Grid.EvictionKeepsGapFree | crates/index/src/time_bucket/mod.rs:477-499 | dropping oldest buckets keeps the deque gap-free |
| Grid.InsertKeepsGapFree | crates/index/src/time_bucket/mod.rs:286-308 | an insert keeps the deque gap-free if and only if the window advances by at most one slot |
| TimeBucket.InsertStarts | crates/index/src/time_bucket/mod.rs:286-308 | only an accepted insert moves the deque, and by its window alone |
| TimeBucket.GapFreeIffNeverSkips | crates/index/src/time_bucket/mod.rs:286-308 | repeated inserts leave the deque gap-free if and only if each new id lands at most one window after the front bucket of its moment |
| TimeBucket.GapFreeThroughout | crates/index/src/time_bucket/mod.rs:286-308 | and then it is gap-free at every moment on the way |
| TimeBucket.BatchGapFreeIff | crates/index/src/time_bucket/mod.rs:316-376 | the same for a batch, by the windows of its runs |
| TimeBucket.RotateStarts | crates/index/src/time_bucket/mod.rs:382-389 | rotation moves the start times as the deque rotation of `Grid.RotateKeepsGapFree` |
| TimeBucket.InsertAllKeeps | crates/index/src/time_bucket/mod.rs:286-308 | repeated inserts store exactly the ids not known before, each in one bucket once, under fresh numbers |
| TimeBucket.InsertBatchKeeps | crates/index/src/time_bucket/mod.rs:316-376 | a batch stores the same ids as repeated inserts, whatever its runs open, and keeps the index well kept |
| TimeBucket.BatchIsSequential | crates/index/src/time_bucket/mod.rs:316-376 | a batch in which no run opens a window for duplicates alone gives the state and results of repeated inserts |
| TimeBucket.OrderedBatchIffSequential | crates/index/src/time_bucket/mod.rs:316-376 | for a batch in window order this is an equivalence |
| TimeBucket.DuplicateOpensWindow | crates/index/src/time_bucket/mod.rs:316-376 | one known id in a newer window: repeated inserts change nothing, the batch leaves an empty bucket |
| BatchWindows.BatchEqualsSequentialIff | crates/index/src/time_bucket/mod.rs:316-376 | a batch in any order ends in the state of repeated inserts, if and only if the first id of every window it opens comes from a run of that window before another is opened; the results are then the same too |
| TimeBucket.KnownChangesNothing | crates/index/src/time_bucket/mod.rs:286-308 | inserting known ids changes nothing and reports none of them |
| TimeBucket.ReplayAgain | crates/grpc/src/lib.rs:764-789 | replaying any of the entries again, in any order and number, changes nothing |
| TimeBucket.RestoreKeepsIff | crates/index/src/time_bucket/mod.rs:569-611 | a restored bucket keeps every id stored once if and only if its ids and its number are new |
| TimeBucket.RotateKeeps | crates/index/src/time_bucket/mod.rs:382-389 | rotation stores the same ids and keeps the index well kept |
| TimeBucket.EvictionKeeps | crates/index/src/time_bucket/mod.rs:477-499 | eviction removes exactly the ids of the dropped buckets and forgets no known id |
| TimeBucket.EvictionKeepsKnownIff | crates/index/src/time_bucket/mod.rs:477-499 | if the known ids are the stored ones, they still are after an eviction if and only if the dropped buckets were empty |
| TimeBucket.EvictedIsRefused | crates/index/src/time_bucket/mod.rs:286-308 | one id, stored and evicted: nothing holds it, and its insert is refused |
| TimeBucket.InsertsKeepKnown | crates/index/src/time_bucket/mod.rs:286-376 | repeated and batch inserts keep the known ids the stored ones |
| TimeBucket.MarkKeeps | crates/index/src/time_bucket/mod.rs:217-221 | a version mark changes no stored id and keeps the index well kept |
| BucketIndex.TimeBucketIndex.Insert | crates/index/src/time_bucket/mod.rs:286-308 | the new state and the answer are those of one abstract insert |
| BucketIndex.TimeBucketIndex.InsertBatchParallel | crates/index/src/time_bucket/mod.rs:316-376 | the new state and the answers are those of the abstract batch insert, run by run |
| BucketIndex.TimeBucketIndex.RotateBucket | crates/index/src/time_bucket/mod.rs:382-389 | a new front bucket, or the empty front one moved |
| BucketIndex.TimeBucketIndex.AddRestoredBucket | crates/index/src/time_bucket/mod.rs:569-611 | the bucket goes to the front, clean, its ids are known, and the next number is above its own |
| BucketIndex.TimeBucketIndex.IsBucketDirty | crates/index/src/time_bucket/mod.rs:194-200 | dirty exactly if the bucket exists and was written since its mark |
| BucketIndex.TimeBucketIndex.MarkBucketCleanIfVersion | crates/index/src/time_bucket/mod.rs:217-221 | changes one mark, and only if the bucket was not written since |
| BucketIndex.TimeBucketIndex.EvictOldest | crates/index/src/time_bucket/mod.rs:497-499 | drops exactly the last bucket, if there is one, and returns its number |
| BucketIndex.TimeBucketIndex.EvictBefore | crates/index/src/time_bucket/mod.rs:477-493 | on a gap-free deque, if the sum does not wrap, keeps exactly the buckets that start at or after the time |
| BucketIndex.TimeBucketIndex.DequeSlice | crates/index/src/time_bucket/mod.rs:419-445 | the positions to search, from the ends of the deque alone |
| BucketIndex.VisitsInRange | crates/index/src/time_bucket/mod.rs:419-445 | without a time range those are all buckets; with one, on a gap-free deque, exactly the buckets that overlap it |
| BucketIndex.VisitsWindow | crates/index/src/time_bucket/mod.rs:419-445 | on a gap-free deque a time-range search visits exactly the buckets that overlap the range |
| BucketIndex.KeyOrder | crates/index/src/time_bucket/mod.rs:58-68 | the order of index-wide node ids is by bucket number, then vector id, and they are distinct |
| BucketIndex.Recovered | crates/index/src/time_bucket/mod.rs:447-466 | looking the selected ids up in the score map gives back the selected candidates |
| BucketIndex.TimeBucketIndex.Search | crates/index/src/time_bucket/mod.rs:403-466 | returns answers of the visited buckets, each at most once, with its own vector id and its distance adjusted for its own bucket; k of them with none left out that is nearer, or all; visited are all buckets without a time range, and on a gap-free deque exactly those that overlap a given one |
| BucketIndex.SearchIsExact | crates/index/src/time_bucket/mod.rs:403-466 | if every bucket answers with its k nearest, that is the k nearest over all vectors of the visited buckets, under any monotone adjustment |
| BucketIndex.ChosenAnswers | crates/index/src/time_bucket/mod.rs:447-466 | the k smallest of the merged candidates are the best answers of their buckets, each from an answer of its own |
| Placement.InsertLands | crates/index/src/time_bucket/mod.rs:286-308 | an insert is refused exactly if its id is known or came earlier; otherwise the reference names the bucket that holds the vector, also after all later inserts, and that bucket's window is the latest of the front one and those of the new entries so far |
| Placement.BatchLands | crates/index/src/time_bucket/mod.rs:316-376 | the same for a batch taken run by run, but for the window: duplicates move it too |
| BucketChanges.InsertAllGrows | crates/index/src/time_bucket/mod.rs:286-308 | inserts only extend buckets, counting each write, and add new dirty ones |
| BucketChanges.EvictionShrinks | crates/index/src/time_bucket/mod.rs:477-499 | eviction leaves the remaining buckets as they are |
| BucketChanges.MarkAt | crates/index/src/hnsw/nodes.rs:824-843 | a version mark changes one clean counter, and only if that bucket was not written since |
| Durability.KeepsInsert | crates/grpc/src/lib.rs:934-998 | applying a batch under the next number keeps the protocol invariant |
| Durability.KeepsMarkWal | crates/grpc/src/lib.rs:498-575 | retiring an uploaded local log entry keeps it |
| Durability.KeepsAck | crates/grpc/src/lib.rs:952-995 | acknowledging a batch once the upload mark reached it keeps it: its stored ids are durable |
| Durability.SkippedCovers | crates/grpc/src/lib.rs:312-327 | skipping a clean or vanished bucket leaves its snapshot covering what the cycle needs |
| Durability.CaptureFits | crates/grpc/src/lib.rs:329-352 | what is captured of a live bucket extends its last snapshot and is disjoint from all others |
| Durability.KeepsCommitPointer | crates/grpc/src/lib.rs:393-404 | pointing at a complete staged snapshot keeps the invariant |
| Durability.KeepsMarkClean | crates/grpc/src/lib.rs:393-411 | the version-checked mark keeps the invariant although inserts went on meanwhile |
| Durability.KeepsCleanFile | crates/grpc/src/lib.rs:809-820 | deleting any file of an inactive snapshot keeps the invariant |
| Durability.AllCommittedCover | crates/grpc/src/lib.rs:418-451 | when all live buckets are committed, the pointers cover all that was stored when the cycle began and still is |
| Durability.KeepsPublish | crates/grpc/src/lib.rs:418-437 | publishing the mark taken at the cycle's start keeps the invariant |
| Durability.KeepsPrune | crates/index/src/blob.rs:219-232 | deleting a log entry up to the published mark keeps the invariant |
| Durability.KeepsSweepPointer | crates/grpc/src/lib.rs:453-480 | deleting the pointer of a bucket that was not live at the start keeps the invariant |
| Durability.KeepsEvict | crates/index/src/time_bucket/mod.rs:477-499 | evicting in the middle of a cycle keeps the invariant |
| Durability.CatalogWriteIff | crates/grpc/src/lib.rs:885-925 | a catalog write keeps the invariant if and only if everything acknowledged or pending is in a committed snapshot |
| Durability.RestoresAll | crates/grpc/src/lib.rs:685-755 | restoring the pointed buckets rebuilds exactly their snapshots |
| Durability.RecoveredStores | crates/grpc/src/lib.rs:596-799 | recovery stores exactly what is pointed to or logged above the mark |
| Durability.KeepsRecover | crates/grpc/src/lib.rs:596-799 | recovery re-establishes the whole invariant, so any number of crashes may follow |
| Runs.StepKeeps | crates/grpc/src/lib.rs:246-575 | every enabled step keeps the invariant, a catalog write if it is safe |
| Runs.FoundIffMarked | crates/grpc/src/lib.rs:606-645 | in any state, some recovery can follow a crash if and only if there is a mark to start from |
| Runs.MarkIffAnnounced | crates/grpc/src/lib.rs:606-645 | after any run there is a mark if and only if a catalog was uploaded, or there is no catalog and a snapshot cycle was published |
| Runs.RecoveryExact | crates/grpc/src/lib.rs:596-799 | a recovery stores all that was acknowledged if and only if all of it is in committed snapshots or logged above the mark |
| Runs.StoredIffSafe | crates/grpc/src/lib.rs:246-799 | whatever catalogs were written, a run never lacks an acknowledged, not evicted id while the node is up, if and only if every recovery in it started from such a mark |
| Runs.SurvivesIff | crates/grpc/src/lib.rs:596-799 | after any run, a crash is survived if and only if there is a mark and nothing acknowledged rests on log entries up to it; the order of the listings does not matter |
| Runs.NothingAcknowledgedIsLost | crates/grpc/src/lib.rs:596-799 | if every catalog write was safe, all that was acknowledged is stored at every moment the node is up, and a crash is survived if and only if the collection was announced |
| Runs.AckNeedsUpload | crates/grpc/src/lib.rs:59-69 | in every run, an insert can be acknowledged only after its log entry was uploaded, and that upload was then marked |
| Runs.PointersStayComplete | crates/grpc/src/lib.rs:354-411 | at every moment, between any two file operations, every bucket pointer names a complete snapshot |
| Runs.CleanIsSnapshotted | crates/index/src/hnsw/nodes.rs:824-843 | in every run, a bucket whose counters agree has a committed complete snapshot of exactly its vectors |
| Runs.RecoveryFromMark | crates/grpc/src/lib.rs:764-789 | recovery from a mark loses nothing if and only if every acknowledged id is pointed to or logged above it; the standing mark is always low enough |
| RecoveredWindows.RestoreGapFreeIff | crates/index/src/time_bucket/mod.rs:569-611 | restoring a bucket keeps the deque gap-free if and only if it is one slot ahead of the front |
| RecoveredWindows.RecoveredGapFreeIff | crates/grpc/src/lib.rs:685-789 | a recovered index has gap-free windows if and only if the pointed starts have none missing and the replay never skips one |
| RecoveredWindows.RecoveredWithGap | crates/grpc/src/lib.rs:685-789 | two committed buckets around one that was not: the recovered deque has a gap, a search of the first window misses its bucket and an eviction drops a bucket too many |
| Runs.CatalogRecoveryIff | crates/grpc/src/lib.rs:606-645 | recovery right after a catalog write loses nothing if and only if every acknowledged id is in a committed snapshot |
| LosingRuns.CatalogMarkLosesAcknowledged | crates/grpc/src/lib.rs:885-925 | a run of seven steps that loses an acknowledged id because the catalog mark is ahead of every snapshot |
| LosingRuns.UnannouncedIsLost | crates/grpc/src/lib.rs:606-645 | a run of five steps after which an acknowledged id is in the uploaded log and no recovery can follow, with no catalog or one that lacks the collection |
| LosingRuns.LacksStaysLost | crates/grpc/src/lib.rs:606-613 | with a catalog that lacks the collection, no run brings it back but by a catalog write |
| Histories.WrittenSince | crates/grpc/src/lib.rs:246-799 | at every moment of every run, log entries and their batches, snapshots and each of their files, pointers, pending and local batches, acknowledgements, the published mark, the mark of the running cycle, the catalog's mark, the uploaded number, and the ids stored and known in memory are exactly what the last actions about them made of them |
| Histories.LastNumberGiven | crates/grpc/src/lib.rs:47-53 | the current number is that of the last batch inserted, or, if none was since a recovery, of the last entry replayed, or the mark |
| Histories.PublishedMark | crates/grpc/src/lib.rs:296-299 | the collection's mark is one that a cycle published, the last to do so, and is the last number given before that cycle began |
| Promises.AckedIffPromised | crates/grpc/src/lib.rs:934-998 | an id counts as acknowledged if and only if the run inserted a batch with it, acknowledged that batch without a crash in between, stored it then, and evicted no bucket that held it since |
| Promises.NoPromiseIsBroken | crates/grpc/src/lib.rs:596-799 | if every catalog write was safe, such an id is stored at every moment the node is up, and, once the collection is announced, some recovery follows a crash and every one stores it |
| Progress.GoesThrough | crates/grpc/src/lib.rs:296-480 | from any sound state between two cycles one can go through with no step but its own: buckets, memory and log end as they should, whatever the number of chunks |
| Progress.CycleConsolidates | crates/grpc/src/lib.rs:296-480 | so from any moment of any run; then every bucket is clean and has a complete committed snapshot of exactly its vectors, no other pointer is left, the log is empty and the published mark is the current number |
| Progress.ConsolidatedSurvives | crates/grpc/src/lib.rs:596-799 | from there any recovery after a crash replays nothing and stores exactly what was stored |
| Progress.IdleUploadsNothing | crates/grpc/src/lib.rs:312-327 | while nothing is inserted, cycles over clean buckets stage, upload and commit nothing |
| Progress.CanAcknowledge | crates/grpc/src/lib.rs:498-575 | from any moment the node is up, uploading the log alone lets every pending batch be acknowledged |
| CommittedWindows.PointersKeepWindows | crates/grpc/src/lib.rs:366-371 | after any run, the pointer of a live bucket records the bucket's own start |
| CommittedWindows.SoundRestores | crates/grpc/src/lib.rs:685-755 | a recovery brings every pointed bucket back with the start its pointer records |
| CommittedWindows.WindowsComeBack | crates/grpc/src/lib.rs:685-755 | a live bucket committed before a crash comes back from any recovery with the same start |
| Service.WalState.AllocSeq | crates/grpc/src/lib.rs:47-49 | the number of a new batch is that of no log entry, local, pending or uploaded, and the counters follow the protocol's insert |
| Service.WalState.MarkUploaded | crates/grpc/src/lib.rs:55-57 | the upload mark only ever rises, as in the protocol's step |
| Service.WalState.IsUploaded | crates/grpc/src/lib.rs:59-69 | a wait may end exactly when the insert may be acknowledged, and then its entry has left the local log |
| Service.BlobStore.ListWalSeqs | crates/index/src/blob.rs:179-198 | exactly the logged numbers, ascending |
| Service.BlobStore.DeleteWalEntriesUpTo | crates/index/src/blob.rs:219-232 | exactly the entries above the mark remain, and from any system pruning up to there the deletions are a run of prune steps |
| Service.BlobStore.CleanupOldSnaps | crates/grpc/src/lib.rs:809-820 | empties every staged snapshot of the bucket but the active one, touches nothing else, and is a run of clean-up steps |
| Service.BlobStore.RecoverIndex | crates/grpc/src/lib.rs:596-799 | without a mark the collection is skipped; otherwise index and counters are those of a recovery step of the protocol |
| Bytes.DigitAt | crates/index/src/blob.rs:73-89 | byte i of a number is its base-256 digit i, so the least significant comes first |
| WalCodec.EncodeWalEntry | crates/index/src/blob.rs:73-89 | the bytes of an entry in order, and each at its place, least significant first: number, count, then per item the length, the components, the timestamp and the id, and in the last four the checksum of all before |
| WalCodec.EncodedLayout | crates/index/src/blob.rs:73-89 | the same places, of the abstract encoding |
| WalCodec.ReadsUnique | crates/index/src/blob.rs:92-161 | a payload can be read as at most one entry |
| WalCodec.DecodeWalEntry | crates/index/src/blob.rs:92-161 | on any bytes, accepts exactly the checked payloads that start with an entry's encoding and returns that entry; the size and checksum errors come exactly when they apply |
| WalCodec.DecodeItem | crates/index/src/blob.rs:135-158 | never reads past the end, fails exactly if the bytes do not start with an item, and blames the vector exactly if the announced length does not fit |
| WalCodec.RoundTripIff | crates/index/src/blob.rs:73-161 | an encoded entry reads as itself, and only as itself, if and only if its counts fit in 32 bits |
| WalCodec.EncodeThenDecode | crates/index/src/blob.rs:73-161 | decoding an encoding gives the entry back if and only if its counts fit in 32 bits |

## Left out

- Recall, connectivity of the graph and reachability of every node: eviction can isolate a node, and the code promises none of them.
- f32 arithmetic, SIMD distances, NaN, random levels and the scoring formula: they are parameters.
- mmap, madvise, raw pointers and file descriptors: words in arrays, and a map from file and slot to contents.
- The object store client, gRPC, JSON, credentials, the server binary and deployment files.
- Inserting into a bucket whose blocks are on disk or evicted, and the RPCs that move single buckets beside the snapshot task.
- The text of `manifest.json`, whose entry point and depth are passed on as values, the catalog beyond its log mark, and recovery of several collections.
- The `min_dirty_vectors` threshold: it only delays a cycle.
- Log files that fail to decode at recovery, which the code skips: uploaded entries are taken as intact.
- Liveness of the background loops: the runs allow any cycle to be given up or delayed; `Progress` proves that one can go through, not that it does.
- The vector store, recall evaluation and percentile helpers: they are outside the five parts modelled.
- Creating a collection again under the name of one that recovery did not find: it would share log numbers with the old one.
- `docs/hnsw_ivf_partitioning.md`: a design without code.
- Promises.NoPromiseIsBroken: claims that an id is stored, not in which bucket, as the next member.
- Runs.NothingAcknowledgedIsLost: claims that ids are stored, not in which bucket, because replay routes through the current front bucket.
- ArenaAlloc.Arena.AllocRaw: takes sizes of whole words only, because block memory is modelled as words and every node is a whole number of them.
- Grid.EvictionIffGapFree: assumes windows that end before 2^64 or strictly descending starts, because otherwise it is false (Grid.TieOutOfReach); Grid.EvictionExact has no such condition.
- Tiering.AnyMoves: uses one directory, and a slot there that passes its checksum is taken to hold the block of its number as it is; restoring from a directory with an older version of a block brings that version back.
- Tiering.LoadFromDir: is about a directory that holds an image, because only then is there a store to compare with; a directory that lost whole chunk files is read without error as fewer blocks, and what such a store answers is not described.
