// A bucket of the time-bucket index and the graph inside it: the ids and version counters that
// the index and the durability protocol work with are those of an HNSW index over an arena store.
module BucketGraph {
  import opened Layout
  import opened Capacity
  import opened ArenaStore
  import opened HnswIndex
  import opened TimeBucket
  import opened BucketChanges

  ghost predicate Mirrors(b: Bucket, h: Hnsw)
    reads h, h.graph
  {
    b.ids == h.vectorIds && b.writes == h.graph.writeCount && b.clean == h.graph.cleanVersion <= h.graph.writeCount
  }

  // A graph just built mirrors a bucket just opened.
  lemma NewMirrors(s: State, start: nat, h: Hnsw)
    requires h.vectorIds == [] && h.graph.writeCount == 1 && h.graph.cleanVersion == 0
    ensures Mirrors(Alloc(s, start).buckets[0], h)
  {
  }

  // Inserting a vector is storing its id in the front bucket.
  method InsertOne(h: Hnsw, ghost s: State, vector: seq<Word>, id: nat, level: nat)
    requires h.Valid() && h.graph.AllInMemory() && |h.graph.blocks| < MAX_BLOCKS
    requires |vector| == h.p.dim && level <= MAX_LEVEL && TotalSize(h.p, level) <= ARENA_BYTES
    requires s.buckets != [] && Mirrors(s.buckets[0], h)
    modifies h, h.graph, h.graph.blocks, h.graph.Arenas, h.graph.Words
    ensures h.Valid() && Mirrors(Accept(s, id).buckets[0], h)
  {
    hide Hnsw.Valid, ArenaNodeStore.AllInMemory, TotalSize, Hnsw.Grown;
    UsedOne(h.graph.Using(), TotalSize(h.p, level));
    var _, _, _ := h.Insert(vector, id, level);
  }

  // Read a version, insert meanwhile, then mark that version clean: the graph still mirrors the
  // bucket, and it is clean exactly when nothing was inserted in between.
  method MarkAfterInserts(h: Hnsw, ghost b: Bucket, vectors: seq<seq<Word>>, ids: seq<nat>, lv: seq<nat>,
      numThreads: nat)
    requires h.Valid() && h.graph.AllInMemory() && 0 < numThreads && Mirrors(b, h)
    requires |ids| == |vectors| == |lv| && RoomFor(h.graph.Using(), Sizes(h.p, lv)) && h.Insertable(vectors, lv)
    modifies h, h.graph, h.graph.blocks, h.graph.Arenas, h.graph.Words
    ensures var written := b.(ids := b.ids + ids, writes := b.writes + |ids|);
      Mirrors(if ids == [] then written.(clean := written.writes) else written, h)
    ensures h.graph.HasDirtyBlocks() <==> vectors != []
  {
    hide Hnsw.Valid, ArenaNodeStore.AllInMemory, ArenaNodeStore.Using, Hnsw.Grown, Hnsw.Insertable, Used, RoomFor,
      Sizes;
    var version := h.graph.writeCount;
    CountsUsed(h.graph, h.p, lv);
    var _, _, _ := h.InsertBatchParallel(vectors, ids, lv, numThreads);
    CountsNow(h.graph);
    h.graph.MarkCleanIfVersion(version);
  }

  lemma CountsUsed(g: ArenaNodeStore, p: Params, lv: seq<nat>)
    ensures var u := Used(g.Using(), Sizes(p, lv)); u.writes == g.writeCount + |lv| && u.clean == g.cleanVersion
  {
    UsedCounts(g.Using(), Sizes(p, lv));
  }

  lemma CountsNow(g: ArenaNodeStore)
    ensures g.Using().writes == g.writeCount && g.Using().clean == g.cleanVersion
  {
  }

  // A version mark is the same mark on both.
  method MarkClean(h: Hnsw, ghost s: State, ghost seqNo: nat, version: nat)
    requires Find(s.buckets, seqNo) < |s.buckets| && Mirrors(s.buckets[Find(s.buckets, seqNo)], h)
    modifies h.graph`cleanVersion
    ensures Mirrors(MarkCleanIf(s, seqNo, version).buckets[Find(s.buckets, seqNo)], h)
    ensures h.graph.HasDirtyBlocks() <==> Dirty(MarkCleanIf(s, seqNo, version), seqNo)
  {
    var i, t := Find(s.buckets, seqNo), MarkCleanIf(s, seqNo, version);
    SameNumbers(s.buckets, t.buckets, seqNo);
    h.graph.MarkCleanIfVersion(version);
  }
}
