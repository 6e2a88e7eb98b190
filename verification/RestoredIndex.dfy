// An index saved to a directory and loaded again: all of it, ready to be searched and inserted into.
module RestoredIndex {
  import opened Layout
  import opened Graph
  import opened NodeMemory
  import opened Options
  import opened ArenaStore
  import opened HnswIndex
  import opened Tiering
  import Bytes
  import LevelsFile
  import WalCodec
  import TimeBucket
  import BucketGraph

  // The map from nodes to vectors, from the loaded lists.
  method NodeMap(nodeIds: seq<Word>, vectorIds: seq<nat>) returns (m: map<Word, nat>)
    requires |nodeIds| == |vectorIds| && NoDup(nodeIds)
    ensures forall x :: x in m <==> x in nodeIds
    ensures forall i :: 0 <= i < |nodeIds| ==> nodeIds[i] in m && m[nodeIds[i]] == vectorIds[i]
  {
    m := map[];
    for i := 0 to |nodeIds|
      invariant forall x :: x in m <==> x in nodeIds[..i]
      invariant forall j :: 0 <= j < i ==> nodeIds[j] in m && m[nodeIds[j]] == vectorIds[j]
    {
      m := m[nodeIds[i] := vectorIds[i]];
    }
  }

  function AsU64(s: seq<nat>): (r: seq<Bytes.U64>)
    requires forall x :: x in s ==> x < 0x1_0000_0000_0000_0000
    ensures r == s
  {
    if s == [] then []
    else
      assert s[0] in s && forall x :: x in s[1..] ==> x in s;
      var x: Bytes.U64 := s[0];
      [x] + AsU64(s[1..])
  }

  function AsBytes(s: seq<nat>): (r: seq<Bytes.Byte>)
    requires forall x :: x in s ==> x < 256
    ensures r == s
  {
    if s == [] then []
    else
      assert s[0] in s && forall x :: x in s[1..] ==> x in s;
      var x: Bytes.Byte := s[0];
      [x] + AsBytes(s[1..])
  }

  // Save an index in memory, by snapshot or by swapping its blocks out, with its lists in the
  // levels file and its entry point and depth in the manifest, and load it again, marked clean:
  // the new index has the same nodes, vectors, rows, lists and entry point.
  method SaveAndRestore(h: Hnsw, dir: Directory, sum: WalCodec.Checksum, swap: bool) returns (r: Hnsw)
    requires h.Valid() && h.graph.AllInMemory() && dir.files == map[]
    requires |h.nodeIds| < 0x1_0000_0000_0000_0000 && forall v :: v in h.vectorIds ==> v < 0x1_0000_0000_0000_0000
    modifies dir, h.graph.BlockSet(), h.graph`Files, h.graph`Arenas, h.graph`Words
    ensures fresh(r) && fresh(r.graph) && r.Valid() && r.graph.AllInMemory() && !r.graph.HasDirtyBlocks()
    ensures r.p == h.p && r.efConstruction == h.efConstruction && r.dist == h.dist && r.score == h.score
    ensures r.graph.G == h.graph.G == old(h.graph.G) && r.graph.image == h.graph.image == old(h.graph.image)
    ensures r.nodeIds == h.nodeIds && r.vectorIds == h.vectorIds && r.levels == h.levels
    ensures r.nodeToVectorId == h.nodeToVectorId && r.entryPoint == h.entryPoint && r.maxDepth == h.maxDepth
    ensures forall s, seqNo, created ::
      BucketGraph.Mirrors(TimeBucket.AddRestored(s, seqNo, created, h.vectorIds).buckets[0], r)
  {
    hide ArenaNodeStore.Valid, ArenaNodeStore.AllInMemory, WellFormed, EntryAt, ListsMatch, ArenaNodeStore.BlockSet;
    Savable(h);
    var lists := LevelsFile.Lists(h.nodeIds, AsU64(h.vectorIds), AsBytes(h.levels));
    var store, loaded := SaveAndLoad(h.graph, dir, lists, sum, swap);
    store.value.MarkAllClean();
    var m := NodeMap(loaded.lists.nodeIds, loaded.lists.vectorIds);
    SameMap(h.graph.G, h.nodeIds, h.vectorIds, h.levels, h.nodeToVectorId, m);
    r := new Hnsw.Restored(h.p, h.efConstruction, h.dist, h.score, store.value, loaded.lists.nodeIds,
      loaded.lists.vectorIds,
                           loaded.lists.levels, m, h.entryPoint, h.maxDepth);
  }

  lemma SameMap(g: Graph, nodeIds: seq<Word>, vectorIds: seq<nat>, levels: seq<nat>, m: map<Word, nat>, n: map<Word,
      nat>)
    requires ListsMatch(g, nodeIds, vectorIds, levels, m) && forall x :: x in g <==> x in nodeIds
    requires forall x :: x in n <==> x in nodeIds
    requires forall i :: 0 <= i < |nodeIds| ==> nodeIds[i] in n && n[nodeIds[i]] == vectorIds[i]
    ensures n == m
  {
    forall x | x in m
      ensures x in n && n[x] == m[x]
    {
      var i :| 0 <= i < |nodeIds| && nodeIds[i] == x;
    }
  }

  // The lists fit the levels file.
  lemma Savable(h: Hnsw)
    requires h.Valid()
    ensures NoDup(h.nodeIds) && h.nodeIds == h.graph.ids && (forall x :: x in h.graph.G <==> x in h.nodeIds)
    ensures |h.vectorIds| == |h.nodeIds| == |h.levels| && forall l :: l in h.levels ==> l < 256
  {
    forall l | l in h.levels
      ensures l < 256
    {
      var i :| 0 <= i < |h.levels| && h.levels[i] == l;
      assert NodeStored(h.p, h.graph.image, h.nodeIds[i], h.graph.G[h.nodeIds[i]]);
    }
  }
}
