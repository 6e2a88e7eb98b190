// The HNSW index over an arena node store: insertion, batch insertion and search.
//
// Rounding, NaN and randomness are outside: distances and scores are integers, and the level
// of a new node is a parameter.
module HnswIndex {
  import opened Layout
  import opened Graph
  import opened Linking
  import opened NodeMemory
  import opened Options
  import opened ArenaStore
  import opened Capacity
  import opened Reachability
  import opened Heaps
  import opened Search

  const MIN_GREEDY_SEARCH_LEVEL: int := 3
  const BEAM_SEARCH_EF: nat := 5

  // A slot of a stored row that is not a sentinel holds a neighbour.
  lemma PadElement(row: seq<Word>, cap: nat, i: nat)
    requires |row| <= cap && i < cap
    ensures Pad(row, cap)[i] != INVALID ==> Pad(row, cap)[i] in row
  {
  }

  lemma PadCoversRow(row: seq<Word>, cap: nat, y: Word)
    requires |row| <= cap && INVALID !in row && y in row
    ensures exists i :: 0 <= i < cap && Pad(row, cap)[i] == y && y != INVALID
  {
    var i :| 0 <= i < |row| && row[i] == y;
    assert Pad(row, cap)[i] == y;
  }

  // ── Insertion plans ──

  // Neighbours chosen for a new node, per level, with their scores.
  datatype InsertPlan = InsertPlan(level: nat, neighbors: seq<seq<Cand>>)

  // One committed member of a batch: its plan, and the graphs its commit passed through.
  datatype CommitStep = CommitStep(id: Word, member: nat, plan: InsertPlan, trail: seq<Graph>)

  // Where searches start: the entry point and its level, -1 if there is none.
  datatype Top = Top(entry: Option<Word>, depth: int)

  datatype Moment = Moment(graph: Graph, top: Top)

  ghost predicate CommittedIn(log: seq<CommitStep>, i: nat) {
    exists j :: 0 <= j < |log| && log[j].member == i
  }

  function Promoted(top: Top, id: Word, level: nat): Top {
    if level > top.depth then Top(Some(id), level) else top
  }

  // The top after the members of `log` joined a graph with the given one.
  function TopAfter(top: Top, log: seq<CommitStep>): Top {
    if log == [] then top
    else
      var last := log[|log| - 1];
      Promoted(TopAfter(top, log[..|log| - 1]), last.id, last.plan.level)
  }

  lemma TopSnoc(top: Top, log: seq<CommitStep>, step: CommitStep)
    ensures TopAfter(top, log + [step]) == Promoted(TopAfter(top, log), step.id, step.plan.level)
  {
    assert (log + [step])[..|log|] == log;
  }

  // Plan `a` records a smaller score than plan `b` for a level-0 neighbour of both.
  ghost predicate TakesCloser(a: InsertPlan, b: InsertPlan) {
    && a.neighbors != [] && b.neighbors != []
    && exists c, e :: c in a.neighbors[0] && e in b.neighbors[0] && c.id == e.id && c.d < e.d
  }

  // A member committed before member `i` took one of the neighbours planned for it.
  ghost predicate Overtaken(log: seq<CommitStep>, plan: InsertPlan, i: nat) {
    exists j :: 0 <= j < |log| && log[j].member < i && TakesCloser(log[j].plan, plan)
  }

  lemma StillOvertaken(log: seq<CommitStep>, step: CommitStep, plan: InsertPlan, i: nat)
    requires Overtaken(log, plan, i)
    ensures Overtaken(log + [step], plan, i)
  {
    hide TakesCloser;
    var j :| 0 <= j < |log| && log[j].member < i && TakesCloser(log[j].plan, plan);
    assert TakesCloser((log + [step])[j].plan, plan);
  }

  // The level-0 scores of the committed plans, as maps.
  ghost predicate Recorded(log: seq<CommitStep>, maps: seq<map<int, int>>) {
    && |maps| == |log|
    && forall j :: 0 <= j < |log| ==> log[j].plan.neighbors != [] && MapOf(log[j].plan.neighbors[0], maps[j])
  }

  ghost predicate MapOf(row: seq<Cand>, m: map<int, int>) {
    (forall id :: id in m <==> HasId(row, id)) && forall c :: c in row ==> c.id in m && m[c.id] == c.d
  }

  lemma CloserMeans(log: seq<CommitStep>, maps: seq<map<int, int>>, plan: InsertPlan, i: nat)
    requires Recorded(log, maps) && plan.neighbors != []
    requires forall j :: 0 <= j < |log| ==> log[j].member < i
    ensures (exists c, m :: c in plan.neighbors[0] && m in maps && c.id in m && m[c.id] < c.d)
      <==> Overtaken(log, plan, i)
  {
    if c, m :| c in plan.neighbors[0] && m in maps && c.id in m && m[c.id] < c.d {
      var j :| 0 <= j < |maps| && maps[j] == m;
      assert MapOf(log[j].plan.neighbors[0], maps[j]);
      var e :| e in log[j].plan.neighbors[0] && e.id == c.id;
      assert TakesCloser(log[j].plan, plan);
    }
    if j :| 0 <= j < |log| && TakesCloser(log[j].plan, plan) {
      var e, c :| e in log[j].plan.neighbors[0] && c in plan.neighbors[0] && e.id == c.id && e.d < c.d;
      assert MapOf(log[j].plan.neighbors[0], maps[j]);
      assert maps[j] in maps && c.id in maps[j] && maps[j][c.id] < c.d;
    }
  }

  // `g` with the new nodes, none of them connected.
  ghost function WithNodes(g: Graph, newIds: seq<Word>, vectors: seq<seq<Word>>, lv: seq<nat>): Graph
    requires |newIds| == |vectors| == |lv|
  {
    if newIds == [] then g
    else
      var n := |newIds| - 1;
      WithNodes(g, newIds[..n], vectors[..n], lv[..n])[newIds[n] := GNode(vectors[n], EmptyRows(lv[n]))]
  }

  // A node a search can come upon: the entry point, or one with an edge.
  ghost predicate Attached(g: Graph, entry: Option<Word>, x: Word) {
    entry == Some(x) || (x in g && !Isolated(g, x))
  }

  lemma NotAttached(g: Graph, entry: Option<Word>, x: Word)
    requires entry != Some(x) && Isolated(g, x)
    ensures !Attached(g, entry, x)
  {
  }

  ghost predicate PlanRowOk(p: Params, g: Graph, entry: Option<Word>, l: nat, row: seq<Cand>) {
    && |row| <= Cap(p, l) && DistinctIds(row)
    && forall c :: c in row ==> c.id in g && HasRow(g, c.id, l) && Attached(g, entry, c.id)
  }

  // A plan names at most `cap` distinct nodes per level, each allocated with that level and
  // none of them still unconnected.
  ghost predicate PlanOk(p: Params, g: Graph, entry: Option<Word>, plan: InsertPlan) {
    && |plan.neighbors| == plan.level + 1
    && forall l: nat :: l <= plan.level ==> PlanRowOk(p, g, entry, l, plan.neighbors[l])
  }

  // The plan can be committed for `nid`: its neighbours exist, and `nid` is not one of them.
  ghost predicate Committable(p: Params, g: Graph, nid: Word, plan: InsertPlan) {
    && |plan.neighbors| == plan.level + 1
    && forall l: nat :: l <= plan.level ==> RowCommittable(p, g, nid, l, plan.neighbors[l])
  }

  ghost predicate RowCommittable(p: Params, g: Graph, nid: Word, l: nat, row: seq<Cand>) {
    && |row| <= Cap(p, l) && DistinctIds(row)
    && forall c :: c in row ==> c.id in g && HasRow(g, c.id, l) && c.id != nid
  }

  ghost predicate Mentions(plan: InsertPlan, x: Word) {
    exists l, c :: 0 <= l < |plan.neighbors| && c in plan.neighbors[l] && c.id == x
  }

  // A plan made on `g` can be committed on any later graph for a node it could not have seen.
  lemma PlanCommittable(p: Params, g: Graph, h: Graph, entry: Option<Word>, nid: Word, plan: InsertPlan)
    requires PlanOk(p, g, entry, plan)
    requires forall x :: x in g ==> x in h && |h[x].rows| == |g[x].rows|
    requires !Attached(g, entry, nid)
    ensures Committable(p, h, nid, plan) && !Mentions(plan, nid)
  {
    forall l: nat | l <= plan.level
      ensures RowCommittable(p, h, nid, l, plan.neighbors[l])
    {
      assert PlanRowOk(p, g, entry, l, plan.neighbors[l]);
    }
  }

  // While the rows of `nid` are connected level by level, from level `l` on: rows of `nid`
  // still empty above, filled from the plan below, and bystanders stay unconnected.
  ghost predicate HalfCommitted(g: Graph, h: Graph, nid: Word, plan: InsertPlan, l: nat) {
    && SameNodes(g, h)
    && (forall k: nat :: l <= k && HasRow(h, nid, k) ==> Row(h, nid, k) == [])
    && (forall k: nat, x :: k < l && k < |plan.neighbors| && HasRow(h, nid, k) && x in Row(h, nid, k) ==>
      HasId(plan.neighbors[k], x))
    && (forall x :: x != nid && x in g && Isolated(g, x) && !Mentions(plan, x) ==> Isolated(h, x))
  }

  lemma CommitLevel(g: Graph, h: Graph, h': Graph, nid: Word, plan: InsertPlan, l: nat, ids: seq<Word>)
    requires HalfCommitted(g, h, nid, plan, l) && l < |plan.neighbors| && HasRow(h, nid, l)
    requires |ids| == |plan.neighbors[l]| && forall i :: 0 <= i < |ids| ==> ids[i] == plan.neighbors[l][i].id
    requires ChangedAt(h, h', l, [nid] + ids) && forall x :: x in Row(h', nid, l) ==> x in ids
    ensures HalfCommitted(g, h', nid, plan, l + 1)
  {
    forall x | x in ids
      ensures HasId(plan.neighbors[l], x) && Mentions(plan, x)
    {
      var i :| 0 <= i < |ids| && ids[i] == x;
      assert plan.neighbors[l][i] in plan.neighbors[l];
    }
    forall x | x != nid && x in g && Isolated(g, x) && !Mentions(plan, x)
      ensures Isolated(h', x)
    {
      assert Isolated(h, x) && x !in ids;
      forall k: nat | HasRow(h', x, k)
        ensures Row(h', x, k) == []
      {
        assert HasRow(h, x, k);
      }
    }
  }

  // ── Batches ──

  // `h` has the nodes of `g`, unchanged in vector and level, and the new ones besides.
  ghost predicate Extends(g: Graph, h: Graph, newIds: seq<Word>, vectors: seq<seq<Word>>, lv: seq<nat>) {
    && |newIds| == |vectors| == |lv| && NoDup(newIds)
    && (forall x :: x in h <==> x in g || x in newIds)
    && (forall x :: x in g ==> x !in newIds && h[x].vector == g[x].vector && |h[x].rows| == |g[x].rows|)
    && (forall i :: 0 <= i < |newIds| ==> h[newIds[i]].vector == vectors[i] && |h[newIds[i]].rows| == lv[i] + 1)
  }

  lemma ExtendsNone(g: Graph)
    ensures Extends(g, g, [], [], [])
  {
  }

  lemma SlicesStart(vectors: seq<seq<Word>>, ids: seq<nat>, lv: seq<nat>)
    ensures vectors[..0] == [] && ids[..0] == [] && lv[..0] == []
  {
  }

  lemma ExtendsOne(g: Graph, h: Graph, id: Word, vector: seq<Word>, level: nat)
    requires id !in g && SameNodes(g[id := GNode(vector, EmptyRows(level))], h)
    ensures Extends(g, h, [id], [vector], [level])
  {
  }

  lemma ExtendsMore(g: Graph, h: Graph, k: Graph, a: seq<Word>, b: seq<Word>, vectors: seq<seq<Word>>, lv: seq<nat>,
      n: nat, m: nat)
    requires n <= m <= |vectors| == |lv|
    requires Extends(g, h, a, vectors[..n], lv[..n])
    requires Extends(h, k, b, vectors[n..m], lv[n..m]) || (m == n + 1 && Extends(h, k, b, [vectors[n]], [lv[n]]))
    ensures Extends(g, k, a + b, vectors[..m], lv[..m])
  {
    assert m == n + 1 ==> vectors[n..m] == [vectors[n]] && lv[n..m] == [lv[n]];
    forall x | x in a
      ensures x in h && x !in b
    {
    }
    assert NoDup(a + b);
    forall i | 0 <= i < |a + b|
      ensures k[(a + b)[i]].vector == vectors[..m][i] && |k[(a + b)[i]].rows| == lv[..m][i] + 1
    {
      if i < |a| {
        assert a[i] in h && vectors[..n][i] == vectors[i];
      } else {
        assert vectors[n..m][i - n] == vectors[i];
      }
    }
  }

  // Part of a batch is committed: the rest is unconnected and nobody's entry point, and no
  // connected node is above the entry point.
  ghost predicate BatchState(g: Graph, h: Graph, newIds: seq<Word>, vectors: seq<seq<Word>>, lv: seq<nat>,
                             done: seq<nat>, entry: Option<Word>, depth: int)
  {
    && Extends(g, h, newIds, vectors, lv)
    && (forall i: nat :: i < |newIds| && i !in done ==> Isolated(h, newIds[i]) && entry != Some(newIds[i]))
    && (forall i: nat :: i < |newIds| && i in done ==> lv[i] <= depth)
    && (forall x :: x in g ==> |g[x].rows| <= depth + 1)
  }

  lemma BatchAlloc(g: Graph, h: Graph, newIds: seq<Word>, vectors: seq<seq<Word>>, lv: seq<nat>, n: nat,
                   id: Word, entry: Option<Word>, depth: int)
    requires n < |vectors| == |lv| && BatchState(g, h, newIds, vectors[..n], lv[..n], [], entry, depth)
    requires id !in h && entry != Some(id)
    ensures BatchState(g, h[id := GNode(vectors[n], EmptyRows(lv[n]))], newIds + [id], vectors[..n + 1], lv[..n + 1],
      [], entry, depth)
  {
    var h' := h[id := GNode(vectors[n], EmptyRows(lv[n]))];
    var ids' := newIds + [id];
    forall i: nat | i < |ids'|
      ensures Isolated(h', ids'[i])
    {
      if i < |newIds| {
        assert newIds[i] in newIds && newIds[i] in h && Isolated(h, newIds[i]);
        forall l: nat | HasRow(h', newIds[i], l)
          ensures Row(h', newIds[i], l) == []
        {
          assert HasRow(h, newIds[i], l);
        }
      }
    }
  }

  // Committing member `i` by a plan that names no other waiting member.
  lemma BatchCommit(g: Graph, h: Graph, h': Graph, newIds: seq<Word>, vectors: seq<seq<Word>>, lv: seq<nat>,
                    done: seq<nat>, entry: Option<Word>, depth: int, i: nat, plan: InsertPlan)
    requires BatchState(g, h, newIds, vectors, lv, done, entry, depth)
    requires i < |newIds| && i !in done && plan.level == lv[i]
    requires HalfCommitted(h, h', newIds[i], plan, plan.level + 1)
    requires forall j: nat :: j < |newIds| && j !in done ==> !Mentions(plan, newIds[j])
    ensures BatchState(g, h', newIds, vectors, lv, done + [i],
                       if lv[i] > depth then Some(newIds[i]) else entry, if lv[i] > depth then lv[i] else depth)
  {
    forall j: nat | j < |newIds| && j !in done + [i]
      ensures Isolated(h', newIds[j]) && newIds[j] != newIds[i]
    {
      assert j !in done && j != i;
      assert newIds[j] in newIds;
    }
  }

  // A plan names no waiting member if it was made before the batch, or if it was made now.
  lemma PlanNamesNoWaiting(p: Params, g: Graph, h: Graph, now: Graph, newIds: seq<Word>, vectors: seq<seq<Word>>,
      lv: seq<nat>,
                           done: seq<nat>, entry: Option<Word>, planEntry: Option<Word>, depth: int, plan: InsertPlan)
    requires BatchState(g, now, newIds, vectors, lv, done, entry, depth)
    requires PlanOk(p, h, planEntry, plan)
    requires (h == g && (planEntry.Some? ==> planEntry.value in g)) || (h == now && planEntry == entry)
    ensures forall j: nat :: j < |newIds| && j !in done ==>
      !Mentions(plan, newIds[j]) && Committable(p, now, newIds[j], plan)
  {
    forall j: nat | j < |newIds| && j !in done
      ensures !Mentions(plan, newIds[j]) && Committable(p, now, newIds[j], plan)
    {
      assert newIds[j] in newIds;
      assert !Attached(h, planEntry, newIds[j]);
      PlanCommittable(p, h, now, planEntry, newIds[j], plan);
    }
  }

  lemma BatchDone(g: Graph, h: Graph, newIds: seq<Word>, vectors: seq<seq<Word>>, lv: seq<nat>,
                  done: seq<nat>, entry: Option<Word>, depth: int)
    requires BatchState(g, h, newIds, vectors, lv, done, entry, depth)
    requires forall i: nat :: i < |newIds| ==> i in done
    ensures forall x :: x in h ==> |h[x].rows| <= depth + 1
  {
    forall x | x in h
      ensures |h[x].rows| <= depth + 1
    {
      if x !in g {
        var i :| 0 <= i < |newIds| && newIds[i] == x;
      }
    }
  }

  lemma ReachedAttached(p: Params, g: Graph, entry: Option<Word>, l: nat, a: Word, x: Word)
    requires WellFormed(p, g) && Attached(g, entry, a) && Reach(g, l, a, x)
    ensures Attached(g, entry, x)
  {
    if a != x {
      ReachedHasEdge(p, g, l, a, x);
    }
  }

  ghost predicate ListsMatch(g: Graph, nodeIds: seq<Word>, vectorIds: seq<nat>, levels: seq<nat>,
      nodeToVectorId: map<Word, nat>) {
    && |vectorIds| == |nodeIds| && |levels| == |nodeIds| && nodeToVectorId.Keys == g.Keys
    && forall i :: 0 <= i < |nodeIds| ==>
         nodeIds[i] in g && levels[i] == Level(g[nodeIds[i]]) && nodeToVectorId[nodeIds[i]] == vectorIds[i]
  }

  // The id lists after the first vectors of a batch were inserted as `newIds`.
  ghost predicate Appended(nodes0: seq<Word>, vectors0: seq<nat>, levels0: seq<nat>, nodes: seq<Word>,
      vectors: seq<nat>, levels: seq<nat>, newIds: seq<Word>, ids: seq<nat>, lv: seq<nat>) {
    && |newIds| <= |ids| == |lv|
    && nodes == nodes0 + newIds && vectors == vectors0 + ids[..|newIds|] && levels == levels0 + lv[..|newIds|]
  }

  lemma AppendedNone(nodes: seq<Word>, vectors: seq<nat>, levels: seq<nat>, ids: seq<nat>, lv: seq<nat>)
    requires |ids| == |lv|
    ensures Appended(nodes, vectors, levels, nodes, vectors, levels, [], ids, lv)
  {
  }

  lemma AppendedOne(nodes0: seq<Word>, vectors0: seq<nat>, levels0: seq<nat>, nodes: seq<Word>, vectors: seq<nat>,
      levels: seq<nat>, newIds: seq<Word>, ids: seq<nat>, lv: seq<nat>, id: Word)
    requires Appended(nodes0, vectors0, levels0, nodes, vectors, levels, newIds, ids, lv) && |newIds| < |ids| == |lv|
    ensures var i := |newIds|;
      Appended(nodes0, vectors0, levels0, nodes + [id], vectors + [ids[i]], levels + [lv[i]], newIds + [id], ids, lv)
  {
    var i := |newIds|;
    assert ids[..i + 1] == ids[..i] + [ids[i]] && lv[..i + 1] == lv[..i] + [lv[i]];
  }

  ghost predicate EntryAt(g: Graph, entry: Option<Word>, depth: int) {
    match entry
    case None => depth == -1
    case Some(e) => 0 <= depth && e in g && |g[e].rows| == depth + 1
  }

  lemma EntryStays(g: Graph, entry: Option<Word>, depth: int, id: Word, n: GNode)
    requires EntryAt(g, entry, depth) && id !in g
    ensures EntryAt(g[id := n], entry, depth)
  {
  }

  lemma ListsGrow(g: Graph, nodeIds: seq<Word>, vectorIds: seq<nat>, levels: seq<nat>, nodeToVectorId: map<Word, nat>,
                  id: Word, n: GNode, vectorId: nat)
    requires ListsMatch(g, nodeIds, vectorIds, levels, nodeToVectorId) && id !in g
    ensures ListsMatch(g[id := n], nodeIds + [id], vectorIds + [vectorId], levels + [Level(n)],
      nodeToVectorId[id := vectorId])
  {
  }

  class Hnsw {
    const p: Params
    const efConstruction: nat
    const dist: Metric
    // `degree_penalized_score`: a candidate's distance and its current raw row.
    const score: (int, seq<Word>) -> int
    const graph: ArenaNodeStore
    var maxDepth: int
    var entryPoint: Option<Word>
    var nodeIds: seq<Word>
    var vectorIds: seq<nat>
    var levels: seq<nat>
    var nodeToVectorId: map<Word, nat>

    // The id lists describe the nodes of the store.
    ghost predicate Listed()
      reads this, graph
    {
      nodeIds == graph.ids && ListsMatch(graph.G, nodeIds, vectorIds, levels, nodeToVectorId)
    }

    // The entry point is a node of level `maxDepth`.
    ghost predicate EntryOk()
      reads this, graph
    {
      EntryAt(graph.G, entryPoint, maxDepth)
    }

    // Holds between any two steps of an insertion.
    ghost predicate Consistent()
      reads this, graph, graph.blocks, graph.Arenas, graph.Files, graph.Words
    {
      && p.Valid() && graph.p == p && graph.dist == dist && p.m <= efConstruction
      && graph.Valid() && WellFormed(p, graph.G) && Listed() && EntryOk()
    }

    // Holds between calls: no node is above the entry point.
    ghost predicate Valid()
      reads this, graph, graph.blocks, graph.Arenas, graph.Files, graph.Words
    {
      && Consistent()
      && (forall id :: id in graph.G ==> |graph.G[id].rows| <= maxDepth + 1)
    }

    constructor (p: Params, efConstruction: nat, dist: Metric, score: (int, seq<Word>) -> int, crc: seq<Word> -> Word)
      requires p.Valid() && p.m <= efConstruction
      ensures Valid() && graph.G == map[] && graph.AllInMemory() && fresh(graph)
      ensures graph.blocks == [] && graph.Arenas == {} && graph.Files == {} && graph.Words == {}
      ensures vectorIds == [] && entryPoint.None? && graph.writeCount == 1 && graph.cleanVersion == 0
    {
      this.p := p;
      this.efConstruction := efConstruction;
      this.dist := dist;
      this.score := score;
      maxDepth, entryPoint := -1, None;
      nodeIds, vectorIds, levels, nodeToVectorId := [], [], [], map[];
      graph := new ArenaNodeStore(p, dist, crc);
    }

    // Take over a loaded store and the lists, entry point and depth saved beside it.
    constructor Restored(p: Params, efConstruction: nat, dist: Metric, score: (int, seq<Word>) -> int,
        graph: ArenaNodeStore,
                         nodeIds: seq<Word>, vectorIds: seq<nat>, levels: seq<nat>, nodeToVectorId: map<Word, nat>,
                         entryPoint: Option<Word>, maxDepth: int)
      requires p.Valid() && p.m <= efConstruction && graph.p == p && graph.dist == dist
      requires graph.Valid() && WellFormed(p, graph.G) && nodeIds == graph.ids
      requires ListsMatch(graph.G, nodeIds, vectorIds, levels, nodeToVectorId)
      requires EntryAt(graph.G, entryPoint, maxDepth) && forall x :: x in graph.G ==> |graph.G[x].rows| <= maxDepth + 1
      ensures Valid() && this.graph == graph && this.p == p && this.efConstruction == efConstruction
      ensures this.dist == dist && this.score == score
      ensures this.nodeIds == nodeIds && this.vectorIds == vectorIds && this.levels == levels
      ensures this.nodeToVectorId == nodeToVectorId && this.entryPoint == entryPoint && this.maxDepth == maxDepth
    {
      this.p := p;
      this.efConstruction := efConstruction;
      this.dist := dist;
      this.score := score;
      this.graph := graph;
      this.nodeIds, this.vectorIds, this.levels, this.nodeToVectorId := nodeIds, vectorIds, levels, nodeToVectorId;
      this.entryPoint, this.maxDepth := entryPoint, maxDepth;
    }

    ghost function Setting(q: seq<Word>, ep: Word, ef: nat, level: nat): Query
      reads graph
    {
      Query(dist, q, graph.G, level, ep, ef)
    }

    method DistSq(q: seq<Word>, id: Word) returns (d: int)
      requires graph.Valid() && graph.NoneEvicted() && id in graph.G
      ensures d == dist(q, graph.G[id].vector)
    {
      graph.InStore(id);
      var v := graph.VectorAt(id);
      d := dist(q, v);
    }

    // ── Search ──

    // Beam search: the closest `ef` nodes found from `ep` at one level, with their distances.
    method SearchLevel(q: seq<Word>, ep: Word, ef: nat, level: nat) returns (w: seq<Cand>, ghost seen: set<Word>)
      requires Consistent() && graph.NoneEvicted() && HasRow(graph.G, ep, level) && 1 <= ef
      ensures LocallyBest(Setting(q, ep, ef, level), w)
      ensures SearchResult(Setting(q, ep, ef, level), w, seen)
    {
      hide ArenaNodeStore.Valid, ArenaNodeStore.NoneEvicted, WellFormed, Searching, Found, SearchResult, Expanded,
        Reach, LocallyBest;
      ghost var k := Setting(q, ep, ef, level);
      WellFormedClosed(p, graph.G, level);
      var visited := {ep};
      var d0 := DistSq(q, ep);
      w := [Cand(d0, ep)];
      var candidates := [Cand(d0, ep)];
      StartSearching(k);
      while candidates != []
        invariant Searching(k, visited, w, candidates, {})
        invariant visited <= graph.G.Keys
        decreases graph.G.Keys - visited, |candidates|
      {
        PopCandidate(k, visited, w, candidates);
        var c := candidates[0];
        if |w| == ef && c.d > Worst(w).d {
          StopEarly(k, visited, w, candidates);
          ResultLocallyBest(k, w, visited);
          seen := visited;
          return;
        }
        ghost var before := visited;
        visited, w, candidates := ExpandNode(k, q, ef, level, c.id, visited, w, candidates[1..]);
      }
      seen := visited;
      QueueEmpty(k, visited, w);
      ResultLocallyBest(k, w, visited);
    }

    // One turn of the loop: look at the neighbours of `x` that have not been seen.
    method ExpandNode(ghost k: Query, q: seq<Word>, ef: nat, level: nat, x: Word,
                      visited0: set<Word>, w0: seq<Cand>, candidates0: seq<Cand>)
      returns (visited: set<Word>, w: seq<Cand>, candidates: seq<Cand>)
      requires graph.Valid() && graph.NoneEvicted() && graph.p == p && graph.dist == dist
      requires k == Setting(q, k.ep, ef, level) && Closed(k.g, level)
      requires x in visited0 && HasRow(k.g, x, level) && visited0 <= k.g.Keys
      requires Searching(k, visited0, w0, candidates0, {x})
      ensures Searching(k, visited, w, candidates, {})
      ensures visited0 <= visited <= k.g.Keys
      ensures visited == visited0 ==> candidates == candidates0
    {
      hide ArenaNodeStore.Valid, ArenaNodeStore.NoneEvicted, Searching, Found, Reach, Pad;
      ghost var row, cap := Row(k.g, x, level), Cap(p, level);
      graph.InStore(x);
      graph.RowBounds(x, level);
      visited, w, candidates := visited0, w0, candidates0;
      var raw := graph.NeighborsAt(x, level);
      var i := 0;
      while i < |raw|
        invariant 0 <= i <= |raw|
        invariant Searching(k, visited, w, candidates, {x})
        invariant visited0 <= visited <= k.g.Keys
        invariant visited == visited0 ==> candidates == candidates0
        invariant forall j :: 0 <= j < i ==> raw[j] == INVALID || raw[j] in visited
      {
        var e := raw[i];
        if e != INVALID {
          PadElement(row, cap, i);
          if e !in visited {
            assert HasRow(k.g, e, level) && NewNeighbour(k, visited, x, e);
            var de := DistSq(q, e);
            w, candidates := VisitNew(k, ef, visited, w, candidates, x, e, de);
            visited := visited + {e};
          }
        }
        i := i + 1;
      }
      forall y | y in row
        ensures y in visited
      {
        PadCoversRow(row, cap, y);
      }
      FinishExpanding(k, visited, w, candidates, x);
    }

    // Put a newly seen node into the result and the queue if there is room or it is closer.
    method VisitNew(ghost k: Query, ef: nat, ghost visited: set<Word>, w0: seq<Cand>, candidates0: seq<Cand>,
        ghost x: Word, e: Word, de: int)
      returns (w: seq<Cand>, candidates: seq<Cand>)
      requires e in k.g && de == D(k, e) && ef == k.ef
      requires Searching(k, visited, w0, candidates0, {x}) && NewNeighbour(k, visited, x, e)
      ensures Searching(k, visited + {e}, w, candidates, {x})
    {
      w, candidates := w0, candidates0;
      if |w| < ef {
        VisitWithRoom(k, visited, w, candidates, x, e);
        w := Push(w, Cand(de, e));
        candidates := Push(candidates, Cand(de, e));
      } else if de < Worst(w).d {
        VisitCloser(k, visited, w, candidates, x, e);
        w := Push(PopWorst(w), Cand(de, e));
        candidates := Push(candidates, Cand(de, e));
      } else {
        VisitFarther(k, visited, w, candidates, x, e);
      }
    }

    // Greedy descent: move to closer neighbours until no neighbour is strictly closer.
    method GreedyClosest(q: seq<Word>, start: Word, level: nat) returns (best: Word)
      requires Consistent() && graph.NoneEvicted() && HasRow(graph.G, start, level)
      ensures HasRow(graph.G, best, level) && Reach(graph.G, level, start, best)
      ensures dist(q, graph.G[best].vector) <= dist(q, graph.G[start].vector)
      ensures forall y :: y in Row(graph.G, best, level) ==>
                y in graph.G && dist(q, graph.G[best].vector) <= dist(q, graph.G[y].vector)
    {
      hide ArenaNodeStore.Valid, ArenaNodeStore.NoneEvicted, WellFormed, Reach, Closer;
      ghost var k := Setting(q, start, 1, level);
      WellFormedClosed(p, graph.G, level);
      best := start;
      var bestD := DistSq(q, best);
      ReachSelf(graph.G, level, start);
      while true
        invariant HasRow(graph.G, best, level) && Reach(graph.G, level, start, best)
        invariant bestD == D(k, best) <= D(k, start)
        decreases Closer(k, bestD)
      {
        var next, nextD := GreedyRound(k, q, level, best, bestD);
        if nextD == bestD {
          break;
        }
        CloserShrinks(k, bestD, next);
        ReachStep(graph.G, level, start, best, next);
        best, bestD := next, nextD;
      }
    }

    // One pass over the row of `cur`, keeping the closest node seen.
    method GreedyRound(ghost k: Query, q: seq<Word>, level: nat, cur: Word, curD: int) returns (best: Word, bestD: int)
      requires graph.Valid() && graph.NoneEvicted() && graph.p == p && graph.dist == dist
      requires k == Setting(q, k.ep, k.ef, level) && Closed(k.g, level)
      requires HasRow(k.g, cur, level) && curD == D(k, cur)
      ensures HasRow(k.g, best, level) && bestD == D(k, best) <= curD
      ensures bestD < curD ==> best in Row(k.g, cur, level)
      ensures bestD == curD ==> best == cur
      ensures forall y :: y in Row(k.g, cur, level) ==> y in k.g && bestD <= D(k, y)
    {
      hide ArenaNodeStore.Valid, ArenaNodeStore.NoneEvicted, Pad;
      ghost var row, cap := Row(k.g, cur, level), Cap(p, level);
      graph.InStore(cur);
      graph.RowBounds(cur, level);
      best, bestD := cur, curD;
      var raw := graph.NeighborsAt(cur, level);
      var i := 0;
      while i < |raw|
        invariant 0 <= i <= |raw|
        invariant HasRow(k.g, best, level) && bestD == D(k, best) <= curD
        invariant bestD < curD ==> best in row
        invariant bestD == curD ==> best == cur
        invariant forall j :: 0 <= j < i ==> raw[j] == INVALID || (raw[j] in k.g && bestD <= D(k, raw[j]))
      {
        var nb := raw[i];
        if nb != INVALID {
          PadElement(row, cap, i);
          assert HasRow(k.g, nb, level);
          var d := DistSq(q, nb);
          if d < bestD {
            best, bestD := nb, d;
          }
        }
        i := i + 1;
      }
      forall y | y in row
        ensures y in k.g && bestD <= D(k, y)
      {
        PadCoversRow(row, cap, y);
      }
    }

    // k nearest neighbours: greedy descent through the top levels, a narrow beam below, and a
    // beam of width `ef` at level 0.  `path` ends where the level-0 search began.
    method Search(query: seq<Word>, k: nat, ef0: nat)
      returns (r: seq<(nat, int)>, ghost path: seq<Word>, ghost w: seq<Cand>, ghost seen: set<Word>,
        ghost nodes: seq<Cand>)
      requires Valid() && graph.NoneEvicted() && 0 < k && |query| == p.dim
      ensures graph.G == map[] ==> r == []
      ensures graph.G != map[] ==>
                var ef := if k <= ef0 then ef0 else k;
                && path != [] && entryPoint.Some? && Descended(graph.G, query, maxDepth, entryPoint.value, path)
                && SearchResult(Query(dist, query, graph.G, 0, path[0], ef), w, seen) && BestOf(w, nodes, k)
                && Answers(nodes, r)
                && (|Component(graph.G, 0, path[0])| <= ef ==>
                  NearestOf(Query(dist, query, graph.G, 0, path[0], ef), nodes, k))
    {
      hide ArenaNodeStore.Valid, ArenaNodeStore.NoneEvicted, WellFormed, Reach, SearchResult, LocallyBest, NearestOf,
        BestOf, Listed, Descended, Answers, Component;
      path, w, seen, nodes := [], [], {}, [];
      var n := graph.Len();
      if n == 0 {
        EmptyStore();
        r := [];
        return;
      }
      var ef := if k <= ef0 then ef0 else k;
      NonEmptyStore();
      var ep;
      ep, path := Descend(query);
      var cands, visited := SearchLevel(query, ep, ef, 0);
      var nearest := NearestSorted(Setting(query, ep, ef, 0), visited, cands, k);
      w, seen, nodes := cands, visited, nearest;
      forall c | c in nearest
        ensures c.id in nodeToVectorId
      {
        Mapped(c.id);
      }
      r := VectorIdsOf(nearest);
    }

    // From the entry point down to where the level-0 search begins.
    method Descend(query: seq<Word>) returns (ep: Word, ghost path: seq<Word>)
      requires Valid() && graph.NoneEvicted() && entryPoint.Some? && 0 <= maxDepth
        && HasRow(graph.G, entryPoint.value, maxDepth)
      ensures path != [] && ep == path[0] && HasRow(graph.G, ep, 0)
      ensures Descended(graph.G, query, maxDepth, entryPoint.value, path)
    {
      hide ArenaNodeStore.Valid, ArenaNodeStore.NoneEvicted, WellFormed, Reach, SearchResult, LocallyBest, Listed,
        StepDown, OnTheWay;
      ep := entryPoint.value;
      var lc := maxDepth;
      path := [ep];
      WayStart(graph.G, query, maxDepth, ep);
      while lc > MIN_GREEDY_SEARCH_LEVEL
        invariant 0 <= lc && HasRow(graph.G, ep, lc)
        invariant path != [] && OnTheWay(graph.G, query, maxDepth, lc, entryPoint.value, path) && ep == path[0]
      {
        var next := GreedyClosest(query, ep, lc);
        GreedyStep(graph.G, query, lc, ep, next);
        WayDown(graph.G, query, maxDepth, lc, entryPoint.value, path, next);
        ep, path := next, [next] + path;
        lc := lc - 1;
      }
      while lc > 0
        invariant 0 <= lc <= MIN_GREEDY_SEARCH_LEVEL && HasRow(graph.G, ep, lc)
        invariant path != [] && OnTheWay(graph.G, query, maxDepth, lc, entryPoint.value, path) && ep == path[0]
      {
        var cands, visited := SearchLevel(query, ep, BEAM_SEARCH_EF, lc);
        var next := ClosestOf(Setting(query, ep, BEAM_SEARCH_EF, lc), visited, cands);
        BeamStep(graph.G, query, lc, ep, cands, visited, next);
        WayDown(graph.G, query, maxDepth, lc, entryPoint.value, path, next);
        ep, path := next, [next] + path;
        lc := lc - 1;
      }
    }

    // The vector ids and distances of nodes.
    method VectorIdsOf(nodes: seq<Cand>) returns (r: seq<(nat, int)>)
      requires forall c :: c in nodes ==> c.id in nodeToVectorId
      ensures Answers(nodes, r)
    {
      r := [];
      while |r| < |nodes|
        invariant |r| <= |nodes| && Answers(nodes[..|r|], r)
      {
        var c := nodes[|r|];
        assert c in nodes;
        assert nodes[..|r| + 1] == nodes[..|r|] + [c];
        r := r + [(nodeToVectorId[c.id], c.d)];
      }
      assert nodes[..|r|] == nodes;
    }

    // Each answer is the vector id and the distance of the node found.
    ghost predicate Answers(nodes: seq<Cand>, r: seq<(nat, int)>)
      reads `nodeToVectorId
    {
      && |r| == |nodes|
      && forall i :: 0 <= i < |r| ==> nodes[i].id in nodeToVectorId && r[i] == (nodeToVectorId[nodes[i].id], nodes[i].d)
    }

    // One level down from `ep` to `next`: above level 3 to a node that is no farther and has no
    // strictly closer neighbour, below that to the closest node a narrow beam finds.
    ghost predicate StepDown(g: Graph, query: seq<Word>, l: nat, ep: Word, next: Word) {
      var k := Query(dist, query, g, l, ep, BEAM_SEARCH_EF);
      && HasRow(g, ep, l) && HasRow(g, next, l) && Reach(g, l, ep, next)
      && if l > MIN_GREEDY_SEARCH_LEVEL then
           MovedCloser(g, query, l, ep, next)
         else
           exists w: seq<Cand>, seen: set<Word> :: SearchResult(k, w, seen) && HasId(w, next)
             && forall c :: c in w ==> D(k, next) <= c.d
    }

    // A greedy step: reached from `ep`, no farther than it, and without a strictly closer neighbour.
    ghost predicate MovedCloser(g: Graph, query: seq<Word>, l: nat, ep: Word, next: Word) {
      && HasRow(g, ep, l) && HasRow(g, next, l) && Reach(g, l, ep, next)
      && dist(query, g[next].vector) <= dist(query, g[ep].vector)
      && forall y :: y in Row(g, next, l) ==> y in g && dist(query, g[next].vector) <= dist(query, g[y].vector)
    }

    // The nodes from the entry point at level `depth` (last) down to level `l` (first).
    ghost predicate OnTheWay(g: Graph, query: seq<Word>, depth: int, l: int, entry: Word, path: seq<Word>) {
      && 0 <= l <= depth && |path| == depth - l + 1 && path[|path| - 1] == entry
      && forall i :: 0 <= i < |path| - 1 ==> StepDown(g, query, l + i + 1, path[i + 1], path[i])
    }

    ghost predicate Descended(g: Graph, query: seq<Word>, depth: int, entry: Word, path: seq<Word>) {
      OnTheWay(g, query, depth, 0, entry, path)
    }

    lemma WayStart(g: Graph, query: seq<Word>, depth: nat, entry: Word)
      ensures OnTheWay(g, query, depth, depth, entry, [entry])
    {
    }

    lemma WayDown(g: Graph, query: seq<Word>, depth: int, l: nat, entry: Word, path: seq<Word>, next: Word)
      requires 0 < l && OnTheWay(g, query, depth, l, entry, path) && StepDown(g, query, l, path[0], next)
      ensures OnTheWay(g, query, depth, l - 1, entry, [next] + path)
    {
      hide StepDown;
      var path' := [next] + path;
      forall i | 0 <= i < |path'| - 1
        ensures StepDown(g, query, l - 1 + i + 1, path'[i + 1], path'[i])
      {
        if i > 0 {
          assert StepDown(g, query, l + (i - 1) + 1, path[i], path[i - 1]);
        }
      }
    }

    lemma GreedyStep(g: Graph, query: seq<Word>, l: nat, ep: Word, next: Word)
      requires l > MIN_GREEDY_SEARCH_LEVEL && HasRow(g, ep, l) && HasRow(g, next, l) && Reach(g, l, ep, next)
      requires dist(query, g[next].vector) <= dist(query, g[ep].vector)
      requires forall y :: y in Row(g, next, l) ==> y in g && dist(query, g[next].vector) <= dist(query, g[y].vector)
      ensures StepDown(g, query, l, ep, next)
    {
    }

    lemma BeamStep(g: Graph, query: seq<Word>, l: nat, ep: Word, w: seq<Cand>, seen: set<Word>, next: Word)
      requires l <= MIN_GREEDY_SEARCH_LEVEL && HasRow(g, ep, l) && HasRow(g, next, l) && Reach(g, l, ep, next)
      requires SearchResult(Query(dist, query, g, l, ep, BEAM_SEARCH_EF), w, seen) && HasId(w, next)
      requires forall c :: c in w ==> D(Query(dist, query, g, l, ep, BEAM_SEARCH_EF), next) <= c.d
      ensures StepDown(g, query, l, ep, next)
    {
      hide SearchResult;
    }

    lemma Mapped(id: Word)
      requires Listed() && id in graph.G
      ensures id in nodeToVectorId
    {
    }

    // ── Insertion ──

    // Connect a new node to `neighbors` at one level: offer each the edge to it, keep those
    // that accept, and save them as its own row.
    method UpdateNeighbors(nid: Word, neighbors: seq<Word>, level: nat)
      requires graph.Valid() && graph.AllInMemory() && graph.p == p && graph.dist == dist && p.Valid()
      requires WellFormed(p, graph.G) && HasRow(graph.G, nid, level) && Row(graph.G, nid, level) == []
      requires Joinable(graph.G, nid, [], neighbors, level) && |neighbors| <= Cap(p, level)
      modifies graph`image, graph`G, graph.Words
      ensures graph.Valid() && graph.AllInMemory()
      ensures graph.G == Connected(dist, p, old(graph.G), nid, neighbors, level)
      ensures Linked(dist, p, old(graph.G), graph.G, nid, neighbors, level)
    {
      hide ArenaNodeStore.Valid, ArenaNodeStore.AllInMemory, WellFormed, PartlyOk, CanAdd, AddDirected, NoDup,
        ChangedAt, Linked;
      ConnectedLinks(dist, p, graph.G, nid, neighbors, level);
      ghost var g := graph.G;
      StartConnecting(p, g, nid, level);
      var good: seq<Word> := [];
      var i := 0;
      assert neighbors[0..] == neighbors;
      while i < |neighbors|
        invariant 0 <= i <= |neighbors| && |good| <= i
        invariant graph.Valid() && graph.AllInMemory()
        invariant Connecting(p, graph.G, nid, good, level) && Joinable(graph.G, nid, good, neighbors[i..], level)
        invariant ConnectRun(dist, p, graph.G, nid, good, neighbors[i..], level) == ConnectRun(dist, p, g, nid, [],
          neighbors, level)
      {
        var nb := neighbors[i];
        assert neighbors[i..][0] == nb && neighbors[i..][1..] == neighbors[i + 1..];
        ghost var g1, good1 := graph.G, good;
        ConnectOne(dist, p, g1, nid, good1, nb, level);
        AddDirectedChanges(dist, p, g1, nb, nid, level);
        graph.InStore(nb);
        var added := graph.AddDirectedEdge(nb, nid, level);
        if added {
          good := good + [nb];
        }
        JoinableRest(g1, graph.G, nid, good1, good, neighbors[i..], level);
        i := i + 1;
      }
      assert neighbors[i..] == [];
      graph.InStore(nid);
      forall x | x in good
        ensures x != INVALID
      {
        graph.InStore(x);
      }
      graph.SaveNeighbors(nid, good, level);
    }

    // ── What a plan is ──

    // The candidates of a beam search with the scores their distances and rows give.
    ghost predicate ScoredBy(g: Graph, l: nat, w: seq<Cand>, scored: seq<Cand>) {
      && |scored| == |w|
      && forall i :: 0 <= i < |w| ==>
           w[i].id in g && HasRow(g, w[i].id, l)
           && scored[i] == Cand(score(w[i].d, Pad(Row(g, w[i].id, l), Cap(p, l))), w[i].id)
    }

    // `row` keeps the candidates of least score, up to the capacity, of what a beam search from
    // `ep` found, in no particular order.
    ghost predicate Selected(g: Graph, vector: seq<Word>, ep: Word, l: nat, row: seq<Cand>) {
      exists w, seen, scored ::
        SearchResult(Query(dist, vector, g, l, ep, efConstruction), w, seen) && ScoredBy(g, l, w, scored)
          && KeepsBest(scored, row, Cap(p, l))
        && (|scored| <= Cap(p, l) ==> row == scored)
    }

    // Greedy steps from the top (last) down to level `l` (first).
    ghost predicate GreedyPath(g: Graph, vector: seq<Word>, top: Top, l: nat, path: seq<Word>) {
      && l <= top.depth && |path| == top.depth - l + 1 && top.entry == Some(path[|path| - 1])
      && forall i :: 0 <= i < |path| - 1 ==> MovedCloser(g, vector, l + i + 1, path[i + 1], path[i])
    }

    ghost predicate StartsAt(g: Graph, vector: seq<Word>, top: Top, l: nat, ep: Word) {
      exists path :: GreedyPath(g, vector, top, l, path) && path[0] == ep
    }

    // Level `l` of a plan: selected from the best neighbour of the level above; for the highest
    // level of both node and graph, from where the greedy descent ended; empty above the graph.
    ghost predicate LevelPlanned(g: Graph, top: Top, vector: seq<Word>, level: nat, rows: seq<seq<Cand>>, l: nat)
      requires l <= level < |rows|
    {
      if l <= top.depth then
        exists ep :: Selected(g, vector, ep, l, rows[l]) && StartsLevel(g, top, vector, level, rows, l, ep)
      else rows[l] == []
    }

    ghost predicate StartsLevel(g: Graph, top: Top, vector: seq<Word>, level: nat, rows: seq<seq<Cand>>, l: nat,
        ep: Word)
      requires l <= level < |rows|
    {
      if l < level && l < top.depth then rows[l + 1] != [] && ep == Least(rows[l + 1]).id
      else StartsAt(g, vector, top, l, ep)
    }

    // The plan for a vector against a graph with the given top.
    ghost predicate Planned(g: Graph, top: Top, vector: seq<Word>, plan: InsertPlan) {
      |plan.neighbors| == plan.level + 1 && forall l: nat :: l <= plan.level ==>
        LevelPlanned(g, top, vector, plan.level, plan.neighbors, l)
    }

    function CurrentTop(): Top
      reads `entryPoint, `maxDepth
    {
      Top(entryPoint, maxDepth)
    }

    // ── What a commit does ──

    ghost predicate Names(row: seq<Cand>, ids: seq<Word>) {
      |ids| == |row| && forall i :: 0 <= i < |ids| ==> ids[i] == row[i].id
    }

    // Connecting `nid` to the planned neighbours of level `l` turns `g` into `h`.
    ghost predicate ConnectStep(g: Graph, h: Graph, nid: Word, row: seq<Cand>, l: nat) {
      && p.Valid() && WellFormed(p, g) && HasRow(g, nid, l) && Row(g, nid, l) == []
      && exists ids ::
        && Names(row, ids) && |ids| <= Cap(p, l) && Joinable(g, nid, [], ids, l)
        && h == Connected(dist, p, g, nid, ids, l)
    }

    // The graphs a commit passes through, level by level from the bottom.
    ghost predicate Trail(nid: Word, plan: InsertPlan, trail: seq<Graph>) {
      && |trail| == |plan.neighbors| + 1
      && forall l :: 0 <= l < |plan.neighbors| ==> ConnectStep(trail[l], trail[l + 1], nid, plan.neighbors[l], l)
    }

    // The node is linked at every level as its plan says.
    ghost predicate LinkedByPlan(g: Graph, h: Graph, nid: Word, plan: InsertPlan) {
      forall l :: 0 <= l < |plan.neighbors| ==> RowLinked(g, h, nid, plan.neighbors[l], l)
    }

    ghost predicate RowLinked(g: Graph, h: Graph, nid: Word, row: seq<Cand>, l: nat) {
      exists ids :: Names(row, ids) && Linked(dist, p, g, h, nid, ids, l)
    }

    lemma StepLinks(g: Graph, h: Graph, nid: Word, row: seq<Cand>, l: nat)
      requires ConnectStep(g, h, nid, row, l)
      ensures RowLinked(g, h, nid, row, l) && SameNodes(g, h) && forall k: nat :: k != l ==> SameLevel(g, h, k)
    {
      hide Linked, WellFormed, Joinable, Connected;
      var ids :| Names(row, ids) && |ids| <= Cap(p, l) && Joinable(g, nid, [], ids, l)
        && h == Connected(dist, p, g, nid, ids, l);
      ConnectedLinks(dist, p, g, nid, ids, l);
      ConnectedFacts(dist, p, g, nid, ids, l);
    }

    // From step `i` to step `j` only the levels between them change.
    lemma {:induction false} TrailKeepsLevel(nid: Word, plan: InsertPlan, trail: seq<Graph>, i: nat, j: nat, l: nat)
      requires Trail(nid, plan, trail) && i <= j < |trail| && (l < i || j <= l)
      ensures SameLevel(trail[i], trail[j], l)
      decreases j - i
    {
      hide SameLevel, ConnectStep, RowLinked;
      if i < j {
        TrailKeepsLevel(nid, plan, trail, i, j - 1, l);
        StepLinks(trail[j - 1], trail[j], nid, plan.neighbors[j - 1], j - 1);
        SameLevelTrans(trail[i], trail[j - 1], trail[j], l);
      } else {
        SameLevelSelf(trail[i], l);
      }
    }

    lemma TrailLinks(nid: Word, plan: InsertPlan, trail: seq<Graph>)
      requires Trail(nid, plan, trail)
      ensures LinkedByPlan(trail[0], trail[|trail| - 1], nid, plan)
    {
      hide SameLevel, ConnectStep, Linked;
      forall l | 0 <= l < |plan.neighbors|
        ensures RowLinked(trail[0], trail[|trail| - 1], nid, plan.neighbors[l], l)
      {
        TrailStep(nid, plan, trail, l);
        StepLinks(trail[l], trail[l + 1], nid, plan.neighbors[l], l);
        var ids :| Names(plan.neighbors[l], ids) && Linked(dist, p, trail[l], trail[l + 1], nid, ids, l);
        TrailKeepsLevel(nid, plan, trail, 0, l, l);
        TrailKeepsLevel(nid, plan, trail, l + 1, |trail| - 1, l);
        LinkedMoves(dist, p, trail[0], trail[l], trail[l + 1], trail[|trail| - 1], nid, ids, l);
      }
    }

    lemma TrailStep(nid: Word, plan: InsertPlan, trail: seq<Graph>, l: nat)
      requires Trail(nid, plan, trail) && l < |plan.neighbors|
      ensures |trail| == |plan.neighbors| + 1
      ensures ConnectStep(trail[l], trail[l + 1], nid, plan.neighbors[l], l)
    {
    }

    ghost predicate StepOk(newIds: seq<Word>, lv: seq<nat>, step: CommitStep) {
      && step.member < |newIds| == |lv| && step.id == newIds[step.member] && step.plan.level == lv[step.member]
        && step.trail != []
      && Trail(step.id, step.plan, step.trail)
    }

    // The commits of a log lead from `first` to `last`.
    ghost predicate Chained(newIds: seq<Word>, lv: seq<nat>, log: seq<CommitStep>, first: Graph, last: Graph) {
      && (forall j :: 0 <= j < |log| ==> StepOk(newIds, lv, log[j]))
      && (forall j :: 0 <= j < |log| - 1 ==> log[j].trail[|log[j].trail| - 1] == log[j + 1].trail[0])
      && (log == [] ==> first == last)
      && (log != [] ==> log[0].trail[0] == first && log[|log| - 1].trail[|log[|log| - 1].trail| - 1] == last)
    }

    lemma ChainStart(newIds: seq<Word>, lv: seq<nat>, g: Graph)
      ensures Chained(newIds, lv, [], g, g)
    {
    }

    lemma ChainSnoc(newIds: seq<Word>, lv: seq<nat>, log: seq<CommitStep>, first: Graph, mid: Graph, step: CommitStep)
      requires Chained(newIds, lv, log, first, mid) && StepOk(newIds, lv, step) && step.trail[0] == mid
      ensures Chained(newIds, lv, log + [step], first, step.trail[|step.trail| - 1])
    {
      hide Trail;
    }

    ghost predicate Members(log: seq<CommitStep>, order: seq<nat>) {
      |log| == |order| && forall j :: 0 <= j < |log| ==> log[j].member == order[j]
    }

    // Each of these commits followed a plan made right before it.
    ghost predicate Replanned(top: Top, vectors: seq<seq<Word>>, log: seq<CommitStep>, from: nat) {
      forall j :: from <= j < |log| ==>
        log[j].member < |vectors| && log[j].trail != []
        && Planned(log[j].trail[0], TopAfter(top, log[..j]), vectors[log[j].member], log[j].plan)
    }

    // The graph and its top at some moment.
    ghost function Now(): Moment
      reads graph, `entryPoint, `maxDepth
    {
      Moment(graph.G, CurrentTop())
    }

    // One vector inserted: planned with its node isolated, then connected by the plan.
    ghost predicate OneInserted(m: Moment, n: Moment, id: Word, vector: seq<Word>, level: nat) {
      var g := m.graph[id := GNode(vector, EmptyRows(level))];
      n.top == Promoted(m.top, id, level)
      && exists plan: InsertPlan, trail: seq<Graph> ::
        && plan.level == level && Planned(g, m.top, vector, plan)
        && Trail(id, plan, trail) && trail != [] && trail[0] == g && trail[|trail| - 1] == n.graph
    }

    // One chunk inserted in two phases.
    ghost predicate ChunkInserted(m: Moment, n: Moment, ids: seq<Word>, vectors: seq<seq<Word>>, lv: seq<nat>) {
      && |ids| == |vectors| == |lv|
      && exists log: seq<CommitStep>, early: nat ::
        && early <= |log| == |vectors| && (forall i: nat :: i < |vectors| ==> CommittedIn(log, i))
        && Chained(ids, lv, log, WithNodes(m.graph, ids, vectors, lv), n.graph) && n.top == TopAfter(m.top, log)
        && EarlyOk(m.graph, m.top, vectors, log[..early]) && LateOk(m.graph, m.top, vectors, log, early)
        && Replanned(m.top, vectors, log, early)
    }

    ghost predicate Part(single: bool, m: Moment, n: Moment, ids: seq<Word>, vectors: seq<seq<Word>>, lv: seq<nat>) {
      && |ids| == |vectors| == |lv|
      && if single then |ids| == 1 && OneInserted(m, n, ids[0], vectors[0], lv[0])
        else ChunkInserted(m, n, ids, vectors, lv)
    }

    // A batch so far, cut into parts: the first `seeds` are single insertions, the others chunks.
    // Each part starts from the graph and the entry point that the part before left.
    ghost predicate Assembled(m: Moment, moments: seq<Moment>, cuts: seq<nat>, seeds: nat, ids: seq<Word>,
                              vectors: seq<seq<Word>>, lv: seq<nat>) {
      && |moments| == |cuts| > 0 && moments[0] == m && cuts[0] == 0 && cuts[|cuts| - 1] == |ids| <= |vectors| == |lv|
      && forall k :: 0 <= k < |cuts| - 1 ==> PartAt(moments, cuts, seeds, ids, vectors, lv, k)
    }

    ghost predicate PartAt(moments: seq<Moment>, cuts: seq<nat>, seeds: nat, ids: seq<Word>, vectors: seq<seq<Word>>,
                           lv: seq<nat>, k: nat)
      requires |moments| == |cuts| && |ids| <= |vectors| == |lv| && k < |cuts| - 1
    {
      && cuts[k] <= cuts[k + 1] <= |ids|
      && var i, j := cuts[k], cuts[k + 1]; Part(k < seeds, moments[k], moments[k + 1], ids[i..j], vectors[i..j],
        lv[i..j])
    }

    lemma AssembledNone(m: Moment, seeds: nat, vectors: seq<seq<Word>>, lv: seq<nat>)
      requires |vectors| == |lv|
      ensures Assembled(m, [m], [0], seeds, [], vectors, lv)
    {
    }

    lemma AssembledMore(m: Moment, moments: seq<Moment>, cuts: seq<nat>, seeds: nat, ids: seq<Word>,
        vectors: seq<seq<Word>>,
                        lv: seq<nat>, more: seq<Word>, after: Moment, end: nat)
      requires Assembled(m, moments, cuts, seeds, ids, vectors, lv) && end == |ids| + |more| <= |vectors|
      requires Part(|cuts| - 1 < seeds, moments[|moments| - 1], after, more, vectors[|ids|..end], lv[|ids|..end])
      ensures Assembled(m, moments + [after], cuts + [end], seeds, ids + more, vectors, lv)
    {
      hide Part;
      var moments', cuts', ids' := moments + [after], cuts + [end], ids + more;
      forall k | 0 <= k < |cuts'| - 1
        ensures PartAt(moments', cuts', seeds, ids', vectors, lv, k)
      {
        if k < |cuts| - 1 {
          assert PartAt(moments, cuts, seeds, ids, vectors, lv, k);
          assert ids'[cuts[k]..cuts[k + 1]] == ids[cuts[k]..cuts[k + 1]];
        } else {
          assert ids'[|ids|..end] == more;
        }
      }
    }

    // The ends of the chunks of at most `size` of what follows the first `i` of `n`.
    function ChunkEnds(i: nat, n: nat, size: nat): seq<nat>
      requires 0 < size
      decreases n - i
    {
      if i >= n then []
      else
        var end := if i + size < n then i + size else n;
        [end] + ChunkEnds(end, n, size)
    }

    // The first `seeds` parts hold one vector each, every later one but the last `size` vectors,
    // and the last at least one.
    ghost predicate Chunked(cuts: seq<nat>, seeds: nat, n: nat, size: nat) {
      && seeds < |cuts| && cuts[|cuts| - 1] == n
      && (forall j :: 0 <= j < |cuts| - 1 ==> cuts[j] < n)
      && (forall j :: 0 <= j <= seeds ==> cuts[j] == j)
      && forall j: nat :: seeds + j < |cuts| ==>
        cuts[seeds + j] == if seeds + j * size < n then seeds + j * size else n
    }

    lemma {:induction false} ChunkEndsAt(i: nat, n: nat, size: nat, j: nat)
      requires 0 < size && j < |ChunkEnds(i, n, size)|
      ensures ChunkEnds(i, n, size)[j] == if i + (j + 1) * size < n then i + (j + 1) * size else n
      ensures ChunkEnds(i, n, size)[j] == n <==> j == |ChunkEnds(i, n, size)| - 1
      decreases j
    {
      var end := if i + size < n then i + size else n;
      if j > 0 {
        ChunkEndsAt(end, n, size, j - 1);
        assert size + j * size == (j + 1) * size;
      } else {
        assert end < n ==> ChunkEnds(end, n, size) != [];
      }
    }

    lemma CutAt(seeds: nat, n: nat, size: nat, i: nat)
      requires 0 < size && seeds <= n && i < |UpTo(seeds) + ChunkEnds(seeds, n, size)|
      ensures var cuts := UpTo(seeds) + ChunkEnds(seeds, n, size);
        && (i <= seeds ==> cuts[i] == i) && (cuts[i] == n <==> i == |cuts| - 1) && cuts[i] <= n
        && (seeds <= i ==>
          cuts[i] == if seeds + (i - seeds) * size < n then seeds + (i - seeds) * size else n)
    {
      hide ChunkEnds, UpTo;
      UpToAt(seeds);
      EndsOrNot(seeds, n, size);
      if seeds < i {
        ChunkEndsAt(seeds, n, size, i - seeds - 1);
      }
    }

    lemma CutsChunked(seeds: nat, n: nat, size: nat)
      requires 0 < size && seeds <= n
      ensures Chunked(UpTo(seeds) + ChunkEnds(seeds, n, size), seeds, n, size)
    {
      hide ChunkEnds, UpTo;
      UpToAt(seeds);
      var cuts := UpTo(seeds) + ChunkEnds(seeds, n, size);
      forall i | 0 <= i < |cuts|
        ensures (i <= seeds ==> cuts[i] == i) && (cuts[i] == n <==> i == |cuts| - 1) && cuts[i] <= n
      {
        CutAt(seeds, n, size, i);
      }
      forall j: nat | seeds + j < |cuts|
        ensures cuts[seeds + j] == if seeds + j * size < n then seeds + j * size else n
      {
        CutAt(seeds, n, size, seeds + j);
      }
    }

    lemma EndsOrNot(seeds: nat, n: nat, size: nat)
      requires 0 < size && seeds <= n
      ensures ChunkEnds(seeds, n, size) == [] <==> seeds == n
    {
    }

    lemma UpToAt(n: nat)
      ensures |UpTo(n)| == n + 1 && forall j :: 0 <= j <= n ==> UpTo(n)[j] == j
    {
    }

    function UpTo(n: nat): seq<nat> {
      seq(n + 1, i requires 0 <= i <= n => i)
    }

    lemma UpToMore(n: nat)
      ensures |UpTo(n)| == n + 1 && UpTo(0) == [0] && UpTo(n) + [n + 1] == UpTo(n + 1)
    {
    }

    // Candidates of one level, scored by distance and degree and cut to the row's capacity;
    // the best of them is where the next level starts.
    method PlanLevel(vector: seq<Word>, ep: Word, l: nat) returns (row: seq<Cand>, next: Word)
      requires Consistent() && graph.NoneEvicted() && HasRow(graph.G, ep, l)
      ensures |row| <= Cap(p, l) && DistinctIds(row)
      ensures forall c :: c in row ==> c.id in graph.G && HasRow(graph.G, c.id, l) && Reach(graph.G, l, ep, c.id)
      ensures HasRow(graph.G, next, l) && Reach(graph.G, l, ep, next)
      ensures Selected(graph.G, vector, ep, l, row) && row != [] && next == Least(row).id
    {
      hide ArenaNodeStore.Valid, ArenaNodeStore.NoneEvicted, WellFormed, Reach, SearchResult, LocallyBest, ScoredBy,
        Listed, EntryOk;
      var cands, seen := SearchLevel(vector, ep, efConstruction, l);
      var scored := ScoreAll(Query(dist, vector, graph.G, l, ep, efConstruction), l, cands, seen);
      row := SelectBest(scored, Cap(p, l));
      next := ep;
      ReachSelf(graph.G, l, ep);
      if row != [] {
        var best := LeastOf(row);
        next := best.id;
      }
      assert SearchResult(Query(dist, vector, graph.G, l, ep, efConstruction), cands, seen);
    }

    // The candidates of a search, scored by distance and degree.
    method ScoreAll(ghost k: Query, l: nat, cands: seq<Cand>, ghost seen: set<Word>) returns (scored: seq<Cand>)
      requires graph.Valid() && graph.NoneEvicted() && graph.p == p && k.g == graph.G && k.l == l
        && SearchResult(k, cands, seen)
      ensures ScoredBy(k.g, k.l, cands, scored) && |scored| == |cands| > 0 && DistinctIds(scored)
      ensures forall c :: c in scored ==> c.id in k.g && HasRow(k.g, c.id, k.l) && Reach(k.g, k.l, k.ep, c.id)
    {
      hide ArenaNodeStore.Valid, ArenaNodeStore.NoneEvicted, Reach, Expanded;
      scored := [];
      while |scored| < |cands|
        invariant |scored| <= |cands|
        invariant forall i :: 0 <= i < |scored| ==> scored[i].id == cands[i].id
        invariant ScoredBy(graph.G, l, cands[..|scored|], scored)
      {
        var c := cands[|scored|];
        assert cands[..|scored| + 1] == cands[..|scored|] + [c];
        assert c in cands && c.id in seen;
        graph.InStore(c.id);
        var raw := graph.NeighborsAt(c.id, l);
        scored := scored + [Cand(score(c.d, raw), c.id)];
      }
      forall c | c in scored
        ensures c.id in k.g && HasRow(k.g, c.id, l) && Reach(k.g, l, k.ep, c.id)
      {
        var i :| 0 <= i < |scored| && scored[i] == c;
        assert cands[i] in cands && cands[i].id in seen;
      }
      assert cands[..|scored|] == cands;
    }

    // Phase 1 of an insertion: pick the neighbours of a new node without changing anything.
    method PlanInsert(vector: seq<Word>, level: nat) returns (plan: InsertPlan)
      requires Consistent() && graph.NoneEvicted() && |vector| == p.dim
      ensures plan.level == level && PlanOk(p, graph.G, entryPoint, plan)
      ensures Planned(graph.G, CurrentTop(), vector, plan)
    {
      hide ArenaNodeStore.Valid, ArenaNodeStore.NoneEvicted, WellFormed, Reach, Isolated, DistinctIds, Selected,
        LevelPlanned, StartsAt, Attached;
      var rows: seq<seq<Cand>> := seq(level + 1, _ => []);
      if entryPoint.None? {
        EmptyPlan(level);
        NoLevels(graph.G, vector, level);
        return InsertPlan(level, rows);
      }
      var ep, lc := DescendTo(vector, level);
      EmptyPlan(level);
      var l := level;
      while l >= 0
        invariant -1 <= l <= level && |rows| == level + 1
        invariant Attached(graph.G, entryPoint, ep)
        invariant l >= 0 ==> HasRow(graph.G, ep, if l <= maxDepth then l else maxDepth)
        invariant PlanOk(p, graph.G, entryPoint, InsertPlan(level, rows))
        invariant l >= 0 && l <= maxDepth ==> StartsLevel(graph.G, CurrentTop(), vector, level, rows, l, ep)
        invariant l >= lc ==> StartsAt(graph.G, vector, CurrentTop(), lc, ep)
        invariant forall j: nat :: j <= level && j <= l ==> rows[j] == []
        invariant forall j: nat :: l < j <= level ==> LevelPlanned(graph.G, CurrentTop(), vector, level, rows, j)
      {
        if l <= maxDepth {
          var row, next := PlanLevel(vector, ep, l);
          PlanRowAttached(ep, l, row, next);
          LevelAdded(graph.G, CurrentTop(), vector, level, rows, l, row, ep, rows[l := row]);
          ep := next;
          rows := rows[l := row];
        } else {
          LevelAbove(graph.G, CurrentTop(), vector, level, rows, l);
        }
        l := l - 1;
      }
      plan := InsertPlan(level, rows);
    }

    // For all the levels above the new node's, go to the closest node greedily.
    method DescendTo(vector: seq<Word>, level: nat) returns (ep: Word, lc: int)
      requires Consistent() && graph.NoneEvicted() && entryPoint.Some?
      ensures 0 <= lc == (if level < maxDepth then level else maxDepth)
      ensures HasRow(graph.G, ep, lc) && Attached(graph.G, entryPoint, ep)
      ensures StartsAt(graph.G, vector, CurrentTop(), lc, ep)
    {
      hide ArenaNodeStore.Valid, ArenaNodeStore.NoneEvicted, WellFormed, Reach, Isolated;
      ep, lc := entryPoint.value, maxDepth;
      ghost var path := [ep];
      while lc > level
        invariant 0 <= lc <= maxDepth && (level <= lc || lc == maxDepth)
        invariant HasRow(graph.G, ep, lc) && Attached(graph.G, entryPoint, ep)
        invariant GreedyPath(graph.G, vector, CurrentTop(), lc, path) && path[0] == ep
      {
        var next := GreedyClosest(vector, ep, lc);
        ReachedAttached(p, graph.G, entryPoint, lc, ep, next);
        GreedyPathStep(graph.G, vector, CurrentTop(), lc, path, next);
        path := [next] + path;
        ep := next;
        lc := lc - 1;
      }
      assert StartsAt(graph.G, vector, CurrentTop(), lc, ep);
    }

    lemma GreedyPathStep(g: Graph, vector: seq<Word>, top: Top, l: nat, path: seq<Word>, next: Word)
      requires 0 < l && GreedyPath(g, vector, top, l, path) && MovedCloser(g, vector, l, path[0], next)
      ensures GreedyPath(g, vector, top, l - 1, [next] + path)
    {
      hide MovedCloser;
      var path' := [next] + path;
      forall i | 0 <= i < |path'| - 1
        ensures MovedCloser(g, vector, l + i, path'[i + 1], path'[i])
      {
        if i > 0 {
          assert MovedCloser(g, vector, l + (i - 1) + 1, path[i], path[i - 1]);
        }
      }
    }

    // Planning level `l` leaves the levels above as they were planned.
    lemma LevelAdded(g: Graph, top: Top, vector: seq<Word>, level: nat, rows: seq<seq<Cand>>, l: nat, row: seq<Cand>,
        ep: Word, next: seq<seq<Cand>>)
      requires l <= level < |rows| && next == rows[l := row] && l <= top.depth && Selected(g, vector, ep, l, row)
      requires StartsLevel(g, top, vector, level, rows, l, ep)
      requires forall j: nat :: l < j <= level ==> LevelPlanned(g, top, vector, level, rows, j)
      ensures forall j: nat :: l <= j <= level ==> LevelPlanned(g, top, vector, level, next, j)
    {
      hide Selected;
      forall j: nat | l <= j <= level
        ensures LevelPlanned(g, top, vector, level, next, j)
      {
        if j == l {
          assert Selected(g, vector, ep, l, next[l]) && StartsLevel(g, top, vector, level, next, l, ep);
        } else {
          assert LevelPlanned(g, top, vector, level, rows, j);
          assert next[j] == rows[j] && (j < level ==> next[j + 1] == rows[j + 1]);
        }
      }
    }

    lemma LevelAbove(g: Graph, top: Top, vector: seq<Word>, level: nat, rows: seq<seq<Cand>>, l: nat)
      requires l <= level < |rows| && top.depth < l && rows[l] == []
      ensures LevelPlanned(g, top, vector, level, rows, l)
    {
    }

    lemma NoLevels(g: Graph, vector: seq<Word>, level: nat)
      ensures Planned(g, Top(None, -1), vector, InsertPlan(level, seq(level + 1, _ => [])))
    {
    }

    lemma EmptyPlan(level: nat)
      ensures PlanOk(p, graph.G, entryPoint, InsertPlan(level, seq(level + 1, _ => [])))
    {
    }

    lemma PlanRowAttached(ep: Word, l: nat, row: seq<Cand>, next: Word)
      requires WellFormed(p, graph.G) && Attached(graph.G, entryPoint, ep)
      requires |row| <= Cap(p, l) && DistinctIds(row)
      requires forall c :: c in row ==> c.id in graph.G && HasRow(graph.G, c.id, l) && Reach(graph.G, l, ep, c.id)
      requires Reach(graph.G, l, ep, next)
      ensures PlanRowOk(p, graph.G, entryPoint, l, row) && Attached(graph.G, entryPoint, next)
    {
      forall c | c in row
        ensures Attached(graph.G, entryPoint, c.id)
      {
        ReachedAttached(p, graph.G, entryPoint, l, ep, c.id);
      }
      ReachedAttached(p, graph.G, entryPoint, l, ep, next);
    }

    // The ids of a planned row.
    method IdsOf(ghost g: Graph, row: seq<Cand>) returns (ids: seq<Word>)
      requires forall c :: c in row ==> c.id in g
      ensures |ids| == |row| && forall i :: 0 <= i < |ids| ==> ids[i] == row[i].id
    {
      ids := [];
      while |ids| < |row|
        invariant |ids| <= |row| && forall i :: 0 <= i < |ids| ==> ids[i] == row[i].id
      {
        assert row[|ids|] in row;
        ids := ids + [row[|ids|].id];
      }
    }

    // Phase 2 of an insertion: connect `nid` at every level of its plan.
    method CommitPlan(nid: Word, plan: InsertPlan) returns (ghost trail: seq<Graph>)
      requires Consistent() && graph.AllInMemory()
      requires nid in graph.G && |graph.G[nid].rows| == plan.level + 1 && Isolated(graph.G, nid)
      requires Committable(p, graph.G, nid, plan)
      modifies graph`image, graph`G, graph.Words
      ensures Consistent() && graph.AllInMemory()
      ensures HalfCommitted(old(graph.G), graph.G, nid, plan, plan.level + 1)
      ensures Trail(nid, plan, trail) && trail != [] && trail[0] == old(graph.G) && trail[|trail| - 1] == graph.G
      ensures LinkedByPlan(old(graph.G), graph.G, nid, plan)
    {
      hide ArenaNodeStore.Valid, ArenaNodeStore.AllInMemory, WellFormed, Isolated, HalfCommitted, ChangedAt, Listed,
        EntryOk, NoDup, ConnectStep, LinkedByPlan, Linked;
      ghost var g := graph.G;
      trail := [g];
      StartCommit(g, nid, plan);
      var l := 0;
      while l <= plan.level
        invariant 0 <= l <= plan.level + 1
        invariant graph.Valid() && graph.AllInMemory() && WellFormed(p, graph.G)
        invariant HalfCommitted(g, graph.G, nid, plan, l)
        invariant |trail| == l + 1 && trail[0] == g && trail[l] == graph.G
        invariant forall j :: 0 <= j < l ==> ConnectStep(trail[j], trail[j + 1], nid, plan.neighbors[j], j)
      {
        StillCommittable(g, graph.G, nid, plan, l);
        var neighborIds := IdsOf(graph.G, plan.neighbors[l]);
        PlannedJoinable(graph.G, nid, l, plan.neighbors[l], neighborIds);
        ghost var h := graph.G;
        ConnectedFacts(dist, p, h, nid, neighborIds, l);
        UpdateNeighbors(nid, neighborIds, l);
        CommitLevel(g, h, graph.G, nid, plan, l, neighborIds);
        StepTaken(h, graph.G, nid, plan.neighbors[l], l, neighborIds);
        trail := trail + [graph.G];
        l := l + 1;
      }
      HalfCommittedSame(g, graph.G, nid, plan, l);
      TrailLinks(nid, plan, trail);
      KeepsLists();
    }

    lemma StepTaken(g: Graph, h: Graph, nid: Word, row: seq<Cand>, l: nat, ids: seq<Word>)
      requires p.Valid() && WellFormed(p, g) && HasRow(g, nid, l) && Row(g, nid, l) == []
      requires Names(row, ids) && |ids| <= Cap(p, l) && Joinable(g, nid, [], ids, l)
        && h == Connected(dist, p, g, nid, ids, l)
      ensures ConnectStep(g, h, nid, row, l)
    {
    }

    lemma StartCommit(g: Graph, nid: Word, plan: InsertPlan)
      requires Isolated(g, nid)
      ensures HalfCommitted(g, g, nid, plan, 0)
    {
    }

    lemma HalfCommittedSame(g: Graph, h: Graph, nid: Word, plan: InsertPlan, l: nat)
      requires HalfCommitted(g, h, nid, plan, l)
      ensures SameNodes(g, h)
    {
    }

    lemma StillCommittable(g: Graph, h: Graph, nid: Word, plan: InsertPlan, l: nat)
      requires HalfCommitted(g, h, nid, plan, l) && Committable(p, g, nid, plan) && l <= plan.level
      requires nid in g && |g[nid].rows| == plan.level + 1
      ensures HasRow(h, nid, l) && Row(h, nid, l) == [] && RowCommittable(p, h, nid, l, plan.neighbors[l])
    {
      assert RowCommittable(p, g, nid, l, plan.neighbors[l]);
    }

    lemma PlannedJoinable(g: Graph, nid: Word, l: nat, row: seq<Cand>, ids: seq<Word>)
      requires RowCommittable(p, g, nid, l, row)
      requires |ids| == |row| && forall i :: 0 <= i < |ids| ==> ids[i] == row[i].id
      ensures Joinable(g, nid, [], ids, l)
    {
      forall x | x in ids
        ensures HasRow(g, x, l) && x != nid
      {
        var i :| 0 <= i < |ids| && ids[i] == x;
        assert row[i] in row;
      }
    }

    // Allocate a node and enter it into the id lists; it is not connected yet.
    method AllocNode(vector: seq<Word>, vectorId: nat, level: nat) returns (newId: Word)
      requires Consistent() && graph.AllInMemory() && |graph.blocks| < MAX_BLOCKS
      requires |vector| == p.dim && level <= MAX_LEVEL && TotalSize(p, level) <= ARENA_BYTES
      modifies this, graph, graph.blocks, graph.Arenas, graph.Words
      ensures Consistent() && graph.AllInMemory() && Grown()
      ensures |graph.blocks| <= |old(graph.blocks)| + 1
      ensures newId !in old(graph.G) && graph.G == old(graph.G)[newId := GNode(vector, EmptyRows(level))]
      ensures Isolated(graph.G, newId)
      ensures nodeIds == old(nodeIds) + [newId] && vectorIds == old(vectorIds) + [vectorId]
        && levels == old(levels) + [level]
      ensures nodeToVectorId == old(nodeToVectorId)[newId := vectorId]
      ensures entryPoint == old(entryPoint) && maxDepth == old(maxDepth)
      ensures graph.Using() == Used(old(graph.Using()), [TotalSize(p, level)])
    {
      hide ArenaNodeStore.Valid, ArenaNodeStore.AllInMemory, WellFormed, Isolated, ArenaNodeStore.Shape,
        ArenaNodeStore.Using, TotalSize, Used, ListsMatch, EntryAt,
        ArenaNodeStore.BlockSet, ArenaNodeStore.Fills, Place;
      var r := graph.PushNode(vector, level);
      newId := r.value;
      nodeIds := nodeIds + [newId];
      vectorIds := vectorIds + [vectorId];
      levels := levels + [level];
      nodeToVectorId := nodeToVectorId[newId := vectorId];
      WellFormedPush(p, old(graph.G), newId, GNode(vector, EmptyRows(level)));
      EntryStays(old(graph.G), entryPoint, maxDepth, newId, GNode(vector, EmptyRows(level)));
      ListsGrow(old(graph.G), old(nodeIds), old(vectorIds), old(levels), old(nodeToVectorId), newId,
        GNode(vector, EmptyRows(level)), vectorId);
    }

    // What an insertion may allocate.
    twostate predicate Grown()
      reads graph
    {
      && fresh(graph.BlockSet() - old(graph.BlockSet()))
      && fresh(graph.Arenas - old(graph.Arenas)) && fresh(graph.Words - old(graph.Words))
      && graph.Files == old(graph.Files)
    }

    // Insert one vector at a given level.
    method Insert(vector: seq<Word>, vectorId: nat, level: nat)
        returns (newId: Word, ghost plan: InsertPlan, ghost trail: seq<Graph>)
      requires Valid() && graph.AllInMemory() && |graph.blocks| < MAX_BLOCKS
      requires |vector| == p.dim && level <= MAX_LEVEL && TotalSize(p, level) <= ARENA_BYTES
      modifies this, graph, graph.blocks, graph.Arenas, graph.Words
      ensures Valid() && graph.AllInMemory() && Grown()
      ensures |graph.blocks| <= |old(graph.blocks)| + 1
      ensures newId !in old(graph.G)
      ensures SameNodes(old(graph.G)[newId := GNode(vector, EmptyRows(level))], graph.G)
      ensures nodeIds == old(nodeIds) + [newId] && vectorIds == old(vectorIds) + [vectorId]
        && levels == old(levels) + [level]
      ensures nodeToVectorId == old(nodeToVectorId)[newId := vectorId] && entryPoint.Some?
      ensures maxDepth == if level > old(maxDepth) then level else old(maxDepth)
      ensures entryPoint == if level > old(maxDepth) then Some(newId) else old(entryPoint)
      ensures graph.Using() == Used(old(graph.Using()), [TotalSize(p, level)])
      // The node is planned against the graph with it still isolated, then connected by the plan.
      ensures plan.level == level && Planned(old(graph.G)[newId := GNode(vector, EmptyRows(level))],
        old(CurrentTop()), vector, plan)
      ensures Trail(newId, plan, trail) && trail != []
        && trail[0] == old(graph.G)[newId := GNode(vector, EmptyRows(level))] && trail[|trail| - 1] == graph.G
      ensures LinkedByPlan(old(graph.G)[newId := GNode(vector, EmptyRows(level))], graph.G, newId, plan)
    {
      hide Valid, Consistent, ArenaNodeStore.Valid, ArenaNodeStore.AllInMemory, WellFormed, Isolated, TotalSize,
        Planned, Trail, LinkedByPlan, ArenaNodeStore.Using, Used;
      ValidParts();
      newId := AllocNode(vector, vectorId, level);
      plan, trail := ConnectNew(newId, vector, level);
      TrailLinks(newId, plan, trail);
      PartsValid();
    }

    lemma ValidParts()
      requires Valid()
      ensures Consistent() && (forall x :: x in graph.G ==> |graph.G[x].rows| <= maxDepth + 1) && maxDepth >= -1
      ensures entryPoint.Some? ==> entryPoint.value in graph.G
      ensures entryPoint.None? ==> maxDepth == -1
    {
    }

    lemma PartsValid()
      requires Consistent() && forall x :: x in graph.G ==> |graph.G[x].rows| <= maxDepth + 1
      ensures Valid()
    {
    }

    // Plan and connect a node that was just allocated.
    method ConnectNew(nid: Word, vector: seq<Word>, level: nat)
        returns (ghost plan: InsertPlan, ghost trail: seq<Graph>)
      requires Consistent() && graph.AllInMemory() && |vector| == p.dim
      requires nid in graph.G && |graph.G[nid].rows| == level + 1 && Isolated(graph.G, nid) && entryPoint != Some(nid)
      modifies graph`image, graph`G, graph.Words, `maxDepth, `entryPoint
      ensures Consistent() && graph.AllInMemory()
      ensures SameNodes(old(graph.G), graph.G)
      ensures maxDepth == if level > old(maxDepth) then level else old(maxDepth)
      ensures entryPoint == if level > old(maxDepth) then Some(nid) else old(entryPoint)
      ensures plan.level == level && Planned(old(graph.G), old(CurrentTop()), vector, plan)
      ensures Trail(nid, plan, trail) && trail != [] && trail[0] == old(graph.G) && trail[|trail| - 1] == graph.G
    {
      hide ArenaNodeStore.Valid, ArenaNodeStore.AllInMemory, ArenaNodeStore.NoneEvicted, WellFormed, Isolated,
        Committable, PlanOk, Planned, Trail, Attached, HalfCommitted;
      InMemoryReadable();
      var todo := PlanInsert(vector, level);
      plan := todo;
      NotAttached(graph.G, entryPoint, nid);
      PlanCommittable(p, graph.G, graph.G, entryPoint, nid, plan);
      ghost var g := graph.G;
      trail := CommitAndPromote(nid, todo);
      HalfCommittedSame(g, graph.G, nid, plan, plan.level + 1);
    }

    // Connect a node by its plan; it becomes the entry point if it is higher than all before.
    method CommitAndPromote(nid: Word, plan: InsertPlan) returns (ghost trail: seq<Graph>)
      requires Consistent() && graph.AllInMemory()
      requires nid in graph.G && |graph.G[nid].rows| == plan.level + 1 && Isolated(graph.G, nid)
      requires Committable(p, graph.G, nid, plan)
      modifies graph`image, graph`G, graph.Words, `maxDepth, `entryPoint
      ensures Consistent() && graph.AllInMemory()
      ensures HalfCommitted(old(graph.G), graph.G, nid, plan, plan.level + 1)
      ensures maxDepth == if plan.level > old(maxDepth) then plan.level else old(maxDepth)
      ensures entryPoint == if plan.level > old(maxDepth) then Some(nid) else old(entryPoint)
      ensures Trail(nid, plan, trail) && trail != [] && trail[0] == old(graph.G) && trail[|trail| - 1] == graph.G
    {
      hide ArenaNodeStore.Valid, ArenaNodeStore.AllInMemory, WellFormed, Isolated, HalfCommitted, Committable,
        ConnectStep;
      ghost var g := graph.G;
      trail := CommitPlan(nid, plan);
      HalfCommittedSame(g, graph.G, nid, plan, plan.level + 1);
      if plan.level > maxDepth {
        maxDepth := plan.level;
        entryPoint := Some(nid);
      }
    }

    // ── Batch insertion ──

    // Every vector has the right length, and its node fits in a block.
    ghost predicate Insertable(vectors: seq<seq<Word>>, lv: seq<nat>) {
      && |lv| == |vectors|
      && forall i :: 0 <= i < |vectors| ==>
           |vectors[i]| == p.dim && lv[i] <= MAX_LEVEL && TotalSize(p, lv[i]) <= ARENA_BYTES
    }

    lemma InsertableSlice(vectors: seq<seq<Word>>, lv: seq<nat>, from: nat, to: nat)
      requires Insertable(vectors, lv) && from <= to <= |vectors|
      ensures Insertable(vectors[from..to], lv[from..to])
    {
    }

    // Insert a list of vectors: the first few one by one if the index is empty, so that there
    // is a graph to plan against, then the rest in chunks.
    method InsertBatchParallel(vectors: seq<seq<Word>>, ids: seq<nat>, lv: seq<nat>, numThreads: nat)
      returns (newIds: seq<Word>, ghost moments: seq<Moment>, ghost cuts: seq<nat>)
      requires Valid() && graph.AllInMemory() && 0 < numThreads
      requires |ids| == |vectors| == |lv| && RoomFor(graph.Using(), Sizes(p, lv))
      requires Insertable(vectors, lv)
      modifies this, graph, graph.blocks, graph.Arenas, graph.Words
      ensures Valid() && graph.AllInMemory() && Grown()
      ensures nodeIds == old(nodeIds) + newIds && vectorIds == old(vectorIds) + ids && levels == old(levels) + lv
      ensures Extends(old(graph.G), graph.G, newIds, vectors, lv)
      ensures graph.Using() == Used(old(graph.Using()), Sizes(p, lv))
      // An empty index is seeded one by one; the rest goes in chunks of `numThreads`.
      ensures var seeds := if old(entryPoint).Some? then 0 else if efConstruction < |vectors| then efConstruction
        else |vectors|;
        && Assembled(old(Now()), moments, cuts, seeds, newIds, vectors, lv) && moments[|moments| - 1] == Now()
        && cuts == UpTo(seeds) + ChunkEnds(seeds, |vectors|, numThreads)
        && Chunked(cuts, seeds, |vectors|, numThreads)
    {
      hide Valid, ArenaNodeStore.AllInMemory, Extends, Insertable, Part, PartAt, ChunkEnds, ArenaNodeStore.Using,
        Used, RoomFor, Sizes, Chunked;
      ghost var first, nodes0, vectors0, levels0, used0 := Now(), nodeIds, vectorIds, levels, graph.Using();
      NothingUsed(used0, lv);
      newIds, moments, cuts := [], [first], UpTo(0);
      AssembledNone(first, 0, vectors, lv);
      assert cuts == [0];
      ExtendsNone(first.graph);
      SlicesStart(vectors, ids, lv);
      if entryPoint.None? {
        var seedN := if efConstruction < |vectors| then efConstruction else |vectors|;
        newIds, moments, cuts := InsertSeeds(vectors, ids, lv, seedN);
        EfPositive();
      }
      CutsChunked(|newIds|, |vectors|, numThreads);
      newIds, moments, cuts := InsertChunks(vectors, ids, lv, numThreads, newIds, first, nodes0, vectors0, levels0,
        moments, cuts, |newIds|, used0);
      assert vectors[..|newIds|] == vectors && lv[..|newIds|] == lv && ids[..|newIds|] == ids;
    }

    // The first `n` vectors, one by one.
    method InsertSeeds(vectors: seq<seq<Word>>, ids: seq<nat>, lv: seq<nat>, n: nat)
      returns (newIds: seq<Word>, ghost moments: seq<Moment>, ghost cuts: seq<nat>)
      requires Valid() && graph.AllInMemory()
      requires |ids| == |vectors| == |lv| && n <= |vectors| && RoomFor(graph.Using(), Sizes(p, lv))
      requires Insertable(vectors, lv)
      modifies this, graph, graph.blocks, graph.Arenas, graph.Words
      ensures Valid() && graph.AllInMemory() && Grown() && (0 < n ==> entryPoint.Some?)
      ensures |newIds| == n && graph.Using() == Used(old(graph.Using()), Sizes(p, lv[..n]))
      ensures Inserted(old(nodeIds), old(vectorIds), old(levels), newIds, ids, lv)
      ensures Extends(old(graph.G), graph.G, newIds, vectors[..n], lv[..n])
      ensures Assembled(old(Now()), moments, cuts, n, newIds, vectors, lv) && moments[|moments| - 1] == Now()
        && cuts == UpTo(n)
    {
      hide Valid, ArenaNodeStore.AllInMemory, Extends, Insertable, Assembled, Part, SameNodes, UpTo,
        ArenaNodeStore.Using, Used, RoomFor, Sizes, TotalSize, Appended;
      NothingUsed(graph.Using(), lv);
      ghost var first := Now();
      newIds, moments, cuts := [], [first], [0];
      AssembledNone(first, n, vectors, lv);
      UpToMore(0);
      ExtendsNone(first.graph);
      SlicesStart(vectors, ids, lv);
      AppendedNone(nodeIds, vectorIds, levels, ids, lv);
      for start := 0 to n
        invariant |newIds| == start
        invariant Valid() && graph.AllInMemory() && Grown() && (0 < start ==> entryPoint.Some?)
        invariant graph.Using() == Used(old(graph.Using()), Sizes(p, lv[..start]))
        invariant Inserted(old(nodeIds), old(vectorIds), old(levels), newIds, ids, lv)
        invariant Extends(first.graph, graph.G, newIds, vectors[..start], lv[..start])
        invariant Assembled(first, moments, cuts, n, newIds, vectors, lv) && moments != []
          && moments[|moments| - 1] == Now() && cuts == UpTo(start)
      {
        ghost var h := graph.G;
        ghost var n1, v1, l1 := nodeIds, vectorIds, levels;
        BlocksUsed();
        UsedMore(p, old(graph.Using()), lv, start, start + 1);
        var id := InsertSeed(vectors, ids, lv, start);
        UpToMore(start);
        AssembledMore(first, moments, cuts, n, newIds, vectors, lv, [id], Now(), start + 1);
        moments, cuts := moments + [Now()], cuts + [start + 1];
        ExtendsOne(h, graph.G, id, vectors[start], lv[start]);
        ExtendsMore(first.graph, h, graph.G, newIds, [id], vectors, lv, start, start + 1);
        AppendedOne(old(nodeIds), old(vectorIds), old(levels), n1, v1, l1, newIds, ids, lv, id);
        newIds := newIds + [id];
      }
    }

    method InsertSeed(vectors: seq<seq<Word>>, ids: seq<nat>, lv: seq<nat>, i: nat) returns (id: Word)
      requires Valid() && graph.AllInMemory() && i < |vectors| == |ids| && |graph.blocks| < MAX_BLOCKS
        && Insertable(vectors, lv)
      modifies this, graph, graph.blocks, graph.Arenas, graph.Words
      ensures Valid() && graph.AllInMemory() && Grown() && entryPoint.Some?
      ensures id !in old(graph.G) && graph.Using() == Used(old(graph.Using()), [TotalSize(p, lv[i])])
      ensures SameNodes(old(graph.G)[id := GNode(vectors[i], EmptyRows(lv[i]))], graph.G)
      ensures nodeIds == old(nodeIds) + [id] && vectorIds == old(vectorIds) + [ids[i]]
        && levels == old(levels) + [lv[i]]
      ensures Part(true, old(Now()), Now(), [id], vectors[i..i + 1], lv[i..i + 1])
    {
      hide Valid, ArenaNodeStore.AllInMemory, TotalSize, Part, Planned, Trail, ArenaNodeStore.Using, Used;
      ghost var now := Now();
      ghost var plan, trail;
      id, plan, trail := Insert(vectors[i], ids[i], lv[i]);
      PartOfOne(now, Now(), id, vectors, lv, i, plan, trail);
    }

    // What is left after the seeds, in chunks of `numThreads`.
    method InsertChunks(vectors: seq<seq<Word>>, ids: seq<nat>, lv: seq<nat>, numThreads: nat, seeded: seq<Word>,
                        ghost first: Moment, ghost nodes0: seq<Word>, ghost vectors0: seq<nat>, ghost levels0: seq<nat>,
                        ghost moments0: seq<Moment>, ghost cuts0: seq<nat>, ghost seeds: nat, ghost used0: Usage)
      returns (newIds: seq<Word>, ghost moments: seq<Moment>, ghost cuts: seq<nat>)
      requires Valid() && graph.AllInMemory() && 0 < numThreads && (|seeded| < |vectors| ==> entryPoint.Some?)
      requires |ids| == |vectors| == |lv| && |seeded| <= |vectors|
      requires RoomFor(used0, Sizes(p, lv)) && graph.Using() == Used(used0, Sizes(p, lv[..|seeded|]))
      requires Insertable(vectors, lv)
      requires Inserted(nodes0, vectors0, levels0, seeded, ids, lv)
      requires Extends(first.graph, graph.G, seeded, vectors[..|seeded|], lv[..|seeded|])
      requires Assembled(first, moments0, cuts0, seeds, seeded, vectors, lv) && seeds < |cuts0|
        && moments0[|moments0| - 1] == Now()
      modifies this, graph, graph.blocks, graph.Arenas, graph.Words
      ensures Valid() && graph.AllInMemory() && Grown() && |newIds| == |vectors|
      ensures Inserted(nodes0, vectors0, levels0, newIds, ids, lv) && graph.Using() == Used(used0, Sizes(p, lv))
      ensures Extends(first.graph, graph.G, newIds, vectors[..|newIds|], lv[..|newIds|])
      ensures Assembled(first, moments, cuts, seeds, newIds, vectors, lv) && moments[|moments| - 1] == Now()
      ensures cuts == cuts0 + ChunkEnds(|seeded|, |vectors|, numThreads)
    {
      hide Valid, ArenaNodeStore.AllInMemory, Extends, Insertable, Inserted, Part, PartAt, ArenaNodeStore.Using, Used,
        RoomFor, Sizes;
      newIds, moments, cuts := seeded, moments0, cuts0;
      while |newIds| < |vectors|
        invariant |seeded| <= |newIds| <= |vectors|
        invariant Valid() && graph.AllInMemory() && Grown() && (|newIds| < |vectors| ==> entryPoint.Some?)
        invariant graph.Using() == Used(used0, Sizes(p, lv[..|newIds|]))
        invariant Inserted(nodes0, vectors0, levels0, newIds, ids, lv)
        invariant Extends(first.graph, graph.G, newIds, vectors[..|newIds|], lv[..|newIds|])
        invariant Assembled(first, moments, cuts, seeds, newIds, vectors, lv) && seeds < |cuts|
          && moments[|moments| - 1] == Now()
        invariant cuts + ChunkEnds(|newIds|, |vectors|, numThreads) == cuts0 + ChunkEnds(|seeded|, |vectors|,
          numThreads)
      {
        var end := if |newIds| + numThreads < |vectors| then |newIds| + numThreads else |vectors|;
        Joined(cuts, [end], ChunkEnds(end, |vectors|, numThreads));
        newIds, moments, cuts := InsertChunk(vectors, ids, lv, end, newIds, first, nodes0, vectors0, levels0, moments,
          cuts, seeds, used0);
      }
      assert lv[..|newIds|] == lv;
    }

    // The vectors up to `end` as one chunk.
    method InsertChunk(vectors: seq<seq<Word>>, ids: seq<nat>, lv: seq<nat>, end: nat, before: seq<Word>,
                       ghost first: Moment, ghost nodes0: seq<Word>, ghost vectors0: seq<nat>, ghost levels0: seq<nat>,
                       ghost moments0: seq<Moment>, ghost cuts0: seq<nat>, ghost seeds: nat, ghost used0: Usage)
      returns (newIds: seq<Word>, ghost moments: seq<Moment>, ghost cuts: seq<nat>)
      requires Valid() && graph.AllInMemory() && entryPoint.Some?
      requires |ids| == |vectors| == |lv| && |before| <= end <= |vectors|
      requires RoomFor(used0, Sizes(p, lv)) && graph.Using() == Used(used0, Sizes(p, lv[..|before|]))
      requires Insertable(vectors, lv)
      requires Inserted(nodes0, vectors0, levels0, before, ids, lv)
      requires Extends(first.graph, graph.G, before, vectors[..|before|], lv[..|before|])
      requires Assembled(first, moments0, cuts0, seeds, before, vectors, lv) && seeds < |cuts0|
        && moments0[|moments0| - 1] == Now()
      modifies this, graph, graph.blocks, graph.Arenas, graph.Words
      ensures Valid() && graph.AllInMemory() && Grown() && entryPoint.Some? && |newIds| == end
      ensures graph.Using() == Used(used0, Sizes(p, lv[..end]))
      ensures Inserted(nodes0, vectors0, levels0, newIds, ids, lv)
      ensures Extends(first.graph, graph.G, newIds, vectors[..end], lv[..end])
      ensures Assembled(first, moments, cuts, seeds, newIds, vectors, lv) && moments[|moments| - 1] == Now()
        && cuts == cuts0 + [end]
    {
      hide Valid, ArenaNodeStore.AllInMemory, Extends, Insertable, Part, PartAt, Chained, EarlyOk, LateOk, Replanned,
        TopAfter, WithNodes, CommittedIn, ArenaNodeStore.Using, Used, RoomFor, Sizes;
      ghost var h, now := graph.G, Now();
      UsedMore(p, used0, lv, |before|, end);
      InsertableSlice(vectors, lv, |before|, end);
      var chunk, log, early := TwoPhaseParallel(vectors[|before|..end], ids[|before|..end], lv[|before|..end]);
      ExtendsMore(first.graph, h, graph.G, before, chunk, vectors, lv, |before|, end);
      PartOfChunk(now, Now(), chunk, vectors[|before|..end], lv[|before|..end], log, early);
      AssembledMore(first, moments0, cuts0, seeds, before, vectors, lv, chunk, Now(), end);
      moments, cuts := moments0 + [Now()], cuts0 + [end];
      newIds := before + chunk;
      Joined(nodes0, before, chunk);
      JoinedSlices(vectors0, ids, |before|, end);
      JoinedSlices(levels0, lv, |before|, end);
    }

    lemma NothingUsed(u: Usage, lv: seq<nat>)
      ensures lv[..0] == [] && Sizes(p, []) == [] && Used(u, Sizes(p, lv[..0])) == u
    {
      assert Sizes(p, lv[..0]) == [];
    }

    lemma BlocksUsed()
      requires Valid()
      ensures |graph.Using().fills| == |graph.blocks|
    {
      graph.UsingBlocks();
    }

    lemma PartOfOne(m: Moment, n: Moment, id: Word, vectors: seq<seq<Word>>, lv: seq<nat>, i: nat, plan: InsertPlan,
        trail: seq<Graph>)
      requires i < |vectors| == |lv| && plan.level == lv[i] && n.top == Promoted(m.top, id, lv[i])
      requires var g := m.graph[id := GNode(vectors[i], EmptyRows(lv[i]))];
        && Planned(g, m.top, vectors[i], plan)
        && Trail(id, plan, trail) && trail != [] && trail[0] == g && trail[|trail| - 1] == n.graph
      ensures Part(true, m, n, [id], vectors[i..i + 1], lv[i..i + 1])
    {
      hide Planned, Trail;
      assert OneInserted(m, n, id, vectors[i], lv[i]);
    }

    lemma PartOfChunk(m: Moment, n: Moment, ids: seq<Word>, vectors: seq<seq<Word>>, lv: seq<nat>,
        log: seq<CommitStep>, early: nat)
      requires |ids| == |vectors| == |lv| && n.top == TopAfter(m.top, log)
      requires early <= |log| == |vectors| && (forall i: nat :: i < |vectors| ==> CommittedIn(log, i))
      requires Chained(ids, lv, log, WithNodes(m.graph, ids, vectors, lv), n.graph)
      requires EarlyOk(m.graph, m.top, vectors, log[..early]) && LateOk(m.graph, m.top, vectors, log, early)
      requires Replanned(m.top, vectors, log, early)
      ensures Part(false, m, n, ids, vectors, lv)
    {
      hide Chained, EarlyOk, LateOk, Replanned, WithNodes, CommittedIn, TopAfter;
      assert ChunkInserted(m, n, ids, vectors, lv);
    }

    lemma Joined<T>(a: seq<T>, b: seq<T>, c: seq<T>)
      ensures (a + b) + c == a + (b + c)
    {
    }

    lemma JoinedSlices<T>(a: seq<T>, s: seq<T>, i: nat, j: nat)
      requires i <= j <= |s|
      ensures (a + s[..i]) + s[i..j] == a + s[..j]
    {
    }

    ghost predicate Inserted(nodes0: seq<Word>, vectors0: seq<nat>, levels0: seq<nat>, newIds: seq<Word>, ids: seq<nat>,
        lv: seq<nat>)
      reads `nodeIds, `vectorIds, `levels
    {
      Appended(nodes0, vectors0, levels0, nodeIds, vectorIds, levels, newIds, ids, lv)
    }

    lemma EfPositive()
      requires Valid()
      ensures 0 < efConstruction
    {
    }

    // Insert a chunk of vectors: plan all of them against the graph as it is, allocate them
    // all, then commit one by one, putting off those whose plan went stale to the end.
    method TwoPhaseParallel(vectors: seq<seq<Word>>, ids: seq<nat>, lv: seq<nat>)
        returns (newIds: seq<Word>, ghost log: seq<CommitStep>, ghost early: nat)
      requires Valid() && graph.AllInMemory() && entryPoint.Some?
      requires |ids| == |vectors| == |lv| && RoomFor(graph.Using(), Sizes(p, lv))
      requires Insertable(vectors, lv)
      modifies this, graph, graph.blocks, graph.Arenas, graph.Words
      ensures Valid() && graph.AllInMemory() && Grown() && entryPoint.Some?
      ensures graph.Using() == Used(old(graph.Using()), Sizes(p, lv))
      ensures |newIds| == |vectors|
      ensures nodeIds == old(nodeIds) + newIds && vectorIds == old(vectorIds) + ids && levels == old(levels) + lv
      ensures Extends(old(graph.G), graph.G, newIds, vectors, lv)
      // Every member of the batch was committed exactly once, one after the other.
      ensures |log| == |vectors| && forall i: nat :: i < |vectors| ==> CommittedIn(log, i)
      ensures Chained(newIds, lv, log, WithNodes(old(graph.G), newIds, vectors, lv), graph.G)
      ensures CurrentTop() == TopAfter(old(CurrentTop()), log)
      // The first `early` followed, in order, the plan made against the graph before the batch,
      // having lost no neighbour to a closer earlier one. The others had, and were planned again
      // just before.
      ensures early <= |log| && InOrder(log[..early]) && EarlyOk(old(graph.G), old(CurrentTop()), vectors, log[..early])
      ensures InOrder(log[early..]) && LateOk(old(graph.G), old(CurrentTop()), vectors, log, early)
      ensures Replanned(old(CurrentTop()), vectors, log, early)
    {
      hide Valid, Consistent, ArenaNodeStore.Valid, ArenaNodeStore.AllInMemory, WellFormed, BatchState, PlanOk,
        Listed, EntryOk, TotalSize, NoDup, Planned, Chained, EarlyOk,
        LateOk, Replanned, WithNodes, TopAfter, CommittedIn, Members, InOrder, ArenaNodeStore.Using, Used, RoomFor,
          Sizes, Extends, Insertable;
      ghost var g, top := graph.G, CurrentTop();
      ValidEntry();
      InsertableDims(vectors, lv);
      var plans := PlanAll(vectors, lv);
      newIds := AllocAll(vectors, ids, lv);
      ghost var order;
      order, log, early := CommitBatch(g, top, newIds, vectors, lv, plans);
      FinishBatch(g, newIds, vectors, lv, order);
      EachOnce(log, order, |vectors|);
    }

    lemma FinishBatch(g: Graph, newIds: seq<Word>, vectors: seq<seq<Word>>, lv: seq<nat>, order: seq<nat>)
      requires Consistent() && BatchState(g, graph.G, newIds, vectors, lv, order, entryPoint, maxDepth)
      requires forall i: nat :: i < |newIds| ==> i in order
      ensures Valid() && Extends(g, graph.G, newIds, vectors, lv)
    {
      hide ArenaNodeStore.Valid, WellFormed, Listed, BatchState;
      BatchDone(g, graph.G, newIds, vectors, lv, order, entryPoint, maxDepth);
      BatchExtends(g, newIds, vectors, lv, order);
    }

    lemma InsertableLength(vectors: seq<seq<Word>>, lv: seq<nat>)
      requires Insertable(vectors, lv)
      ensures |lv| == |vectors|
    {
    }

    lemma InsertableAt(vectors: seq<seq<Word>>, lv: seq<nat>, i: nat)
      requires Insertable(vectors, lv) && i < |vectors| == |lv|
      ensures |vectors[i]| == p.dim && lv[i] <= MAX_LEVEL && TotalSize(p, lv[i]) <= ARENA_BYTES
    {
    }

    lemma InsertableDims(vectors: seq<seq<Word>>, lv: seq<nat>)
      requires Insertable(vectors, lv)
      ensures |lv| == |vectors| && forall i :: 0 <= i < |vectors| ==> |vectors[i]| == p.dim
    {
    }

    // Phase 2: commit all members, those whose plan went stale at the end by a new plan.
    method CommitBatch(ghost g: Graph, ghost top: Top, newIds: seq<Word>, vectors: seq<seq<Word>>, lv: seq<nat>,
        plans: seq<InsertPlan>)
      returns (ghost order: seq<nat>, ghost log: seq<CommitStep>, ghost early: nat)
      requires Consistent() && graph.AllInMemory()
      requires BatchState(g, graph.G, newIds, vectors, lv, [], entryPoint, maxDepth)
      requires |plans| == |newIds| == |vectors| == |lv| && top.entry.Some? && top.entry.value in g
        && CurrentTop() == top
      requires forall i :: 0 <= i < |vectors| ==> |vectors[i]| == p.dim
      requires forall i :: 0 <= i < |plans| ==> plans[i].level == lv[i] && PlanOk(p, g, top.entry, plans[i])
      requires forall i :: 0 <= i < |plans| ==> plans[i].neighbors != [] && Planned(g, top, vectors[i], plans[i])
      modifies graph`image, graph`G, graph.Words, `maxDepth, `entryPoint
      ensures Consistent() && graph.AllInMemory() && entryPoint.Some?
      ensures BatchState(g, graph.G, newIds, vectors, lv, order, entryPoint, maxDepth)
      ensures NoDup(order) && forall i: nat :: i in order <==> i < |newIds|
      ensures Chained(newIds, lv, log, old(graph.G), graph.G) && Members(log, order)
        && CurrentTop() == TopAfter(top, log)
      ensures early <= |log| && InOrder(log[..early]) && EarlyOk(g, top, vectors, log[..early])
      ensures InOrder(log[early..]) && LateOk(g, top, vectors, log, early) && Replanned(top, vectors, log, early)
    {
      hide ArenaNodeStore.Valid, ArenaNodeStore.AllInMemory, WellFormed, BatchState, PlanOk, Listed, EntryOk, NoDup,
        Planned, Chained, EarlyOk, LateOk,
        Replanned, TopAfter, Members, InOrder, Overtaken, Ascending;
      ghost var h := graph.G;
      var deferred: seq<nat>;
      deferred, order, log := CommitFresh(g, top, newIds, vectors, lv, plans);
      early := |log|;
      ghost var order0, log0 := order, log;
      order, log := CommitDeferred(g, newIds, vectors, lv, deferred, order, top, h, log);
      assert log[..early] == log0;
      LateMembers(g, top, newIds, vectors, lv, plans, log, early, h, graph.G, order0, deferred);
    }

    ghost predicate InOrder(log: seq<CommitStep>) {
      forall i, j :: 0 <= i < j < |log| ==> log[i].member < log[j].member
    }

    // Every member committed late had a plan made on `g`, and an earlier member overtook it.
    ghost predicate LateOk(g: Graph, top: Top, vectors: seq<seq<Word>>, log: seq<CommitStep>, early: nat) {
      early <= |log| && forall j :: early <= j < |log| ==>
        log[j].member < |vectors| && WasOvertaken(g, top, vectors[log[j].member], log[j].plan.level, log[..early],
          log[j].member)
    }

    ghost predicate WasOvertaken(g: Graph, top: Top, vector: seq<Word>, level: nat, log: seq<CommitStep>, i: nat) {
      exists plan: InsertPlan :: plan.level == level && Planned(g, top, vector, plan) && Overtaken(log, plan, i)
    }

    lemma LateMembers(g: Graph, top: Top, newIds: seq<Word>, vectors: seq<seq<Word>>, lv: seq<nat>,
        plans: seq<InsertPlan>,
                      log: seq<CommitStep>, early: nat, first: Graph, last: Graph, order0: seq<nat>, deferred: seq<nat>)
      requires |plans| == |vectors| == |lv| && early <= |log| && Members(log[..early], order0)
      requires Chained(newIds, lv, log, first, last) && Members(log, order0 + deferred)
      requires forall i :: 0 <= i < |plans| ==> plans[i].level == lv[i] && Planned(g, top, vectors[i], plans[i])
      requires Ascending(deferred) && forall d :: d in deferred ==> d < |plans| && Overtaken(log[..early], plans[d], d)
      ensures LateOk(g, top, vectors, log, early) && InOrder(log[early..])
    {
      hide Planned, Overtaken, Trail;
      forall j | early <= j < |log|
        ensures log[j].member == deferred[j - early]
        ensures log[j].member < |vectors| && WasOvertaken(g, top, vectors[log[j].member], log[j].plan.level,
          log[..early], log[j].member)
      {
        var d := deferred[j - early];
        assert d in deferred && (order0 + deferred)[j] == d && StepOk(newIds, lv, log[j]);
        assert plans[d].level == log[j].plan.level && Planned(g, top, vectors[d], plans[d])
          && Overtaken(log[..early], plans[d], d);
      }
    }

    ghost predicate Ascending(s: seq<nat>) {
      forall i, j :: 0 <= i < j < |s| ==> s[i] < s[j]
    }

    lemma EachOnce(log: seq<CommitStep>, order: seq<nat>, n: nat)
      requires Members(log, order) && NoDup(order) && forall i: nat :: i in order <==> i < n
      ensures |log| == n && forall i: nat :: i < n ==> CommittedIn(log, i)
    {
      CountUpTo(order, n);
      forall i: nat | i < n
        ensures CommittedIn(log, i)
      {
        assert i in order;
        var j :| 0 <= j < |order| && order[j] == i;
        assert log[j].member == i;
      }
    }

    lemma ValidEntry()
      requires Valid() && entryPoint.Some?
      ensures Consistent() && entryPoint.value in graph.G
    {
    }

    lemma BatchExtends(g: Graph, newIds: seq<Word>, vectors: seq<seq<Word>>, lv: seq<nat>, done: seq<nat>)
      requires BatchState(g, graph.G, newIds, vectors, lv, done, entryPoint, maxDepth)
      ensures Extends(g, graph.G, newIds, vectors, lv)
    {
    }

    // Phase 1: plans for the whole chunk against the unchanged graph.
    method PlanAll(vectors: seq<seq<Word>>, lv: seq<nat>) returns (plans: seq<InsertPlan>)
      requires Consistent() && graph.AllInMemory() && |lv| == |vectors|
      requires forall i :: 0 <= i < |vectors| ==> |vectors[i]| == p.dim
      ensures |plans| == |vectors|
      ensures forall i :: 0 <= i < |plans| ==> plans[i].level == lv[i] && PlanOk(p, graph.G, entryPoint, plans[i])
      ensures forall i :: 0 <= i < |plans| ==>
        plans[i].neighbors != [] && Planned(graph.G, CurrentTop(), vectors[i], plans[i])
    {
      hide ArenaNodeStore.Valid, ArenaNodeStore.AllInMemory, ArenaNodeStore.NoneEvicted, WellFormed, PlanOk, Listed,
        EntryOk, Planned;
      InMemoryReadable();
      plans := [];
      while |plans| < |vectors|
        invariant |plans| <= |vectors|
        invariant forall i :: 0 <= i < |plans| ==> plans[i].level == lv[i] && PlanOk(p, graph.G, entryPoint, plans[i])
        invariant forall i :: 0 <= i < |plans| ==>
          plans[i].neighbors != [] && Planned(graph.G, CurrentTop(), vectors[i], plans[i])
      {
        var plan := PlanInsert(vectors[|plans|], lv[|plans|]);
        PlanHasRows(plan);
        plans := plans + [plan];
      }
    }

    lemma PlanHasRows(plan: InsertPlan)
      requires PlanOk(p, graph.G, entryPoint, plan)
      ensures plan.neighbors != []
    {
    }

    // Phase 2a: allocate a node for every member, in order.
    method AllocAll(vectors: seq<seq<Word>>, ids: seq<nat>, lv: seq<nat>) returns (newIds: seq<Word>)
      requires Valid() && graph.AllInMemory()
      requires |ids| == |vectors| == |lv| && RoomFor(graph.Using(), Sizes(p, lv))
      requires Insertable(vectors, lv)
      modifies this, graph, graph.blocks, graph.Arenas, graph.Words
      ensures Consistent() && graph.AllInMemory() && Grown()
      ensures graph.Using() == Used(old(graph.Using()), Sizes(p, lv))
      ensures |newIds| == |vectors|
      ensures nodeIds == old(nodeIds) + newIds && vectorIds == old(vectorIds) + ids && levels == old(levels) + lv
      ensures entryPoint == old(entryPoint) && maxDepth == old(maxDepth)
      ensures BatchState(old(graph.G), graph.G, newIds, vectors, lv, [], entryPoint, maxDepth)
      ensures graph.G == WithNodes(old(graph.G), newIds, vectors, lv)
    {
      hide ArenaNodeStore.Valid, ArenaNodeStore.AllInMemory, WellFormed, Isolated, BatchState, Listed, TotalSize,
        WithNodes, ArenaNodeStore.Using, Used, RoomFor, Sizes,
        Insertable;
      InsertableLength(vectors, lv);
      ghost var g, used0 := graph.G, graph.Using();
      NothingUsed(used0, lv);
      newIds := [];
      BatchStart(g);
      assert WithNodes(g, [], [], []) == g by { NoNodes(g); }
      assert vectors[..0] == [] && lv[..0] == [] && ids[..0] == [];
      while |newIds| < |vectors|
        invariant |newIds| <= |vectors|
        invariant Consistent() && graph.AllInMemory() && Grown()
        invariant graph.Using() == Used(used0, Sizes(p, lv[..|newIds|]))
        invariant nodeIds == old(nodeIds) + newIds && vectorIds == old(vectorIds) + ids[..|newIds|]
        invariant levels == old(levels) + lv[..|newIds|]
        invariant entryPoint == old(entryPoint) && maxDepth == old(maxDepth)
        invariant BatchState(g, graph.G, newIds, vectors[..|newIds|], lv[..|newIds|], [], entryPoint, maxDepth)
        invariant graph.G == WithNodes(g, newIds, vectors[..|newIds|], lv[..|newIds|])
      {
        ghost var n, h := |newIds|, graph.G;
        UsedMore(p, used0, lv, n, n + 1);
        InsertableAt(vectors, lv, n);
        graph.UsingBlocks();
        var id := AllocNode(vectors[|newIds|], ids[|newIds|], lv[|newIds|]);
        BatchAlloc(g, h, newIds, vectors, lv, n, id, entryPoint, maxDepth);
        WithOneMore(g, newIds, id, vectors, lv, n);
        newIds := newIds + [id];
        assert ids[..n + 1] == ids[..n] + [ids[n]] && lv[..n + 1] == lv[..n] + [lv[n]];
      }
      assert vectors[..|newIds|] == vectors && lv[..|newIds|] == lv && ids[..|newIds|] == ids;
    }

    lemma NoNodes(g: Graph)
      ensures WithNodes(g, [], [], []) == g
    {
    }

    lemma WithOneMore(g: Graph, newIds: seq<Word>, id: Word, vectors: seq<seq<Word>>, lv: seq<nat>, n: nat)
      requires n == |newIds| < |vectors| == |lv|
      ensures WithNodes(g, newIds + [id], vectors[..n + 1], lv[..n + 1])
           == WithNodes(g, newIds, vectors[..n], lv[..n])[id := GNode(vectors[n], EmptyRows(lv[n]))]
    {
      assert (newIds + [id])[..n] == newIds && vectors[..n + 1][..n] == vectors[..n] && lv[..n + 1][..n] == lv[..n];
    }

    lemma BatchStart(g: Graph)
      requires Valid() && g == graph.G
      ensures BatchState(g, g, [], [], [], [], entryPoint, maxDepth)
    {
    }

    // Commit one waiting member of the batch and enter it into the log.
    method CommitMember(ghost g: Graph, newIds: seq<Word>, ghost vectors: seq<seq<Word>>, ghost lv: seq<nat>,
        ghost order: seq<nat>,
                        i: nat, plan: InsertPlan, ghost log: seq<CommitStep>, ghost first: Graph, ghost top: Top)
      returns (ghost step: CommitStep)
      requires Consistent() && graph.AllInMemory()
      requires BatchState(g, graph.G, newIds, vectors, lv, order, entryPoint, maxDepth)
      requires i < |newIds| == |lv| && i !in order && plan.level == lv[i] && Committable(p, graph.G, newIds[i], plan)
      requires forall j: nat :: j < |newIds| && j !in order ==> !Mentions(plan, newIds[j])
      requires Chained(newIds, lv, log, first, graph.G) && Members(log, order) && CurrentTop() == TopAfter(top, log)
      modifies graph`image, graph`G, graph.Words, `maxDepth, `entryPoint
      ensures Consistent() && graph.AllInMemory() && (old(entryPoint.Some?) ==> entryPoint.Some?)
      ensures BatchState(g, graph.G, newIds, vectors, lv, order + [i], entryPoint, maxDepth)
      ensures step.member == i && step.plan == plan && step.trail != [] && step.trail[0] == old(graph.G)
      ensures Chained(newIds, lv, log + [step], first, graph.G) && Members(log + [step], order + [i])
      ensures CurrentTop() == TopAfter(top, log + [step])
    {
      hide ArenaNodeStore.Valid, ArenaNodeStore.AllInMemory, WellFormed, Isolated, BatchState, Committable,
        HalfCommitted, Listed, EntryOk, Mentions,
        Chained, Trail, TopAfter;
      ghost var now, e, d := graph.G, entryPoint, maxDepth;
      WaitingMember(g, now, newIds, vectors, lv, order, e, d, i);
      ghost var trail := CommitAndPromote(newIds[i], plan);
      BatchCommit(g, now, graph.G, newIds, vectors, lv, order, e, d, i, plan);
      step := CommitStep(newIds[i], i, plan, trail);
      ChainSnoc(newIds, lv, log, first, now, step);
      TopSnoc(top, log, step);
    }

    // Phase 2b: commit the plans in order, but put off a member if an earlier one of this
    // chunk took a place closer to one of its neighbours.
    method CommitFresh(ghost g: Graph, ghost top: Top, newIds: seq<Word>, ghost vectors: seq<seq<Word>>,
        ghost lv: seq<nat>, plans: seq<InsertPlan>)
      returns (deferred: seq<nat>, ghost order: seq<nat>, ghost log: seq<CommitStep>)
      requires Consistent() && graph.AllInMemory()
      requires BatchState(g, graph.G, newIds, vectors, lv, [], entryPoint, maxDepth)
      requires |plans| == |newIds| == |lv| && top.entry.Some? && top.entry.value in g
      requires forall i :: 0 <= i < |plans| ==> plans[i].level == lv[i] && PlanOk(p, g, top.entry, plans[i])
      requires forall i :: 0 <= i < |plans| ==>
        plans[i].neighbors != [] && |vectors| == |plans| && Planned(g, top, vectors[i], plans[i])
      modifies graph`image, graph`G, graph.Words, `maxDepth, `entryPoint
      ensures Consistent() && graph.AllInMemory() && (old(entryPoint.Some?) ==> entryPoint.Some?)
      ensures BatchState(g, graph.G, newIds, vectors, lv, order, entryPoint, maxDepth)
      ensures NoDup(order + deferred) && forall i: nat :: i in order + deferred <==> i < |newIds|
      ensures Chained(newIds, lv, log, old(graph.G), graph.G) && Members(log, order)
        && CurrentTop() == TopAfter(old(CurrentTop()), log)
      ensures EarlyOk(g, top, vectors, log)
      ensures Ascending(deferred) && InOrder(log)
      ensures forall i :: i in deferred ==> i < |plans| && Overtaken(log, plans[i], i)
    {
      hide ArenaNodeStore.Valid, ArenaNodeStore.AllInMemory, WellFormed, Isolated, BatchState, PlanOk, Committable,
        HalfCommitted, Listed, EntryOk,
        Planned, Chained, Trail, TakesCloser, EarlyOk, Recorded, TopAfter, Overtaken, InOrder, Ascending;
      deferred, order, log := [], [], [];
      ChainStart(newIds, lv, graph.G);
      EarlyStart(g, top, vectors, CurrentTop());
      var committedL0: seq<map<int, int>> := [];
      var i: nat := 0;
      while i < |newIds|
        invariant i <= |newIds|
        invariant Consistent() && graph.AllInMemory() && (old(entryPoint.Some?) ==> entryPoint.Some?)
        invariant BatchState(g, graph.G, newIds, vectors, lv, order, entryPoint, maxDepth)
        invariant NoDup(order + deferred) && forall j: nat :: j in order + deferred <==> j < i
        invariant Chained(newIds, lv, log, old(graph.G), graph.G) && Members(log, order)
          && CurrentTop() == TopAfter(old(CurrentTop()), log)
        invariant EarlyOk(g, top, vectors, log) && Recorded(log, committedL0)
        invariant Ascending(deferred) && InOrder(log)
        invariant forall d :: d in deferred ==> d < |plans| && Overtaken(log, plans[d], d)
      {
        var closer := HasCloserCommitted(plans[i], committedL0);
        CommittedBefore(log, order, deferred, i);
        CloserMeans(log, committedL0, plans[i], i);
        assert forall j :: j in order + deferred <==> j in order || j in deferred;
        if closer {
          InsertInMiddle(order + deferred, [], i);
          assert order + (deferred + [i]) == (order + deferred) + [i] + [];
          deferred := deferred + [i];
        } else {
          PlanNamesNoWaiting(p, g, g, graph.G, newIds, vectors, lv, order, entryPoint, top.entry, maxDepth, plans[i]);
          ghost var step := CommitMember(g, newIds, vectors, lv, order, i, plans[i], log, old(graph.G),
            old(CurrentTop()));
          InsertInMiddle(order, deferred, i);
          order := order + [i];
          var l0 := DistanceMap(plans[i].neighbors[0]);
          EarlySnoc(p, g, top, vectors, log, committedL0, step, l0);
          forall d | d in deferred
            ensures Overtaken(log + [step], plans[d], d)
          {
            StillOvertaken(log, step, plans[d], d);
          }
          committedL0 := committedL0 + [l0];
          log := log + [step];
        }
        i := i + 1;
      }
    }

    // The commits so far followed plans made against `g`, and none took a neighbour that an
    // earlier one had taken at a smaller score.
    ghost predicate EarlyOk(g: Graph, top: Top, vectors: seq<seq<Word>>, log: seq<CommitStep>) {
      forall j :: 0 <= j < |log| ==>
        log[j].member < |vectors| && Planned(g, top, vectors[log[j].member], log[j].plan)
        && forall e :: 0 <= e < j ==> !TakesCloser(log[e].plan, log[j].plan)
    }

    lemma CommittedBefore(log: seq<CommitStep>, order: seq<nat>, deferred: seq<nat>, i: nat)
      requires Members(log, order) && forall j: nat :: j in order + deferred ==> j < i
      ensures forall j :: 0 <= j < |log| ==> log[j].member < i
      ensures Ascending(deferred) ==> Ascending(deferred + [i])
      ensures forall step: CommitStep :: InOrder(log) && step.member == i ==> InOrder(log + [step])
    {
      forall k | 0 <= k < |deferred|
        ensures deferred[k] < i
      {
        assert deferred[k] in deferred && deferred[k] in order + deferred;
      }
      forall j | 0 <= j < |log|
        ensures log[j].member < i
      {
        assert (order + deferred)[j] == order[j];
        assert order[j] in order + deferred;
      }
    }

    lemma EarlyStart(g: Graph, top: Top, vectors: seq<seq<Word>>, now: Top)
      ensures EarlyOk(g, top, vectors, []) && Recorded([], []) && InOrder([]) && Ascending([])
        && TopAfter(now, []) == now
    {
    }

    lemma EarlySnoc(p: Params, g: Graph, top: Top, vectors: seq<seq<Word>>, log: seq<CommitStep>,
                    maps: seq<map<int, int>>, step: CommitStep, m: map<int, int>)
      requires EarlyOk(g, top, vectors, log) && Recorded(log, maps)
      requires step.member < |vectors| && Planned(g, top, vectors[step.member], step.plan) && step.plan.neighbors != []
      requires !Overtaken(log, step.plan, step.member) && forall j :: 0 <= j < |log| ==> log[j].member < step.member
      requires PlanOk(p, g, top.entry, step.plan)
      requires forall id :: id in m <==> HasId(step.plan.neighbors[0], id)
      requires DistinctIds(step.plan.neighbors[0]) ==> forall c :: c in step.plan.neighbors[0] ==>
        c.id in m && m[c.id] == c.d
      ensures EarlyOk(g, top, vectors, log + [step]) && Recorded(log + [step], maps + [m])
    {
      hide Planned, TakesCloser;
      assert PlanRowOk(p, g, top.entry, 0, step.plan.neighbors[0]);
      assert MapOf(step.plan.neighbors[0], m);
    }

    // Phase 2c: plan the members put off once more, against the graph as it is now.
    method CommitDeferred(ghost g: Graph, newIds: seq<Word>, vectors: seq<seq<Word>>, lv: seq<nat>,
        deferred: seq<nat>, ghost order0: seq<nat>,
                          ghost top: Top, ghost first: Graph, ghost log0: seq<CommitStep>)
      returns (ghost order: seq<nat>, ghost log: seq<CommitStep>)
      requires Consistent() && graph.AllInMemory()
      requires BatchState(g, graph.G, newIds, vectors, lv, order0, entryPoint, maxDepth)
      requires |newIds| == |vectors| == |lv| && forall i :: 0 <= i < |vectors| ==> |vectors[i]| == p.dim
      requires NoDup(order0 + deferred) && forall i: nat :: i in order0 + deferred <==> i < |newIds|
      requires Chained(newIds, lv, log0, first, graph.G) && Members(log0, order0) && CurrentTop() == TopAfter(top, log0)
      modifies graph`image, graph`G, graph.Words, `maxDepth, `entryPoint
      ensures Consistent() && graph.AllInMemory() && (old(entryPoint.Some?) ==> entryPoint.Some?)
      ensures BatchState(g, graph.G, newIds, vectors, lv, order, entryPoint, maxDepth)
      ensures order == order0 + deferred
      ensures Chained(newIds, lv, log, first, graph.G) && Members(log, order) && CurrentTop() == TopAfter(top, log)
      ensures log0 <= log && Replanned(top, vectors, log, |log0|)
    {
      hide ArenaNodeStore.Valid, ArenaNodeStore.AllInMemory, ArenaNodeStore.NoneEvicted, WellFormed, Isolated,
        BatchState, PlanOk, Committable, HalfCommitted, Listed, EntryOk,
        Planned, Chained, Trail, TopAfter, Replanned;
      order, log := order0, log0;
      NoneReplanned(top, vectors, log0);
      var n := 0;
      assert order0 == order0 + deferred[..0];
      while n < |deferred|
        invariant 0 <= n <= |deferred| && order == order0 + deferred[..n]
        invariant Consistent() && graph.AllInMemory() && (old(entryPoint.Some?) ==> entryPoint.Some?)
        invariant BatchState(g, graph.G, newIds, vectors, lv, order, entryPoint, maxDepth)
        invariant Chained(newIds, lv, log, first, graph.G) && Members(log, order) && CurrentTop() == TopAfter(top, log)
        invariant log0 <= log && Replanned(top, vectors, log, |log0|)
      {
        var i := deferred[n];
        NextDeferred(order0, deferred, n);
        assert i in order0 + deferred;
        InMemoryReadable();
        var plan := PlanInsert(vectors[i], lv[i]);
        PlanNamesNoWaiting(p, g, graph.G, graph.G, newIds, vectors, lv, order, entryPoint, entryPoint, maxDepth, plan);
        ghost var step := CommitMember(g, newIds, vectors, lv, order, i, plan, log, first, top);
        assert deferred[..n + 1] == deferred[..n] + [i];
        order := order + [i];
        ReplannedSnoc(top, vectors, log, |log0|, step);
        log := log + [step];
        n := n + 1;
      }
      assert deferred[..n] == deferred;
    }

    lemma NoneReplanned(top: Top, vectors: seq<seq<Word>>, log: seq<CommitStep>)
      ensures Replanned(top, vectors, log, |log|)
    {
    }

    lemma ReplannedSnoc(top: Top, vectors: seq<seq<Word>>, log: seq<CommitStep>, from: nat, step: CommitStep)
      requires Replanned(top, vectors, log, from) && step.member < |vectors| && step.trail != []
      requires Planned(step.trail[0], TopAfter(top, log), vectors[step.member], step.plan)
      ensures Replanned(top, vectors, log + [step], from)
    {
      hide Planned, TopAfter;
      forall j | from <= j < |log| + 1
        ensures (log + [step])[..j] == log[..j]
      {
      }
      assert log[..|log|] == log;
    }

    lemma WaitingMember(g: Graph, h: Graph, newIds: seq<Word>, vectors: seq<seq<Word>>, lv: seq<nat>,
                        done: seq<nat>, entry: Option<Word>, depth: int, i: nat)
      requires BatchState(g, h, newIds, vectors, lv, done, entry, depth) && i < |newIds| && i !in done
      ensures |lv| == |newIds| && newIds[i] in h && |h[newIds[i]].rows| == lv[i] + 1 && Isolated(h, newIds[i])
    {
      assert newIds[i] in newIds;
    }

    // Changes to rows leave the id lists and the entry point right.
    twostate lemma KeepsLists()
      requires old(Listed()) && old(EntryOk())
      requires unchanged(this) && graph.ids == old(graph.ids) && SameNodes(old(graph.G), graph.G)
      ensures Listed() && EntryOk()
    {
    }

    lemma InMemoryReadable()
      requires graph.AllInMemory()
      ensures graph.NoneEvicted()
    {
    }

    lemma EmptyStore()
      requires Consistent() && |graph.ids| == 0
      ensures graph.G == map[]
    {
      assert graph.ids == [] && forall id: Word :: id !in graph.G;
    }

    lemma NonEmptyStore()
      requires Valid() && |graph.ids| > 0
      ensures graph.G != map[] && entryPoint.Some? && HasRow(graph.G, entryPoint.value, maxDepth)
    {
      var id := graph.ids[0];
      assert id in graph.G && NodeStored(p, graph.image, id, graph.G[id]);
    }
  }

  // Has a committed member recorded a smaller score for one of the plan's level-0 neighbours?
  method HasCloserCommitted(plan: InsertPlan, committed: seq<map<int, int>>) returns (r: bool)
    requires plan.neighbors != []
    ensures r <==> exists c, m :: c in plan.neighbors[0] && m in committed && c.id in m && m[c.id] < c.d
  {
    var l0 := plan.neighbors[0];
    var i := 0;
    while i < |l0|
      invariant 0 <= i <= |l0|
      invariant forall c, m :: c in l0[..i] && m in committed && c.id in m ==> m[c.id] >= c.d
    {
      assert l0[..i + 1] == l0[..i] + [l0[i]];
      var j := 0;
      while j < |committed|
        invariant 0 <= j <= |committed|
        invariant forall m :: m in committed[..j] && l0[i].id in m ==> m[l0[i].id] >= l0[i].d
      {
        assert committed[..j + 1] == committed[..j] + [committed[j]];
        if l0[i].id in committed[j] && committed[j][l0[i].id] < l0[i].d {
          assert l0[i] in l0 && committed[j] in committed;
          return true;
        }
        j := j + 1;
      }
      assert committed[..j] == committed;
      i := i + 1;
    }
    assert l0[..i] == l0;
    r := false;
  }

  // The scores of a planned row, by neighbour.
  method DistanceMap(row: seq<Cand>) returns (m: map<int, int>)
    ensures forall id :: id in m <==> HasId(row, id)
    ensures DistinctIds(row) ==> forall c :: c in row ==> c.id in m && m[c.id] == c.d
  {
    m := map[];
    var i := 0;
    while i < |row|
      invariant 0 <= i <= |row|
      invariant forall id :: id in m <==> HasId(row[..i], id)
      invariant DistinctIds(row) ==> forall j :: 0 <= j < i ==> m[row[j].id] == row[j].d
    {
      assert row[..i + 1] == row[..i] + [row[i]];
      forall j | 0 <= j < i
        ensures row[j].id in m
      {
        assert row[..i][j] == row[j];
      }
      m := m[row[i].id := row[i].d];
      i := i + 1;
    }
    assert row[..i] == row;
  }

  // Without one of its elements a list without duplicates has the others.
  lemma WithoutOne(s: seq<nat>, k: nat)
    requires NoDup(s) && k < |s|
    ensures var r := s[..k] + s[k + 1..]; NoDup(r) && forall x :: x in r <==> x in s && x != s[k]
  {
    var r := s[..k] + s[k + 1..];
    forall i | 0 <= i < |r|
      ensures r[i] == s[if i < k then i else i + 1]
    {
    }
    forall x | x in s && x != s[k]
      ensures x in r
    {
      var j :| 0 <= j < |s| && s[j] == x;
      assert r[if j < k then j else j - 1] == x;
    }
  }

  lemma {:induction false} CountUpTo(s: seq<nat>, n: nat)
    requires NoDup(s) && forall i: nat :: i in s <==> i < n
    ensures |s| == n
  {
    hide NoDup;
    assert |s| > 0 ==> s[0] in s;
    if n > 0 {
      assert n - 1 in s;
      var k :| 0 <= k < |s| && s[k] == n - 1;
      var r := s[..k] + s[k + 1..];
      WithoutOne(s, k);
      forall i: nat
        ensures i in r <==> i < n - 1
      {
        assert i in s <==> i < n;
      }
      CountUpTo(r, n - 1);
    }
  }

  lemma InsertInMiddle(a: seq<nat>, b: seq<nat>, x: nat)
    requires NoDup(a + b) && x !in a + b
    ensures NoDup(a + [x] + b)
    ensures forall y :: y in a + [x] + b <==> y in a + b || y == x
  {
    var r, s := a + [x] + b, a + b;
    assert forall i :: 0 <= i < |a| ==> r[i] == s[i];
    assert forall i :: |a| < i < |r| ==> r[i] == s[i - 1];
  }

  lemma NextDeferred(a: seq<nat>, b: seq<nat>, n: nat)
    requires NoDup(a + b) && n < |b|
    ensures b[n] in a + b && b[n] !in a + b[..n]
  {
    var s := a + b;
    assert s[|a| + n] == b[n];
    assert forall i :: 0 <= i < |a + b[..n]| ==> (a + b[..n])[i] == s[i];
  }

  // Keep the `n` closest candidates, sorted by distance.
  method NearestSorted(ghost k: Query, ghost seen: set<Word>, w: seq<Cand>, n: nat) returns (r: seq<Cand>)
    requires SearchResult(k, w, seen)
    ensures |r| <= n && DistinctIds(r) && ByDistance(r)
    ensures forall c :: c in r ==> TrueDistance(k, c) && Reach(k.g, k.l, k.ep, c.id)
    ensures |Component(k.g, k.l, k.ep)| <= k.ef ==> NearestOf(k, r, n)
    ensures BestOf(w, r, n)
  {
    var all := SortCandidates(w);
    r := if n < |all| then all[..n] else all;
    PrefixIsBest(w, all, n);
    if |Component(k.g, k.l, k.ep)| <= k.ef {
      BestOfAllIsNearest(k, w, seen, r, n);
    }
  }

  // Keep the `n` candidates of least score; all of them, as they are, if there are no more.
  method SelectBest(scored: seq<Cand>, n: nat) returns (kept: seq<Cand>)
    requires DistinctIds(scored)
    ensures KeepsBest(scored, kept, n) && (|scored| <= n ==> kept == scored)
  {
    if |scored| <= n {
      return scored;
    }
    var all := SortCandidates(scored);
    kept := all[..n];
    PrefixIsBest(scored, all, n);
  }

  // The first candidate of least score.
  function Least(row: seq<Cand>): (c: Cand)
    requires row != []
    ensures c in row && forall x :: x in row ==> c.d <= x.d
  {
    if |row| == 1 then row[0]
    else
      var c := Least(row[..|row| - 1]);
      assert row == row[..|row| - 1] + [row[|row| - 1]];
      if row[|row| - 1].d < c.d then row[|row| - 1] else c
  }

  method LeastOf(row: seq<Cand>) returns (best: Cand)
    requires row != []
    ensures best == Least(row)
  {
    best := row[0];
    assert row[..1] == [row[0]];
    for i := 1 to |row|
      invariant best == Least(row[..i])
    {
      assert row[..i + 1][..i] == row[..i];
      if row[i].d < best.d {
        best := row[i];
      }
    }
    assert row[..|row|] == row;
  }

  method SortCandidates(w: seq<Cand>) returns (all: seq<Cand>)
    requires DistinctIds(w)
    ensures Sorted(all) && DistinctIds(all) && |all| == |w| && forall c :: c in all <==> c in w
  {
    all := [];
    var i := 0;
    while i < |w|
      invariant 0 <= i <= |w| && |all| == i
      invariant Sorted(all) && DistinctIds(all) && forall c :: c in all <==> c in w[..i]
    {
      assert w[..i + 1] == w[..i] + [w[i]];
      PushContents(all, w[i]);
      all := Push(all, w[i]);
      i := i + 1;
    }
    assert w[..|w|] == w;
  }

  lemma PrefixIsBest(w: seq<Cand>, all: seq<Cand>, n: nat)
    requires Sorted(all) && DistinctIds(all) && |all| == |w| && forall c :: c in all <==> c in w
    ensures BestOf(w, if n < |all| then all[..n] else all, n)
  {
    var r := if n < |all| then all[..n] else all;
    forall c, x | c in r && x in w && x !in r
      ensures c.d <= x.d
    {
      var i :| 0 <= i < |r| && r[i] == c;
      var j :| 0 <= j < |all| && all[j] == x;
      assert forall t :: 0 <= t < |r| ==> r[t] == all[t] && r[t] in r;
      assert Leq(all[i], all[j]);
    }
  }

  // The first candidate of least distance.
  method ClosestOf(ghost k: Query, ghost seen: set<Word>, w: seq<Cand>) returns (best: Word)
    requires SearchResult(k, w, seen)
    ensures HasRow(k.g, best, k.l) && Reach(k.g, k.l, k.ep, best)
    ensures HasId(w, best) && forall c :: c in w ==> D(k, best) <= c.d
  {
    var b := 0;
    var i := 1;
    while i < |w|
      invariant 0 <= b < |w| && 0 <= i <= |w|
      invariant forall j :: 0 <= j < i ==> w[b].d <= w[j].d
    {
      if w[i].d < w[b].d {
        b := i;
      }
      i := i + 1;
    }
    assert w[b] in w && w[b].id in seen;
    best := w[b].id;
  }
}
