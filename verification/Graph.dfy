// The abstract neighbour graph: what the packed rows of an arena store mean.
//
// Every node has its vector and one neighbour list per level.  The functions below say what
// one call of the store does to this graph; the store itself (ArenaStore.dfy) works on words.
module Graph {
  import opened Layout

  type Metric = (seq<Word>, seq<Word>) -> int

  datatype GNode = GNode(vector: seq<Word>, rows: seq<seq<Word>>)

  type Graph = map<Word, GNode>

  predicate HasRow(g: Graph, id: Word, l: nat) {
    id in g && l < |g[id].rows|
  }

  function Row(g: Graph, id: Word, l: nat): seq<Word>
    requires HasRow(g, id, l)
  {
    g[id].rows[l]
  }

  function SetRow(g: Graph, id: Word, l: nat, row: seq<Word>): Graph
    requires HasRow(g, id, l)
  {
    g[id := g[id].(rows := g[id].rows[l := row])]
  }

  predicate NoDup<T(==)>(s: seq<T>) {
    forall i, j :: 0 <= i < j < |s| ==> s[i] != s[j]
  }

  // Same nodes, same vectors, same levels: only neighbour lists may differ.
  ghost predicate SameNodes(g: Graph, h: Graph) {
    && g.Keys == h.Keys
    && forall id :: id in g ==> h[id].vector == g[id].vector && |h[id].rows| == |g[id].rows|
  }

  lemma SetRowSameNodes(g: Graph, id: Word, l: nat, row: seq<Word>)
    requires HasRow(g, id, l)
    ensures SameNodes(g, SetRow(g, id, l, row))
  {
    assert SetRow(g, id, l, row).Keys == g.Keys + {id};
  }

  lemma SetRowNop(g: Graph, id: Word, l: nat)
    requires HasRow(g, id, l)
    ensures SetRow(g, id, l, Row(g, id, l)) == g
  {
    assert g[id].rows[l := Row(g, id, l)] == g[id].rows;
  }

  // A node nobody links to and that links to nobody: allocated, not yet connected.
  ghost predicate Isolated(g: Graph, id: Word) {
    forall l: nat :: HasRow(g, id, l) ==> Row(g, id, l) == []
  }

  // ── The graph invariant ──

  // One row: within capacity, no duplicate, no self-edge, every neighbour is a node allocated
  // with this level, and the edge is mirrored.
  ghost predicate RowOk(p: Params, g: Graph, id: Word, l: nat)
    requires HasRow(g, id, l)
  {
    var row := Row(g, id, l);
    && |row| <= Cap(p, l)
    && NoDup(row)
    && id !in row
    && forall x :: x in row ==> HasRow(g, x, l) && id in Row(g, x, l)
  }

  ghost predicate WellFormed(p: Params, g: Graph) {
    forall id, l: nat :: HasRow(g, id, l) ==> RowOk(p, g, id, l)
  }

  // Edges are undirected at every level.
  lemma Undirected(p: Params, g: Graph, x: Word, y: Word, l: nat)
    requires WellFormed(p, g) && HasRow(g, x, l) && HasRow(g, y, l)
    ensures x in Row(g, y, l) <==> y in Row(g, x, l)
  {
    assert RowOk(p, g, x, l) && RowOk(p, g, y, l);
  }

  // A fresh node without edges keeps the graph well-formed.
  lemma WellFormedPush(p: Params, g: Graph, id: Word, n: GNode)
    requires WellFormed(p, g) && id !in g && forall l :: 0 <= l < |n.rows| ==> n.rows[l] == []
    ensures WellFormed(p, g[id := n]) && Isolated(g[id := n], id)
  {
    var h := g[id := n];
    forall x, l: nat | HasRow(h, x, l)
      ensures RowOk(p, h, x, l)
    {
      if x != id {
        assert RowOk(p, g, x, l);
      }
    }
  }

  // ── Store operations on the graph ──

  // Index of the last largest element.
  function LastMax(ds: seq<int>): (i: nat)
    requires 0 < |ds|
    ensures i < |ds|
    ensures forall j :: 0 <= j < |ds| ==> ds[j] <= ds[i]
    ensures forall j :: i < j < |ds| ==> ds[j] < ds[i]
  {
    if |ds| == 1 then 0
    else
      var j := LastMax(ds[..|ds| - 1]);
      if ds[|ds| - 1] >= ds[j] then |ds| - 1 else j
  }

  function Distances(dist: Metric, g: Graph, src: Word, row: seq<Word>): (ds: seq<int>)
    requires src in g && forall x :: x in row ==> x in g
    ensures |ds| == |row|
  {
    seq(|row|, i requires 0 <= i < |row| => dist(g[src].vector, g[row[i]].vector))
  }

  function IndexOf(s: seq<Word>, x: Word): (i: nat)
    requires x in s
    ensures i < |s| && s[i] == x
  {
    if s[0] == x then 0 else 1 + IndexOf(s[1..], x)
  }

  // Drop `x` from a row by moving the last element into its slot.
  function SwapRemove(row: seq<Word>, x: Word): (r: seq<Word>) {
    if x !in row then row
    else row[IndexOf(row, x) := row[|row| - 1]][..|row| - 1]
  }

  lemma SwapRemoveContents(row: seq<Word>, x: Word)
    requires NoDup(row)
    ensures var r := SwapRemove(row, x);
            NoDup(r) && |r| <= |row| && forall y :: y in r <==> y in row && y != x
  {
    if x in row {
      var r := SwapRemove(row, x);
      var k := IndexOf(row, x);
      forall y | y in row && y != x
        ensures y in r
      {
        var j :| 0 <= j < |row| && row[j] == y;
        if j == |row| - 1 {
          assert r[k] == y;
        } else {
          assert r[j] == y;
        }
      }
    }
  }

  lemma ReplaceContents(row: seq<Word>, far: nat, x: Word)
    requires NoDup(row) && far < |row| && x !in row
    ensures var r := row[far := x];
            NoDup(r) && forall y :: y in r <==> y == x || (y in row && y != row[far])
  {
    var r := row[far := x];
    assert r[far] == x;
    forall y | y in row && y != row[far]
      ensures y in r
    {
      var j :| 0 <= j < |row| && row[j] == y;
      assert r[j] == y;
    }
  }

  function RemoveOutgoing(g: Graph, id: Word, target: Word, l: nat): Graph
    requires HasRow(g, id, l)
  {
    SetRow(g, id, l, SwapRemove(Row(g, id, l), target))
  }

  // What a caller of `add_directed_edge` must have: both ends carry this level, and so does
  // every neighbour of the source.
  ghost predicate CanAdd(p: Params, g: Graph, src: Word, dst: Word, l: nat) {
    && HasRow(g, src, l) && HasRow(g, dst, l)
    && |Row(g, src, l)| <= Cap(p, l) && 0 < Cap(p, l)
    && forall x :: x in Row(g, src, l) ==> HasRow(g, x, l)
  }

  // Add `dst` to the row of `src`.  A full row gives up its farthest neighbour, on both
  // sides, unless `dst` is farther still.
  ghost function AddDirected(dist: Metric, p: Params, g: Graph, src: Word, dst: Word, l: nat): (r: (Graph, bool))
    requires CanAdd(p, g, src, dst, l)
  {
    var row := Row(g, src, l);
    if dst in row then (g, true)
    else if |row| < Cap(p, l) then (SetRow(g, src, l, row + [dst]), true)
    else
      var ds := Distances(dist, g, src, row);
      var far := LastMax(ds);
      if dist(g[src].vector, g[dst].vector) > ds[far] then (g, false)
      else
        var removed := row[far];
        var h := if removed == src then g else RemoveOutgoing(g, removed, src, l);
        (SetRow(h, src, l, row[far := dst]), true)
  }

  lemma AddDirectedSameNodes(dist: Metric, p: Params, g: Graph, src: Word, dst: Word, l: nat)
    requires CanAdd(p, g, src, dst, l)
    ensures SameNodes(g, AddDirected(dist, p, g, src, dst, l).0)
  {
    var row := Row(g, src, l);
    if dst !in row && |row| < Cap(p, l) {
      SetRowSameNodes(g, src, l, row + [dst]);
    } else if dst !in row {
      var far := LastMax(Distances(dist, g, src, row));
      var removed := row[far];
      var h := if removed == src then g else RemoveOutgoing(g, removed, src, l);
      SetRowSameNodes(g, removed, l, SwapRemove(Row(g, removed, l), src));
      SetRowSameNodes(h, src, l, row[far := dst]);
    }
  }

  // ── Connecting a new node at one level ──

  // The graph while `nid` is being connected at level `l`: every neighbour in `good` already
  // points to `nid`, and `nid`'s own row is still empty.  All other edges are mirrored.
  ghost predicate Connecting(p: Params, g: Graph, nid: Word, good: seq<Word>, l: nat) {
    && HasRow(g, nid, l) && Row(g, nid, l) == []
    && NoDup(good) && nid !in good
    && (forall x :: x in good ==> HasRow(g, x, l) && nid in Row(g, x, l))
    && forall id, k: nat :: HasRow(g, id, k) ==> PartlyOk(p, g, id, k, nid, good, l)
  }

  ghost predicate PartlyOk(p: Params, g: Graph, id: Word, k: nat, nid: Word, good: seq<Word>, l: nat)
    requires HasRow(g, id, k)
  {
    var row := Row(g, id, k);
    && |row| <= Cap(p, k) && NoDup(row) && id !in row
    && forall x :: x in row ==>
         HasRow(g, x, k) && if k == l && x == nid then id in good else id in Row(g, x, k)
  }

  lemma StartConnecting(p: Params, g: Graph, nid: Word, l: nat)
    requires WellFormed(p, g) && HasRow(g, nid, l) && Row(g, nid, l) == []
    ensures Connecting(p, g, nid, [], l)
  {
    forall id, k: nat | HasRow(g, id, k)
      ensures PartlyOk(p, g, id, k, nid, [], l)
    {
      assert RowOk(p, g, id, k);
    }
  }

  lemma FinishConnecting(p: Params, g: Graph, nid: Word, good: seq<Word>, l: nat)
    requires Connecting(p, g, nid, good, l) && |good| <= Cap(p, l)
    ensures WellFormed(p, SetRow(g, nid, l, good))
  {
    var h := SetRow(g, nid, l, good);
    forall id, k: nat | HasRow(h, id, k)
      ensures RowOk(p, h, id, k)
    {
      assert PartlyOk(p, g, id, k, nid, good, l);
    }
  }

  // Adding the edge nb -> nid keeps the intermediate invariant, and `nb` joins the good
  // neighbours exactly when the store says so.
  lemma ConnectOne(dist: Metric, p: Params, g: Graph, nid: Word, good: seq<Word>, nb: Word, l: nat)
    requires p.Valid()
    requires Connecting(p, g, nid, good, l)
    requires HasRow(g, nb, l) && nb != nid && nb !in good
    ensures CanAdd(p, g, nb, nid, l)
    ensures forall x :: x in Row(g, nb, l) ==> NoDup(Row(g, x, l))
    ensures var (h, added) := AddDirected(dist, p, g, nb, nid, l);
            Connecting(p, h, nid, if added then good + [nb] else good, l)
  {
    assert PartlyOk(p, g, nb, l, nid, good, l);
    var row := Row(g, nb, l);
    assert nid !in row;
    forall x | x in row
      ensures NoDup(Row(g, x, l))
    {
      assert PartlyOk(p, g, x, l, nid, good, l);
    }
    var (h, added) := AddDirected(dist, p, g, nb, nid, l);
    if |row| < Cap(p, l) {
      ConnectAppend(p, g, nid, good, nb, l);
    } else if added {
      var far := LastMax(Distances(dist, g, nb, row));
      ConnectEvict(p, g, nid, good, nb, far, l);
    }
  }

  lemma ConnectAppend(p: Params, g: Graph, nid: Word, good: seq<Word>, nb: Word, l: nat)
    requires Connecting(p, g, nid, good, l)
    requires HasRow(g, nb, l) && nb != nid && nb !in good && nid !in Row(g, nb, l)
    requires |Row(g, nb, l)| < Cap(p, l)
    ensures Connecting(p, SetRow(g, nb, l, Row(g, nb, l) + [nid]), nid, good + [nb], l)
  {
    var h := SetRow(g, nb, l, Row(g, nb, l) + [nid]);
    forall id, k: nat | HasRow(h, id, k)
      ensures PartlyOk(p, h, id, k, nid, good + [nb], l)
    {
      assert PartlyOk(p, g, id, k, nid, good, l);
    }
  }

  lemma ConnectEvict(p: Params, g: Graph, nid: Word, good: seq<Word>, nb: Word, far: nat, l: nat)
    requires Connecting(p, g, nid, good, l)
    requires HasRow(g, nb, l) && nb != nid && nb !in good && nid !in Row(g, nb, l)
    requires far < |Row(g, nb, l)|
    ensures var row := Row(g, nb, l);
            HasRow(g, row[far], l) && row[far] != nb
    ensures var row := Row(g, nb, l);
            Connecting(p, SetRow(RemoveOutgoing(g, row[far], nb, l), nb, l, row[far := nid]), nid, good + [nb], l)
  {
    var row := Row(g, nb, l);
    var r := row[far];
    assert PartlyOk(p, g, nb, l, nid, good, l);
    assert r in row;
    var g1 := RemoveOutgoing(g, r, nb, l);
    var h := SetRow(g1, nb, l, row[far := nid]);
    assert PartlyOk(p, g, r, l, nid, good, l);
    SwapRemoveContents(Row(g, r, l), nb);
    assert Row(h, r, l) == SwapRemove(Row(g, r, l), nb);
    ReplaceContents(row, far, nid);
    forall id, k: nat | HasRow(h, id, k)
      ensures PartlyOk(p, h, id, k, nid, good + [nb], l)
    {
      assert PartlyOk(p, g, id, k, nid, good, l);
      if k == l && id != nb && id != r && r in Row(g, id, l) && id in row {
        assert id in Row(g, r, l);
      }
    }
    forall x | x in good + [nb]
      ensures HasRow(h, x, l) && nid in Row(h, x, l)
    {
    }
  }

  // ── All neighbours of one level ──

  // Only rows of level `l` may differ, and outside `touched` an empty one stays empty.
  ghost predicate ChangedAt(g: Graph, h: Graph, l: nat, touched: seq<Word>) {
    && SameNodes(g, h)
    && (forall id, k: nat :: HasRow(g, id, k) && k != l ==> Row(h, id, k) == Row(g, id, k))
    && forall id :: HasRow(g, id, l) && id !in touched && Row(g, id, l) == [] ==> Row(h, id, l) == []
  }

  lemma AddDirectedChanges(dist: Metric, p: Params, g: Graph, src: Word, dst: Word, l: nat)
    requires CanAdd(p, g, src, dst, l)
    ensures ChangedAt(g, AddDirected(dist, p, g, src, dst, l).0, l, [src])
  {
    AddDirectedSameNodes(dist, p, g, src, dst, l);
    var row := Row(g, src, l);
    if dst !in row && |row| == Cap(p, l) {
      var removed := row[LastMax(Distances(dist, g, src, row))];
      assert removed in row;
    }
  }

  lemma ChangedAtTrans(g: Graph, h: Graph, k: Graph, l: nat, x: Word, xs: seq<Word>)
    requires ChangedAt(g, h, l, [x]) && ChangedAt(h, k, l, xs)
    ensures ChangedAt(g, k, l, [x] + xs)
  {
    assert forall id, j: nat :: HasRow(g, id, j) ==> HasRow(h, id, j);
  }

  ghost predicate Joinable(g: Graph, nid: Word, good: seq<Word>, nbs: seq<Word>, l: nat) {
    NoDup(nbs) && forall x :: x in nbs ==> HasRow(g, x, l) && x != nid && x !in good
  }

  // Offer the edge to `nid` to each of `nbs` in turn; collects those that take it.
  ghost function ConnectRun(dist: Metric, p: Params, g: Graph, nid: Word, good: seq<Word>, nbs: seq<Word>,
      l: nat): (r: (Graph, seq<Word>))
    requires p.Valid() && Connecting(p, g, nid, good, l) && Joinable(g, nid, good, nbs, l)
    ensures Connecting(p, r.0, nid, r.1, l)
    ensures |r.1| <= |good| + |nbs| && forall x :: x in r.1 ==> x in good || x in nbs
    ensures ChangedAt(g, r.0, l, nbs)
    decreases |nbs|
  {
    if nbs == [] then (g, good)
    else
      ConnectFirst(dist, p, g, nid, good, nbs, l);
      var (h, added) := AddDirected(dist, p, g, nbs[0], nid, l);
      var good' := if added then good + [nbs[0]] else good;
      var r := ConnectRun(dist, p, h, nid, good', nbs[1..], l);
      ChangedAtTrans(g, h, r.0, l, nbs[0], nbs[1..]);
      assert nbs == [nbs[0]] + nbs[1..];
      r
  }

  lemma ConnectFirst(dist: Metric, p: Params, g: Graph, nid: Word, good: seq<Word>, nbs: seq<Word>, l: nat)
    requires p.Valid() && Connecting(p, g, nid, good, l) && Joinable(g, nid, good, nbs, l) && nbs != []
    ensures CanAdd(p, g, nbs[0], nid, l)
    ensures var (h, added) := AddDirected(dist, p, g, nbs[0], nid, l); var good' := if added then good + [nbs[0]]
      else good;
      Connecting(p, h, nid, good', l) && Joinable(h, nid, good', nbs[1..], l) && ChangedAt(g, h, l, [nbs[0]])
  {
    hide Connecting, AddDirected, ChangedAt;
    assert nbs[0] in nbs;
    ConnectOne(dist, p, g, nid, good, nbs[0], l);
    AddDirectedChanges(dist, p, g, nbs[0], nid, l);
    AddDirectedSameNodes(dist, p, g, nbs[0], nid, l);
    var (h, added) := AddDirected(dist, p, g, nbs[0], nid, l);
    JoinableRest(g, h, nid, good, if added then good + [nbs[0]] else good, nbs, l);
  }

  lemma JoinableRest(g: Graph, h: Graph, nid: Word, good: seq<Word>, good': seq<Word>, nbs: seq<Word>, l: nat)
    requires Joinable(g, nid, good, nbs, l) && nbs != [] && SameNodes(g, h)
    requires good' == good || good' == good + [nbs[0]]
    ensures Joinable(h, nid, good', nbs[1..], l)
  {
    assert forall i :: 0 <= i < |nbs| - 1 ==> nbs[1..][i] == nbs[i + 1];
    assert forall x :: x in nbs[1..] ==> x in nbs && x != nbs[0];
  }

  // Connect a node with an empty row at level `l`: both directions of every accepted edge.
  ghost function Connected(dist: Metric, p: Params, g: Graph, nid: Word, nbs: seq<Word>, l: nat): Graph
    requires p.Valid() && WellFormed(p, g) && HasRow(g, nid, l) && Row(g, nid, l) == []
    requires Joinable(g, nid, [], nbs, l)
  {
    StartConnecting(p, g, nid, l);
    var (h, good) := ConnectRun(dist, p, g, nid, [], nbs, l);
    SetRow(h, nid, l, good)
  }

  lemma ConnectedFacts(dist: Metric, p: Params, g: Graph, nid: Word, nbs: seq<Word>, l: nat)
    requires p.Valid() && WellFormed(p, g) && HasRow(g, nid, l) && Row(g, nid, l) == []
    requires Joinable(g, nid, [], nbs, l) && |nbs| <= Cap(p, l)
    ensures var h := Connected(dist, p, g, nid, nbs, l);
            && WellFormed(p, h) && ChangedAt(g, h, l, [nid] + nbs)
            && forall x :: x in Row(h, nid, l) ==> x in nbs
  {
    StartConnecting(p, g, nid, l);
    var (h, good) := ConnectRun(dist, p, g, nid, [], nbs, l);
    FinishConnecting(p, h, nid, good, l);
    SetRowSameNodes(h, nid, l, good);
  }
}
