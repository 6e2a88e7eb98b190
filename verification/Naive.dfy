// The heap-allocated node store, and why the packed arena store refines it.
module Naive {
  import opened Layout
  import opened Graph
  import opened NodeMemory

  // A node of the naive store: its vector and one neighbour list per level. Ids are positions.
  datatype NaiveNode = NaiveNode(vector: seq<Word>, neighbors: seq<seq<nat>>)

  type Nodes = seq<NaiveNode>

  predicate HasList(n: Nodes, id: nat, l: nat) {
    id < |n| && l < |n[id].neighbors|
  }

  function List(n: Nodes, id: nat, l: nat): seq<nat>
    requires HasList(n, id, l)
  {
    n[id].neighbors[l]
  }

  function SetList(n: Nodes, id: nat, l: nat, list: seq<nat>): (r: Nodes)
    requires HasList(n, id, l)
    ensures |r| == |n|
  {
    n[id := n[id].(neighbors := n[id].neighbors[l := list])]
  }

  function Without(s: seq<nat>, x: nat): (r: seq<nat>)
    ensures forall y :: y in r <==> y in s && y != x
    ensures NoDup(s) ==> NoDup(r)
  {
    if s == [] then []
    else
      assert s == s[..|s| - 1] + [s[|s| - 1]];
      assert NoDup(s) ==> s[|s| - 1] !in s[..|s| - 1];
      var r := Without(s[..|s| - 1], x);
      if s[|s| - 1] == x then r else r + [s[|s| - 1]]
  }

  // Index of the first largest element.
  function FirstMax(ds: seq<int>): (i: nat)
    requires 0 < |ds|
    ensures i < |ds|
    ensures forall j :: 0 <= j < |ds| ==> ds[j] <= ds[i]
    ensures forall j :: 0 <= j < i ==> ds[j] < ds[i]
  {
    if |ds| == 1 then 0
    else
      var j := FirstMax(ds[..|ds| - 1]);
      if ds[|ds| - 1] > ds[j] then |ds| - 1 else j
  }

  function ListDistances(dist: Metric, n: Nodes, src: nat, list: seq<nat>): (ds: seq<int>)
    requires src < |n| && forall x :: x in list ==> x < |n|
    ensures |ds| == |list|
  {
    seq(|list|, i requires 0 <= i < |list| => assert list[i] in list; dist(n[src].vector, n[list[i]].vector))
  }

  // What a caller of `add_directed_edge` must have.
  ghost predicate CanAddNaive(p: Params, n: Nodes, src: nat, dst: nat, l: nat) {
    && HasList(n, src, l) && HasList(n, dst, l) && 0 < Cap(p, l)
    && forall x :: x in List(n, src, l) ==> HasList(n, x, l)
  }

  ghost function AddNaive(dist: Metric, p: Params, n: Nodes, src: nat, dst: nat, l: nat): (Nodes, bool)
    requires CanAddNaive(p, n, src, dst, l)
  {
    var list := List(n, src, l);
    if dst in list then (n, true)
    else if |list| < Cap(p, l) then (SetList(n, src, l, list + [dst]), true)
    else
      var ds := ListDistances(dist, n, src, list);
      var far := FirstMax(ds);
      if dist(n[src].vector, n[dst].vector) > ds[far] then (n, false)
      else
        var removed := list[far];
        assert removed in list;
        var m := if removed == src then n else SetList(n, removed, l, Without(List(n, removed, l), src));
        (SetList(m, src, l, list[far := dst]), true)
  }

  class NaiveNodeStore {
    const p: Params
    const dist: Metric
    // Below every distance: the initial value of the farthest-neighbour scan.
    const lowest: int
    var nodes: Nodes

    constructor (p: Params, dist: Metric, lowest: int)
      ensures this.p == p && this.dist == dist && this.lowest == lowest && nodes == []
    {
      this.p, this.dist, this.lowest := p, dist, lowest;
      nodes := [];
    }

    method PushNode(vector: seq<Word>, maxLevel: nat) returns (id: nat)
      modifies `nodes
      ensures id == |old(nodes)| && nodes == old(nodes) + [Pushed(vector, maxLevel)]
    {
      id := |nodes|;
      nodes := nodes + [Pushed(vector, maxLevel)];
    }

    method SaveNeighbors(id: nat, neighbors: seq<nat>, level: nat)
      requires HasList(nodes, id, level)
      modifies `nodes
      ensures nodes == SetList(old(nodes), id, level, List(old(nodes), id, level) + neighbors)
    {
      nodes := SetList(nodes, id, level, List(nodes, id, level) + neighbors);
    }

    // The position of the first farthest neighbour, and its distance.
    method Farthest(src: nat, list: seq<nat>) returns (idx: nat, far: int)
      requires src < |nodes| && list != [] && forall x :: x in list ==> x < |nodes|
      requires forall a, b :: lowest < dist(a, b)
      ensures var ds := ListDistances(dist, nodes, src, list); idx == FirstMax(ds) && far == ds[idx]
    {
      ghost var ds := ListDistances(dist, nodes, src, list);
      idx, far := 0, lowest;
      for i := 0 to |list|
        invariant i == 0 ==> idx == 0 && far == lowest
        invariant i > 0 ==> idx == FirstMax(ds[..i]) && far == ds[idx]
      {
        assert list[i] in list;
        var d := dist(nodes[src].vector, nodes[list[i]].vector);
        assert i > 0 ==> ds[..i + 1][..i] == ds[..i];
        if d > far {
          idx, far := i, d;
        }
      }
      assert ds[..|list|] == ds;
    }

    method AddDirectedEdge(src: nat, dst: nat, level: nat) returns (added: bool)
      requires CanAddNaive(p, nodes, src, dst, level)
      requires forall a, b :: lowest < dist(a, b)
      modifies `nodes
      ensures (nodes, added) == AddNaive(dist, p, old(nodes), src, dst, level)
    {
      var list := List(nodes, src, level);
      if dst in list {
        return true;
      }
      if |list| < Cap(p, level) {
        nodes := SetList(nodes, src, level, list + [dst]);
        return true;
      }
      var idx, far := Farthest(src, list);
      if dist(nodes[src].vector, nodes[dst].vector) > far {
        return false;
      }
      var removed := list[idx];
      if removed != src {
        nodes := SetList(nodes, removed, level, Without(List(nodes, removed, level), src));
      }
      nodes := SetList(nodes, src, level, list[idx := dst]);
      added := true;
    }
  }

  function Pushed(vector: seq<Word>, maxLevel: nat): NaiveNode {
    NaiveNode(vector, seq(maxLevel + 1, _ => []))
  }

  // ── The refinement ──

  // `ids[i]` is the arena id of naive node i: same vectors, same levels, same neighbour sets.
  ghost predicate Same(p: Params, g: Graph, ids: seq<Word>, n: Nodes) {
    && |ids| == |n| && NoDup(ids) && (forall x :: x in g <==> x in ids)
    && forall i :: 0 <= i < |n| ==> SameNode(p, g, ids, n, i)
  }

  ghost predicate SameNode(p: Params, g: Graph, ids: seq<Word>, n: Nodes, i: nat)
    requires |ids| == |n| && i < |n| && ids[i] in g
  {
    && g[ids[i]].vector == n[i].vector && |g[ids[i]].rows| == |n[i].neighbors|
    && forall l :: 0 <= l < |n[i].neighbors| ==> SameRow(p, g[ids[i]].rows[l], ids, n[i].neighbors[l], l)
  }

  // The same neighbours without duplicates, in any order.
  ghost predicate SameRow(p: Params, row: seq<Word>, ids: seq<Word>, list: seq<nat>, l: nat) {
    && NoDup(row) && NoDup(list) && |row| <= Cap(p, l)
    && (forall x :: x in row ==> x in ids)
    && (forall j :: j in list ==> j < |ids|)
    && forall j :: 0 <= j < |ids| ==> (ids[j] in row <==> j in list)
  }

  lemma {:induction false} NoDupCount<T(!new)>(a: seq<T>, b: seq<nat>, f: T -> nat)
    requires NoDup(a) && NoDup(b)
    requires forall x :: x in a ==> f(x) in b
    requires forall x, y :: x in a && y in a && f(x) == f(y) ==> x == y
    ensures |a| <= |b|
  {
    if a != [] {
      var k := |a| - 1;
      var y := f(a[k]);
      var c := Without(b, y);
      WithoutCount(b, y);
      assert a == a[..k] + [a[k]];
      NoDupCount(a[..k], c, f);
    }
  }

  lemma {:induction false} WithoutCount(s: seq<nat>, x: nat)
    requires NoDup(s)
    ensures |Without(s, x)| == if x in s then |s| - 1 else |s|
  {
    if s != [] {
      var k := |s| - 1;
      assert s == s[..k] + [s[k]];
      WithoutCount(s[..k], x);
    }
  }

  // The position of an arena id.
  function Position(ids: seq<Word>, x: Word): (i: nat)
    requires x in ids
    ensures i < |ids| && ids[i] == x
  {
    if ids[0] == x then 0 else 1 + Position(ids[1..], x)
  }

  lemma SameLength(p: Params, row: seq<Word>, ids: seq<Word>, list: seq<nat>, l: nat)
    requires SameRow(p, row, ids, list, l) && NoDup(ids)
    ensures |row| == |list|
  {
    var f := (x: Word) => if x in ids then Position(ids, x) else 0;
    forall x | x in row
      ensures f(x) in list
    {
      assert ids[f(x)] == x;
    }
    NoDupCount(row, list, f);
    ListWithin(row, ids, list);
  }

  lemma ListWithin(row: seq<Word>, ids: seq<Word>, list: seq<nat>)
    requires NoDup(list) && NoDup(row) && NoDup(ids)
    requires forall j :: j in list ==> j < |ids| && ids[j] in row
    ensures |list| <= |row|
  {
    var positions := seq(|row|, k requires 0 <= k < |row| => k);
    var g := (j: nat) => if j < |ids| && ids[j] in row then IndexOf(row, ids[j]) else 0;
    forall j | j in list
      ensures g(j) in positions
    {
      assert positions[g(j)] == g(j);
    }
    forall j, k | j in list && k in list && g(j) == g(k)
      ensures j == k
    {
      assert row[g(j)] == ids[j] && row[g(k)] == ids[k];
    }
    NoDupCount(list, positions, g);
  }

  // ── One step of both stores ──

  ghost predicate Farthest(dist: Metric, n: Nodes, src: nat, list: seq<nat>, x: nat)
    requires src < |n| && forall y :: y in list ==> y < |n|
  {
    x in list && forall y :: y in list ==> dist(n[src].vector, n[y].vector) <= dist(n[src].vector, n[x].vector)
  }

  // Of a list's neighbours only one is farthest from `src`.
  ghost predicate UniqueFarthest(dist: Metric, n: Nodes, src: nat, list: seq<nat>)
    requires src < |n| && forall y :: y in list ==> y < |n|
  {
    forall x, y :: Farthest(dist, n, src, list, x) && Farthest(dist, n, src, list, y) ==> x == y
  }

  // The neighbour each store would give up.
  function NaivePick(dist: Metric, n: Nodes, src: nat, list: seq<nat>): nat
    requires src < |n| && list != [] && forall x :: x in list ==> x < |n|
  {
    list[FirstMax(ListDistances(dist, n, src, list))]
  }

  function ArenaPick(dist: Metric, g: Graph, src: Word, row: seq<Word>): Word
    requires src in g && row != [] && forall x :: x in row ==> x in g
  {
    row[LastMax(Distances(dist, g, src, row))]
  }

  // Both stores see the same distances. So both find the same largest one, and if only one
  // neighbour has it, the same neighbour, in whatever order the row is.
  lemma SameFarthest(dist: Metric, p: Params, g: Graph, ids: seq<Word>, n: Nodes, src: nat, l: nat, row: seq<Word>)
    requires Same(p, g, ids, n) && HasList(n, src, l) && List(n, src, l) != []
      && SameRow(p, row, ids, List(n, src, l), l)
    ensures row != [] && ids[src] in g && (forall x :: x in row ==> x in g) && forall x :: x in List(n, src, l) ==>
      x < |n|
    ensures var list := List(n, src, l);
      var ds, es := Distances(dist, g, ids[src], row), ListDistances(dist, n, src, list);
      && ds[LastMax(ds)] == es[FirstMax(es)]
      && Farthest(dist, n, src, list, NaivePick(dist, n, src, list))
      && (UniqueFarthest(dist, n, src, list) ==>
        ArenaPick(dist, g, ids[src], row) == ids[NaivePick(dist, n, src, list)])
  {
    assert SameNode(p, g, ids, n, src);
    var list := List(n, src, l);
    SameLength(p, row, ids, list, l);
    var ds, es := Distances(dist, g, ids[src], row), ListDistances(dist, n, src, list);
    var a, b := LastMax(ds), FirstMax(es);
    // The arena's farthest is somewhere in the list, and the other way round.
    var j := Position(ids, row[a]);
    assert ids[j] in row;
    var k :| 0 <= k < |list| && list[k] == j;
    assert list[b] in list && ids[list[b]] in row;
    var c :| 0 <= c < |row| && row[c] == ids[list[b]];
    assert SameNode(p, g, ids, n, j) && SameNode(p, g, ids, n, list[b]);
    assert ds[a] == es[k] && ds[c] == es[b];
    forall y | y in list
      ensures dist(n[src].vector, n[y].vector) <= es[b]
    {
      var i :| 0 <= i < |list| && list[i] == y;
      assert es[i] <= es[b];
    }
    assert Farthest(dist, n, src, list, list[b]) && Farthest(dist, n, src, list, j);
  }

  lemma SameBasics(p: Params, g: Graph, ids: seq<Word>, n: Nodes)
    requires Same(p, g, ids, n)
    ensures |ids| == |n| && NoDup(ids) && forall i :: 0 <= i < |n| ==> ids[i] in g
  {
  }

  // The row in the list's own order.
  lemma ListedRow(dist: Metric, p: Params, g: Graph, ids: seq<Word>, n: Nodes, src: nat, l: nat)
    requires Same(p, g, ids, n) && HasList(n, src, l) && List(n, src, l) != []
    ensures forall x :: x in List(n, src, l) ==> x < |n|
    ensures var list := List(n, src, l); var row := MapIds(ids, list);
      && SameRow(p, row, ids, list, l) && ids[src] in g && (forall x :: x in row ==> x in g)
      && Distances(dist, g, ids[src], row) == ListDistances(dist, n, src, list)
  {
    SameRowFacts(p, g, ids, n, src, l);
    var list := List(n, src, l);
    SameSave(p, ids, list, l);
    assert SameNode(p, g, ids, n, src);
    forall i | 0 <= i < |list|
      ensures list[i] < |n| && MapIds(ids, list)[i] in g
      ensures dist(g[ids[src]].vector, g[MapIds(ids, list)[i]].vector) == dist(n[src].vector, n[list[i]].vector)
    {
      assert list[i] in list;
      assert SameNode(p, g, ids, n, list[i]);
    }
  }

  // In the list's own order the arena store picks another neighbour if several are farthest.
  lemma TiePicksOther(dist: Metric, p: Params, g: Graph, ids: seq<Word>, n: Nodes, src: nat, l: nat)
    requires Same(p, g, ids, n) && HasList(n, src, l) && List(n, src, l) != []
    requires (forall x :: x in List(n, src, l) ==> x < |n|) && !UniqueFarthest(dist, n, src, List(n, src, l))
    ensures var list := List(n, src, l); var row := MapIds(ids, list);
      && SameRow(p, row, ids, list, l) && ids[src] in g && (forall x :: x in row ==> x in g)
      && FirstMax(ListDistances(dist, n, src, list)) != LastMax(Distances(dist, g, ids[src], row))
  {
    hide SameRow, Same, Distances, LastMax, MapIds, Cap, FirstMax;
    ListedRow(dist, p, g, ids, n, src, l);
    var list := List(n, src, l);
    var es := ListDistances(dist, n, src, list);
    var x, y :| Farthest(dist, n, src, list, x) && Farthest(dist, n, src, list, y) && x != y;
    var i :| 0 <= i < |list| && list[i] == x;
    var j :| 0 <= j < |list| && list[j] == y;
    assert list[FirstMax(es)] in list;
    assert es[i] == es[FirstMax(es)] == es[j];
  }

  // Whatever order the arena row is in, both stores give up the same neighbour of a list, if
  // and only if the farthest one is unique.
  lemma PickAgreesIffUnique(dist: Metric, p: Params, g: Graph, ids: seq<Word>, n: Nodes, src: nat, l: nat)
    requires Same(p, g, ids, n) && HasList(n, src, l) && List(n, src, l) != []
    ensures forall x :: x in List(n, src, l) ==> x < |n|
    ensures (forall row :: SameRow(p, row, ids, List(n, src, l), l) ==> PicksSame(dist, g, ids, n, src, l, row))
      <==> UniqueFarthest(dist, n, src, List(n, src, l))
  {
    hide SameRow, Same;
    ListedRow(dist, p, g, ids, n, src, l);
    SameBasics(p, g, ids, n);
    var list := List(n, src, l);
    if UniqueFarthest(dist, n, src, list) {
      forall row | SameRow(p, row, ids, list, l)
        ensures PicksSame(dist, g, ids, n, src, l, row)
      {
        SameFarthest(dist, p, g, ids, n, src, l, row);
        assert list[FirstMax(ListDistances(dist, n, src, list))] in list;
      }
    } else {
      TiePicksOther(dist, p, g, ids, n, src, l);
      SameRowFacts(p, g, ids, n, src, l);
      NoDupOf(p, ids, list, l, MapIds(ids, list));
      assert !PicksSame(dist, g, ids, n, src, l, MapIds(ids, list));
    }
  }

  ghost predicate PicksSame(dist: Metric, g: Graph, ids: seq<Word>, n: Nodes, src: nat, l: nat, row: seq<Word>) {
    && HasList(n, src, l) && src < |ids| && ids[src] in g && row != [] && (forall x :: x in row ==> x in g)
    && var list := List(n, src, l);
      && list != [] && (forall x :: x in list ==> x < |n| == |ids|)
      && var pick := NaivePick(dist, n, src, list); pick in list && ArenaPick(dist, g, ids[src], row) == ids[pick]
  }

  lemma NoDupOf(p: Params, ids: seq<Word>, list: seq<nat>, l: nat, row: seq<Word>)
    requires SameRow(p, row, ids, list, l)
    ensures NoDup(list) && NoDup(row)
  {
  }

  // Replacing the rows of one node on both sides.
  lemma SameAfterSet(p: Params, g: Graph, ids: seq<Word>, n: Nodes, i: nat, l: nat, row: seq<Word>, list: seq<nat>)
    requires Same(p, g, ids, n) && HasList(n, i, l) && SameRow(p, row, ids, list, l)
    ensures HasRow(g, ids[i], l) && Same(p, SetRow(g, ids[i], l, row), ids, SetList(n, i, l, list))
  {
    hide SameRow;
    assert SameNode(p, g, ids, n, i);
    var h, m := SetRow(g, ids[i], l, row), SetList(n, i, l, list);
    forall j | 0 <= j < |m|
      ensures SameNode(p, h, ids, m, j)
    {
      assert SameNode(p, g, ids, n, j);
    }
  }

  lemma SameRowWith(p: Params, row: seq<Word>, ids: seq<Word>, list: seq<nat>, l: nat, dst: nat)
    requires SameRow(p, row, ids, list, l) && NoDup(ids) && dst < |ids| && dst !in list && |row| < Cap(p, l)
    ensures SameRow(p, row + [ids[dst]], ids, list + [dst], l)
  {
  }

  lemma SameRowWithout(p: Params, row: seq<Word>, ids: seq<Word>, list: seq<nat>, l: nat, x: nat)
    requires SameRow(p, row, ids, list, l) && NoDup(ids) && x < |ids|
    ensures SameRow(p, SwapRemove(row, ids[x]), ids, Without(list, x), l)
  {
    SwapRemoveContents(row, ids[x]);
  }

  lemma SameRowReplaced(p: Params, row: seq<Word>, ids: seq<Word>, list: seq<nat>, l: nat, a: nat, b: nat, dst: nat)
    requires SameRow(p, row, ids, list, l) && NoDup(ids) && dst < |ids| && dst !in list
    requires a < |row| && b < |list| && list[b] < |ids| && row[a] == ids[list[b]]
    ensures SameRow(p, row[a := ids[dst]], ids, list[b := dst], l)
  {
    assert ids[dst] !in row;
    ReplaceContents(row, a, ids[dst]);
    var r := list[b := dst];
    assert r[b] == dst;
    forall y
      ensures y in r <==> y == dst || (y in list && y != list[b])
    {
      if y in list && y != list[b] {
        var j :| 0 <= j < |list| && list[j] == y;
        assert r[j] == y;
      }
    }
    assert list[b] in list;
  }

  // Adding the edge takes no choice between equally far neighbours: it is there already, there
  // is room, it is refused, or the farthest neighbour is unique.
  ghost predicate Clear(dist: Metric, p: Params, n: Nodes, src: nat, dst: nat, l: nat)
    requires CanAddNaive(p, n, src, dst, l)
  {
    var list := List(n, src, l);
    || dst in list || |list| < Cap(p, l)
    || (forall y :: y in list ==> dist(n[src].vector, n[y].vector) < dist(n[src].vector, n[dst].vector))
    || UniqueFarthest(dist, n, src, list)
  }

  // Adding an edge: same answer, same neighbour sets.
  lemma SameAdd(dist: Metric, p: Params, g: Graph, ids: seq<Word>, n: Nodes, src: nat, dst: nat, l: nat)
    requires Same(p, g, ids, n) && CanAddNaive(p, n, src, dst, l) && Clear(dist, p, n, src, dst, l)
    ensures CanAdd(p, g, ids[src], ids[dst], l)
    ensures var (h, a) := AddDirected(dist, p, g, ids[src], ids[dst], l); var (m, b) :=
      AddNaive(dist, p, n, src, dst, l);
      a == b && Same(p, h, ids, m)
  {
    hide SameRow, LastMax, FirstMax, SwapRemove, Without, NoDup, UniqueFarthest;
    SameCanAdd(p, g, ids, n, src, dst, l);
    SameRowFacts(p, g, ids, n, src, l);
    var row, list := Row(g, ids[src], l), List(n, src, l);
    SameMember(p, row, ids, list, l, dst);
    if dst !in list {
      if |list| < Cap(p, l) {
        SameRowWith(p, row, ids, list, l, dst);
        SameAfterSet(p, g, ids, n, src, l, row + [ids[dst]], list + [dst]);
      } else {
        SameEvict(dist, p, g, ids, n, src, dst, l);
      }
    }
  }

  lemma SameMember(p: Params, row: seq<Word>, ids: seq<Word>, list: seq<nat>, l: nat, dst: nat)
    requires SameRow(p, row, ids, list, l) && dst < |ids|
    ensures ids[dst] in row <==> dst in list
  {
  }

  lemma SameRowFacts(p: Params, g: Graph, ids: seq<Word>, n: Nodes, i: nat, l: nat)
    requires Same(p, g, ids, n) && HasList(n, i, l)
    ensures NoDup(ids) && HasRow(g, ids[i], l) && SameRow(p, Row(g, ids[i], l), ids, List(n, i, l), l)
    ensures |Row(g, ids[i], l)| == |List(n, i, l)| <= Cap(p, l)
  {
    assert SameNode(p, g, ids, n, i);
    SameLength(p, Row(g, ids[i], l), ids, List(n, i, l), l);
  }

  lemma SameCanAdd(p: Params, g: Graph, ids: seq<Word>, n: Nodes, src: nat, dst: nat, l: nat)
    requires Same(p, g, ids, n) && CanAddNaive(p, n, src, dst, l)
    ensures CanAdd(p, g, ids[src], ids[dst], l)
  {
    hide SameRow, NoDup;
    SameRowFacts(p, g, ids, n, src, l);
    SameRowFacts(p, g, ids, n, dst, l);
    forall x | x in Row(g, ids[src], l)
      ensures HasRow(g, x, l)
    {
      RowMember(p, Row(g, ids[src], l), ids, List(n, src, l), l, x);
      SameRowFacts(p, g, ids, n, Position(ids, x), l);
    }
  }

  lemma RowMember(p: Params, row: seq<Word>, ids: seq<Word>, list: seq<nat>, l: nat, x: Word)
    requires SameRow(p, row, ids, list, l) && x in row
    ensures x in ids && Position(ids, x) in list
  {
    assert ids[Position(ids, x)] in row;
  }

  lemma SameEvict(dist: Metric, p: Params, g: Graph, ids: seq<Word>, n: Nodes, src: nat, dst: nat, l: nat)
    requires Same(p, g, ids, n) && CanAddNaive(p, n, src, dst, l) && Clear(dist, p, n, src, dst, l)
    requires dst !in List(n, src, l) && |List(n, src, l)| >= Cap(p, l)
    ensures CanAdd(p, g, ids[src], ids[dst], l)
    ensures var (h, a) := AddDirected(dist, p, g, ids[src], ids[dst], l); var (m, b) :=
      AddNaive(dist, p, n, src, dst, l);
      a == b && Same(p, h, ids, m)
  {
    hide SameRow, LastMax, FirstMax, SwapRemove, Without, NoDup, UniqueFarthest;
    SameCanAdd(p, g, ids, n, src, dst, l);
    SameRowFacts(p, g, ids, n, src, l);
    var row, list := Row(g, ids[src], l), List(n, src, l);
    SameFarthest(dist, p, g, ids, n, src, l, row);
    SameMember(p, row, ids, list, l, dst);
    var ds, es := Distances(dist, g, ids[src], row), ListDistances(dist, n, src, list);
    var a, b := LastMax(ds), FirstMax(es);
    var removed := list[b];
    assert removed in list;
    SameRowFacts(p, g, ids, n, dst, l);
    SameVectors(p, g, ids, n, src, dst);
    if dist(n[src].vector, n[dst].vector) <= es[b] {
      SameIds(ids, removed, src);
      var h, m := g, n;
      if removed != src {
        SameRowFacts(p, g, ids, n, removed, l);
        SameRowWithout(p, Row(g, ids[removed], l), ids, List(n, removed, l), l, src);
        h := SetRow(g, ids[removed], l, SwapRemove(Row(g, ids[removed], l), ids[src]));
        m := SetList(n, removed, l, Without(List(n, removed, l), src));
        SameAfterSet(p, g, ids, n, removed, l, SwapRemove(Row(g, ids[removed], l), ids[src]),
          Without(List(n, removed, l), src));
      }
      SameRowReplaced(p, row, ids, list, l, a, b, dst);
      SameAfterSet(p, h, ids, m, src, l, row[a := ids[dst]], list[b := dst]);
    }
  }

  ghost predicate AddsSame(dist: Metric, p: Params, g: Graph, ids: seq<Word>, n: Nodes, src: nat, dst: nat, l: nat)
    requires CanAddNaive(p, n, src, dst, l)
  {
    && src < |ids| && dst < |ids| && CanAdd(p, g, ids[src], ids[dst], l)
    && var (h, a) := AddDirected(dist, p, g, ids[src], ids[dst], l); var (m, b) := AddNaive(dist, p, n, src, dst, l);
      a == b && Same(p, h, ids, m)
  }

  // Every arena graph with the same neighbour sets gets the same answer and the same sets from
  // an addition, if and only if the addition is clear.
  lemma AddAgreesIffClear(dist: Metric, p: Params, g: Graph, ids: seq<Word>, n: Nodes, src: nat, dst: nat, l: nat)
    requires Same(p, g, ids, n) && CanAddNaive(p, n, src, dst, l)
    ensures (forall h: Graph :: Same(p, h, ids, n) ==> AddsSame(dist, p, h, ids, n, src, dst, l))
      <==> Clear(dist, p, n, src, dst, l)
  {
    hide Same, AddDirected, AddNaive, Clear;
    if Clear(dist, p, n, src, dst, l) {
      forall h: Graph | Same(p, h, ids, n)
        ensures AddsSame(dist, p, h, ids, n, src, dst, l)
      {
        SameBasics(p, h, ids, n);
        SameAdd(dist, p, h, ids, n, src, dst, l);
      }
    } else {
      var h := TieAddsOther(dist, p, g, ids, n, src, dst, l);
    }
  }

  // If not, the graph whose row is in the list's order gives up another neighbour.
  lemma TieAddsOther(dist: Metric, p: Params, g: Graph, ids: seq<Word>, n: Nodes, src: nat, dst: nat, l: nat)
      returns (h: Graph)
    requires Same(p, g, ids, n) && CanAddNaive(p, n, src, dst, l) && !Clear(dist, p, n, src, dst, l)
    ensures Same(p, h, ids, n) && !AddsSame(dist, p, h, ids, n, src, dst, l)
  {
    hide SameRow, SwapRemove, Without, UniqueFarthest, Same, LastMax, FirstMax;
    var list := List(n, src, l);
    SameBasics(p, g, ids, n);
    TiePicksOther(dist, p, g, ids, n, src, l);
    SameRowFacts(p, g, ids, n, src, l);
    var row := MapIds(ids, list);
    SameAfterSet(p, g, ids, n, src, l, row, list);
    h := SetRow(g, ids[src], l, row);
    assert n[src].neighbors[l := list] == n[src].neighbors && SetList(n, src, l, list) == n;
    assert Distances(dist, h, ids[src], row) == Distances(dist, g, ids[src], row);
    var a, b := LastMax(Distances(dist, h, ids[src], row)), FirstMax(ListDistances(dist, n, src, list));
    SameCanAdd(p, h, ids, n, src, dst, l);
    SameVectors(p, h, ids, n, src, dst);
    NoDupOf(p, ids, list, l, row);
    SameMember(p, row, ids, list, l, dst);
    SameFarthest(dist, p, h, ids, n, src, l, row);
    var k, m := AddDirected(dist, p, h, ids[src], ids[dst], l).0, AddNaive(dist, p, n, src, dst, l).0;
    assert Row(k, ids[src], l) == row[a := ids[dst]];
    assert List(m, src, l) == list[b := dst];
    assert list[b] in list;
    assert row[a := ids[dst]][b] == ids[list[b]];
    OtherNeighbour(p, k, ids, m, src, l, list[b]);
  }

  // A neighbour in one store only.
  lemma OtherNeighbour(p: Params, g: Graph, ids: seq<Word>, n: Nodes, i: nat, l: nat, j: nat)
    requires i < |ids| && j < |ids| && HasRow(g, ids[i], l) && HasList(n, i, l)
    requires ids[j] in Row(g, ids[i], l) && j !in List(n, i, l)
    ensures !Same(p, g, ids, n)
  {
    assert Same(p, g, ids, n) ==> SameNode(p, g, ids, n, i);
  }

  lemma SameVectors(p: Params, g: Graph, ids: seq<Word>, n: Nodes, i: nat, j: nat)
    requires Same(p, g, ids, n) && i < |n| && j < |n|
    ensures ids[i] in g && ids[j] in g && g[ids[i]].vector == n[i].vector && g[ids[j]].vector == n[j].vector
  {
    assert SameNode(p, g, ids, n, i) && SameNode(p, g, ids, n, j);
  }

  lemma SameIds(ids: seq<Word>, i: nat, j: nat)
    requires NoDup(ids) && i < |ids| && j < |ids|
    ensures ids[i] == ids[j] <==> i == j
  {
  }

  // ── Whole runs of both stores ──

  // Naive ids in all operations; a push brings the arena's own id for the new node.
  datatype Op = Push(vector: seq<Word>, maxLevel: nat, arenaId: Word)
              | Add(src: nat, dst: nat, level: nat)
              | Save(id: nat, neighbors: seq<nat>, level: nat)

  ghost predicate Legal(dist: Metric, p: Params, n: Nodes, ids: seq<Word>, op: Op) {
    match op
    case Push(_, _, id) => id !in ids
    case Add(src, dst, l) => CanAddNaive(p, n, src, dst, l) && Clear(dist, p, n, src, dst, l)
    case Save(id, nbs, l) =>
      HasList(n, id, l) && List(n, id, l) == [] && NoDup(nbs) && |nbs| <= Cap(p, l) && forall j :: j in nbs ==> j < |n|
  }

  ghost function StepNaive(dist: Metric, p: Params, n: Nodes, ids: seq<Word>, op: Op): (Nodes, bool)
    requires Legal(dist, p, n, ids, op)
  {
    match op
    case Push(v, level, _) => (n + [Pushed(v, level)], true)
    case Add(src, dst, l) => AddNaive(dist, p, n, src, dst, l)
    case Save(id, nbs, l) => (SetList(n, id, l, List(n, id, l) + nbs), true)
  }

  function ArenaIds(ids: seq<Word>, op: Op): seq<Word> {
    if op.Push? then ids + [op.arenaId] else ids
  }

  function MapIds(ids: seq<Word>, nbs: seq<nat>): (r: seq<Word>)
    requires forall j :: j in nbs ==> j < |ids|
    ensures |r| == |nbs|
  {
    seq(|nbs|, i requires 0 <= i < |nbs| => assert nbs[i] in nbs; ids[nbs[i]])
  }

  ghost function StepArena(dist: Metric, p: Params, g: Graph, n: Nodes, ids: seq<Word>, op: Op): (Graph, bool)
    requires Legal(dist, p, n, ids, op) && Same(p, g, ids, n)
  {
    match op
    case Push(v, level, id) => (g[id := GNode(v, EmptyRows(level))], true)
    case Add(src, dst, l) => SameCanAdd(p, g, ids, n, src, dst, l); AddDirected(dist, p, g, ids[src], ids[dst], l)
    case Save(id, nbs, l) => SameRowFacts(p, g, ids, n, id, l); (SetRow(g, ids[id], l, MapIds(ids, nbs)), true)
  }

  lemma SamePush(dist: Metric, p: Params, g: Graph, ids: seq<Word>, n: Nodes, v: seq<Word>, level: nat, id: Word)
    requires Same(p, g, ids, n) && id !in ids
    ensures Same(p, g[id := GNode(v, EmptyRows(level))], ids + [id], n + [Pushed(v, level)])
  {
    var h, jds, m := g[id := GNode(v, EmptyRows(level))], ids + [id], n + [Pushed(v, level)];
    forall i | 0 <= i < |m|
      ensures SameNode(p, h, jds, m, i)
    {
      if i < |n| {
        assert SameNode(p, g, ids, n, i);
        forall l | 0 <= l < |n[i].neighbors|
          ensures SameRow(p, h[jds[i]].rows[l], jds, m[i].neighbors[l], l)
        {
          assert SameRow(p, g[ids[i]].rows[l], ids, n[i].neighbors[l], l);
        }
      }
    }
  }

  lemma SameSave(p: Params, ids: seq<Word>, nbs: seq<nat>, l: nat)
    requires NoDup(ids) && NoDup(nbs) && |nbs| <= Cap(p, l) && forall j :: j in nbs ==> j < |ids|
    ensures SameRow(p, MapIds(ids, nbs), ids, nbs, l)
  {
    var r := MapIds(ids, nbs);
    forall i | 0 <= i < |nbs|
      ensures nbs[i] < |ids| && r[i] == ids[nbs[i]]
    {
      assert nbs[i] in nbs;
    }
    forall j | 0 <= j < |ids|
      ensures ids[j] in r <==> j in nbs
    {
      if j in nbs {
        var i :| 0 <= i < |nbs| && nbs[i] == j;
        assert r[i] == ids[j];
      }
    }
  }

  // One operation: same return value, and the stores stay the same up to the order of rows.
  lemma SameStep(dist: Metric, p: Params, g: Graph, ids: seq<Word>, n: Nodes, op: Op)
    requires Same(p, g, ids, n) && Legal(dist, p, n, ids, op)
    ensures StepArena(dist, p, g, n, ids, op).1 == StepNaive(dist, p, n, ids, op).1
    ensures Same(p, StepArena(dist, p, g, n, ids, op).0, ArenaIds(ids, op), StepNaive(dist, p, n, ids, op).0)
  {
    hide SameRow, NoDup, AddDirected, AddNaive, Clear, SameNode;
    match op
    case Push(v, level, id) =>
      SamePush(dist, p, g, ids, n, v, level, id);
    case Add(src, dst, l) =>
      SameAdd(dist, p, g, ids, n, src, dst, l);
    case Save(id, nbs, l) =>
      SameRowFacts(p, g, ids, n, id, l);
      SameSave(p, ids, nbs, l);
      assert [] + nbs == nbs;
      SameAfterSet(p, g, ids, n, id, l, MapIds(ids, nbs), nbs);
  }

  ghost predicate LegalRun(dist: Metric, p: Params, n: Nodes, ids: seq<Word>, ops: seq<Op>)
    decreases |ops|
  {
    ops == [] || (
      && Legal(dist, p, n, ids, ops[0])
      && LegalRun(dist, p, StepNaive(dist, p, n, ids, ops[0]).0, ArenaIds(ids, ops[0]), ops[1..]))
  }

  // Both stores, run side by side.
  ghost function RunNaive(dist: Metric, p: Params, n: Nodes, ids: seq<Word>, ops: seq<Op>): (Nodes, seq<bool>)
    requires LegalRun(dist, p, n, ids, ops)
    decreases |ops|
  {
    if ops == [] then (n, [])
    else
      var (m, b) := StepNaive(dist, p, n, ids, ops[0]);
      var (k, bs) := RunNaive(dist, p, m, ArenaIds(ids, ops[0]), ops[1..]);
      (k, [b] + bs)
  }

  ghost function RunArena(dist: Metric, p: Params, g: Graph, n: Nodes, ids: seq<Word>, ops: seq<Op>): (Graph, seq<bool>)
    requires LegalRun(dist, p, n, ids, ops) && Same(p, g, ids, n)
    decreases |ops|
  {
    if ops == [] then (g, [])
    else
      SameStep(dist, p, g, ids, n, ops[0]);
      var (h, b) := StepArena(dist, p, g, n, ids, ops[0]);
      var (k, bs) := RunArena(dist, p, h, StepNaive(dist, p, n, ids, ops[0]).0, ArenaIds(ids, ops[0]), ops[1..]);
      (k, [b] + bs)
  }

  ghost function AllIds(ids: seq<Word>, ops: seq<Op>): seq<Word>
    decreases |ops|
  {
    if ops == [] then ids else AllIds(ArenaIds(ids, ops[0]), ops[1..])
  }

  // The refinement: over any run the two stores return the same values and end with the same
  // vectors, levels and neighbour sets.
  lemma {:induction false} ArenaRefinesNaive(dist: Metric, p: Params, g: Graph, n: Nodes, ids: seq<Word>, ops: seq<Op>)
    requires LegalRun(dist, p, n, ids, ops) && Same(p, g, ids, n)
    ensures RunArena(dist, p, g, n, ids, ops).1 == RunNaive(dist, p, n, ids, ops).1
    ensures Same(p, RunArena(dist, p, g, n, ids, ops).0, AllIds(ids, ops), RunNaive(dist, p, n, ids, ops).0)
    decreases |ops|
  {
    hide Same, Legal, StepArena, StepNaive;
    if ops != [] {
      SameStep(dist, p, g, ids, n, ops[0]);
      ArenaRefinesNaive(dist, p, StepArena(dist, p, g, n, ids, ops[0]).0, StepNaive(dist, p, n, ids, ops[0]).0,
                        ArenaIds(ids, ops[0]), ops[1..]);
    }
  }

  // Both stores before their first operation.
  lemma RefinesFromStart(dist: Metric, p: Params, ops: seq<Op>)
    requires LegalRun(dist, p, [], [], ops)
    ensures Same(p, map[], [], [])
    ensures RunArena(dist, p, map[], [], [], ops).1 == RunNaive(dist, p, [], [], ops).1
    ensures Same(p, RunArena(dist, p, map[], [], [], ops).0, AllIds([], ops), RunNaive(dist, p, [], [], ops).0)
  {
    ArenaRefinesNaive(dist, p, map[], [], [], ops);
  }

  // ── A tie ──

  function AlwaysFive(a: seq<Word>, b: seq<Word>): int {
    5
  }

  // Four nodes, all equally far; the first has a full row of two.
  const TIED_IDS: seq<Word> := [8, 16, 24, 32]
  const TIED_GRAPH: Graph := map[8 := GNode([0], [[16, 24]]), 16 := GNode([1], [[8]]), 24 := GNode([2], [[8]]), 32 :=
    GNode([3], [[]])]
  const TIED_NODES: Nodes := [NaiveNode([0], [[1, 2]]), NaiveNode([1], [[0]]), NaiveNode([2], [[0]]),
    NaiveNode([3], [[]])]

  lemma TiedSame()
    ensures Same(Params(1, 2, 2), TIED_GRAPH, TIED_IDS, TIED_NODES)
  {
    var ids := TIED_IDS;
    assert ids[0] == 8 && ids[1] == 16 && ids[2] == 24 && ids[3] == 32;
    forall i | 0 <= i < 4
      ensures SameNode(Params(1, 2, 2), TIED_GRAPH, ids, TIED_NODES, i)
    {
    }
  }

  lemma TiedDistances()
    ensures Distances(AlwaysFive, TIED_GRAPH, 8, [16, 24]) == [5, 5] == ListDistances(AlwaysFive, TIED_NODES, 0, [1, 2])
    ensures LastMax([5, 5]) == 1 && FirstMax([5, 5]) == 0
  {
    var ds, es := Distances(AlwaysFive, TIED_GRAPH, 8, [16, 24]), ListDistances(AlwaysFive, TIED_NODES, 0, [1, 2]);
    assert |ds| == 2 && ds[0] == AlwaysFive([0], [1]) && ds[1] == AlwaysFive([0], [2]);
    assert |es| == 2 && es[0] == AlwaysFive([0], [1]) && es[1] == AlwaysFive([0], [2]);
    assert ds == [5, 5] && es == [5, 5];
  }

  // Given one more edge, the arena store gives up node 2 and the list store node 1.
  lemma TiedStoresDiffer()
    ensures var p := Params(1, 2, 2);
      && Same(p, TIED_GRAPH, TIED_IDS, TIED_NODES) && CanAddNaive(p, TIED_NODES, 0, 3, 0)
        && CanAdd(p, TIED_GRAPH, 8, 32, 0)
      && var (h, a) := AddDirected(AlwaysFive, p, TIED_GRAPH, 8, 32, 0); var (m, b) :=
        AddNaive(AlwaysFive, p, TIED_NODES, 0, 3, 0);
        && HasRow(h, 8, 0) && Row(h, 8, 0) == [16, 32] && HasList(m, 0, 0) && List(m, 0, 0) == [3, 2]
        && !Same(p, h, TIED_IDS, m)
  {
    hide Same, LastMax, FirstMax, SwapRemove, Without, Distances, ListDistances;
    var p := Params(1, 2, 2);
    var g, n, ids := TIED_GRAPH, TIED_NODES, TIED_IDS;
    TiedSame();
    TiedDistances();
    var h, m := AddDirected(AlwaysFive, p, g, 8, 32, 0).0, AddNaive(AlwaysFive, p, n, 0, 3, 0).0;
    assert Row(h, 8, 0) == [16, 24][1 := 32] && List(m, 0, 0) == [1, 2][0 := 3];
    assert Row(h, 8, 0)[0] == ids[1];
    OtherNeighbour(p, h, ids, m, 0, 0, 1);
  }
}
