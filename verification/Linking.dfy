// What connecting a new node does, said without the steps that do it: which neighbours it is
// linked to, which refuse it, and which old edges make way.
module Linking {
  import opened Layout
  import opened Graph

  // From x, y is no closer than any neighbour.
  ghost predicate FarthestOf(dist: Metric, g: Graph, x: Word, y: Word, l: nat) {
    && HasRow(g, x, l) && y in Row(g, x, l) && y in g
    && forall u :: u in Row(g, x, l) ==> u in g && dist(g[x].vector, g[u].vector) <= dist(g[x].vector, g[y].vector)
  }

  // A full row of neighbours all strictly closer to x than the new node.
  ghost predicate Refuses(dist: Metric, p: Params, g: Graph, x: Word, nid: Word, l: nat) {
    && HasRow(g, x, l) && nid in g && |Row(g, x, l)| == Cap(p, l)
    && forall y :: y in Row(g, x, l) ==> y in g && dist(g[x].vector, g[y].vector) < dist(g[x].vector, g[nid].vector)
  }

  // An accepted neighbour had a full row, y was a farthest one in it, and the new node is no farther.
  ghost predicate MakesWay(dist: Metric, p: Params, g: Graph, nid: Word, linked: seq<Word>, x: Word, y: Word, l: nat) {
    && x in linked && HasRow(g, x, l) && |Row(g, x, l)| == Cap(p, l) && FarthestOf(dist, g, x, y, l)
    && nid in g && dist(g[x].vector, g[nid].vector) <= dist(g[x].vector, g[y].vector)
  }

  // Between old nodes there is no new edge.
  ghost predicate NoneNew(g: Graph, h: Graph, nid: Word, l: nat) {
    forall x, y :: HasRow(g, x, l) && HasRow(h, x, l) && x != nid && y != nid && y in Row(h, x, l) ==> y in Row(g, x, l)
  }

  // An edge lost made way at one of its ends.
  ghost predicate LostMadeWay(dist: Metric, p: Params, g: Graph, h: Graph, nid: Word, linked: seq<Word>, l: nat) {
    forall x, y :: HasRow(g, x, l) && HasRow(h, x, l) && y in Row(g, x, l) && y !in Row(h, x, l) ==>
      MakesWay(dist, p, g, nid, linked, x, y, l) || MakesWay(dist, p, g, nid, linked, y, x, l)
  }

  ghost predicate AllHaveRoom(p: Params, g: Graph, nbs: seq<Word>, l: nat) {
    forall x :: x in nbs ==> HasRow(g, x, l) && |Row(g, x, l)| < Cap(p, l)
  }

  ghost predicate OthersRefuse(dist: Metric, p: Params, g: Graph, nid: Word, nbs: seq<Word>, linked: seq<Word>,
      l: nat) {
    forall x :: x in nbs && x !in linked ==> Refuses(dist, p, g, x, nid, l)
  }

  // Connecting `nid`, offered to `nbs`, turned `g` into `h`.
  ghost predicate Linked(dist: Metric, p: Params, g: Graph, h: Graph, nid: Word, nbs: seq<Word>, l: nat) {
    && HasRow(h, nid, l)
    && var row := Row(h, nid, l);
      // Links go both ways, and to offered neighbours only.
      && (forall x :: x in row <==> HasRow(h, x, l) && nid in Row(h, x, l))
      && (forall x :: x in row ==> x in nbs)
      // Whoever has room is linked; whoever is not linked refused.
      && OthersRefuse(dist, p, g, nid, nbs, row, l)
      && (AllHaveRoom(p, g, nbs, l) ==> row == nbs)
      // Old edges stay, but for farthest ones that make way.
      && NoneNew(g, h, nid, l) && LostMadeWay(dist, p, g, h, nid, row, l)
  }

  // ── One offer ──

  // A row other than that of the neighbour asked stays as it is, or gets shorter.
  ghost predicate SameOrShorter(g: Graph, h: Graph, nb: Word, l: nat) {
    forall x :: HasRow(g, x, l) && x != nb ==>
      HasRow(h, x, l) && (Row(h, x, l) == Row(g, x, l) || |Row(h, x, l)| < |Row(g, x, l)|)
  }

  lemma OneOffer(dist: Metric, p: Params, g: Graph, nid: Word, good: seq<Word>, nb: Word, l: nat)
    requires p.Valid() && Connecting(p, g, nid, good, l) && HasRow(g, nb, l) && nb != nid && nb !in good
    ensures CanAdd(p, g, nb, nid, l)
    ensures var (h, added) := AddDirected(dist, p, g, nb, nid, l);
      && SameNodes(g, h) && (!added ==> Refuses(dist, p, g, nb, nid, l))
      && (|Row(g, nb, l)| < Cap(p, l) ==> added && forall x :: HasRow(g, x, l) && x != nb ==>
        Row(h, x, l) == Row(g, x, l))
      && SameOrShorter(g, h, nb, l) && NoneNew(g, h, nid, l)
      && LostMadeWay(dist, p, g, h, nid, if added then [nb] else [], l)
  {
    ConnectOne(dist, p, g, nid, good, nb, l);
    AddDirectedSameNodes(dist, p, g, nb, nid, l);
    assert PartlyOk(p, g, nb, l, nid, good, l);
    var row := Row(g, nb, l);
    assert nid !in row;
    if |row| == Cap(p, l) {
      var ds := Distances(dist, g, nb, row);
      if dist(g[nb].vector, g[nid].vector) > ds[LastMax(ds)] {
        forall y | y in row
          ensures dist(g[nb].vector, g[y].vector) < dist(g[nb].vector, g[nid].vector)
        {
          var i :| 0 <= i < |row| && row[i] == y;
          assert ds[i] <= ds[LastMax(ds)];
        }
      } else {
        OfferEvicts(dist, p, g, nid, good, nb, l);
      }
    }
  }

  lemma OfferEvicts(dist: Metric, p: Params, g: Graph, nid: Word, good: seq<Word>, nb: Word, l: nat)
    requires p.Valid() && Connecting(p, g, nid, good, l) && HasRow(g, nb, l) && nb != nid && nb !in good
    requires CanAdd(p, g, nb, nid, l) && |Row(g, nb, l)| == Cap(p, l)
    requires var ds := Distances(dist, g, nb, Row(g, nb, l)); dist(g[nb].vector, g[nid].vector) <= ds[LastMax(ds)]
    ensures var (h, added) := AddDirected(dist, p, g, nb, nid, l);
      added && SameOrShorter(g, h, nb, l) && NoneNew(g, h, nid, l) && LostMadeWay(dist, p, g, h, nid, [nb], l)
  {
    assert PartlyOk(p, g, nb, l, nid, good, l);
    var row := Row(g, nb, l);
    var ds := Distances(dist, g, nb, row);
    var far := LastMax(ds);
    var removed := row[far];
    assert removed in row && nid !in row;
    assert PartlyOk(p, g, removed, l, nid, good, l);
    SwapRemoveContents(Row(g, removed, l), nb);
    ReplaceContents(row, far, nid);
    assert nb in Row(g, removed, l);
    var h := AddDirected(dist, p, g, nb, nid, l).0;
    assert Row(h, nb, l) == row[far := nid] && Row(h, removed, l) == SwapRemove(Row(g, removed, l), nb);
    assert FarthestOf(dist, g, nb, removed, l) by {
      forall u | u in row
        ensures u in g && dist(g[nb].vector, g[u].vector) <= ds[far]
      {
        var i :| 0 <= i < |row| && row[i] == u;
        assert ds[i] <= ds[far];
      }
    }
  }

  // ── All offers ──

  lemma {:induction false} RunLinks(dist: Metric, p: Params, g: Graph, nid: Word, good: seq<Word>, nbs: seq<Word>,
      l: nat)
    requires p.Valid() && Connecting(p, g, nid, good, l) && Joinable(g, nid, good, nbs, l)
    ensures var (h, got) := ConnectRun(dist, p, g, nid, good, nbs, l);
      && SameNodes(g, h) && good <= got && (forall x :: x in got[|good|..] ==> x in nbs)
      && OthersRefuse(dist, p, g, nid, nbs, got, l) && (AllHaveRoom(p, g, nbs, l) ==> got == good + nbs)
      && NoneNew(g, h, nid, l) && LostMadeWay(dist, p, g, h, nid, got[|good|..], l)
    decreases |nbs|
  {
    hide Connecting, SameOrShorter, NoneNew, LostMadeWay, OthersRefuse, AllHaveRoom, Refuses, AddDirected, Joinable,
      SameNodes;
    if nbs != [] {
      var nb := nbs[0];
      JoinableFacts(g, nid, good, nbs, l);
      OneOffer(dist, p, g, nid, good, nb, l);
      ConnectFirst(dist, p, g, nid, good, nbs, l);
      var (h1, added) := AddDirected(dist, p, g, nb, nid, l);
      var good1 := if added then good + [nb] else good;
      RunLinks(dist, p, h1, nid, good1, nbs[1..], l);
      var (h, got) := ConnectRun(dist, p, h1, nid, good1, nbs[1..], l);
      var step := Step(g, h1, h, nid, nbs, l);
      RowsBounded(p, g, nid, good, l);
      SameNodesTrans(g, h1, h);
      assert added ==> |good| < |got| && got[|good|] == nb;
      JoinRefusals(dist, p, step, got, added);
      JoinRoom(dist, p, step, good, got, added);
      JoinNew(step);
      JoinLost(dist, p, step, good, got, added);
    } else {
      NothingOffered(dist, p, g, nid, good, l);
    }
  }

  lemma NothingOffered(dist: Metric, p: Params, g: Graph, nid: Word, good: seq<Word>, l: nat)
    ensures SameNodes(g, g) && good <= good && OthersRefuse(dist, p, g, nid, [], good, l) && good == good + []
    ensures NoneNew(g, g, nid, l) && LostMadeWay(dist, p, g, g, nid, good[|good|..], l)
  {
  }

  lemma JoinableFacts(g: Graph, nid: Word, good: seq<Word>, nbs: seq<Word>, l: nat)
    requires Joinable(g, nid, good, nbs, l) && nbs != []
    ensures HasRow(g, nbs[0], l) && nbs[0] != nid && nbs[0] !in good && NoDup(nbs) && nbs[0] !in nbs[1..]
  {
    assert nbs[0] in nbs;
  }

  lemma RowsBounded(p: Params, g: Graph, nid: Word, good: seq<Word>, l: nat)
    requires Connecting(p, g, nid, good, l)
    ensures forall x :: HasRow(g, x, l) ==> |Row(g, x, l)| <= Cap(p, l)
  {
    forall x | HasRow(g, x, l)
      ensures |Row(g, x, l)| <= Cap(p, l)
    {
      assert PartlyOk(p, g, x, l, nid, good, l);
    }
  }

  lemma SameNodesTrans(g: Graph, h1: Graph, h: Graph)
    requires SameNodes(g, h1) && SameNodes(h1, h)
    ensures SameNodes(g, h)
  {
  }

  // The first offer turned `g` into `h1`, the others `h1` into `h`.
  datatype Step = Step(g: Graph, h1: Graph, h: Graph, nid: Word, nbs: seq<Word>, l: nat)

  ghost predicate Offered(p: Params, s: Step) {
    && s.nbs != [] && s.nbs[0] !in s.nbs[1..] && SameNodes(s.g, s.h1) && SameNodes(s.h1, s.h)
    && SameOrShorter(s.g, s.h1, s.nbs[0], s.l)
    && forall x :: HasRow(s.g, x, s.l) ==> |Row(s.g, x, s.l)| <= Cap(p, s.l)
  }

  // A row still full after the first offer is the row before it.
  lemma FullIsSame(p: Params, s: Step, x: Word)
    requires Offered(p, s) && x != s.nbs[0] && HasRow(s.h1, x, s.l) && |Row(s.h1, x, s.l)| == Cap(p, s.l)
    ensures HasRow(s.g, x, s.l) && Row(s.h1, x, s.l) == Row(s.g, x, s.l)
  {
  }

  lemma JoinRefusals(dist: Metric, p: Params, s: Step, got: seq<Word>, added: bool)
    requires Offered(p, s) && OthersRefuse(dist, p, s.h1, s.nid, s.nbs[1..], got, s.l)
    requires if added then s.nbs[0] in got else Refuses(dist, p, s.g, s.nbs[0], s.nid, s.l)
    ensures OthersRefuse(dist, p, s.g, s.nid, s.nbs, got, s.l)
  {
    hide Offered;
    forall x | x in s.nbs && x !in got
      ensures Refuses(dist, p, s.g, x, s.nid, s.l)
    {
      if x != s.nbs[0] {
        assert x in s.nbs[1..];
        assert Refuses(dist, p, s.h1, x, s.nid, s.l);
        FullIsSame(p, s, x);
        OfferedNodes(p, s);
      }
    }
  }

  lemma OfferedNodes(p: Params, s: Step)
    requires Offered(p, s)
    ensures s.nbs != [] && SameNodes(s.g, s.h1) && SameNodes(s.h1, s.h)
  {
  }

  lemma JoinRoom(dist: Metric, p: Params, s: Step, good: seq<Word>, got: seq<Word>, added: bool)
    requires Offered(p, s) && (AllHaveRoom(p, s.h1, s.nbs[1..], s.l) ==>
      got == (if added then good + [s.nbs[0]] else good) + s.nbs[1..])
    requires HasRow(s.g, s.nbs[0], s.l) && (|Row(s.g, s.nbs[0], s.l)| < Cap(p, s.l) ==>
      added && forall x :: HasRow(s.g, x, s.l) && x != s.nbs[0] ==> Row(s.h1, x, s.l) == Row(s.g, x, s.l))
    ensures AllHaveRoom(p, s.g, s.nbs, s.l) ==> got == good + s.nbs
  {
    if AllHaveRoom(p, s.g, s.nbs, s.l) {
      forall x | x in s.nbs[1..]
        ensures HasRow(s.h1, x, s.l) && |Row(s.h1, x, s.l)| < Cap(p, s.l)
      {
        assert x in s.nbs && x != s.nbs[0];
      }
      assert good + [s.nbs[0]] + s.nbs[1..] == good + s.nbs;
    }
  }

  lemma JoinNew(s: Step)
    requires SameNodes(s.g, s.h1) && NoneNew(s.g, s.h1, s.nid, s.l) && NoneNew(s.h1, s.h, s.nid, s.l)
    ensures NoneNew(s.g, s.h, s.nid, s.l)
  {
  }

  lemma JoinLost(dist: Metric, p: Params, s: Step, good: seq<Word>, got: seq<Word>, added: bool)
    requires Offered(p, s) && (if added then good + [s.nbs[0]] else good) <= got
    requires var good1 := if added then good + [s.nbs[0]] else good;
      && LostMadeWay(dist, p, s.g, s.h1, s.nid, if added then [s.nbs[0]] else [], s.l)
      && (forall x :: x in got[|good1|..] ==> x in s.nbs[1..])
      && LostMadeWay(dist, p, s.h1, s.h, s.nid, got[|good1|..], s.l)
    ensures (forall x :: x in got[|good|..] ==> x in s.nbs) && LostMadeWay(dist, p, s.g, s.h, s.nid, got[|good|..], s.l)
  {
    hide Offered, FarthestOf;
    OfferedNodes(p, s);
    var good1 := if added then good + [s.nbs[0]] else good;
    var late, all := got[|good1|..], got[|good|..];
    assert all == (if added then [s.nbs[0]] else []) + late;
    forall x | x in all
      ensures x in s.nbs
    {
      assert x == s.nbs[0] || x in s.nbs[1..];
    }
    forall x, y | HasRow(s.g, x, s.l) && HasRow(s.h, x, s.l) && y in Row(s.g, x, s.l) && y !in Row(s.h, x, s.l)
      ensures MakesWay(dist, p, s.g, s.nid, all, x, y, s.l) || MakesWay(dist, p, s.g, s.nid, all, y, x, s.l)
    {
      if HasRow(s.h1, x, s.l) && y in Row(s.h1, x, s.l) {
        WayBefore(dist, p, s, late, x, y);
        WayBefore(dist, p, s, late, y, x);
      }
    }
  }

  lemma WayBefore(dist: Metric, p: Params, s: Step, late: seq<Word>, x: Word, y: Word)
    requires Offered(p, s) && forall x :: x in late ==> x in s.nbs[1..]
    ensures MakesWay(dist, p, s.h1, s.nid, late, x, y, s.l) ==> MakesWay(dist, p, s.g, s.nid, late, x, y, s.l)
  {
    hide Offered;
    OfferedNodes(p, s);
    if MakesWay(dist, p, s.h1, s.nid, late, x, y, s.l) {
      NotFirst(p, s, x);
      FullIsSame(p, s, x);
    }
  }

  lemma NotFirst(p: Params, s: Step, x: Word)
    requires Offered(p, s) && x in s.nbs[1..]
    ensures x != s.nbs[0]
  {
  }

  // ── A whole level ──

  lemma ConnectedLinks(dist: Metric, p: Params, g: Graph, nid: Word, nbs: seq<Word>, l: nat)
    requires p.Valid() && WellFormed(p, g) && HasRow(g, nid, l) && Row(g, nid, l) == []
    requires Joinable(g, nid, [], nbs, l) && |nbs| <= Cap(p, l)
    ensures Linked(dist, p, g, Connected(dist, p, g, nid, nbs, l), nid, nbs, l)
  {
    hide WellFormed, Connecting, NoneNew, LostMadeWay, OthersRefuse, AllHaveRoom, Joinable, ConnectRun, SameNodes;
    StartConnecting(p, g, nid, l);
    RunLinks(dist, p, g, nid, [], nbs, l);
    ConnectedFacts(dist, p, g, nid, nbs, l);
    var (h, good) := ConnectRun(dist, p, g, nid, [], nbs, l);
    assert good[0..] == good && [] + nbs == nbs;
    RunEnds(p, h, nid, good, l);
    var k := Connected(dist, p, g, nid, nbs, l);
    assert k == SetRow(h, nid, l, good);
    LinksBothWays(p, k, nid, l);
    OwnRowAside(dist, p, g, h, nid, good, l);
  }

  lemma RunEnds(p: Params, h: Graph, nid: Word, good: seq<Word>, l: nat)
    requires Connecting(p, h, nid, good, l)
    ensures HasRow(h, nid, l)
  {
  }

  lemma LinksBothWays(p: Params, h: Graph, nid: Word, l: nat)
    requires WellFormed(p, h) && HasRow(h, nid, l)
    ensures forall x :: x in Row(h, nid, l) <==> HasRow(h, x, l) && nid in Row(h, x, l)
  {
    assert RowOk(p, h, nid, l);
    forall x | HasRow(h, x, l) && nid in Row(h, x, l)
      ensures x in Row(h, nid, l)
    {
      assert RowOk(p, h, x, l);
    }
  }

  // Saving the new node's own row touches no edge between old nodes.
  lemma OwnRowAside(dist: Metric, p: Params, g: Graph, h: Graph, nid: Word, good: seq<Word>, l: nat)
    requires HasRow(g, nid, l) && Row(g, nid, l) == [] && HasRow(h, nid, l)
    requires NoneNew(g, h, nid, l) && LostMadeWay(dist, p, g, h, nid, good, l)
    ensures var k := SetRow(h, nid, l, good); NoneNew(g, k, nid, l) && LostMadeWay(dist, p, g, k, nid, good, l)
  {
    hide MakesWay;
  }

  // ── A whole commit ──

  // The rows of level `l` are the same.
  ghost predicate SameLevel(g: Graph, h: Graph, l: nat) {
    SameNodes(g, h) && forall x :: HasRow(g, x, l) ==> Row(h, x, l) == Row(g, x, l)
  }

  lemma SameLevelTrans(g: Graph, h: Graph, k: Graph, l: nat)
    requires SameLevel(g, h, l) && SameLevel(h, k, l)
    ensures SameLevel(g, k, l)
  {
    assert forall x :: HasRow(g, x, l) ==> HasRow(h, x, l);
  }

  lemma SameLevelSelf(g: Graph, l: nat)
    ensures SameLevel(g, g, l)
  {
  }

  // Links of a level depend on the rows of that level only.
  lemma LinkedMoves(dist: Metric, p: Params, g0: Graph, g: Graph, h: Graph, k: Graph, nid: Word, nbs: seq<Word>, l: nat)
    requires SameLevel(g0, g, l) && Linked(dist, p, g, h, nid, nbs, l) && SameLevel(h, k, l) && SameNodes(g, h)
    ensures Linked(dist, p, g0, k, nid, nbs, l)
  {
    var row := Row(h, nid, l);
    assert HasRow(k, nid, l) && Row(k, nid, l) == row;
    SameRows(g0, g, l);
    SameRows(h, k, l);
    forall x | x in nbs && x !in row
      ensures Refuses(dist, p, g0, x, nid, l)
    {
      assert Refuses(dist, p, g, x, nid, l);
    }
    if AllHaveRoom(p, g0, nbs, l) {
      assert AllHaveRoom(p, g, nbs, l);
    }
    forall x, y | HasRow(g0, x, l) && HasRow(k, x, l) && y in Row(g0, x, l) && y !in Row(k, x, l)
      ensures MakesWay(dist, p, g0, nid, row, x, y, l) || MakesWay(dist, p, g0, nid, row, y, x, l)
    {
      assert MakesWay(dist, p, g, nid, row, x, y, l) || MakesWay(dist, p, g, nid, row, y, x, l);
    }
  }

  lemma SameRows(g: Graph, h: Graph, l: nat)
    requires SameLevel(g, h, l)
    ensures forall x :: HasRow(g, x, l) <==> HasRow(h, x, l)
    ensures forall x :: HasRow(h, x, l) ==> Row(h, x, l) == Row(g, x, l)
  {
  }
}
