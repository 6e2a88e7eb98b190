// What a beam search over one level promises, and why each of its steps keeps that promise.
module Search {
  import opened Layout
  import opened Graph
  import opened Reachability
  import opened Heaps

  // The setting of one search: metric, query vector, graph, level, entry point, beam width.
  datatype Query = Query(dist: Metric, q: seq<Word>, g: Graph, l: nat, ep: Word, ef: nat)

  function D(k: Query, id: Word): int
    requires id in k.g
  {
    k.dist(k.q, k.g[id].vector)
  }

  // Every edge of the level leads to a node of the level.
  ghost predicate Closed(g: Graph, l: nat) {
    forall x, y :: HasRow(g, x, l) && y in Row(g, x, l) ==> HasRow(g, y, l)
  }

  lemma WellFormedClosed(p: Params, g: Graph, l: nat)
    requires WellFormed(p, g)
    ensures Closed(g, l)
  {
    forall x, y | HasRow(g, x, l) && y in Row(g, x, l)
      ensures HasRow(g, y, l)
    {
      assert RowOk(p, g, x, l);
    }
  }

  // ── Greedy descent ──

  // The nodes strictly closer than `d`: what is left to improve.
  ghost function Closer(k: Query, d: int): set<Word> {
    set id | id in k.g && D(k, id) < d
  }

  lemma CloserShrinks(k: Query, d: int, id: Word)
    requires id in k.g && D(k, id) < d
    ensures Closer(k, D(k, id)) < Closer(k, d)
  {
    assert id in Closer(k, d) && id !in Closer(k, D(k, id));
  }

  // ── Result of a beam search ──

  ghost predicate TrueDistance(k: Query, c: Cand) {
    c.id in k.g && c.d == D(k, c.id)
  }

  // All neighbours of `x` have been seen.
  ghost predicate Expanded(k: Query, x: Word, visited: set<Word>) {
    HasRow(k.g, x, k.l) && forall y :: y in Row(k.g, x, k.l) ==> y in visited
  }

  // A visited node is in the result, or the result is full of nodes at least as close.
  ghost predicate Covered(k: Query, v: Word, w: seq<Cand>) {
    HasId(w, v) || (|w| == k.ef && v in k.g && forall c :: c in w ==> c.d <= D(k, v))
  }

  ghost predicate Found(k: Query, w: seq<Cand>, visited: set<Word>) {
    && 1 <= |w| <= k.ef && DistinctIds(w)
    && (forall c :: c in w ==> c.id in visited && TrueDistance(k, c))
    && k.ep in visited
    && (forall v :: v in visited ==> HasRow(k.g, v, k.l) && Reach(k.g, k.l, k.ep, v) && Covered(k, v, w))
  }

  // What `search_level` returns, together with the set of nodes it looked at.
  ghost predicate SearchResult(k: Query, w: seq<Cand>, visited: set<Word>) {
    && Found(k, w, visited)
    && forall c :: c in w ==> Expanded(k, c.id, visited)
  }

  // Local optimality: a neighbour of a returned node is returned, or the result is full and
  // nothing in it is farther than that neighbour.
  lemma NeighboursNoCloser(k: Query, w: seq<Cand>, visited: set<Word>, c: Cand, y: Word)
    requires SearchResult(k, w, visited) && c in w && HasRow(k.g, c.id, k.l) && y in Row(k.g, c.id, k.l)
    ensures HasId(w, y) || (|w| == k.ef && y in k.g && forall r :: r in w ==> r.d <= D(k, y))
  {
    assert Expanded(k, c.id, visited);
    assert Covered(k, y, w);
  }

  // A search that comes back short has found everything reachable.
  lemma ShortIsExhaustive(k: Query, w: seq<Cand>, visited: set<Word>)
    requires SearchResult(k, w, visited) && |w| < k.ef
    ensures forall x :: x in Component(k.g, k.l, k.ep) <==> HasId(w, x)
  {
    forall x | x in Component(k.g, k.l, k.ep)
      ensures HasId(w, x)
    {
      forall a, b | a in visited && HasRow(k.g, a, k.l) && b in Row(k.g, a, k.l)
        ensures b in visited
      {
        assert Covered(k, a, w);
        var c :| c in w && c.id == a;
        assert Expanded(k, c.id, visited);
      }
      ClosedContains(k.g, k.l, k.ep, x, visited);
      assert Covered(k, x, w);
    }
  }

  // What can be said of a result without the nodes looked at: it holds at most `ef` distinct
  // reachable nodes with their distances; whatever is next to one of them is in it or, when it
  // is full, no closer than any of them; and if it is not full it holds all that is reachable.
  ghost predicate LocallyBest(k: Query, w: seq<Cand>) {
    && 1 <= |w| <= k.ef && DistinctIds(w)
    && (forall c :: c in w ==> TrueDistance(k, c) && c.id in Component(k.g, k.l, k.ep))
    && (forall c, y :: c in w && HasRow(k.g, c.id, k.l) && y in Row(k.g, c.id, k.l) ==>
          HasId(w, y) || (|w| == k.ef && y in k.g && forall r :: r in w ==> r.d <= D(k, y)))
    && (|w| < k.ef ==> forall x :: x in Component(k.g, k.l, k.ep) <==> HasId(w, x))
  }

  lemma ResultLocallyBest(k: Query, w: seq<Cand>, visited: set<Word>)
    requires SearchResult(k, w, visited)
    ensures LocallyBest(k, w)
  {
    hide Expanded, Covered, Reach;
    forall c, y | c in w && HasRow(k.g, c.id, k.l) && y in Row(k.g, c.id, k.l)
      ensures HasId(w, y) || (|w| == k.ef && y in k.g && forall r :: r in w ==> r.d <= D(k, y))
    {
      NeighboursNoCloser(k, w, visited, c, y);
    }
    if |w| < k.ef {
      ShortIsExhaustive(k, w, visited);
    }
  }

  // If the beam is at least as wide as the component, the search returns the whole component.
  lemma WideIsExhaustive(k: Query, w: seq<Cand>, visited: set<Word>)
    requires SearchResult(k, w, visited) && |Component(k.g, k.l, k.ep)| <= k.ef
    ensures forall x :: x in Component(k.g, k.l, k.ep) <==> HasId(w, x)
  {
    var comp := Component(k.g, k.l, k.ep);
    if |w| < k.ef {
      ShortIsExhaustive(k, w, visited);
    } else {
      var found := set c | c in w :: c.id;
      DistinctCount(w);
      forall x | x in found
        ensures x in comp
      {
        var c :| c in w && c.id == x;
        assert c.id in visited;
      }
      SubsetOfEqualSize<int>(found, comp);
      forall x | x in comp
        ensures HasId(w, x)
      {
        assert x in found;
      }
    }
  }

  lemma {:induction false} DistinctCount(w: seq<Cand>)
    requires DistinctIds(w)
    ensures |set c | c in w :: c.id| == |w|
  {
    if w != [] {
      var init, last := w[..|w| - 1], w[|w| - 1];
      DistinctCount(init);
      var s := set c | c in init :: c.id;
      assert (set c | c in w :: c.id) == s + {last.id};
      assert last.id !in s;
    }
  }

  lemma SubsetOfEqualSize<T>(a: set<T>, b: set<T>)
    requires a <= b && |b| <= |a|
    ensures a == b
  {
    assert b == a + (b - a);
    assert |b| == |a| + |b - a|;
  }

  // The `n` nearest nodes of the component, sorted by distance; ties may fall either way.
  ghost predicate NearestOf(k: Query, r: seq<Cand>, n: nat) {
    var comp := Component(k.g, k.l, k.ep);
    && |r| == (if n <= |comp| then n else |comp|)
    && DistinctIds(r) && ByDistance(r)
    && (forall c :: c in r ==> TrueDistance(k, c) && c.id in comp)
    && forall x :: x in comp ==> HasId(r, x) || forall c :: c in r ==> c.d <= D(k, x)
  }

  ghost predicate ByDistance(r: seq<Cand>) {
    forall i, j :: 0 <= i < j < |r| ==> r[i].d <= r[j].d
  }

  // `r` keeps the `n` closest candidates of `w`, in any order.
  ghost predicate KeepsBest(w: seq<Cand>, r: seq<Cand>, n: nat) {
    && |r| == (if n <= |w| then n else |w|) && DistinctIds(r)
    && (forall c :: c in r ==> c in w)
    && forall c, x :: c in r && x in w && x !in r ==> c.d <= x.d
  }

  // And sorted.
  ghost predicate BestOf(w: seq<Cand>, r: seq<Cand>, n: nat) {
    KeepsBest(w, r, n) && ByDistance(r)
  }

  // Cutting an exhaustive search down to its `n` best gives the `n` nearest of the component.
  lemma BestOfAllIsNearest(k: Query, w: seq<Cand>, visited: set<Word>, r: seq<Cand>, n: nat)
    requires SearchResult(k, w, visited) && BestOf(w, r, n)
    requires |Component(k.g, k.l, k.ep)| <= k.ef
    ensures NearestOf(k, r, n)
  {
    var comp := Component(k.g, k.l, k.ep);
    WideIsExhaustive(k, w, visited);
    assert |w| == |comp| by {
      DistinctCount(w);
      var found: set<int> := set c | c in w :: c.id;
      assert found == comp;
    }
    forall x | x in comp
      ensures HasId(r, x) || forall c :: c in r ==> c.d <= D(k, x)
    {
      var c :| c in w && c.id == x;
      assert TrueDistance(k, c);
    }
  }

  // ── The loop ──

  // Between two steps of the loop: what is in the result is either waiting in the candidate
  // queue, being expanded right now, or done.
  ghost predicate Searching(k: Query, visited: set<Word>, w: seq<Cand>, cands: seq<Cand>, cur: set<Word>) {
    && Found(k, w, visited) && Sorted(w) && Sorted(cands)
    && (forall c :: c in cands ==> c.id in visited && TrueDistance(k, c))
    && forall c :: c in w ==> c in cands || c.id in cur || Expanded(k, c.id, visited)
  }

  lemma StartSearching(k: Query)
    requires HasRow(k.g, k.ep, k.l) && 1 <= k.ef
    ensures var c := Cand(D(k, k.ep), k.ep);
            Searching(k, {k.ep}, [c], [c], {})
  {
    var c := Cand(D(k, k.ep), k.ep);
    ReachSelf(k.g, k.l, k.ep);
    assert c in [c] && c.id == k.ep;
  }

  lemma PopCandidate(k: Query, visited: set<Word>, w: seq<Cand>, cands: seq<Cand>)
    requires Searching(k, visited, w, cands, {}) && cands != []
    ensures cands[0].id in visited && HasRow(k.g, cands[0].id, k.l)
    ensures Searching(k, visited, w, cands[1..], {cands[0].id})
  {
    LeastIsFirst(cands);
    assert cands[0] in cands;
  }

  // Breaking off is safe: everything still waiting is farther than the whole result.
  lemma StopEarly(k: Query, visited: set<Word>, w: seq<Cand>, cands: seq<Cand>)
    requires Searching(k, visited, w, cands, {}) && cands != []
    requires |w| == k.ef && cands[0].d > Worst(w).d
    ensures SearchResult(k, w, visited)
  {
    LeastIsFirst(cands);
    WorstIsGreatest(w);
    forall c | c in w
      ensures Expanded(k, c.id, visited)
    {
      assert Leq(c, Worst(w)) && (c in cands ==> Leq(cands[0], c));
    }
  }

  lemma QueueEmpty(k: Query, visited: set<Word>, w: seq<Cand>)
    requires Searching(k, visited, w, [], {})
    ensures SearchResult(k, w, visited)
  {
  }

  lemma FinishExpanding(k: Query, visited: set<Word>, w: seq<Cand>, cands: seq<Cand>, x: Word)
    requires Searching(k, visited, w, cands, {x}) && Expanded(k, x, visited)
    ensures Searching(k, visited, w, cands, {})
  {
  }

  // A neighbour already seen changes nothing; a new one is added to the visited set first.
  ghost predicate NewNeighbour(k: Query, visited: set<Word>, x: Word, e: Word) {
    && x in visited && HasRow(k.g, x, k.l) && e in Row(k.g, x, k.l) && HasRow(k.g, e, k.l)
    && e !in visited
  }

  lemma ReachedNew(k: Query, visited: set<Word>, w: seq<Cand>, x: Word, e: Word)
    requires Found(k, w, visited) && NewNeighbour(k, visited, x, e)
    ensures Reach(k.g, k.l, k.ep, e) && !HasId(w, e)
  {
    ReachStep(k.g, k.l, k.ep, x, e);
  }

  lemma StillExpanded(k: Query, visited: set<Word>, x: Word, e: Word)
    ensures Expanded(k, x, visited) ==> Expanded(k, x, visited + {e})
  {
  }

  lemma VisitWithRoom(k: Query, visited: set<Word>, w: seq<Cand>, cands: seq<Cand>, x: Word, e: Word)
    requires Searching(k, visited, w, cands, {x}) && NewNeighbour(k, visited, x, e) && |w| < k.ef
    ensures var c := Cand(D(k, e), e);
            Searching(k, visited + {e}, Push(w, c), Push(cands, c), {x})
  {
    var c := Cand(D(k, e), e);
    ReachedNew(k, visited, w, x, e);
    PushContents(w, c);
    PushContents(cands, c);
    forall v | v in visited + {e}
      ensures Covered(k, v, Push(w, c))
    {
      assert c in Push(w, c);
      assert v in visited ==> Covered(k, v, w);
    }
    forall r | r in Push(w, c)
      ensures r in Push(cands, c) || r.id in {x} || Expanded(k, r.id, visited + {e})
    {
      if r in w {
        StillExpanded(k, visited, r.id, e);
      }
    }
  }

  lemma VisitCloser(k: Query, visited: set<Word>, w: seq<Cand>, cands: seq<Cand>, x: Word, e: Word)
    requires Searching(k, visited, w, cands, {x}) && NewNeighbour(k, visited, x, e) && |w| == k.ef
    requires D(k, e) < Worst(w).d
    ensures var c := Cand(D(k, e), e);
            Searching(k, visited + {e}, Push(PopWorst(w), c), Push(cands, c), {x})
  {
    var c := Cand(D(k, e), e);
    var w1 := PopWorst(w);
    var w' := Push(w1, c);
    ReachedNew(k, visited, w, x, e);
    WorstIsGreatest(w);
    PushContents(w1, c);
    PushContents(cands, c);
    forall v | v in visited + {e}
      ensures Covered(k, v, w')
    {
      assert c in w';
      if v in visited {
        assert Covered(k, v, w);
        if HasId(w, v) {
          var r :| r in w && r.id == v;
          assert TrueDistance(k, r);
          if r in w1 {
            assert r in w' && HasId(w', v);
          }
        }
      }
    }
    forall r | r in w'
      ensures r in Push(cands, c) || r.id in {x} || Expanded(k, r.id, visited + {e})
    {
      if r in w {
        StillExpanded(k, visited, r.id, e);
      }
    }
  }

  lemma VisitFarther(k: Query, visited: set<Word>, w: seq<Cand>, cands: seq<Cand>, x: Word, e: Word)
    requires Searching(k, visited, w, cands, {x}) && NewNeighbour(k, visited, x, e) && |w| == k.ef
    requires D(k, e) >= Worst(w).d
    ensures Searching(k, visited + {e}, w, cands, {x})
  {
    ReachedNew(k, visited, w, x, e);
    WorstIsGreatest(w);
    forall v | v in visited + {e}
      ensures Covered(k, v, w)
    {
      assert v in visited ==> Covered(k, v, w);
    }
    forall r | r in w
      ensures r in cands || r.id in {x} || Expanded(k, r.id, visited + {e})
    {
      StillExpanded(k, visited, r.id, e);
    }
  }
}
