// Paths and reachability along the edges of one level.
module Reachability {
  import opened Layout
  import opened Graph

  ghost predicate Path(g: Graph, l: nat, p: seq<Word>) {
    && p != []
    && (forall i :: 0 <= i < |p| ==> HasRow(g, p[i], l))
    && (forall i :: 0 <= i < |p| - 1 ==> p[i + 1] in Row(g, p[i], l))
  }

  ghost predicate Reach(g: Graph, l: nat, a: Word, b: Word) {
    exists p :: Path(g, l, p) && p[0] == a && p[|p| - 1] == b
  }

  // Everything reachable from `a` at level `l`.
  ghost function Component(g: Graph, l: nat, a: Word): set<Word> {
    set x | x in g && Reach(g, l, a, x)
  }

  lemma ReachSelf(g: Graph, l: nat, a: Word)
    requires HasRow(g, a, l)
    ensures Reach(g, l, a, a)
  {
    assert Path(g, l, [a]);
  }

  lemma ReachStep(g: Graph, l: nat, a: Word, b: Word, c: Word)
    requires Reach(g, l, a, b) && HasRow(g, b, l) && c in Row(g, b, l) && HasRow(g, c, l)
    ensures Reach(g, l, a, c)
  {
    var p :| Path(g, l, p) && p[0] == a && p[|p| - 1] == b;
    var r := p + [c];
    assert Path(g, l, r);
  }

  // A set that contains the start and is closed under the edges contains all that is reachable.
  lemma ClosedContains(g: Graph, l: nat, a: Word, b: Word, s: set<Word>)
    requires a in s && Reach(g, l, a, b)
    requires forall x, y :: x in s && HasRow(g, x, l) && y in Row(g, x, l) ==> y in s
    ensures b in s
  {
    var p :| Path(g, l, p) && p[0] == a && p[|p| - 1] == b;
    AlongPath(g, l, p, s, |p| - 1);
  }

  lemma {:induction false} AlongPath(g: Graph, l: nat, p: seq<Word>, s: set<Word>, k: nat)
    requires Path(g, l, p) && k < |p| && p[0] in s
    requires forall x, y :: x in s && HasRow(g, x, l) && y in Row(g, x, l) ==> y in s
    ensures p[k] in s
  {
    if k > 0 {
      AlongPath(g, l, p, s, k - 1);
      assert p[k - 1 + 1] in Row(g, p[k - 1], l);
    }
  }

  // In a well-formed graph whatever is reached from another node has an edge itself.
  lemma ReachedHasEdge(p: Params, g: Graph, l: nat, a: Word, x: Word)
    requires WellFormed(p, g) && Reach(g, l, a, x) && a != x
    ensures HasRow(g, x, l) && Row(g, x, l) != []
  {
    var q :| Path(g, l, q) && q[0] == a && q[|q| - 1] == x;
    var y := q[|q| - 2];
    assert q[|q| - 2 + 1] in Row(g, y, l);
    assert RowOk(p, g, y, l);
  }
}
