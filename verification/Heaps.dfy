// Pairs of a distance and an id, their total order, and a priority queue of them.
//
// Distances are integers here (no NaN, no rounding); ids are any totally ordered key.
module Heaps {

  datatype Cand = Cand(d: int, id: int)

  // Distance first, ties broken by id.
  predicate Leq(a: Cand, b: Cand) {
    a.d < b.d || (a.d == b.d && a.id <= b.id)
  }

  ghost predicate Sorted(h: seq<Cand>) {
    forall i, j :: 0 <= i < j < |h| ==> Leq(h[i], h[j])
  }

  ghost predicate DistinctIds(h: seq<Cand>) {
    forall i, j :: 0 <= i < j < |h| ==> h[i].id != h[j].id
  }

  ghost predicate HasId(h: seq<Cand>, id: int) {
    exists c :: c in h && c.id == id
  }

  // A binary heap, as the sequence its pops would produce: the least element first, the
  // greatest last.
  function Position(h: seq<Cand>, c: Cand): (k: nat)
    ensures k <= |h|
    ensures Sorted(h) ==> (forall i :: 0 <= i < k ==> Leq(h[i], c)) && forall i :: k <= i < |h| ==> Leq(c, h[i])
  {
    if h == [] || Leq(c, h[0]) then 0 else 1 + Position(h[1..], c)
  }

  function Push(h: seq<Cand>, c: Cand): (r: seq<Cand>)
    ensures |r| == |h| + 1
    ensures multiset(r) == multiset(h) + multiset{c}
  {
    var k := Position(h, c);
    assert h == h[..k] + h[k..];
    h[..k] + [c] + h[k..]
  }

  lemma PushContents(h: seq<Cand>, c: Cand)
    ensures forall x :: x in Push(h, c) <==> x in h || x == c
    ensures Sorted(h) ==> Sorted(Push(h, c))
    ensures DistinctIds(h) && !HasId(h, c.id) ==> DistinctIds(Push(h, c))
  {
    var k := Position(h, c);
    assert h == h[..k] + h[k..];
    if Sorted(h) {
      InsertSorted(h, k, c);
    }
    if DistinctIds(h) && !HasId(h, c.id) {
      InsertDistinct(h, k, c);
    }
  }

  lemma InsertSorted(h: seq<Cand>, k: nat, c: Cand)
    requires Sorted(h) && k <= |h|
    requires (forall i :: 0 <= i < k ==> Leq(h[i], c)) && forall i :: k <= i < |h| ==> Leq(c, h[i])
    ensures Sorted(h[..k] + [c] + h[k..])
  {
    var r := h[..k] + [c] + h[k..];
    assert forall i :: 0 <= i < k ==> r[i] == h[i];
    assert forall i :: k < i < |r| ==> r[i] == h[i - 1];
  }

  lemma InsertDistinct(h: seq<Cand>, k: nat, c: Cand)
    requires DistinctIds(h) && k <= |h| && forall i :: 0 <= i < |h| ==> h[i].id != c.id
    ensures DistinctIds(h[..k] + [c] + h[k..])
  {
    var r := h[..k] + [c] + h[k..];
    assert forall i :: 0 <= i < k ==> r[i] == h[i];
    assert forall i :: k < i < |r| ==> r[i] == h[i - 1];
  }

  // The greatest element: what peeking at a max-heap shows.
  function Worst(h: seq<Cand>): Cand
    requires h != []
  {
    h[|h| - 1]
  }

  function PopWorst(h: seq<Cand>): seq<Cand>
    requires h != []
  {
    h[..|h| - 1]
  }

  lemma WorstIsGreatest(h: seq<Cand>)
    requires Sorted(h) && h != []
    ensures Sorted(PopWorst(h)) && forall c :: c in h ==> Leq(c, Worst(h))
    ensures forall c :: c in h <==> c in PopWorst(h) || c == Worst(h)
    ensures DistinctIds(h) ==> DistinctIds(PopWorst(h))
  {
    assert h == PopWorst(h) + [Worst(h)];
  }

  lemma LeastIsFirst(h: seq<Cand>)
    requires Sorted(h) && h != []
    ensures Sorted(h[1..]) && forall c :: c in h ==> Leq(h[0], c)
    ensures forall c :: c in h <==> c in h[1..] || c == h[0]
  {
    assert h == [h[0]] + h[1..];
  }
}
