// Selecting the k smallest of a list of candidates: by sorting, with a bounded heap, and by
// in-place quickselect.
module TopK {
  import opened Heaps

  // ── The k smallest of a multiset under a total order ──

  ghost predicate TotalOrder<T(!new)>(le: (T, T) -> bool) {
    && (forall x, y :: le(x, y) || le(y, x))
    && (forall x, y :: le(x, y) && le(y, x) ==> x == y)
    && (forall x, y, z :: le(x, y) && le(y, z) ==> le(x, z))
  }

  // `m` holds `k` elements of `all` (or all of them) and nothing left out is smaller.
  ghost predicate Smallest<T(!new)>(le: (T, T) -> bool, m: multiset<T>, all: multiset<T>, k: nat) {
    && m <= all
    && |m| == (if k <= |all| then k else |all|)
    && forall x, y :: x in m && all[y] > m[y] ==> le(x, y)
  }

  lemma ContainedOfEqualSize<T>(a: multiset<T>, b: multiset<T>)
    requires a <= b && |b| <= |a|
    ensures a == b
  {
    assert |b - a| == 0;
    assert b == a + (b - a);
  }

  lemma DifferentSomewhere<T>(a: multiset<T>, b: multiset<T>) returns (x: T)
    requires |a| == |b| && a != b
    ensures a[x] > b[x]
  {
    if a <= b {
      ContainedOfEqualSize(a, b);
    }
    x :| x in a && a[x] > b[x];
  }

  // Under a total order there is only one choice, whatever the ties.
  lemma SmallestIsUnique<T(!new)>(le: (T, T) -> bool, a: multiset<T>, b: multiset<T>, all: multiset<T>, k: nat)
    requires TotalOrder(le) && Smallest(le, a, all, k) && Smallest(le, b, all, k)
    ensures a == b
  {
    if a != b {
      var x := DifferentSomewhere(a, b);
      var y := DifferentSomewhere(b, a);
    }
  }

  // Reducing one part to its own k smallest first loses nothing.
  lemma SmallestOfParts<T(!new)>(le: (T, T) -> bool, part: multiset<T>, kept: multiset<T>, rest: multiset<T>,
      m: multiset<T>, k: nat)
    requires TotalOrder(le) && Smallest(le, kept, part, k) && Smallest(le, m, kept + rest, k)
    ensures Smallest(le, m, part + rest, k)
  {
    if |part| <= k {
      ContainedOfEqualSize(kept, part);
    } else {
      forall x, y | x in m && (part + rest)[y] > m[y]
        ensures le(x, y)
      {
        if (kept + rest)[y] <= m[y] {
          assert part[y] > kept[y];
          if kept <= m {
            ContainedOfEqualSize(kept, m);
          } else {
            // Some kept element was not taken: everything taken is below it, and it is below y.
            var z :| z in kept && m[z] < kept[z];
            assert (kept + rest)[z] > m[z];
            assert le(x, z) && le(z, y);
          }
        }
      }
    }
  }

  // ── Candidates ──

  lemma LeqIsTotal()
    ensures TotalOrder(Leq)
  {
  }

  ghost predicate KSmallest(m: seq<Cand>, all: seq<Cand>, k: nat) {
    Smallest(Leq, multiset(m), multiset(all), k)
  }

  function Map<S, T>(f: S -> T, s: seq<S>): (r: seq<T>)
    ensures |r| == |s|
  {
    seq(|s|, i requires 0 <= i < |s| => f(s[i]))
  }

  lemma Cancel<T>(x: multiset<T>, a: multiset<T>, b: multiset<T>)
    requires a + x == b + x
    ensures a == b
  {
    assert forall e :: a[e] == (a + x)[e] - x[e] && b[e] == (b + x)[e] - x[e];
  }

  lemma CancelWithin<T>(x: multiset<T>, a: multiset<T>, b: multiset<T>)
    requires a + x <= b + x
    ensures a <= b
  {
    assert forall e :: a[e] == (a + x)[e] - x[e] && b[e] == (b + x)[e] - x[e];
  }

  lemma SplitContents<T>(s: seq<T>, i: nat, j: nat)
    requires i <= j <= |s|
    ensures multiset(s) == multiset(s[i..j]) + multiset(s[..i] + s[j..])
    ensures multiset(s[..i] + s[j..]) == multiset(s[..i]) + multiset(s[j..])
  {
    assert s == s[..i] + s[i..j] + s[j..];
  }

  lemma Removed<T>(s: seq<T>, j: nat)
    requires j < |s|
    ensures multiset(s) == multiset(s[..j] + s[j + 1..]) + multiset{s[j]}
  {
    assert s == s[..j] + [s[j]] + s[j + 1..];
  }

  lemma RemovedMapped<S, T>(f: S -> T, s: seq<S>, j: nat)
    requires j < |s|
    ensures multiset(Map(f, s)) == multiset(Map(f, s[..j] + s[j + 1..])) + multiset{f(s[j])}
  {
    Removed(Map(f, s), j);
    assert Map(f, s)[..j] + Map(f, s)[j + 1..] == Map(f, s[..j] + s[j + 1..]);
  }

  lemma MapAt<S, T>(f: S -> T, s: seq<S>, i: nat)
    requires i < |s|
    ensures Map(f, s)[i] == f(s[i])
  {
  }

  // What is mapped depends on the contents of a list, not on its order.
  lemma {:induction false} SameMapped<S, T>(f: S -> T, a: seq<S>, b: seq<S>)
    requires multiset(a) == multiset(b)
    ensures multiset(Map(f, a)) == multiset(Map(f, b))
  {
    hide Map;
    if a == [] {
      assert |multiset(b)| == 0;
    } else {
      assert a[0] in multiset(b);
      var j :| 0 <= j < |b| && b[j] == a[0];
      var b' := b[..j] + b[j + 1..];
      Removed(a, 0);
      Removed(b, j);
      assert a[..0] + a[1..] == a[1..];
      Cancel(multiset{a[0]}, multiset(a[1..]), multiset(b'));
      SameMapped(f, a[1..], b');
      RemovedMapped(f, a, 0);
      RemovedMapped(f, b, j);
    }
  }

  function IdOf(c: Cand): int { c.id }

  function DistanceOf(c: Cand): int { c.d }

  function Ids(s: seq<Cand>): (r: seq<int>) {
    Map(IdOf, s)
  }

  // ── By sorting ──

  function Sort(s: seq<Cand>): (r: seq<Cand>)
    ensures Sorted(r) && multiset(r) == multiset(s) && |r| == |s|
  {
    if s == [] then []
    else
      assert s == s[..|s| - 1] + [s[|s| - 1]];
      PushContents(Sort(s[..|s| - 1]), s[|s| - 1]);
      Push(Sort(s[..|s| - 1]), s[|s| - 1])
  }

  function Taken(s: seq<Cand>, k: nat): seq<Cand> {
    if k <= |s| then s[..k] else s
  }

  ghost predicate Below(v: seq<Cand>, cut: nat) {
    forall i, j :: 0 <= i < cut <= j < |v| ==> Leq(v[i], v[j])
  }

  // A prefix below everything after it is the k smallest.
  lemma PrefixIsSmallest(s: seq<Cand>, k: nat)
    requires k <= |s| && Below(s, k)
    ensures KSmallest(s[..k], s, k)
  {
    SplitContents(s, k, |s|);
    assert s[k..|s|] == s[k..] && s[|s|..] == [];
    forall x, y | x in multiset(s[..k]) && multiset(s)[y] > multiset(s[..k])[y]
      ensures Leq(x, y)
    {
      assert y in multiset(s[k..]);
      var i :| 0 <= i < k && s[i] == x;
      var j :| 0 <= j < |s[k..]| && s[k..][j] == y;
      assert s[k + j] == y;
    }
  }

  lemma SortedPrefix(s: seq<Cand>, k: nat)
    ensures KSmallest(Taken(Sort(s), k), s, k)
  {
    if k <= |s| {
      PrefixIsSmallest(Sort(s), k);
    }
  }

  // The reference: the ids of the first k of the sorted list.
  function TopIds(s: seq<Cand>, k: nat): multiset<int> {
    multiset(Ids(Taken(Sort(s), k)))
  }

  lemma TopIdsOf(m: seq<Cand>, s: seq<Cand>, k: nat)
    requires KSmallest(m, s, k)
    ensures multiset(Ids(m)) == TopIds(s, k)
  {
    SortedPrefix(s, k);
    LeqIsTotal();
    SmallestIsUnique(Leq, multiset(m), multiset(Taken(Sort(s), k)), multiset(s), k);
    SameMapped(IdOf, m, Taken(Sort(s), k));
  }

  method TopKSort(candidates: seq<Cand>, k: nat) returns (r: seq<int>)
    ensures multiset(r) == TopIds(candidates, k)
    ensures exists m :: KSmallest(m, candidates, k) && Sorted(m) && r == Ids(m)
  {
    SortedPrefix(candidates, k);
    r := Ids(Taken(Sort(candidates), k));
  }

  // ── With a bounded heap ──

  lemma HeapStep(heap: seq<Cand>, seen: seq<Cand>, c: Cand, k: nat)
    requires Sorted(heap) && KSmallest(heap, seen, k)
    ensures Sorted(Push(heap, c))
    ensures |Push(heap, c)| <= k ==> KSmallest(Push(heap, c), seen + [c], k)
    ensures |Push(heap, c)| > k ==> Sorted(PopWorst(Push(heap, c))) && KSmallest(PopWorst(Push(heap, c)), seen + [c], k)
  {
    var h := Push(heap, c);
    PushContents(heap, c);
    LeqIsTotal();
    if |h| > k {
      WorstIsGreatest(h);
      PrefixIsSmallest(h, k);
      assert h[..k] == PopWorst(h);
      assert multiset(h) == multiset(heap) + multiset{c};
      SmallestOfParts(Leq, multiset(seen), multiset(heap), multiset{c}, multiset(PopWorst(h)), k);
    } else {
      ContainedOfEqualSize(multiset(heap), multiset(seen));
    }
  }

  function EmptyHeap(k: nat): (h: seq<Cand>)
    ensures Sorted(h) && KSmallest(h, [], k)
  {
    []
  }

  method TopKHeap(candidates: seq<Cand>, k: nat) returns (r: seq<int>)
    ensures multiset(r) == TopIds(candidates, k)
  {
    hide Smallest, Sorted, Push;
    var heap: seq<Cand> := EmptyHeap(k);
    for i := 0 to |candidates|
      invariant Sorted(heap) && KSmallest(heap, candidates[..i], k)
    {
      HeapStep(heap, candidates[..i], candidates[i], k);
      assert candidates[..i + 1] == candidates[..i] + [candidates[i]];
      heap := Push(heap, candidates[i]);
      if |heap| > k {
        heap := PopWorst(heap);
      }
    }
    assert candidates[..|candidates|] == candidates;
    TopIdsOf(heap, candidates, k);
    r := Ids(heap);
  }

  // ── By quickselect ──

  // `v` rearranges the elements of `w` at positions lo to hi.
  ghost predicate Rearranged(v: seq<Cand>, w: seq<Cand>, lo: nat, hi: nat) {
    && |v| == |w| && lo <= hi < |v|
    && multiset(v) == multiset(w)
    && v[..lo] == w[..lo] && v[hi + 1..] == w[hi + 1..]
  }

  lemma StartPartition(v: seq<Cand>, lo: nat, hi: nat)
    requires lo <= hi < |v|
    ensures Rearranged(v, v, lo, hi) && Splitting(v, lo, lo, lo, hi, v[hi])
  {
  }

  lemma SwapRearranged(v: seq<Cand>, w: seq<Cand>, lo: nat, hi: nat, i: nat, j: nat)
    requires Rearranged(v, w, lo, hi) && lo <= i <= hi && lo <= j <= hi
    ensures Rearranged(v[i := v[j]][j := v[i]], w, lo, hi)
  {
  }

  lemma PartContents(v: seq<Cand>, w: seq<Cand>, lo: nat, hi: nat)
    requires Rearranged(v, w, lo, hi)
    ensures multiset(v[lo..hi + 1]) == multiset(w[lo..hi + 1])
  {
    SplitContents(v, lo, hi + 1);
    SplitContents(w, lo, hi + 1);
    Cancel(multiset(v[..lo] + v[hi + 1..]), multiset(v[lo..hi + 1]), multiset(w[lo..hi + 1]));
  }

  lemma RearrangedPart(v: seq<Cand>, w: seq<Cand>, lo: nat, hi: nat, j: nat) returns (j': nat)
    requires Rearranged(v, w, lo, hi) && lo <= j <= hi
    ensures lo <= j' <= hi && v[j] == w[j']
  {
    PartContents(v, w, lo, hi);
    var a, b := v[lo..hi + 1], w[lo..hi + 1];
    assert a[j - lo] in multiset(b);
    var i :| 0 <= i < |b| && b[i] == v[j];
    j' := lo + i;
  }

  lemma RearrangedBelow(v: seq<Cand>, w: seq<Cand>, lo: nat, hi: nat, cut: nat)
    requires Rearranged(v, w, lo, hi) && Below(w, cut) && (cut <= lo || hi < cut <= |w|)
    ensures Below(v, cut)
  {
    forall i, j | 0 <= i < cut <= j < |v|
      ensures Leq(v[i], v[j])
    {
      if lo <= i <= hi {
        var i' := RearrangedPart(v, w, lo, hi, i);
        assert v[j] == v[hi + 1..][j - hi - 1] == w[j];
      } else if lo <= j <= hi {
        var j' := RearrangedPart(v, w, lo, hi, j);
        assert v[i] == v[..lo][i] == w[i];
      } else {
        assert i < lo ==> v[i] == v[..lo][i] == w[i];
        assert j < lo ==> v[j] == v[..lo][j] == w[j];
        assert i > hi ==> v[i] == v[hi + 1..][i - hi - 1] == w[i];
        assert j > hi ==> v[j] == v[hi + 1..][j - hi - 1] == w[j];
      }
    }
  }

  method Swap(v: array<Cand>, i: nat, j: nat)
    requires i < v.Length && j < v.Length
    modifies v
    ensures v[..] == old(v[..])[i := old(v[j])][j := old(v[i])]
    ensures multiset(v[..]) == old(multiset(v[..]))
  {
    v[i], v[j] := v[j], v[i];
  }

  // The segment up to `j` is split at `p` around the pivot, which waits at `hi`.
  ghost predicate Splitting(v: seq<Cand>, lo: nat, p: nat, j: nat, hi: nat, pivot: Cand) {
    && lo <= p <= j <= hi < |v| && v[hi] == pivot
    && (forall i :: lo <= i < p ==> Leq(v[i], pivot))
    && (forall i :: p <= i < j ==> !Leq(v[i], pivot))
  }

  // The whole segment is split at `p`, where the pivot is.
  ghost predicate SplitAt(v: seq<Cand>, lo: nat, p: nat, hi: nat) {
    && lo <= p <= hi < |v|
    && (forall i :: lo <= i < p ==> Leq(v[i], v[p]))
    && (forall i :: p < i <= hi ==> !Leq(v[i], v[p]))
  }

  lemma SplitStep(v: seq<Cand>, lo: nat, p: nat, j: nat, hi: nat, pivot: Cand)
    requires Splitting(v, lo, p, j, hi, pivot) && j < hi
    ensures Leq(v[j], pivot) ==> Splitting(v[p := v[j]][j := v[p]], lo, p + 1, j + 1, hi, pivot)
    ensures !Leq(v[j], pivot) ==> Splitting(v, lo, p, j + 1, hi, pivot)
  {
  }

  lemma SplitEnd(v: seq<Cand>, lo: nat, p: nat, hi: nat, pivot: Cand)
    requires Splitting(v, lo, p, hi, hi, pivot)
    ensures SplitAt(v[p := v[hi]][hi := v[p]], lo, p, hi)
  {
  }

  // Move what is at most the pivot v[hi] to the left of the returned position.
  method Partition(v: array<Cand>, lo: nat, hi: nat) returns (p: nat)
    requires lo <= hi < v.Length
    modifies v
    ensures lo <= p <= hi && v[p] == old(v[hi])
    ensures SplitAt(v[..], lo, p, hi)
    ensures Rearranged(v[..], old(v[..]), lo, hi)
  {
    hide Leq, Rearranged, Splitting, SplitAt;
    ghost var was := v[..];
    StartPartition(was, lo, hi);
    var pivot := v[hi];
    p := lo;
    for j := lo to hi
      invariant lo <= p <= j && v[hi] == pivot
      invariant Splitting(v[..], lo, p, j, hi, pivot)
      invariant Rearranged(v[..], was, lo, hi)
    {
      SplitStep(v[..], lo, p, j, hi, pivot);
      SwapRearranged(v[..], was, lo, hi, p, j);
      if Leq(v[j], pivot) {
        Swap(v, p, j);
        p := p + 1;
      }
    }
    SplitEnd(v[..], lo, p, hi, pivot);
    SwapRearranged(v[..], was, lo, hi, p, hi);
    Swap(v, p, hi);
  }

  lemma PartitionedBelow(v: seq<Cand>, lo: nat, hi: nat, p: nat)
    requires lo <= p <= hi < |v| && Below(v, lo) && Below(v, hi + 1)
    requires SplitAt(v, lo, p, hi)
    ensures Below(v, p) && Below(v, p + 1)
  {
  }

  // Put the k smallest first.
  method QuickselectSmallestK(v: array<Cand>, k: nat)
    modifies v
    ensures multiset(v[..]) == old(multiset(v[..]))
    ensures k <= v.Length ==> Below(v[..], k)
    ensures k == 0 || k >= v.Length ==> v[..] == old(v[..])
  {
    var n := v.Length;
    if k == 0 || k >= n {
      return;
    }
    var target := k - 1;
    var lo, hi := 0, n - 1;
    while lo < hi
      invariant lo <= target <= hi < n
      invariant multiset(v[..]) == old(multiset(v[..]))
      invariant Below(v[..], lo) && Below(v[..], hi + 1)
      decreases hi - lo
    {
      ghost var w := v[..];
      var p := Partition(v, lo, hi);
      RearrangedBelow(v[..], w, lo, hi, lo);
      RearrangedBelow(v[..], w, lo, hi, hi + 1);
      PartitionedBelow(v[..], lo, hi, p);
      if p == target {
        return;
      } else if p > target {
        hi := p - 1;
      } else {
        lo := p + 1;
      }
    }
  }

  lemma TopIdsOfPrefix(v: seq<Cand>, s: seq<Cand>, k: nat)
    requires multiset(v) == multiset(s) && |v| == |s|
    requires k <= |v| ==> Below(v, k)
    ensures multiset(Ids(Taken(v, k))) == TopIds(s, k)
  {
    hide Below, Leq, Sort, Ids, TopIds;
    if k <= |v| {
      PrefixIsSmallest(v, k);
    }
    TopIdsOf(Taken(v, k), s, k);
  }

  method TopKQuickselect(candidates: seq<Cand>, k: nat) returns (r: seq<int>)
    ensures multiset(r) == TopIds(candidates, k)
  {
    hide Smallest, Below, Leq, Sorted, Sort, Rearranged;
    var n := |candidates|;
    SortedPrefix(candidates, k);
    if k == 0 || n == 0 {
      assert Ids(Taken(Sort(candidates), k)) == [];
      return [];
    }
    var take := if k <= n then k else n;
    var v := new Cand[n](i requires 0 <= i < n => candidates[i]);
    assert v[..] == candidates;
    QuickselectSmallestK(v, take);
    TopIdsOfPrefix(v[..], candidates, k);
    assert v[..take] == Taken(v[..], k);
    r := Ids(v[..take]);
  }

  // ── Merging per-bucket answers ──

  predicate IntLeq(a: int, b: int) {
    a <= b
  }

  lemma IntLeqIsTotal()
    ensures TotalOrder(IntLeq)
  {
  }

  function Distances(s: seq<Cand>): (r: seq<int>) {
    Map(DistanceOf, s)
  }

  // `found` holds the k nearest of `all`, in any order and with any choice among equal distances.
  ghost predicate Nearest(found: seq<Cand>, all: seq<Cand>, k: nat) {
    Smallest(IntLeq, multiset(Distances(found)), multiset(Distances(all)), k)
  }

  function Concat(s: seq<seq<Cand>>): seq<Cand> {
    if s == [] then [] else s[0] + Concat(s[1..])
  }

  lemma {:induction false} ConcatSnoc(s: seq<seq<Cand>>, x: seq<Cand>)
    ensures Concat(s + [x]) == Concat(s) + x
  {
    if s == [] {
      assert s + [x] == [x];
      assert Concat([x]) == x + Concat([]);
    } else {
      assert (s + [x])[1..] == s[1..] + [x];
      ConcatSnoc(s[1..], x);
    }
  }

  lemma ConcatDistances(s: seq<seq<Cand>>)
    requires s != []
    ensures multiset(Distances(Concat(s))) == multiset(Distances(s[0])) + multiset(Distances(Concat(s[1..])))
  {
    assert Distances(Concat(s)) == Distances(s[0]) + Distances(Concat(s[1..]));
  }

  // The k smallest candidates have the k smallest distances.
  lemma SmallestAreNearest(m: seq<Cand>, all: seq<Cand>, k: nat)
    requires KSmallest(m, all, k)
    ensures Nearest(m, all, k)
  {
    var rest := Remainder(m, all);
    SameMapped(DistanceOf, all, m + rest);
    assert Distances(m + rest) == Distances(m) + Distances(rest);
    forall x, y | x in multiset(Distances(m)) && multiset(Distances(all))[y] > multiset(Distances(m))[y]
      ensures IntLeq(x, y)
    {
      assert y in multiset(Distances(rest));
      var i :| 0 <= i < |m| && Distances(m)[i] == x;
      var j :| 0 <= j < |rest| && Distances(rest)[j] == y;
      assert rest[j] in multiset(rest) && m[i] in multiset(m);
      assert multiset(all)[rest[j]] > multiset(m)[rest[j]];
      assert Leq(m[i], rest[j]);
      assert x == DistanceOf(m[i]) && y == DistanceOf(rest[j]);
    }
  }

  // What a list holds beside a sublist.
  lemma {:induction false} Remainder<T>(x: seq<T>, y: seq<T>) returns (rest: seq<T>)
    requires multiset(x) <= multiset(y)
    ensures multiset(y) == multiset(x + rest) && multiset(y) == multiset(x) + multiset(rest)
  {
    if x == [] {
      rest := y;
      assert x + rest == y;
    } else {
      assert x[0] in multiset(y);
      var j :| 0 <= j < |y| && y[j] == x[0];
      Removed(x, 0);
      Removed(y, j);
      assert x[..0] + x[1..] == x[1..];
      var y' := y[..j] + y[j + 1..];
      CancelWithin(multiset{x[0]}, multiset(x[1..]), multiset(y'));
      rest := Remainder(x[1..], y');
      assert multiset(y) == multiset(x) + multiset(rest);
    }
  }

  // Distances may be adjusted per bucket: a monotone adjustment keeps the nearest the nearest.
  lemma MonotoneKeepsSmallest(f: int -> int, x: seq<int>, y: seq<int>, k: nat)
    requires forall a, b :: a <= b ==> f(a) <= f(b)
    requires Smallest(IntLeq, multiset(x), multiset(y), k)
    ensures Smallest(IntLeq, multiset(Map(f, x)), multiset(Map(f, y)), k)
  {
    var rest := Remainder(x, y);
    SameMapped(f, y, x + rest);
    var fx, fr := Map(f, x), Map(f, rest);
    assert Map(f, x + rest) == fx + fr;
    forall a, b | a in multiset(fx) && multiset(Map(f, y))[b] > multiset(fx)[b]
      ensures IntLeq(a, b)
    {
      assert b in multiset(fr);
      var i :| 0 <= i < |x| && fx[i] == a;
      var j :| 0 <= j < |rest| && fr[j] == b;
      assert rest[j] in multiset(rest);
      assert IntLeq(x[i], rest[j]);
    }
  }

  // Keeping only the k nearest of every bucket before merging loses nothing.
  lemma MergeLosesNothing(found: seq<seq<Cand>>, all: seq<seq<Cand>>, merged: seq<Cand>, k: nat)
    requires |found| == |all| && forall i :: 0 <= i < |all| ==> Nearest(found[i], all[i], k)
    requires KSmallest(merged, Concat(found), k)
    ensures Nearest(merged, Concat(all), k)
  {
    SmallestAreNearest(merged, Concat(found), k);
    var none: multiset<int> := multiset{};
    assert none + multiset(Distances(Concat(found))) == multiset(Distances(Concat(found)));
    MergeRest(found, all, none, multiset(Distances(merged)), k);
    assert none + multiset(Distances(Concat(all))) == multiset(Distances(Concat(all)));
  }

  lemma {:induction false} MergeRest(found: seq<seq<Cand>>, all: seq<seq<Cand>>, done: multiset<int>,
      m: multiset<int>, k: nat)
    requires |found| == |all| && forall i :: 0 <= i < |all| ==> Nearest(found[i], all[i], k)
    requires Smallest(IntLeq, m, done + multiset(Distances(Concat(found))), k)
    ensures Smallest(IntLeq, m, done + multiset(Distances(Concat(all))), k)
  {
    hide Smallest, Distances;
    if found != [] {
      ConcatDistances(found);
      ConcatDistances(all);
      IntLeqIsTotal();
      var f0, a0 := multiset(Distances(found[0])), multiset(Distances(all[0]));
      var fs, rs := multiset(Distances(Concat(found[1..]))), multiset(Distances(Concat(all[1..])));
      assert done + (f0 + fs) == f0 + (done + fs);
      SmallestOfParts(IntLeq, a0, f0, done + fs, m, k);
      assert a0 + (done + fs) == (done + a0) + fs;
      MergeRest(found[1..], all[1..], done + a0, m, k);
      assert (done + a0) + rs == done + (a0 + rs);
    }
  }
}
