// How the buckets of an index change between two moments: inserts only extend them and add
// dirty ones, eviction only removes them, a version mark touches one clean counter.
module BucketChanges {
  import opened Options
  import opened Grid
  import opened TimeBucket

  function At(s: State, b: nat): Option<Bucket> {
    var i := Find(s.buckets, b);
    if i < |s.buckets| then Some(s.buckets[i]) else None
  }

  lemma AtPosition(s: State, i: nat)
    requires WellKept(s) && i < |s.buckets|
    ensures At(s, s.buckets[i].seqNo) == Some(s.buckets[i])
  {
    var j := Find(s.buckets, s.buckets[i].seqNo);
    assert j < i ==> Apart(s.buckets[j], s.buckets[i]);
  }

  lemma AtKept(s: State, b: nat)
    requires WellKept(s) && At(s, b).Some?
    ensures Kept(s, At(s, b).value) && At(s, b).value.seqNo == b
  {
  }

  // Stored ids are the ids of the buckets found by their number, each in one bucket only.
  lemma StoredAt(s: State, x: nat)
    requires WellKept(s)
    ensures Stored(s, x) <==> exists b: nat :: At(s, b).Some? && x in At(s, b).value.ids
    ensures forall b: nat, c: nat ::
      At(s, b).Some? && At(s, c).Some? && x in At(s, b).value.ids && x in At(s, c).value.ids ==> b == c
    ensures Stored(s, x) ==> x in s.known
  {
    if Stored(s, x) {
      var i :| 0 <= i < |s.buckets| && x in s.buckets[i].ids;
      AtPosition(s, i);
      assert Kept(s, s.buckets[i]);
      assert At(s, s.buckets[i].seqNo).Some?;
    }
    forall b: nat, c: nat | At(s, b).Some? && At(s, c).Some? && x in At(s, b).value.ids && x in At(s, c).value.ids
      ensures b == c
    {
      var i, j := Find(s.buckets, b), Find(s.buckets, c);
      assert Apart(s.buckets[i], s.buckets[j]) || Apart(s.buckets[j], s.buckets[i]) || i == j;
    }
  }

  // `b` is `a` with more vectors; the write counter counted them.
  ghost predicate Extends(a: Bucket, b: Bucket) {
    && a.seqNo == b.seqNo && a.created == b.created && a.clean == b.clean
    && a.ids <= b.ids && b.writes == a.writes + |b.ids| - |a.ids|
  }

  ghost predicate DirtyBucket(b: Bucket) {
    b.clean == 0 && b.writes >= 1
  }

  ghost predicate Grows(s: State, t: State) {
    && s.known <= t.known && s.next <= t.next
    && (forall b: nat :: At(s, b).Some? ==> At(t, b).Some? && Extends(At(s, b).value, At(t, b).value))
    && (forall b: nat :: At(t, b).Some? && At(s, b).None? ==> b >= s.next && DirtyBucket(At(t, b).value))
    && (forall x :: Stored(s, x) ==> Stored(t, x))
    && (forall x :: Stored(t, x) && !Stored(s, x) ==> x !in s.known)
  }

  lemma GrowsNot(s: State)
    ensures Grows(s, s)
  {
  }

  lemma GrowsTwice(s: State, t: State, u: State)
    requires Grows(s, t) && Grows(t, u)
    ensures Grows(s, u)
  {
    hide At, Stored, DirtyBucket;
    forall b: nat | At(s, b).Some?
      ensures At(u, b).Some? && Extends(At(s, b).value, At(u, b).value)
    {
      ExtendsTwice(At(s, b).value, At(t, b).value, At(u, b).value);
    }
    forall b: nat | At(u, b).Some? && At(s, b).None?
      ensures b >= s.next && DirtyBucket(At(u, b).value)
    {
      if At(t, b).Some? {
        DirtyStays(At(t, b).value, At(u, b).value);
      }
    }
  }

  lemma ExtendsTwice(a: Bucket, b: Bucket, c: Bucket)
    requires Extends(a, b) && Extends(b, c)
    ensures Extends(a, c)
  {
  }

  lemma DirtyStays(a: Bucket, b: Bucket)
    requires Extends(a, b) && DirtyBucket(a)
    ensures DirtyBucket(b)
  {
  }

  lemma GrowsByAlloc(s: State, start: nat)
    requires WellKept(s)
    ensures Grows(s, Alloc(s, start))
  {
    var t := Alloc(s, start);
    AllocKeeps(s, start);
    assert t.buckets[1..] == s.buckets;
    forall b: nat
      ensures At(t, b) == if b == s.next then Some(Bucket(s.next, start, [], 1, 0)) else At(s, b)
    {
      assert Find(t.buckets, b) == if b == s.next then 0 else 1 + Find(s.buckets, b);
    }
    assert At(s, s.next).None?;
  }

  lemma GrowsByAccept(s: State, id: nat)
    requires WellKept(s) && s.buckets != [] && id !in s.known
    ensures Grows(s, Accept(s, id))
  {
    var t := Accept(s, id);
    AcceptKeeps(s, id);
    assert t.buckets[1..] == s.buckets[1..];
    forall b: nat
      ensures Find(t.buckets, b) == Find(s.buckets, b)
    {
      assert t.buckets[0].seqNo == s.buckets[0].seqNo;
    }
  }

  // Inserting a batch only extends buckets and adds new, dirty ones.
  lemma {:induction false} InsertAllGrows(d: nat, s: State, batch: seq<Entry>)
    requires 0 < d && WellKept(s)
    ensures Grows(s, InsertAll(d, s, batch).0)
    decreases |batch|
  {
    hide Grows, WellKept, BucketStart;
    if batch == [] {
      GrowsNot(s);
    } else {
      var e := batch[0];
      var t := InsertOne(d, s, e).0;
      InsertOneKeeps(d, s, e);
      if e.id in s.known {
        GrowsNot(s);
      } else {
        var o := Opened(s, BucketStart(d, e.time));
        OpenedKeeps(s, BucketStart(d, e.time));
        GrowsByAccept(o, e.id);
        if o == s {
          GrowsNot(s);
        } else {
          GrowsByAlloc(s, BucketStart(d, e.time));
        }
        GrowsTwice(s, o, t);
      }
      InsertAllGrows(d, t, batch[1..]);
      GrowsTwice(s, t, InsertAll(d, t, batch[1..]).0);
    }
  }

  // Buckets only disappear, and what they held is stored nowhere else.
  ghost predicate Shrinks(s: State, t: State) {
    && t.known == s.known && t.next == s.next
    && (forall b: nat :: At(t, b).Some? ==> At(t, b) == At(s, b))
    && (forall x :: Stored(t, x) ==> Stored(s, x))
    && (forall b: nat, x: nat :: At(s, b).Some? && At(t, b).None? && x in At(s, b).value.ids ==> !Stored(t, x))
  }

  lemma {:induction false} FindInPrefix(bs: seq<Bucket>, n: nat, b: nat)
    requires n <= |bs|
    ensures Find(bs[..n], b) == if Find(bs, b) < n then Find(bs, b) else n
  {
    if n > 0 && bs[0].seqNo != b {
      assert bs[..n][1..] == bs[1..][..n - 1];
      FindInPrefix(bs[1..], n - 1, b);
    }
  }

  lemma EvictionShrinks(s: State, k: nat)
    requires WellKept(s) && k <= |s.buckets|
    ensures WellKept(DropOldest(s, k)) && Shrinks(s, DropOldest(s, k))
  {
    var t := DropOldest(s, k);
    EvictionKeeps(s, k);
    forall b: nat
      ensures At(t, b).Some? ==> At(t, b) == At(s, b)
      ensures At(s, b).Some? && At(t, b).None? ==> Find(s.buckets, b) >= |s.buckets| - k
    {
      FindInPrefix(s.buckets, |s.buckets| - k, b);
    }
  }

  // A version mark changes one clean counter, and only if the bucket was not written since.
  lemma MarkAt(s: State, b: nat, version: nat, c: nat)
    requires WellKept(s)
    ensures At(MarkCleanIf(s, b, version), c) ==
      if c == b && At(s, b).Some? && At(s, b).value.writes == version then Some(At(s, b).value.(clean := version))
      else At(s, c)
  {
    var i := Find(s.buckets, b);
    if i < |s.buckets| && s.buckets[i].writes == version {
      SameNumbers(s.buckets, MarkCleanIf(s, b, version).buckets, c);
    }
  }

  lemma {:induction false} SameNumbers(a: seq<Bucket>, b: seq<Bucket>, c: nat)
    requires |a| == |b| && forall i :: 0 <= i < |a| ==> a[i].seqNo == b[i].seqNo
    ensures Find(a, c) == Find(b, c)
  {
    if a != [] && a[0].seqNo != c {
      SameNumbers(a[1..], b[1..], c);
    }
  }
}
