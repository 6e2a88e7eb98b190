// When a batch inserted run by run ends exactly as its entries inserted one by one, in whatever
// order their windows come.
module BatchWindows {
  import opened Options
  import opened Grid
  import opened TimeBucket

  ghost predicate HasNew(s: State, run: seq<Entry>) {
    exists i :: 0 <= i < |run| && run[i].id !in s.known
  }

  // Every window the batch opens is put to use: its first id comes from a run of that window,
  // before another window is opened. `waiting` says that the front window is still to be used.
  ghost predicate WindowsUsed(d: nat, s: State, batch: seq<Entry>, waiting: bool)
    requires 0 < d
    decreases |batch|
  {
    if batch == [] then !waiting
    else
      var n := RunLength(d, batch);
      var start, t := BucketStart(d, batch[0].time), InsertRun(d, s, batch[..n]).0;
      if NeedsNew(s, start) then
        !waiting && WindowsUsed(d, t, batch[n..], !HasNew(s, batch[..n]))
      else if HasNew(s, batch[..n]) then
        (waiting ==> start == s.buckets[0].created) && WindowsUsed(d, t, batch[n..], false)
      else
        WindowsUsed(d, t, batch[n..], waiting)
  }

  // ── What later inserts leave alone ──

  // The bucket at position p, counted from the oldest.
  function FromOldest(s: State, p: nat): Bucket
    requires p < |s.buckets|
  {
    s.buckets[|s.buckets| - 1 - p]
  }

  // Buckets behind the front one stay as they are, and the front one only gains ids.
  ghost predicate Later(s: State, t: State) {
    && |s.buckets| <= |t.buckets|
    && (forall p :: 0 <= p < |s.buckets| ==> Carries(FromOldest(s, p), FromOldest(t, p)))
    && (forall p :: 0 <= p < |s.buckets| - 1 ==> FromOldest(s, p) == FromOldest(t, p))
  }

  ghost predicate Carries(a: Bucket, b: Bucket) {
    a.created == b.created && a.ids <= b.ids
  }

  // And no new bucket is without ids.
  ghost predicate LaterUsed(s: State, t: State) {
    Later(s, t) && forall p :: |s.buckets| <= p < |t.buckets| ==> FromOldest(t, p).ids != []
  }

  lemma LaterTwice(s: State, t: State, u: State)
    requires Later(s, t) && Later(t, u)
    ensures Later(s, u)
  {
    forall p | 0 <= p < |s.buckets|
      ensures Carries(FromOldest(s, p), FromOldest(u, p))
    {
      assert Carries(FromOldest(s, p), FromOldest(t, p)) && Carries(FromOldest(t, p), FromOldest(u, p));
    }
  }

  lemma LaterUsedTwice(s: State, t: State, u: State)
    requires LaterUsed(s, t) && LaterUsed(t, u)
    ensures LaterUsed(s, u)
  {
    LaterTwice(s, t, u);
    forall p | |s.buckets| <= p < |u.buckets|
      ensures FromOldest(u, p).ids != []
    {
      if p < |t.buckets| {
        assert Carries(FromOldest(t, p), FromOldest(u, p));
      }
    }
  }

  lemma OpenedLater(s: State, start: nat)
    ensures Later(s, Opened(s, start))
  {
  }

  lemma AcceptLater(s: State, id: nat)
    requires s.buckets != []
    ensures LaterUsed(s, Accept(s, id)) && Accept(s, id).buckets[0].ids != []
  {
  }

  lemma InsertOneLater(d: nat, s: State, e: Entry)
    requires 0 < d
    ensures LaterUsed(s, InsertOne(d, s, e).0)
  {
    if e.id !in s.known {
      var o := Opened(s, BucketStart(d, e.time));
      OpenedLater(s, BucketStart(d, e.time));
      AcceptLater(o, e.id);
      LaterTwice(s, o, Accept(o, e.id));
    }
  }

  lemma {:induction false} InsertAllLater(d: nat, s: State, batch: seq<Entry>)
    requires 0 < d
    ensures LaterUsed(s, InsertAll(d, s, batch).0)
    decreases |batch|
  {
    hide LaterUsed, InsertOne;
    if batch == [] {
      NothingLater(s);
    } else {
      var t := InsertOne(d, s, batch[0]).0;
      InsertOneLater(d, s, batch[0]);
      InsertAllLater(d, t, batch[1..]);
      LaterUsedTwice(s, t, InsertAll(d, t, batch[1..]).0);
    }
  }

  lemma NothingLater(s: State)
    ensures LaterUsed(s, s)
  {
  }

  lemma {:induction false} AcceptNewLater(s: State, run: seq<Entry>)
    requires s.buckets != []
    ensures Later(s, AcceptNew(s, run).0) && AcceptNew(s, run).0.buckets != []
    decreases |run|
  {
    hide Later, Accept;
    if run == [] {
      SameLater(s);
    } else {
      var t := if run[0].id in s.known then s else Accept(s, run[0].id);
      StepLater(s, run[0].id);
      AcceptNewLater(t, run[1..]);
      LaterTwice(s, t, AcceptNew(t, run[1..]).0);
    }
  }

  lemma SameLater(s: State)
    ensures Later(s, s)
  {
  }

  lemma StepLater(s: State, id: nat)
    requires s.buckets != []
    ensures Later(s, s) && Later(s, Accept(s, id)) && Accept(s, id).buckets != []
  {
  }

  lemma {:induction false} InsertBatchLater(d: nat, s: State, batch: seq<Entry>)
    requires 0 < d
    ensures Later(s, InsertBatch(d, s, batch).0)
    decreases |batch|
  {
    hide Later, AcceptNew, Opened, BucketStart;
    if batch == [] {
      SameLater(s);
    } else {
      var n := RunLength(d, batch);
      var o, t := Opened(s, BucketStart(d, batch[0].time)), InsertRun(d, s, batch[..n]).0;
      OpenedLater(s, BucketStart(d, batch[0].time));
      AcceptNewLater(o, batch[..n]);
      LaterTwice(s, o, t);
      InsertBatchLater(d, t, batch[n..]);
      LaterTwice(s, t, InsertBatch(d, t, batch[n..]).0);
    }
  }

  // ── The equivalence ──

  // How far apart the two ways can be without having diverged for good: not at all, or the
  // batch has opened one more window and not used it yet.
  ghost predicate Within(a: State, b: State, waiting: bool) {
    if waiting then a.buckets != [] && NeedsNew(b, a.buckets[0].created) && a == Alloc(b, a.buckets[0].created)
      else a == b
  }

  // Inserted run by run a batch ends as inserted one by one, if and only if it uses its windows.
  lemma BatchEqualsSequentialIff(d: nat, s: State, batch: seq<Entry>)
    requires 0 < d
    ensures InsertBatch(d, s, batch) == InsertAll(d, s, batch) <==> WindowsUsed(d, s, batch, false)
    ensures InsertBatch(d, s, batch).0 == InsertAll(d, s, batch).0 <==> WindowsUsed(d, s, batch, false)
  {
    EqualIff(d, s, s, batch, false);
  }

  lemma {:induction false} EqualIff(d: nat, a: State, b: State, batch: seq<Entry>, waiting: bool)
    requires 0 < d && Within(a, b, waiting)
    ensures InsertBatch(d, a, batch).0 == InsertAll(d, b, batch).0 <==> WindowsUsed(d, a, batch, waiting)
    ensures WindowsUsed(d, a, batch, waiting) ==> InsertBatch(d, a, batch).1 == InsertAll(d, b, batch).1
    decreases |batch|
  {
    hide InsertRun, BucketStart;
    if batch != [] {
      var n := RunLength(d, batch);
      var run, rest, start := batch[..n], batch[n..], BucketStart(d, batch[0].time);
      var a', b' := InsertRun(d, a, run).0, InsertAll(d, b, run).0;
      assert batch == run + rest;
      InsertAllConcat(d, b, run, rest);
      if NeedsNew(a, start) && waiting {
        EmptyBehind(d, a, b, batch);
      } else if !NeedsNew(a, start) && waiting && HasNew(a, run) && start != a.buckets[0].created {
        WrongWindow(d, a, b, batch);
      } else {
        var more := if NeedsNew(a, start) then !HasNew(a, run) else waiting && !HasNew(a, run);
        RunWithin(d, a, b, run, waiting);
        EqualIff(d, a', b', rest, more);
      }
    } else {
      assert waiting ==> a.next == b.next + 1;
    }
  }

  // One run that does not make the two ways diverge.
  lemma RunWithin(d: nat, a: State, b: State, run: seq<Entry>, waiting: bool)
    requires 0 < d && run != [] && Within(a, b, waiting)
    requires forall i :: 0 <= i < |run| ==> BucketStart(d, run[i].time) == BucketStart(d, run[0].time)
    requires var start := BucketStart(d, run[0].time);
      if NeedsNew(a, start) then !waiting else waiting && HasNew(a, run) ==> start == a.buckets[0].created
    ensures var more := if NeedsNew(a, BucketStart(d, run[0].time)) then !HasNew(a, run)
      else waiting && !HasNew(a, run);
      Within(InsertRun(d, a, run).0, InsertAll(d, b, run).0, more)
    ensures InsertRun(d, a, run).1 == InsertAll(d, b, run).1
  {
    hide AcceptNew, InsertAll, BucketStart;
    var start := BucketStart(d, run[0].time);
    var o := Opened(a, start);
    if HasNew(a, run) {
      assert !OpensForNothing(d, b, run);
      RunIsSequential(d, b, run);
      assert Opened(a, start) == Opened(b, start);
    } else {
      RunOfDuplicates(d, b, o, run);
    }
  }

  // A second window opened while the first is unused leaves an empty bucket behind the front.
  lemma EmptyBehind(d: nat, a: State, b: State, batch: seq<Entry>)
    requires 0 < d && batch != [] && Within(a, b, true) && NeedsNew(a, BucketStart(d, batch[0].time))
    ensures InsertBatch(d, a, batch).0 != InsertAll(d, b, batch).0
  {
    hide InsertAll, BucketStart, AcceptNew, Later;
    var n, p := RunLength(d, batch), |b.buckets|;
    var o, t := Opened(a, BucketStart(d, batch[0].time)), InsertBatch(d, a, batch).0;
    assert FromOldest(o, p) == a.buckets[0] && |o.buckets| == p + 2;
    AcceptNewLater(o, batch[..n]);
    var a' := InsertRun(d, a, batch[..n]).0;
    InsertBatchLater(d, a', batch[n..]);
    LaterTwice(o, a', t);
    InsertAllLater(d, b, batch);
    BehindStays(o, t, p);
    NewAreUsed(b, InsertAll(d, b, batch).0, p);
  }

  lemma BehindStays(s: State, t: State, p: nat)
    requires Later(s, t) && p < |s.buckets| - 1
    ensures p < |t.buckets| && FromOldest(t, p) == FromOldest(s, p)
  {
  }

  lemma FrontStays(s: State, t: State, p: nat)
    requires Later(s, t) && p < |s.buckets|
    ensures p < |t.buckets| && Carries(FromOldest(s, p), FromOldest(t, p))
  {
  }

  lemma NewAreUsed(s: State, t: State, p: nat)
    requires LaterUsed(s, t) && |s.buckets| <= p
    ensures p < |t.buckets| ==> FromOldest(t, p).ids != []
  {
  }

  // New ids of an older window go into the unused one: one by one they go into another bucket.
  lemma WrongWindow(d: nat, a: State, b: State, batch: seq<Entry>)
    requires 0 < d && batch != [] && Within(a, b, true)
    requires var start := BucketStart(d, batch[0].time);
      !NeedsNew(a, start) && start != a.buckets[0].created && HasNew(a, batch[..RunLength(d, batch)])
    ensures InsertBatch(d, a, batch).0 != InsertAll(d, b, batch).0
  {
    hide InsertAll, BucketStart, AcceptNew, Later, LaterUsed;
    var n := RunLength(d, batch);
    var run, rest, start := batch[..n], batch[n..], BucketStart(d, batch[0].time);
    var a', b' := InsertRun(d, a, run).0, InsertAll(d, b, run).0;
    var t, u := InsertBatch(d, a, batch).0, InsertAll(d, b, batch).0;
    assert batch == run + rest;
    InsertAllConcat(d, b, run, rest);
    AcceptNewLater(a, run);
    InsertBatchLater(d, a', rest);
    LaterTwice(a, a', t);
    InsertAllLater(d, b', rest);
    UsedIsLater(b', u);
    assert !OpensForNothing(d, b, run);
    RunIsSequential(d, b, run);
    if NeedsNew(b, start) {
      OtherWindow(a, b, start, run, t, u);
    } else {
      OlderBucket(a, b, run, t, u);
    }
  }

  // One by one the next bucket starts at `start`.
  lemma OtherWindow(a: State, b: State, start: nat, run: seq<Entry>, t: State, u: State)
    requires Within(a, b, true) && start != a.buckets[0].created
    requires Later(a, t) && Later(AcceptNew(Alloc(b, start), run).0, u)
    ensures t != u
  {
    hide AcceptNew, Later, FromOldest;
    var p, c := |b.buckets|, Alloc(b, start);
    AcceptNewLater(c, run);
    FrontStays(c, AcceptNew(c, run).0, p);
    FrontStays(AcceptNew(c, run).0, u, p);
    FrontStays(a, t, p);
    assert FromOldest(c, p) == c.buckets[0] && FromOldest(a, p) == a.buckets[0] by {
      FrontIsNewest(c);
      FrontIsNewest(a);
    }
  }

  lemma FrontIsNewest(s: State)
    requires s.buckets != []
    ensures FromOldest(s, |s.buckets| - 1) == s.buckets[0]
  {
  }

  // One by one the bucket before gains ids; in the batch it stays as it is.
  lemma OlderBucket(a: State, b: State, run: seq<Entry>, t: State, u: State)
    requires Within(a, b, true) && b.buckets != [] && HasNew(b, run)
    requires Later(a, t) && Later(AcceptNew(b, run).0, u)
    ensures t != u
  {
    hide AcceptNew, Later;
    var p := |b.buckets| - 1;
    AcceptNewGains(b, run);
    FrontStays(AcceptNew(b, run).0, u, p);
    BehindStays(a, t, p);
    assert FromOldest(a, p) == b.buckets[0];
  }

  lemma UsedIsLater(s: State, t: State)
    requires LaterUsed(s, t)
    ensures Later(s, t)
  {
  }

  lemma {:induction false} AcceptNewGains(s: State, run: seq<Entry>)
    requires s.buckets != [] && HasNew(s, run)
    ensures var t := AcceptNew(s, run).0; |t.buckets| == |s.buckets| && |t.buckets[0].ids| > |s.buckets[0].ids|
    decreases |run|
  {
    var e := run[0];
    var t := if e.id in s.known then s else Accept(s, e.id);
    AcceptNewKeepsFront(t, run[1..]);
    if e.id in s.known {
      var i :| 0 <= i < |run| && run[i].id !in s.known;
      assert run[1..][i - 1] == run[i];
      AcceptNewGains(s, run[1..]);
    }
  }

  lemma {:induction false} AcceptNewKeepsFront(s: State, run: seq<Entry>)
    requires s.buckets != []
    ensures var t := AcceptNew(s, run).0; |t.buckets| == |s.buckets| && |t.buckets[0].ids| >= |s.buckets[0].ids|
    decreases |run|
  {
    if run != [] {
      AcceptNewKeepsFront(if run[0].id in s.known then s else Accept(s, run[0].id), run[1..]);
    }
  }
}
