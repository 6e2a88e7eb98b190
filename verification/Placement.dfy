// Where inserted vectors end up: the reference an insert answers with names the bucket that holds
// the vector, and that bucket's window is the latest one asked for so far.
module Placement {
  import opened Grid
  import opened TimeBucket
  import opened BucketChanges

  // The vector is in the bucket its reference names, whose window starts at `start`.
  ghost predicate LandedIn(t: State, ref: NodeRef, id: nat, start: nat) {
    && ref.vectorId == id && At(t, ref.bucketSeq).Some?
    && id in At(t, ref.bucketSeq).value.ids && At(t, ref.bucketSeq).value.created == start
  }

  // The id of entry `i` is neither known before nor that of an earlier entry.
  ghost predicate IsNew(s: State, batch: seq<Entry>, i: nat)
    requires i < |batch|
  {
    batch[i].id !in s.known && forall j :: 0 <= j < i ==> batch[j].id != batch[i].id
  }

  // `start` is the latest of the front window at first and the windows of the new entries up to `i`.
  ghost predicate LatestWindow(d: nat, s: State, batch: seq<Entry>, i: nat, start: nat)
    requires 0 < d && i < |batch|
  {
    && (s.buckets != [] ==> start >= s.buckets[0].created)
    && (forall j :: 0 <= j <= i && IsNew(s, batch, j) ==> start >= BucketStart(d, batch[j].time))
    && ((s.buckets != [] && start == s.buckets[0].created)
      || exists j :: 0 <= j <= i && IsNew(s, batch, j) && start == BucketStart(d, batch[j].time))
  }

  lemma StaysLanded(t: State, u: State, ref: NodeRef, id: nat, start: nat)
    requires LandedIn(t, ref, id, start) && Grows(t, u)
    ensures LandedIn(u, ref, id, start)
  {
    hide At, Stored, DirtyBucket;
  }

  lemma OneLands(d: nat, s: State, e: Entry)
    requires 0 < d && WellKept(s) && e.id !in s.known
    ensures var (t, x) := InsertOne(d, s, e);
      && WellKept(t) && t.known == s.known + {e.id} && t.buckets != []
      && var start := t.buckets[0].created;
        && x.Some? && LandedIn(t, x.value, e.id, start)
        && start == if s.buckets != [] && s.buckets[0].created >= BucketStart(d, e.time) then s.buckets[0].created
          else BucketStart(d, e.time)
  {
    hide WellKept, Stored, BucketStart;
    InsertOneKeeps(d, s, e);
    AtPosition(InsertOne(d, s, e).0, 0);
  }

  // An insert is refused exactly if its id is known or came earlier in the batch. Otherwise it
  // answers with where the vector is, also after the rest of the batch.
  lemma {:induction false} InsertLands(d: nat, s: State, batch: seq<Entry>, i: nat) returns (start: nat)
    requires 0 < d && WellKept(s) && i < |batch|
    ensures var (t, xs) := InsertAll(d, s, batch);
      && (xs[i].Some? <==> IsNew(s, batch, i))
      && (xs[i].Some? ==> LandedIn(t, xs[i].value, batch[i].id, start) && LatestWindow(d, s, batch, i, start))
    decreases |batch|
  {
    hide WellKept, Grows, LandedIn, LatestWindow, BucketStart, InsertOne;
    var e, rest := batch[0], batch[1..];
    var (s1, x) := InsertOne(d, s, e);
    InsertOneKeeps(d, s, e);
    InsertAllGrows(d, s1, rest);
    if i == 0 {
      start := 0;
      if x.Some? {
        OneLands(d, s, e);
        start := s1.buckets[0].created;
        StaysLanded(s1, InsertAll(d, s1, rest).0, x.value, e.id, start);
        LatestFirst(d, s, batch, start);
      }
    } else {
      start := InsertLands(d, s1, rest, i - 1);
      NewInRest(s, s1, batch, i);
      LatestRest(d, s, s1, batch, i, start);
    }
  }

  lemma NewInRest(s: State, s1: State, batch: seq<Entry>, i: nat)
    requires 0 < i < |batch| && s1.known == s.known + {batch[0].id}
    ensures IsNew(s, batch, i) <==> IsNew(s1, batch[1..], i - 1)
  {
    assert forall j :: 0 <= j < i - 1 ==> batch[1..][j] == batch[j + 1];
    if IsNew(s1, batch[1..], i - 1) {
      forall j | 0 <= j < i
        ensures batch[j].id != batch[i].id
      {
        assert j > 0 ==> batch[1..][j - 1] == batch[j];
      }
    }
  }

  lemma LatestFirst(d: nat, s: State, batch: seq<Entry>, start: nat)
    requires 0 < d && batch != [] && batch[0].id !in s.known
    requires start == if s.buckets != [] && s.buckets[0].created >= BucketStart(d, batch[0].time)
      then s.buckets[0].created else BucketStart(d, batch[0].time)
    ensures LatestWindow(d, s, batch, 0, start)
  {
    hide BucketStart;
    assert IsNew(s, batch, 0);
  }

  lemma LatestRest(d: nat, s: State, s1: State, batch: seq<Entry>, i: nat, start: nat)
    requires 0 < d && WellKept(s) && 0 < i < |batch| && s1 == InsertOne(d, s, batch[0]).0
    ensures LatestWindow(d, s1, batch[1..], i - 1, start) ==> LatestWindow(d, s, batch, i, start)
  {
  }

  // ── Batches by runs ──

  // `start` is the latest of the front window at first and the windows of all entries up to `i`:
  // a run opens its window even for a duplicate.
  ghost predicate LatestAsked(d: nat, s: State, batch: seq<Entry>, i: nat, start: nat)
    requires 0 < d && i < |batch|
  {
    && (s.buckets != [] ==> start >= s.buckets[0].created)
    && (forall j :: 0 <= j <= i ==> start >= BucketStart(d, batch[j].time))
    && ((s.buckets != [] && start == s.buckets[0].created)
      || exists j :: 0 <= j <= i && start == BucketStart(d, batch[j].time))
  }

  lemma {:induction false} RunLands(s: State, run: seq<Entry>, i: nat)
    requires WellKept(s) && s.buckets != [] && i < |run|
    ensures var (t, xs) := AcceptNew(s, run);
      && Grows(s, t) && t.buckets != [] && t.buckets[0].created == s.buckets[0].created
      && (xs[i].Some? <==> IsNew(s, run, i))
      && (xs[i].Some? ==> LandedIn(t, xs[i].value, run[i].id, s.buckets[0].created))
    decreases |run|
  {
    hide WellKept, Grows, LandedIn, IsNew, Accept;
    var e, rest := run[0], run[1..];
    var s1 := if e.id in s.known then s else Accept(s, e.id);
    AcceptedOrNot(s, e.id);
    if i > 0 {
      RunLands(s1, rest, i - 1);
      NewInRest(s, s1, run, i);
    } else {
      NewAtFirst(s, run);
      AcceptNewGrows(s1, rest);
      if e.id !in s.known {
        StaysLanded(s1, AcceptNew(s1, rest).0, NodeRef(s.buckets[0].seqNo, e.id), e.id, s.buckets[0].created);
      }
    }
    GrowsTwice(s, s1, AcceptNew(s1, rest).0);
  }

  lemma NewAtFirst(s: State, run: seq<Entry>)
    requires run != []
    ensures IsNew(s, run, 0) <==> run[0].id !in s.known
  {
  }

  lemma AcceptedOrNot(s: State, id: nat)
    requires WellKept(s) && s.buckets != []
    ensures var s1 := if id in s.known then s else Accept(s, id);
      && WellKept(s1) && Grows(s, s1) && s1.known == s.known + {id} && s1.buckets != []
      && s1.buckets[0].created == s.buckets[0].created && s1.buckets[0].seqNo == s.buckets[0].seqNo
      && (id !in s.known ==> LandedIn(s1, NodeRef(s.buckets[0].seqNo, id), id, s.buckets[0].created))
  {
    hide WellKept, Grows;
    if id in s.known {
      GrowsNot(s);
    } else {
      AcceptKeeps(s, id);
      GrowsByAccept(s, id);
      AtPosition(Accept(s, id), 0);
    }
  }

  lemma {:induction false} AcceptNewGrows(s: State, run: seq<Entry>)
    requires WellKept(s) && s.buckets != []
    ensures var t := AcceptNew(s, run).0;
      WellKept(t) && Grows(s, t) && t.buckets != [] && t.buckets[0].created == s.buckets[0].created
    decreases |run|
  {
    hide WellKept, Grows, Accept;
    if run == [] {
      GrowsNot(s);
    } else {
      var e := run[0];
      var s1 := if e.id in s.known then s else Accept(s, e.id);
      AcceptedOrNot(s, e.id);
      AcceptNewGrows(s1, run[1..]);
      GrowsTwice(s, s1, AcceptNew(s1, run[1..]).0);
    }
  }

  lemma OpenedGrows(s: State, start: nat)
    requires WellKept(s)
    ensures var o := Opened(s, start);
      && WellKept(o) && Grows(s, o) && o.known == s.known && o.buckets != []
      && o.buckets[0].created == if s.buckets != [] && s.buckets[0].created >= start then s.buckets[0].created
        else start
  {
    hide WellKept, Grows;
    OpenedKeeps(s, start);
    if NeedsNew(s, start) {
      GrowsByAlloc(s, start);
    } else {
      GrowsNot(s);
    }
  }

  lemma {:induction false} BatchGrows(d: nat, s: State, batch: seq<Entry>)
    requires 0 < d && WellKept(s)
    ensures WellKept(InsertBatch(d, s, batch).0) && Grows(s, InsertBatch(d, s, batch).0)
    decreases |batch|
  {
    hide WellKept, Grows, BucketStart, AcceptNew, Opened;
    if batch == [] {
      GrowsNot(s);
    } else {
      var n := RunLength(d, batch);
      var run := batch[..n];
      var o := Opened(s, BucketStart(d, run[0].time));
      OpenedGrows(s, BucketStart(d, run[0].time));
      AcceptNewGrows(o, run);
      var s1 := InsertRun(d, s, run).0;
      GrowsTwice(s, o, s1);
      BatchGrows(d, s1, batch[n..]);
      GrowsTwice(s, s1, InsertBatch(d, s1, batch[n..]).0);
    }
  }

  // The same for a batch taken run by run, but for the window: a run opens it in any case.
  lemma {:induction false} BatchLands(d: nat, s: State, batch: seq<Entry>, i: nat) returns (start: nat)
    requires 0 < d && WellKept(s) && i < |batch|
    ensures var (t, xs) := InsertBatch(d, s, batch);
      && (xs[i].Some? <==> IsNew(s, batch, i))
      && (xs[i].Some? ==> LandedIn(t, xs[i].value, batch[i].id, start) && LatestAsked(d, s, batch, i, start))
    decreases |batch|
  {
    hide WellKept, Grows, LandedIn, LatestAsked, BucketStart, IsNew, AcceptNew, Opened;
    var n := RunLength(d, batch);
    var run, rest := batch[..n], batch[n..];
    var first := BucketStart(d, run[0].time);
    var o := Opened(s, first);
    OpenedGrows(s, first);
    AcceptNewGrows(o, run);
    AcceptNewFront(o, run);
    var (s1, xs) := InsertRun(d, s, run);
    BatchGrows(d, s1, rest);
    if i < n {
      RunLands(o, run, i);
      start := o.buckets[0].created;
      NewInRun(s, o, batch, n, i);
      if xs[i].Some? {
        StaysLanded(s1, InsertBatch(d, s1, rest).0, xs[i].value, batch[i].id, start);
        AskedInRun(d, s, batch, n, i, start);
      }
    } else {
      start := BatchLands(d, s1, rest, i - n);
      NewAfterRun(s, s1, batch, n, i);
      AskedAfterRun(d, s, s1, batch, n, i, start);
    }
  }

  lemma NewInRun(s: State, o: State, batch: seq<Entry>, n: nat, i: nat)
    requires i < n <= |batch| && o.known == s.known
    ensures IsNew(s, batch, i) <==> IsNew(o, batch[..n], i)
  {
    assert forall j :: 0 <= j < n ==> batch[..n][j] == batch[j];
  }

  lemma AskedInRun(d: nat, s: State, batch: seq<Entry>, n: nat, i: nat, start: nat)
    requires 0 < d && i < n <= |batch|
    requires forall j :: 0 <= j < n ==> BucketStart(d, batch[j].time) == BucketStart(d, batch[0].time)
    requires start == if s.buckets != [] && s.buckets[0].created >= BucketStart(d, batch[0].time)
      then s.buckets[0].created else BucketStart(d, batch[0].time)
    ensures LatestAsked(d, s, batch, i, start)
  {
    hide BucketStart;
  }

  lemma NewAfterRun(s: State, s1: State, batch: seq<Entry>, n: nat, i: nat)
    requires n <= i < |batch| && s1.known == s.known + IdsOf(batch[..n])
    ensures IsNew(s, batch, i) <==> IsNew(s1, batch[n..], i - n)
  {
    assert forall j :: n <= j <= i ==> batch[n..][j - n] == batch[j];
    forall j | 0 <= j < n
      ensures batch[j].id in IdsOf(batch[..n])
    {
      assert batch[..n][j] == batch[j];
    }
    if IsNew(s1, batch[n..], i - n) {
      forall j | 0 <= j < i
        ensures batch[j].id != batch[i].id
      {
        assert j >= n ==> batch[n..][j - n] == batch[j];
      }
    }
  }

  lemma AskedAfterRun(d: nat, s: State, s1: State, batch: seq<Entry>, n: nat, i: nat, start: nat)
    requires 0 < d && 0 < n <= i < |batch| && s1.buckets != []
    requires forall j :: 0 <= j < n ==> BucketStart(d, batch[j].time) == BucketStart(d, batch[0].time)
    requires s1.buckets[0].created == if s.buckets != [] && s.buckets[0].created >= BucketStart(d, batch[0].time)
      then s.buckets[0].created else BucketStart(d, batch[0].time)
    ensures LatestAsked(d, s1, batch[n..], i - n, start) ==> LatestAsked(d, s, batch, i, start)
  {
    hide BucketStart;
    assert forall j :: n <= j <= i ==> batch[n..][j - n] == batch[j];
    if LatestAsked(d, s1, batch[n..], i - n, start) {
      forall j | 0 <= j <= i
        ensures start >= BucketStart(d, batch[j].time)
      {
        assert j >= n ==> batch[n..][j - n] == batch[j];
      }
      if start == s1.buckets[0].created && s1.buckets[0].created == BucketStart(d, batch[0].time) {
        assert start == BucketStart(d, batch[0].time);
      }
    }
  }
}
