// The windows of an index after a recovery: when they have no gap, and how they come to have one.
module RecoveredWindows {
  import opened Options
  import opened Grid
  import opened TimeBucket
  import opened Protocol
  import opened Durability

  // Restoring a bucket keeps the deque gap-free exactly when it is one slot ahead of the front.
  lemma RestoreGapFreeIff(d: nat, s: State, seqNo: nat, created: nat, ids: seq<nat>)
    requires GapFree(d, Starts(s)) && OnGrid(d, created)
    ensures GapFree(d, Starts(AddRestored(s, seqNo, created, ids))) <==>
      s.buckets == [] || created == s.buckets[0].created + d
  {
    RestoredStarts(s, seqNo, created, ids);
    RotateKeepsGapFree(d, Starts(s), false, created);
  }

  lemma RestoredStarts(s: State, seqNo: nat, created: nat, ids: seq<nat>)
    ensures Starts(AddRestored(s, seqNo, created, ids)) == [created] + Starts(s)
  {
  }

  // The starts of the pointed buckets, newest first.
  function PointedStarts(b: Blob, order: seq<nat>): seq<nat>
    requires forall e :: e in order ==> e in b.metas
  {
    seq(|order|, i requires 0 <= i < |order| => assert order[|order| - 1 - i] in order;
      b.metas[order[|order| - 1 - i]].created)
  }

  lemma {:induction false} RestoredAre(b: Blob, order: seq<nat>)
    requires PointersComplete(b.metas, b.snaps) && forall e :: e in order ==> e in b.metas
    ensures Starts(RestoreAll(b, order)) == PointedStarts(b, order)
  {
    hide Complete, Starts, AddRestored;
    if order == [] {
      assert Starts(State([], 0, {})) == [];
    } else {
      var n := |order| - 1;
      var e, init := order[n], order[..n];
      assert e in order && forall x :: x in init ==> x in order;
      RestoredAre(b, init);
      var key := SnapKey(e, b.metas[e].snap);
      RestoredStarts(RestoreAll(b, init), e, b.metas[e].created, b.snaps[key].ids);
      assert PointedStarts(b, order) == [b.metas[e].created] + PointedStarts(b, init);
    }
  }

  ghost predicate ReplayNeverSkips(d: nat, s: State, log: seq<seq<Entry>>)
    requires 0 < d
    decreases |log|
  {
    log == [] || (NeverSkips(d, s, log[0]) && ReplayNeverSkips(d, InsertAll(d, s, log[0]).0, log[1..]))
  }

  lemma {:induction false} ReplayInFront(d: nat, s: State, log: seq<seq<Entry>>)
    requires 0 < d
    ensures InFront(Starts(Replay(d, s, log)), Starts(s))
    decreases |log|
  {
    hide InsertAll;
    if log != [] {
      AllInFront(d, s, log[0]);
      ReplayInFront(d, InsertAll(d, s, log[0]).0, log[1..]);
    }
  }

  lemma {:induction false} ReplayGapFreeIff(d: nat, s: State, log: seq<seq<Entry>>)
    requires 0 < d && GapFree(d, Starts(s))
    ensures GapFree(d, Starts(Replay(d, s, log))) <==> ReplayNeverSkips(d, s, log)
    decreases |log|
  {
    hide GapFree, InsertAll, NeverSkips, InFront;
    if log != [] {
      var t := InsertAll(d, s, log[0]).0;
      GapFreeIffNeverSkips(d, s, log[0]);
      if GapFree(d, Starts(t)) {
        ReplayGapFreeIff(d, t, log[1..]);
      } else {
        ReplayInFront(d, t, log[1..]);
        if GapFree(d, Starts(Replay(d, t, log[1..]))) {
          GapStays(d, Starts(Replay(d, t, log[1..])), Starts(t));
        }
      }
    }
  }

  // A recovered index has gap-free windows if and only if the pointed ones have no gap, and the
  // replay never skips one.
  lemma RecoveredGapFreeIff(d: nat, b: Blob, order: seq<nat>, log: seq<nat>)
    requires 0 < d && PointersComplete(b.metas, b.snaps)
    requires (forall e :: e in order ==> e in b.metas) && forall n :: n in log ==> n in b.wal
    ensures GapFree(d, Starts(Recovered(d, b, order, log)))
      <==> GapFree(d, PointedStarts(b, order)) && ReplayNeverSkips(d, RestoreAll(b, order), Logged(b.wal, log))
  {
    hide GapFree, PointersComplete, RestoreAll, Replay, ReplayNeverSkips, InFront;
    var r := RestoreAll(b, order);
    RestoredAre(b, order);
    if GapFree(d, Starts(r)) {
      ReplayGapFreeIff(d, r, Logged(b.wal, log));
    } else {
      ReplayInFront(d, r, Logged(b.wal, log));
      if GapFree(d, Starts(Recovered(d, b, order, log))) {
        GapStays(d, Starts(Recovered(d, b, order, log)), Starts(r));
      }
    }
  }

  // Buckets 0 and 2 were committed, bucket 1 between them was not; its vector is in the log.
  const PARTLY: Blob := Blob(map[5 := [Entry(12, 6)]], map[0 := Meta(0, 0), 2 := Meta(20, 0)],
    map[SnapKey(0, 0) := Snap([5], 0, {Levels, Manifest}), SnapKey(2, 0) := Snap([7], 0, {Levels, Manifest})],
    None, Lists(4))

  // A crash before bucket 1 is committed brings back a deque with a gap: its vector comes back in
  // the front bucket. A search of the first window misses its bucket, and an eviction before 15
  // drops the bucket that starts at 20.
  lemma RecoveredWithGap()
    ensures RestoreOrder(PARTLY, [0, 2]) && ReplayOrder(PARTLY.wal, Mark(PARTLY).value, [5])
    ensures Starts(Recovered(10, PARTLY, [0, 2], [5])) == [20, 0] && !GapFree(10, [20, 0])
    ensures Slice(10, [20, 0], 0, 10) == Some((2, 2)) && !SliceMatches(10, [20, 0], 0, 10)
    ensures EvictCount(10, [20, 0], 15) == 2 && NoWrap(10, [20, 0], 15) && !EvictMatches(10, [20, 0], 15)
  {
    hide BucketStart, SlotsDown, CeilSlots, OnGrid, Recovered;
    RecoveredStarts();
    var cs: seq<nat> := [20, 0];
    assert cs[0] != cs[0 + 1] + 10;
    GapSlots();
    assert Overlaps(10, cs[1], 0, 10) && 15 <= cs[0];
  }

  lemma RecoveredStarts()
    ensures Starts(Recovered(10, PARTLY, [0, 2], [5])) == [20, 0]
  {
    hide BucketStart, InsertOne, RestoreAll;
    assert PointersComplete(PARTLY.metas, PARTLY.snaps);
    RestoredAre(PARTLY, [0, 2]);
    assert PointedStarts(PARTLY, [0, 2]) == [20, 0];
    var s, e := RestoreAll(PARTLY, [0, 2]), Entry(12, 6);
    GapSlots();
    InsertStarts(10, s, e);
    assert Logged(PARTLY.wal, [5]) == [[e]] && [e][1..] == [] && [[e]][1..] == [];
    assert InsertAll(10, s, [e]).0 == InsertAll(10, InsertOne(10, s, e).0, [e][1..]).0;
    assert Replay(10, s, [[e]]) == Replay(10, InsertAll(10, s, [e]).0, [[e]][1..]);
  }

  lemma GapSlots()
    ensures BucketStart(10, 0) == 0 == BucketStart(10, 9) && BucketStart(10, 12) == 10
    ensures SlotsDown(10, 20, 0) == 2 && CeilSlots(10, 15) == 2
  {
    CeilingOf(10, 15);
  }
}
