// The loops of the service that protocol steps abstract from: sequence numbers, pruning the log,
// deleting superseded snapshots, and rebuilding an index from blob storage.
module Service {
  import opened Options
  import opened TimeBucket
  import opened Protocol
  import opened Sorting
  import opened Listings
  import BucketIndex
  import Durability
  import Runs

  // ── Sequence numbers of a collection's log ──

  class WalState {
    var nextSeq: nat
    var uploaded: nat

    constructor (start: nat)
      ensures nextSeq == start && uploaded == (if start == 0 then 0 else start - 1)
    {
      nextSeq := start;
      uploaded := if start == 0 then 0 else start - 1;
    }

    // These are the counters of the running node `n`.
    ghost predicate Serves(n: Node)
      reads this
    {
      n.Up? && nextSeq == n.next && uploaded == n.uploaded
    }

    // The number of a new batch: no log entry, uploaded or not, has it.
    method AllocSeq(ghost d: nat, ghost s: System, ghost batch: seq<Entry>) returns (n: nat)
      requires 0 < d && Runs.Sound(s) && Serves(s.node) && batch != []
      modifies `nextSeq
      ensures n !in s.blob.wal && n !in s.node.local && n !in s.node.pending
      ensures var t := Apply(d, s, Insert(batch)); Serves(t.node) && n in t.node.local && t.node.local[n] == batch
    {
      hide Durability.MemOk, Durability.HeldAt, Durability.CycleOk, Durability.AckedDurable,
        Durability.PointersComplete, Durability.PointedApart;
      n := nextSeq;
      nextSeq := nextSeq + 1;
    }

    function CurrentSeq(): nat
      reads `nextSeq
    {
      if nextSeq == 0 then 0 else nextSeq - 1
    }

    // An upload is confirmed: the mark only ever rises.
    method MarkUploaded(n: nat, ghost d: nat, ghost s: System)
      requires 0 < d && Runs.Sound(s) && Serves(s.node) && s.node.putting == Some(n)
      modifies `uploaded
      ensures old(uploaded) < uploaded && Serves(Apply(d, s, MarkWal).node)
    {
      hide Durability.MemOk, Durability.HeldAt, Durability.CycleOk, Durability.AckedDurable,
        Durability.PointersComplete, Durability.PointedApart;
      uploaded := n;
    }

    // May the insert of batch `n` return? Only when its entry has left the local log.
    method IsUploaded(n: nat, ghost s: System) returns (ok: bool)
      requires Runs.Sound(s) && Serves(s.node) && n in s.node.pending
      ensures ok <==> Enabled(s, Ack(n))
      ensures ok ==> n !in s.node.local
    {
      hide Durability.MemOk, Durability.HeldAt, Durability.CycleOk, Durability.AckedDurable,
        Durability.PointersComplete, Durability.PointedApart;
      ok := n <= uploaded;
    }
  }

  // ── Listings ──

  // The entries listed from position `k` on.
  function Listed(wal: map<nat, seq<Entry>>, seqs: seq<nat>, k: nat): map<nat, seq<Entry>>
    requires k <= |seqs|
  {
    map n | n in wal && n in seqs[k..] :: wal[n]
  }

  lemma AllListed(wal: map<nat, seq<Entry>>, seqs: seq<nat>)
    requires ReplayOrderOf(wal, seqs)
    ensures Listed(wal, seqs, 0) == wal
  {
  }

  lemma DeletesLeast(wal: map<nat, seq<Entry>>, seqs: seq<nat>, k: nat)
    requires ReplayOrderOf(wal, seqs) && k < |seqs|
    ensures Least(Listed(wal, seqs, k), seqs[k]) && Listed(wal, seqs, k) - {seqs[k]} == Listed(wal, seqs, k + 1)
  {
    assert seqs[k..] == [seqs[k]] + seqs[k + 1..];
    assert seqs[k] !in seqs[k + 1..];
  }

  lemma ListedAbove(wal: map<nat, seq<Entry>>, seqs: seq<nat>, k: nat, h: nat)
    requires ReplayOrderOf(wal, seqs) && k <= |seqs|
    requires (k > 0 ==> seqs[k - 1] <= h) && (k < |seqs| ==> seqs[k] > h)
    ensures Listed(wal, seqs, k) == map n | n in wal && n > h :: wal[n]
  {
    forall n | n in wal
      ensures n in seqs[k..] <==> n > h
    {
      var i :| 0 <= i < |seqs| && seqs[i] == n;
      if i >= k {
        assert seqs[k..][i - k] == n;
      }
    }
  }

  // ── Deletions as protocol steps ──

  ghost predicate PruningTo(s: System, high: nat) {
    InPhase(s) && s.node.cycle.value.phase == Pruning && s.node.cycle.value.high == high
  }

  ghost predicate CleaningUp(s: System, bucket: nat, active: nat) {
    OnBucket(s) && Bucket0(s) == bucket && s.node.cycle.value.phase == Cleaning(active)
  }

  // The steps can be taken from `s`, and change nothing but its storage, which becomes `b`.
  ghost predicate Leads(d: nat, s: System, steps: seq<Action>, b: Blob)
    requires 0 < d
  {
    Runs.CanRun(d, s, steps) && Runs.After(d, s, steps) == s.(blob := b)
  }

  lemma LeadsNowhere(s: System)
    ensures forall d: nat :: 0 < d ==> Leads(d, s, [], s.blob)
  {
  }

  lemma PruneLeads(d: nat, s: System, steps: seq<Action>, b: Blob, high: nat, n: nat)
    requires 0 < d && PruningTo(s, high) && Leads(d, s, steps, b) && Least(b.wal, n) && n <= high
    ensures Leads(d, s, steps + [Prune(n)], b.(wal := b.wal - {n}))
  {
    Runs.AfterSnoc(d, s, steps, Prune(n));
  }

  lemma CleanLeads(d: nat, s: System, steps: seq<Action>, b: Blob, k: SnapKey, active: nat, f: File)
    requires 0 < d && CleaningUp(s, k.bucket, active) && Leads(d, s, steps, b) && k in b.snaps && k.snap != active
    ensures Leads(d, s, steps + [CleanFile(k.snap, f)], WithoutFile(b, k, f))
  {
    Runs.AfterSnoc(d, s, steps, CleanFile(k.snap, f));
  }

  class BlobStore {
    var blob: Blob

    method ListWalSeqs() returns (s: seq<nat>)
      ensures ReplayOrderOf(blob.wal, s)
    {
      OrdersAreStrict(map[]);
      s := SortedKeys(blob.wal.Keys, Less);
      assert forall i, j :: 0 <= i < j < |s| ==> Less(s[i], s[j]);
    }

    // Delete the log entries up to `maxSeq`, oldest first: from any system that is pruning up to
    // there, these are `Prune` steps.
    method DeleteWalEntriesUpTo(maxSeq: nat, ghost d: nat, ghost s: System)
        returns (deleted: nat, ghost steps: seq<Action>)
      modifies this
      ensures blob == old(blob).(wal := map n | n in old(blob.wal) && n > maxSeq :: old(blob.wal)[n])
      ensures 0 < d && s.blob == old(blob) && PruningTo(s, maxSeq) ==> Leads(d, s, steps, blob)
    {
      hide Leads, PruningTo, Listed, Least, ReplayOrderOf;
      ghost var was := blob;
      var seqs := ListWalSeqs();
      deleted, steps := 0, [];
      LeadsNowhere(s);
      AllListed(was.wal, seqs);
      while deleted < |seqs| && seqs[deleted] <= maxSeq
        invariant deleted <= |seqs| && (deleted > 0 ==> seqs[deleted - 1] <= maxSeq)
        invariant blob == was.(wal := Listed(was.wal, seqs, deleted))
        invariant 0 < d && s.blob == was && PruningTo(s, maxSeq) ==> Leads(d, s, steps, blob)
      {
        DeletesLeast(was.wal, seqs, deleted);
        if 0 < d && s.blob == was && PruningTo(s, maxSeq) {
          PruneLeads(d, s, steps, blob, maxSeq, seqs[deleted]);
        }
        steps := steps + [Prune(seqs[deleted])];
        blob := blob.(wal := blob.wal - {seqs[deleted]});
        deleted := deleted + 1;
      }
      ListedAbove(was.wal, seqs, deleted, maxSeq);
    }

    // Delete the files of every staged snapshot of a bucket but the active one: from any system
    // that is cleaning up after that snapshot, these are `CleanFile` steps.
    method CleanupOldSnaps(bucket: nat, active: nat, ghost d: nat, ghost s: System) returns (ghost steps: seq<Action>)
      modifies this
      ensures blob == old(blob).(snaps := blob.snaps) && blob.snaps.Keys == old(blob.snaps).Keys
      ensures forall k :: k in old(blob.snaps) ==>
        blob.snaps[k] == if k.bucket == bucket && k.snap != active then old(blob.snaps[k]).(have := {})
          else old(blob.snaps[k])
      ensures 0 < d && s.blob == old(blob) && CleaningUp(s, bucket, active) ==> Leads(d, s, steps, blob)
    {
      hide Leads, CleaningUp;
      ghost var was := blob;
      steps := [];
      LeadsNowhere(s);
      var rest := set k | k in blob.snaps && k.bucket == bucket && k.snap != active;
      while rest != {}
        invariant blob == was.(snaps := blob.snaps) && blob.snaps.Keys == was.snaps.Keys
        invariant forall k :: k in rest ==> k in was.snaps && k.bucket == bucket && k.snap != active
        invariant forall k :: k in was.snaps ==>
          blob.snaps[k] == if k.bucket == bucket && k.snap != active && k !in rest then was.snaps[k].(have := {})
            else was.snaps[k]
        invariant 0 < d && s.blob == was && CleaningUp(s, bucket, active) ==> Leads(d, s, steps, blob)
        decreases |rest|
      {
        var k :| k in rest;
        steps := DeleteFiles(k, active, d, s, steps);
        rest := rest - {k};
      }
    }

    method DeleteFiles(k: SnapKey, active: nat, ghost d: nat, ghost s: System, ghost steps0: seq<Action>)
        returns (ghost steps: seq<Action>)
      requires k in blob.snaps && k.snap != active
      modifies this
      ensures blob == old(blob).(snaps := old(blob.snaps)[k := old(blob.snaps[k]).(have := {})])
      ensures 0 < d && CleaningUp(s, k.bucket, active) && Leads(d, s, steps0, old(blob)) ==> Leads(d, s, steps, blob)
    {
      hide Leads;
      ghost var was := blob;
      steps := steps0;
      assert was.snaps[k := was.snaps[k].(have := was.snaps[k].have)] == was.snaps;
      while blob.snaps[k].have != {}
        invariant k in blob.snaps
        invariant blob == was.(snaps := was.snaps[k := was.snaps[k].(have := blob.snaps[k].have)])
        invariant 0 < d && CleaningUp(s, k.bucket, active) && Leads(d, s, steps0, was) ==> Leads(d, s, steps, blob)
        decreases |blob.snaps[k].have|
      {
        var f :| f in blob.snaps[k].have;
        assert blob.snaps[k := blob.snaps[k].(have := blob.snaps[k].have - {f})]
            == was.snaps[k := was.snaps[k].(have := blob.snaps[k].have - {f})];
        if 0 < d && CleaningUp(s, k.bucket, active) && Leads(d, s, steps, blob) {
          CleanLeads(d, s, steps, blob, k, active, f);
        }
        steps := steps + [CleanFile(k.snap, f)];
        blob := WithoutFile(blob, k, f);
      }
    }

    // Rebuild the index from the pointed snapshots and the log above the mark, and the counters
    // of its log; without a mark the collection is not found.
    method RecoverIndex(d: nat) returns (index: BucketIndex.TimeBucketIndex?, wal: WalState?)
      requires 0 < d
      ensures blob == old(blob)
      ensures (index == null <==> Mark(blob).None?) && (wal == null <==> Mark(blob).None?)
      ensures index != null && wal != null ==>
        && fresh(index) && fresh(wal)
        && exists order, log ::
          var down := System(blob, Down, {});
          && Enabled(down, Recover(order, log))
          && var up := Apply(d, down, Recover(order, log)).node; index.View() == up.mem && wal.Serves(up)
    {
      if Mark(blob).None? {
        return null, null;
      }
      var mark := Mark(blob).value;
      var restored := new BucketIndex.TimeBucketIndex(d);
      OrdersAreStrict(blob.metas);
      var order := SortedKeys(blob.metas.Keys, Older(blob.metas));
      OlderOrder(blob, order);
      RestoreBuckets(restored, order);
      var seqs := ListWalSeqs();
      var log := Above(seqs, mark);
      LogAbove(blob.wal, seqs, mark, log);
      ReplayLog(restored, log);
      index := restored;
      wal := new WalState(NextSeq(mark, log));
      assert index.View() == Recovered(d, blob, order, log);
      assert Enabled(System(blob, Down, {}), Recover(order, log));
    }

    method RestoreBuckets(index: BucketIndex.TimeBucketIndex, order: seq<nat>)
      requires index.View() == State([], 0, {})
      modifies index
      ensures index.View() == RestoreAll(blob, order)
    {
      assert order[..0] == [];
      for i := 0 to |order|
        invariant index.View() == RestoreAll(blob, order[..i])
      {
        assert order[..i + 1][..i] == order[..i];
        var b := order[i];
        if b in blob.metas {
          var key := SnapKey(b, blob.metas[b].snap);
          if key in blob.snaps && Complete(blob.snaps[key]) {
            index.AddRestoredBucket(b, blob.metas[b].created, blob.snaps[key].ids);
          }
        }
      }
      assert order[..|order|] == order;
    }

    // Replay log entries vector by vector; known ids are skipped.
    method ReplayLog(index: BucketIndex.TimeBucketIndex, log: seq<nat>)
      requires 0 < index.d && forall n :: n in log ==> n in blob.wal
      modifies index
      ensures index.View() == Replay(index.d, old(index.View()), Logged(blob.wal, log))
    {
      hide InsertOne;
      ghost var s, d := index.View(), index.d;
      assert Logged(blob.wal, log)[..0] == [];
      for i := 0 to |log|
        invariant index.View() == Replay(d, s, Logged(blob.wal, log)[..i])
      {
        assert log[i] in log;
        var batch := blob.wal[log[i]];
        ghost var t := index.View();
        assert batch[..0] == [];
        for j := 0 to |batch|
          invariant index.View() == InsertAll(d, t, batch[..j]).0
        {
          InsertAllSnoc(d, t, batch[..j], batch[j]);
          assert batch[..j + 1] == batch[..j] + [batch[j]];
          var _ := index.Insert(batch[j].time, batch[j].id);
        }
        assert batch[..|batch|] == batch;
        ReplaySnoc(d, s, Logged(blob.wal, log)[..i], batch);
        assert Logged(blob.wal, log)[..i + 1] == Logged(blob.wal, log)[..i] + [batch];
      }
      assert Logged(blob.wal, log)[..|log|] == Logged(blob.wal, log);
    }
  }

  ghost predicate ReplayOrderOf(wal: map<nat, seq<Entry>>, s: seq<nat>) {
    (forall n :: n in s <==> n in wal) && forall i, j :: 0 <= i < j < |s| ==> s[i] < s[j]
  }

  // The entries above the mark, in the order listed.
  method Above(seqs: seq<nat>, mark: nat) returns (log: seq<nat>)
    ensures log == Filter(seqs, mark)
  {
    log := [];
    assert seqs[..0] == [];
    for i := 0 to |seqs|
      invariant log == Filter(seqs[..i], mark)
    {
      assert seqs[..i + 1][..i] == seqs[..i];
      if seqs[i] > mark {
        log := log + [seqs[i]];
      }
    }
    assert seqs[..|seqs|] == seqs;
  }

  function Filter(seqs: seq<nat>, mark: nat): seq<nat> {
    if seqs == [] then []
    else
      var n := seqs[|seqs| - 1];
      Filter(seqs[..|seqs| - 1], mark) + (if n > mark then [n] else [])
  }

  lemma {:induction false} FilterKeeps(seqs: seq<nat>, mark: nat)
    requires forall i, j :: 0 <= i < j < |seqs| ==> seqs[i] < seqs[j]
    ensures var log := Filter(seqs, mark);
      && (forall n :: n in log <==> n in seqs && n > mark)
      && forall i, j :: 0 <= i < j < |log| ==> log[i] < log[j]
  {
    if seqs != [] {
      var k := |seqs| - 1;
      FilterKeeps(seqs[..k], mark);
      assert seqs == seqs[..k] + [seqs[k]];
      var log := Filter(seqs[..k], mark);
      forall i | 0 <= i < |log|
        ensures log[i] < seqs[k]
      {
        assert log[i] in seqs[..k];
      }
    }
  }

  lemma LogAbove(wal: map<nat, seq<Entry>>, seqs: seq<nat>, mark: nat, log: seq<nat>)
    requires ReplayOrderOf(wal, seqs) && log == Filter(seqs, mark)
    ensures ReplayOrder(wal, mark, log)
  {
    FilterKeeps(seqs, mark);
  }

  lemma InsertAllSnoc(d: nat, s: State, batch: seq<Entry>, e: Entry)
    requires 0 < d
    ensures InsertAll(d, s, batch + [e]).0 == InsertOne(d, InsertAll(d, s, batch).0, e).0
  {
    hide InsertOne;
    InsertAllConcat(d, s, batch, [e]);
    var t := InsertAll(d, s, batch).0;
    assert [e][1..] == [] && [e][0] == e;
    assert InsertAll(d, t, [e]).0 == InsertAll(d, InsertOne(d, t, e).0, [e][1..]).0;
  }

  lemma {:induction false} ReplaySnoc(d: nat, s: State, log: seq<seq<Entry>>, batch: seq<Entry>)
    requires 0 < d
    ensures Replay(d, s, log + [batch]) == InsertAll(d, Replay(d, s, log), batch).0
    decreases |log|
  {
    hide InsertAll;
    if log == [] {
      assert log + [batch] == [batch] && [batch][1..] == [];
      assert Replay(d, s, [batch]) == Replay(d, InsertAll(d, s, batch).0, [batch][1..]);
    } else {
      assert (log + [batch])[0] == log[0] && (log + [batch])[1..] == log[1..] + [batch];
      ReplaySnoc(d, InsertAll(d, s, log[0]).0, log[1..], batch);
    }
  }
}
