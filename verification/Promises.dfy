// The durability guarantee in terms of what a run did: a batch inserted and acknowledged whose
// vectors were in no bucket evicted since.
module Promises {
  import opened TimeBucket
  import opened BucketChanges
  import opened Protocol
  import opened Runs
  import opened Histories

  // Step `i` inserted `batch` under number `n`, and step `j` was the acknowledgement of it.
  ghost predicate Acknowledged(states: seq<System>, run: seq<Action>, i: nat, j: nat, n: nat, batch: seq<Entry>) {
    && i < j < |run| < |states|
    && run[i] == Insert(batch) && states[i].node.Up? && states[i].node.next == n && run[j] == Ack(n)
    && forall k :: i < k < j ==> run[k] != Crash && run[k] != Ack(n)
  }

  // No eviction from step `from` on dropped a bucket with this id.
  ghost predicate NotEvicted(states: seq<System>, run: seq<Action>, from: nat, end: nat, x: nat)
    requires end <= |run| < |states|
  {
    forall k :: from <= k < end && run[k].Evict? ==> !InOldest(states[k], run[k].k, x)
  }

  // The id was stored when its batch was acknowledged, and not evicted since.
  ghost predicate PromisedBy(states: seq<System>, run: seq<Action>, i: nat, j: nat, n: nat, batch: seq<Entry>, end: nat,
      x: nat)
    requires end <= |run| < |states|
  {
    && j < end && Acknowledged(states, run, i, j, n, batch) && x in IdsOf(batch)
    && states[j].node.Up? && Stored(states[j].node.mem, x) && NotEvicted(states, run, j + 1, end, x)
  }

  ghost predicate Promised(states: seq<System>, run: seq<Action>, end: nat, x: nat)
    requires end <= |run| < |states|
  {
    exists i, j, n, batch :: PromisedBy(states, run, i, j, n, batch, end, x)
  }

  lemma NextGrows(d: nat, s: System, a: Action)
    requires 0 < d && Enabled(s, a) && s.node.Up? && a != Crash
    ensures var t := Apply(d, s, a);
      t.node.Up? && t.node.next == if a.Insert? then s.node.next + 1 else s.node.next
  {
    hide InsertAll, StoredOf, At, DropOldest, MarkCleanIf, Recovered, Least, Complete, MayUpload;
  }

  lemma {:induction false} NumberNotReused(d: nat, states: seq<System>, run: seq<Action>, i: nat, j: nat)
    requires 0 < d && History(d, states, run) && i < j <= |run| && run[i].Insert?
    requires forall k :: i <= k < j ==> run[k] != Crash
    ensures states[i].node.Up? && states[j].node.Up? && states[j].node.next > states[i].node.next
    decreases j
  {
    hide Apply;
    assert Enabled(states[i], run[i]);
    hide Enabled;
    if j > i + 1 {
      NumberNotReused(d, states, run, i, j - 1);
    }
    NextGrows(d, states[j - 1], run[j - 1]);
  }

  // A batch inserted is pending until it is acknowledged.
  lemma PendingUntil(d: nat, catalog: Catalog, states: seq<System>, run: seq<Action>, i: nat, j: nat, n: nat,
      batch: seq<Entry>)
    requires 0 < d && History(d, states, run) && StartsNew(catalog, states[0])
    requires Acknowledged(states, run, i, j, n, batch)
    ensures Holds(states[j], Pending(n, batch))
  {
    hide Enabled, Apply;
    var f := Pending(n, batch);
    WrittenSince(d, catalog, states, run, j, f);
    forall k | i + 1 <= k < j
      ensures !Clears(states[k], run[k], f)
    {
      NumberNotReused(d, states, run, i, k);
    }
    assert Sets(states[i], run[i], f) && NotCleared(states, run, i + 1, j, f);
  }

  // A pending batch was inserted before, and not acknowledged since.
  lemma InsertedBefore(d: nat, catalog: Catalog, states: seq<System>, run: seq<Action>, j: nat, n: nat,
      batch: seq<Entry>) returns (i: nat)
    requires 0 < d && History(d, states, run) && StartsNew(catalog, states[0])
    requires j < |run| && run[j] == Ack(n) && Holds(states[j], Pending(n, batch))
    ensures Acknowledged(states, run, i, j, n, batch)
  {
    hide Enabled, Apply;
    var f := Pending(n, batch);
    WrittenSince(d, catalog, states, run, j, f);
    i :| 0 <= i < j && Sets(states[i], run[i], f) && NotCleared(states, run, i + 1, j, f);
    forall k | i < k < j
      ensures run[k] != Crash && run[k] != Ack(n)
    {
      assert !Clears(states[k], run[k], f);
    }
  }

  // The acknowledged ids the guarantees speak of are those promised by the run.
  lemma AckedIffPromised(d: nat, catalog: Catalog, states: seq<System>, run: seq<Action>, end: nat, x: nat)
    requires 0 < d && History(d, states, run) && StartsNew(catalog, states[0]) && end <= |run|
    ensures x in states[end].acked <==> Promised(states, run, end, x)
  {
    hide Apply, Enabled;
    var f := Fact.Acked(x);
    WrittenSince(d, catalog, states, run, end, f);
    if j :| 0 <= j < end && Sets(states[j], run[j], f) && NotCleared(states, run, j + 1, end, f) {
      var n := run[j].n;
      var batch := states[j].node.pending[n];
      var i := InsertedBefore(d, catalog, states, run, j, n, batch);
      NeverEvicted(states, run, j + 1, end, x);
      assert PromisedBy(states, run, i, j, n, batch, end, x);
    }
    if i: nat, j: nat, n: nat, batch :| PromisedBy(states, run, i, j, n, batch, end, x) {
      PendingUntil(d, catalog, states, run, i, j, n, batch);
      NeverEvicted(states, run, j + 1, end, x);
      assert Sets(states[j], run[j], f);
    }
  }

  lemma NeverEvicted(states: seq<System>, run: seq<Action>, from: nat, end: nat, x: nat)
    requires end <= |run| < |states|
    ensures NotEvicted(states, run, from, end, x) <==> NotCleared(states, run, from, end, Fact.Acked(x))
  {
    if NotEvicted(states, run, from, end, x) {
      forall k | from <= k < end
        ensures !Clears(states[k], run[k], Fact.Acked(x))
      {
      }
    }
    if NotCleared(states, run, from, end, Fact.Acked(x)) {
      forall k | from <= k < end && run[k].Evict?
        ensures !InOldest(states[k], run[k].k, x)
      {
        assert !Clears(states[k], run[k], Fact.Acked(x));
      }
    }
  }

  // ── The guarantee ──

  // A crash now is followed by some recovery, and every recovery stores the id.
  ghost predicate ComesBack(d: nat, s: System, x: nat)
    requires 0 < d
  {
    Found(d, s) && forall order, log :: CanComeBack(d, s, order, log) ==> Stored(CameBack(d, s, order, log).node.mem, x)
  }

  // If every catalog write found all promised vectors in committed snapshots, then at every moment
  // every promised vector is stored if the node is up; and it comes back from a crash at that
  // moment if the collection was announced by then.
  lemma NoPromiseIsBroken(d: nat, catalog: Catalog, states: seq<System>, run: seq<Action>, end: nat, x: nat)
    requires 0 < d && History(d, states, run) && StartsNew(catalog, states[0]) && end <= |run|
    requires CanRun(d, Created(catalog), run[..end]) && SafeCatalogs(d, Created(catalog), run[..end])
    requires Promised(states, run, end, x)
    ensures states[end].node.Up? ==> Stored(states[end].node.mem, x)
    ensures Announced(catalog, run[..end]) ==> ComesBack(d, states[end], x)
  {
    hide Promised, Enabled, Apply, SafeCatalogs, CanRun, Stored, Announced, Created;
    var s := states[end];
    AckedIffPromised(d, catalog, states, run, end, x);
    HistoryRuns(d, states, run, end);
    NothingAcknowledgedIsLost(d, catalog, run[..end]);
    StoredAtEnd(d, Created(catalog), run[..end]);
    SurvivesIff(d, catalog, run[..end]);
    if Announced(catalog, run[..end]) {
      SomeRecovery(d, s);
    }
  }

  lemma {:induction false} StoredAtEnd(d: nat, s: System, run: seq<Action>)
    requires 0 < d && CanRun(d, s, run) && AlwaysStored(d, s, run)
    ensures AckedStored(After(d, s, run))
    decreases |run|
  {
    hide AckedStored, Enabled, Apply;
    if run != [] {
      StoredAtEnd(d, Apply(d, s, run[0]), run[1..]);
    }
  }

  lemma SomeRecovery(d: nat, s: System)
    requires 0 < d && Survives(d, s)
    ensures Found(d, s)
  {
    hide CanComeBack, CameBack;
    var order, log :| BringsBack(d, s, order, log);
  }
}
