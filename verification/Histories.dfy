// What a run leaves behind, read off its actions: which log entries, snapshot files, pointers and
// acknowledgements there are is decided by the last action about each.
module Histories {
  import opened Options
  import opened TimeBucket
  import opened BucketChanges
  import opened Protocol
  import opened Durability
  import opened Runs

  // ── Histories ──

  // The states a run passes through, the first and the last included.
  ghost predicate History(d: nat, states: seq<System>, run: seq<Action>)
    requires 0 < d
  {
    && |states| == |run| + 1
    && forall i :: 0 <= i < |run| ==> Enabled(states[i], run[i]) && states[i + 1] == Apply(d, states[i], run[i])
  }

  // Every run has one history, which passes through what its prefixes lead to.
  lemma {:induction false} RunHasHistory(d: nat, s: System, run: seq<Action>) returns (states: seq<System>)
    requires 0 < d && CanRun(d, s, run)
    ensures History(d, states, run) && states[0] == s && states[|run|] == After(d, s, run)
    decreases |run|
  {
    hide Enabled, Apply;
    if run == [] {
      states := [s];
    } else {
      var rest := RunHasHistory(d, Apply(d, s, run[0]), run[1..]);
      states := [s] + rest;
      forall i | 0 <= i < |run|
        ensures Enabled(states[i], run[i]) && states[i + 1] == Apply(d, states[i], run[i])
      {
        if i > 0 {
          assert Enabled(rest[i - 1], run[1..][i - 1]) && rest[i] == Apply(d, rest[i - 1], run[1..][i - 1]);
        }
      }
    }
  }

  lemma {:induction false} HistoryRuns(d: nat, states: seq<System>, run: seq<Action>, end: nat)
    requires 0 < d && History(d, states, run) && end <= |run|
    ensures CanRun(d, states[0], run[..end]) && After(d, states[0], run[..end]) == states[end]
    decreases end
  {
    hide Enabled, Apply;
    if end > 0 {
      HistoryRuns(d, states, run, end - 1);
      AfterSnoc(d, states[0], run[..end - 1], run[end - 1]);
      assert run[..end] == run[..end - 1] + [run[end - 1]];
    }
  }

  // ── What actions write ──

  // Something that may be so at one moment and not at another.
  datatype Fact =
    | InLog(n: nat, batch: seq<Entry>) | Snapshot(key: SnapKey, ids: seq<nat>) | HasFile(key: SnapKey, file: File)
    | Pointer(bucket: nat, snap: nat) | Pending(n: nat, batch: seq<Entry>) | Local(n: nat, batch: seq<Entry>)
    | Acked(id: nat) | Published(mark: nat) | CycleMark(mark: nat) | InCatalog(mark: nat) | Uploaded(n: nat)
    | InMemory(id: nat) | Known(id: nat)

  ghost predicate Holds(s: System, f: Fact) {
    match f
    case InLog(n, batch) => n in s.blob.wal && s.blob.wal[n] == batch
    case Snapshot(key, ids) => key in s.blob.snaps && s.blob.snaps[key].ids == ids
    case HasFile(key, file) => key in s.blob.snaps && file in s.blob.snaps[key].have
    case Pointer(b, snap) => b in s.blob.metas && s.blob.metas[b].snap == snap
    case Pending(n, batch) => s.node.Up? && n in s.node.pending && s.node.pending[n] == batch
    case Local(n, batch) => s.node.Up? && n in s.node.local && s.node.local[n] == batch
    case Acked(x) => x in s.acked
    case Published(mark) => s.blob.coll == Some(mark)
    case CycleMark(mark) => InPhase(s) && s.node.cycle.value.high == mark
    case InCatalog(mark) => 0 < mark && s.blob.catalog == Lists(mark)
    case Uploaded(n) => 0 < n && s.node.Up? && s.node.uploaded == n
    case InMemory(x) => s.node.Up? && Stored(s.node.mem, x)
    case Known(x) => s.node.Up? && x in s.node.mem.known
  }

  // A committed snapshot holds the id, or a log entry above the mark has it.
  ghost predicate InBlob(s: System, x: nat) {
    Mark(s.blob).Some? && Durable(P(s), s.blob.wal, Mark(s.blob).value, x)
  }

  // The live bucket a cycle is at holds `ids`.
  ghost predicate AtBucket(s: System, b: nat, ids: seq<nat>) {
    OnBucket(s) && Bucket0(s) == b && At(s.node.mem, b).Some? && At(s.node.mem, b).value.ids == ids
  }

  ghost predicate UploadingTo(s: System, key: SnapKey) {
    && OnBucket(s) && Bucket0(s) == key.bucket
    && s.node.cycle.value.phase.Uploading? && s.node.cycle.value.phase.snap == key.snap
  }

  // The action inserts a batch under number `n`, or recovers up to number `n`.
  ghost predicate Gives(s: System, a: Action, n: nat) {
    match a
    case Insert(_) => s.node.Up? && s.node.next == n
    case Recover(_, log) => Mark(s.blob).Some? && n == if log == [] then Mark(s.blob).value else log[|log| - 1]
    case _ => false
  }

  // The action makes it so.
  ghost predicate Sets(s: System, a: Action, f: Fact) {
    match f
    case InLog(n, batch) => a == PutWal(n) && Holds(s, Local(n, batch))
    case Snapshot(key, ids) => a.Capture? && a.snap == key.snap && AtBucket(s, key.bucket, ids)
    case HasFile(key, file) => a == UploadFile(file) && UploadingTo(s, key)
    case Pointer(b, snap) => a == CommitPointer && UploadingTo(s, SnapKey(b, snap))
    case Pending(n, batch) => a == Insert(batch) && s.node.Up? && s.node.next == n
    case Local(n, batch) => a == Insert(batch) && s.node.Up? && s.node.next == n
    case Acked(x) => a.Ack? && Acknowledges(s, a.n, x)
    case Published(mark) => a == Publish && Holds(s, CycleMark(mark))
    case CycleMark(mark) => a == BeginCycle && s.node.Up? && mark == (if s.node.next == 0 then 0 else s.node.next - 1)
    case InCatalog(mark) => a == WriteCatalog && 0 < mark && s.node.Up? && s.node.next == mark + 1
    case Uploaded(n) => 0 < n && ((a == MarkWal && s.node.Up? && s.node.putting == Some(n))
      || (a.Recover? && Gives(s, a, n)))
    case InMemory(x) =>
      || (a.Insert? && s.node.Up? && x in IdsOf(a.batch) && x !in s.node.mem.known) || (a.Recover? && InBlob(s, x))
    case Known(x) => (a.Insert? && x in IdsOf(a.batch)) || (a.Recover? && InBlob(s, x))
  }

  // The batch pending under `n` has this id, and it is stored.
  ghost predicate Acknowledges(s: System, n: nat, x: nat) {
    s.node.Up? && n in s.node.pending && x in IdsOf(s.node.pending[n]) && Stored(s.node.mem, x)
  }

  // The id is in one of the `k` oldest buckets.
  ghost predicate InOldest(s: System, k: nat, x: nat) {
    s.node.Up? && exists i ::
      0 <= i < |s.node.mem.buckets| && |s.node.mem.buckets| - k <= i && x in s.node.mem.buckets[i].ids
  }

  // The action ends it, unless it makes it so.
  ghost predicate Clears(s: System, a: Action, f: Fact) {
    match f
    case InLog(n, _) => a == Prune(n) || a == PutWal(n)
    case Snapshot(_, _) => false
    case HasFile(key, file) =>
      || (a == CleanFile(key.snap, file) && OnBucket(s) && Bucket0(s) == key.bucket)
      || a == SweepFile(key.bucket, key.snap, file)
    case Pointer(b, _) => (a == CommitPointer && OnBucket(s) && Bucket0(s) == b) || a == SweepPointer(b)
    case Pending(n, _) => a == Ack(n) || a == Crash || (a.Insert? && s.node.Up? && s.node.next == n)
    case Local(n, _) =>
      || (a == MarkWal && s.node.Up? && s.node.putting == Some(n))
      || a == Crash || (a.Insert? && s.node.Up? && s.node.next == n)
    case Acked(x) => a.Evict? && InOldest(s, a.k, x)
    case Published(_) => a == Publish
    case CycleMark(_) => a == Abandon || a == EndCycle || a == Crash
    case InCatalog(_) => a == WriteCatalog
    case Uploaded(_) => a == MarkWal || a == Crash
    case InMemory(x) => a == Crash || (a.Evict? && InOldest(s, a.k, x))
    case Known(_) => a == Crash
  }

  // Some action made it so, and none has ended it since.
  ghost predicate SetSince(states: seq<System>, run: seq<Action>, end: nat, f: Fact)
    requires end <= |run| < |states|
  {
    exists i :: 0 <= i < end && Sets(states[i], run[i], f) && NotCleared(states, run, i + 1, end, f)
  }

  ghost predicate NotCleared(states: seq<System>, run: seq<Action>, from: nat, end: nat, f: Fact)
    requires end <= |run| < |states|
  {
    forall k :: from <= k < end ==> !Clears(states[k], run[k], f)
  }

  // ── One action ──

  lemma WalSame(d: nat, s: System, a: Action)
    requires 0 < d && Enabled(s, a) && !a.PutWal? && !a.Prune?
    ensures Apply(d, s, a).blob.wal == s.blob.wal
  {
    hide InsertAll, StoredOf, At, DropOldest, MarkCleanIf, Recovered, Least, Complete, MayUpload;
  }

  lemma WalStep(d: nat, s: System, a: Action, f: Fact)
    requires 0 < d && Enabled(s, a) && f.InLog?
    ensures Holds(Apply(d, s, a), f) <==> Sets(s, a, f) || (Holds(s, f) && !Clears(s, a, f))
  {
    if a.PutWal? || a.Prune? {
      WalWrite(d, s, a, f);
    } else {
      hide Enabled, Apply;
      WalSame(d, s, a);
    }
  }

  lemma WalWrite(d: nat, s: System, a: Action, f: Fact)
    requires 0 < d && Enabled(s, a) && f.InLog? && (a.PutWal? || a.Prune?)
    ensures Holds(Apply(d, s, a), f) <==> Sets(s, a, f) || (Holds(s, f) && !Clears(s, a, f))
  {
  }

  // Snapshots are staged, and their files uploaded and deleted, by these four actions only.
  ghost predicate WritesSnaps(a: Action) {
    a.Capture? || a.UploadFile? || a.CleanFile? || a.SweepFile?
  }

  lemma SnapsSame(d: nat, s: System, a: Action)
    requires 0 < d && Enabled(s, a) && !WritesSnaps(a)
    ensures Apply(d, s, a).blob.snaps == s.blob.snaps
  {
    hide InsertAll, StoredOf, At, DropOldest, MarkCleanIf, Recovered, Least, Complete, MayUpload;
  }

  lemma SnapStep(d: nat, s: System, a: Action, f: Fact)
    requires 0 < d && Enabled(s, a) && (f.Snapshot? || f.HasFile?)
    ensures Holds(Apply(d, s, a), f) <==> Sets(s, a, f) || (Holds(s, f) && !Clears(s, a, f))
  {
    if a.Capture? {
      SnapCapture(d, s, a, f);
    } else if WritesSnaps(a) {
      SnapWrite(d, s, a, f);
    } else {
      hide Enabled, Apply;
      SnapsSame(d, s, a);
    }
  }

  lemma SnapCapture(d: nat, s: System, a: Action, f: Fact)
    requires 0 < d && Enabled(s, a) && (f.Snapshot? || f.HasFile?) && a.Capture?
    ensures Holds(Apply(d, s, a), f) <==> Sets(s, a, f) || (Holds(s, f) && !Clears(s, a, f))
  {
    hide At;
  }

  lemma SnapWrite(d: nat, s: System, a: Action, f: Fact)
    requires 0 < d && Enabled(s, a) && (f.Snapshot? || f.HasFile?) && WritesSnaps(a) && !a.Capture?
    ensures Holds(Apply(d, s, a), f) <==> Sets(s, a, f) || (Holds(s, f) && !Clears(s, a, f))
  {
    hide At, Complete, MayUpload;
  }

  lemma PointersSame(d: nat, s: System, a: Action)
    requires 0 < d && Enabled(s, a) && a != CommitPointer && !a.SweepPointer?
    ensures Apply(d, s, a).blob.metas == s.blob.metas
  {
    hide InsertAll, StoredOf, At, DropOldest, MarkCleanIf, Recovered, Least, Complete, MayUpload;
  }

  lemma PointerStep(d: nat, s: System, a: Action, f: Fact)
    requires 0 < d && Enabled(s, a) && f.Pointer?
    ensures Holds(Apply(d, s, a), f) <==> Sets(s, a, f) || (Holds(s, f) && !Clears(s, a, f))
  {
    if a == CommitPointer || a.SweepPointer? {
      PointerWrite(d, s, a, f);
    } else {
      hide Enabled, Apply;
      PointersSame(d, s, a);
    }
  }

  lemma PointerWrite(d: nat, s: System, a: Action, f: Fact)
    requires 0 < d && Enabled(s, a) && f.Pointer? && (a == CommitPointer || a.SweepPointer?)
    ensures Holds(Apply(d, s, a), f) <==> Sets(s, a, f) || (Holds(s, f) && !Clears(s, a, f))
  {
    hide At, Complete;
  }

  ghost predicate WritesBatches(a: Action) {
    a.Insert? || a.MarkWal? || a.Ack? || a.Crash? || a.Recover?
  }

  lemma BatchesSame(d: nat, s: System, a: Action)
    requires 0 < d && Enabled(s, a) && !WritesBatches(a)
    ensures var t := Apply(d, s, a);
      if s.node.Up? then t.node.Up? && t.node.pending == s.node.pending && t.node.local == s.node.local
        else t.node.Down?
  {
    hide InsertAll, StoredOf, At, DropOldest, MarkCleanIf, Recovered, Least, Complete, MayUpload;
  }

  lemma NodeStep(d: nat, s: System, a: Action, f: Fact)
    requires 0 < d && Enabled(s, a) && (f.Pending? || f.Local?)
    ensures Holds(Apply(d, s, a), f) <==> Sets(s, a, f) || (Holds(s, f) && !Clears(s, a, f))
  {
    if WritesBatches(a) {
      BatchWrite(d, s, a, f);
    } else {
      hide Enabled, Apply;
      BatchesSame(d, s, a);
    }
  }

  lemma BatchWrite(d: nat, s: System, a: Action, f: Fact)
    requires 0 < d && Enabled(s, a) && (f.Pending? || f.Local?) && WritesBatches(a)
    ensures Holds(Apply(d, s, a), f) <==> Sets(s, a, f) || (Holds(s, f) && !Clears(s, a, f))
  {
    hide InsertAll, StoredOf, Recovered, Least, RestoreOrder, ReplayOrder;
  }

  lemma AckedStep(d: nat, s: System, a: Action, f: Fact)
    requires 0 < d && Enabled(s, a) && f.Acked?
    ensures Holds(Apply(d, s, a), f) <==> Sets(s, a, f) || (Holds(s, f) && !Clears(s, a, f))
  {
    hide InsertAll, At, DropOldest, MarkCleanIf, Recovered, Least, Complete, MayUpload;
  }

  lemma MarkSame(d: nat, s: System, a: Action)
    requires 0 < d && Enabled(s, a) && a != Publish
    ensures Apply(d, s, a).blob.coll == s.blob.coll
  {
    hide InsertAll, StoredOf, At, DropOldest, MarkCleanIf, Recovered, Least, Complete, MayUpload;
  }

  // A cycle begins and ends by these actions only, and its mark stays.
  ghost predicate BoundsCycle(a: Action) {
    a == BeginCycle || a == Abandon || a == EndCycle || a == Crash || a.Recover?
  }

  lemma CycleSame(d: nat, s: System, a: Action, mark: nat)
    requires 0 < d && Enabled(s, a) && !BoundsCycle(a)
    ensures Holds(Apply(d, s, a), CycleMark(mark)) <==> Holds(s, CycleMark(mark))
  {
    hide InsertAll, StoredOf, At, DropOldest, MarkCleanIf, Recovered, Least, Complete, MayUpload;
  }

  lemma MarkStep(d: nat, s: System, a: Action, f: Fact)
    requires 0 < d && Enabled(s, a) && f.Published?
    ensures Holds(Apply(d, s, a), f) <==> Sets(s, a, f) || (Holds(s, f) && !Clears(s, a, f))
  {
    hide AllCommitted;
    if a != Publish {
      hide Enabled, Apply;
      MarkSame(d, s, a);
    }
  }

  lemma CycleStep(d: nat, s: System, a: Action, f: Fact)
    requires 0 < d && Enabled(s, a) && f.CycleMark?
    ensures Holds(Apply(d, s, a), f) <==> Sets(s, a, f) || (Holds(s, f) && !Clears(s, a, f))
  {
    if a == Crash || a.Recover? {
      NoCycle(d, s, a);
      hide Enabled, Apply;
    } else if BoundsCycle(a) {
      CycleWrite(d, s, a, f);
    } else {
      hide Enabled, Apply;
      CycleSame(d, s, a, f.mark);
    }
  }

  lemma NoCycle(d: nat, s: System, a: Action)
    requires 0 < d && Enabled(s, a) && (a == Crash || a.Recover?)
    ensures !InPhase(Apply(d, s, a)) && (a.Recover? ==> s.node.Down?)
  {
    hide Recovered, RestoreOrder, ReplayOrder;
  }

  lemma CycleWrite(d: nat, s: System, a: Action, f: Fact)
    requires 0 < d && Enabled(s, a) && f.CycleMark? && (a == BeginCycle || a == Abandon || a == EndCycle)
    ensures Holds(Apply(d, s, a), f) <==> Sets(s, a, f) || (Holds(s, f) && !Clears(s, a, f))
  {
    hide AllCommitted, Done, Protocol.Numbers;
  }

  lemma CatalogStep(d: nat, s: System, a: Action, f: Fact)
    requires 0 < d && Enabled(s, a) && f.InCatalog?
    ensures Holds(Apply(d, s, a), f) <==> Sets(s, a, f) || (Holds(s, f) && !Clears(s, a, f))
  {
    if a != WriteCatalog {
      CatalogSame(d, s, a);
      hide Enabled, Apply;
    }
  }

  lemma CatalogSame(d: nat, s: System, a: Action)
    requires 0 < d && Enabled(s, a) && a != WriteCatalog
    ensures Apply(d, s, a).blob.catalog == s.blob.catalog
  {
    MarkAfterStep(d, s, a);
  }

  lemma UploadedSame(d: nat, s: System, a: Action)
    requires 0 < d && Enabled(s, a) && a != MarkWal && a != Crash && !a.Recover?
    ensures var t := Apply(d, s, a); if s.node.Up? then t.node.Up? && t.node.uploaded == s.node.uploaded
      else t.node.Down?
  {
    hide InsertAll, StoredOf, At, DropOldest, MarkCleanIf, Recovered, Least, Complete, MayUpload;
  }

  lemma UploadedStep(d: nat, s: System, a: Action, f: Fact)
    requires 0 < d && Enabled(s, a) && f.Uploaded?
    ensures Holds(Apply(d, s, a), f) <==> Sets(s, a, f) || (Holds(s, f) && !Clears(s, a, f))
  {
    if a == MarkWal || a == Crash {
      hide Gives;
    } else if a.Recover? {
      UploadedByRecovery(d, s, a, f.n);
    } else {
      UploadedSame(d, s, a);
      hide Enabled, Apply;
    }
  }

  lemma UploadedByRecovery(d: nat, s: System, a: Action, n: nat)
    requires 0 < d && Enabled(s, a) && a.Recover?
    ensures s.node.Down?
    ensures var t := Apply(d, s, a); t.node.Up? && (t.node.uploaded == n <==> Gives(s, a, n))
  {
    hide Recovered, RestoreOrder;
    if a.log != [] {
      assert a.log[|a.log| - 1] in a.log;
    }
  }

  ghost predicate WritesMemory(a: Action) {
    a.Insert? || a.Evict? || a == MarkClean || a == Crash || a.Recover?
  }

  lemma MemorySame(d: nat, s: System, a: Action)
    requires 0 < d && Enabled(s, a) && !WritesMemory(a)
    ensures var t := Apply(d, s, a); if s.node.Up? then t.node.Up? && t.node.mem == s.node.mem else t.node.Down?
  {
    hide StoredOf, At, Least, Complete, MayUpload;
  }

  lemma MemoryStep(d: nat, s: System, a: Action, f: Fact)
    requires 0 < d && Sound(s) && Enabled(s, a) && (f.InMemory? || f.Known?)
    ensures Holds(Apply(d, s, a), f) <==> Sets(s, a, f) || (Holds(s, f) && !Clears(s, a, f))
  {
    hide Sound, Enabled, Apply, Holds, Sets, Clears;
    match a
    case Insert(batch) => MemoryInsert(d, s, batch, f);
    case Evict(k) => MemoryEvict(d, s, k, f);
    case MarkClean => MemoryMark(d, s, f);
    case Crash => MemoryLost(d, s, f);
    case Recover(order, log) => MemoryRecover(d, s, order, log, f);
    case _ => MemoryOther(d, s, a, f);
  }

  lemma MemoryLost(d: nat, s: System, f: Fact)
    requires 0 < d && (f.InMemory? || f.Known?)
    ensures Holds(Apply(d, s, Crash), f) <==> Sets(s, Crash, f) || (Holds(s, f) && !Clears(s, Crash, f))
  {
  }

  lemma MemoryOther(d: nat, s: System, a: Action, f: Fact)
    requires 0 < d && Enabled(s, a) && !WritesMemory(a) && (f.InMemory? || f.Known?)
    ensures Holds(Apply(d, s, a), f) <==> Sets(s, a, f) || (Holds(s, f) && !Clears(s, a, f))
  {
    hide Enabled, Apply, Stored;
    MemorySame(d, s, a);
  }

  lemma SoundKept(s: System)
    requires Sound(s)
    ensures PointersComplete(s.blob.metas, s.blob.snaps) && PointedApart(P(s))
    ensures s.node.Up? ==> WellKept(s.node.mem)
  {
    hide PointersComplete, PointedApart, WellKept, HeldAt, SequencedAt, CycleOk, PointedMatch, CleanMatch, AckedDurable;
  }

  lemma MemoryInsert(d: nat, s: System, batch: seq<Entry>, f: Fact)
    requires 0 < d && Sound(s) && Enabled(s, Insert(batch)) && (f.InMemory? || f.Known?)
    ensures Holds(Apply(d, s, Insert(batch)), f)
      <==> Sets(s, Insert(batch), f) || (Holds(s, f) && !Clears(s, Insert(batch), f))
  {
    hide Sound, Stored, IdsOf, WellKept, PointersComplete, PointedApart, InsertAll;
    SoundKept(s);
    InsertAllKeeps(d, s.node.mem, batch);
  }

  lemma MemoryEvict(d: nat, s: System, k: nat, f: Fact)
    requires 0 < d && Sound(s) && Enabled(s, Evict(k)) && (f.InMemory? || f.Known?)
    ensures Holds(Apply(d, s, Evict(k)), f) <==> Sets(s, Evict(k), f) || (Holds(s, f) && !Clears(s, Evict(k), f))
  {
    hide Sound, Stored, IdsOf, WellKept, PointersComplete, PointedApart, DropOldest, HeldByOldest;
    SoundKept(s);
    EvictionKeeps(s.node.mem, k);
  }

  lemma MemoryMark(d: nat, s: System, f: Fact)
    requires 0 < d && Sound(s) && Enabled(s, MarkClean) && (f.InMemory? || f.Known?)
    ensures Holds(Apply(d, s, MarkClean), f) <==> Sets(s, MarkClean, f) || (Holds(s, f) && !Clears(s, MarkClean, f))
  {
    hide Sound, Stored, IdsOf, WellKept, PointersComplete, PointedApart, MarkCleanIf;
    SoundKept(s);
    StoredAfterMark(s.node.mem, Bucket0(s), s.node.cycle.value.phase.version);
  }

  lemma MemoryRecover(d: nat, s: System, order: seq<nat>, log: seq<nat>, f: Fact)
    requires 0 < d && Sound(s) && Enabled(s, Recover(order, log)) && (f.InMemory? || f.Known?)
    ensures Holds(Apply(d, s, Recover(order, log)), f)
      <==> Sets(s, Recover(order, log), f) || (Holds(s, f) && !Clears(s, Recover(order, log), f))
  {
    hide Sound, Stored, WellKept, PointersComplete, PointedApart, Recovered, Durable, RestoreOrder, ReplayOrder;
    SoundKept(s);
    RecoveredStores(d, s.blob, order, log, Mark(s.blob).value, f.id);
    RecoveredKnows(d, s.blob, order, log, Mark(s.blob).value, f.id);
  }

  // What recovery knows is what it stores.
  lemma RecoveredKnows(d: nat, b: Blob, order: seq<nat>, log: seq<nat>, mark: nat, x: nat)
    requires 0 < d && PointersComplete(b.metas, b.snaps) && PointedApart(Pointed(b.metas, b.snaps))
    requires RestoreOrder(b, order) && ReplayOrder(b.wal, mark, log)
    ensures var t := Recovered(d, b, order, log); x in t.known <==> Stored(t, x)
  {
    hide WellKept, At, Stored, IdsOf, Complete, PointersComplete, PointedApart, RestoreAll, Replay, KnownStored;
    var r := RestoreAll(b, order);
    RestoresAll(b, order);
    var entries := Logged(b.wal, log);
    ReplayGrows(d, r, entries);
    ReplayStores(d, r, entries);
    KnownIsStored(Recovered(d, b, order, log), x);
  }

  lemma KnownIsStored(t: State, x: nat)
    requires WellKept(t) && KnownStored(t)
    ensures x in t.known <==> Stored(t, x)
  {
    hide WellKept;
    StoredAt(t, x);
  }

  lemma FactStep(d: nat, s: System, a: Action, f: Fact)
    requires 0 < d && Sound(s) && Enabled(s, a)
    ensures Holds(Apply(d, s, a), f) <==> Sets(s, a, f) || (Holds(s, f) && !Clears(s, a, f))
  {
    hide Sound, Enabled, Apply, Holds, Sets, Clears;
    match f
    case InLog(_, _) => WalStep(d, s, a, f);
    case Snapshot(_, _) => SnapStep(d, s, a, f);
    case HasFile(_, _) => SnapStep(d, s, a, f);
    case Pointer(_, _) => PointerStep(d, s, a, f);
    case Pending(_, _) => NodeStep(d, s, a, f);
    case Local(_, _) => NodeStep(d, s, a, f);
    case Acked(_) => AckedStep(d, s, a, f);
    case Published(_) => MarkStep(d, s, a, f);
    case CycleMark(_) => CycleStep(d, s, a, f);
    case InCatalog(_) => CatalogStep(d, s, a, f);
    case Uploaded(_) => UploadedStep(d, s, a, f);
    case InMemory(_) => MemoryStep(d, s, a, f);
    case Known(_) => MemoryStep(d, s, a, f);
  }

  // ── Whole runs ──

  ghost predicate StartsNew(catalog: Catalog, s: System) {
    AtCreation(catalog) && s == Created(catalog)
  }

  lemma NothingAtFirst(catalog: Catalog, f: Fact)
    requires AtCreation(catalog)
    ensures !Holds(Created(catalog), f)
  {
  }

  // At every moment of every run, log entries, snapshots and their files, pointers, pending and
  // local batches and acknowledgements are exactly what the last actions about them made of them.
  lemma {:induction false} WrittenSince(d: nat, catalog: Catalog, states: seq<System>, run: seq<Action>, end: nat,
      f: Fact)
    requires 0 < d && History(d, states, run) && StartsNew(catalog, states[0]) && end <= |run|
    ensures Holds(states[end], f) <==> SetSince(states, run, end, f)
    decreases end
  {
    hide Sound, Enabled, Apply, Holds, Sets, Clears;
    if end == 0 {
      NothingAtFirst(catalog, f);
    } else {
      var e := end - 1;
      SoundThroughout(d, catalog, states, run, e);
      WrittenSince(d, catalog, states, run, e, f);
      FactStep(d, states[e], run[e], f);
      SinceStep(states, run, e, f);
    }
  }

  lemma SoundThroughout(d: nat, catalog: Catalog, states: seq<System>, run: seq<Action>, e: nat)
    requires 0 < d && History(d, states, run) && StartsNew(catalog, states[0]) && e <= |run|
    ensures Sound(states[e])
  {
    hide Sound, Enabled, Apply, Created, CanRun, After;
    CreatedWhole(catalog);
    HistoryRuns(d, states, run, e);
    RunKeepsSound(d, states[0], run[..e]);
  }

  lemma SinceStep(states: seq<System>, run: seq<Action>, e: nat, f: Fact)
    requires e < |run| < |states|
    ensures SetSince(states, run, e + 1, f) <==>
      Sets(states[e], run[e], f) || (SetSince(states, run, e, f) && !Clears(states[e], run[e], f))
  {
    hide Sets, Clears;
    assert NotCleared(states, run, e + 1, e + 1, f);
    if i :| 0 <= i < e && Sets(states[i], run[i], f) && NotCleared(states, run, i + 1, e, f) {
      assert !Clears(states[e], run[e], f) ==> NotCleared(states, run, i + 1, e + 1, f);
    }
    if i :| 0 <= i < e + 1 && Sets(states[i], run[i], f) && NotCleared(states, run, i + 1, e + 1, f) {
      if i < e {
        SinceBefore(states, run, i, e, f);
      }
    }
  }

  lemma SinceBefore(states: seq<System>, run: seq<Action>, i: nat, e: nat, f: Fact)
    requires i < e < |run| < |states| && NotCleared(states, run, i + 1, e + 1, f)
    ensures NotCleared(states, run, i + 1, e, f) && !Clears(states[e], run[e], f)
  {
  }

  // ── Batch numbers ──

  // The last number given before a moment: that of the last batch inserted, or, right after a
  // recovery, of the last log entry replayed, or the mark; 0 at first.
  ghost predicate LastNumber(states: seq<System>, run: seq<Action>, end: nat, n: nat)
    requires end <= |run| < |states|
  {
    || (n == 0 && NoNumbers(run, 0, end))
    || exists k :: 0 <= k < end && Gives(states[k], run[k], n) && NoNumbers(run, k + 1, end)
  }

  ghost predicate NoNumbers(run: seq<Action>, from: nat, end: nat)
    requires end <= |run|
  {
    forall k :: from <= k < end ==> !run[k].Insert? && !run[k].Recover?
  }

  lemma NextSame(d: nat, s: System, a: Action)
    requires 0 < d && Enabled(s, a) && !a.Insert? && !a.Recover?
    ensures var t := Apply(d, s, a); t.node.Up? ==> s.node.Up? && t.node.next == s.node.next
  {
    hide InsertAll, StoredOf, At, DropOldest, MarkCleanIf, Recovered, Least, Complete, MayUpload;
  }

  lemma NumberGiven(d: nat, s: System, a: Action)
    requires 0 < d && Enabled(s, a) && (a.Insert? || a.Recover?)
    ensures var t := Apply(d, s, a); t.node.Up? && t.node.next > 0 && Gives(s, a, t.node.next - 1)
  {
    hide InsertAll, Recovered, RestoreOrder;
    if a.Recover? && a.log != [] {
      assert a.log[|a.log| - 1] in a.log;
    }
  }

  lemma {:induction false} LastNumberGiven(d: nat, catalog: Catalog, states: seq<System>, run: seq<Action>, end: nat)
    requires 0 < d && History(d, states, run) && StartsNew(catalog, states[0]) && end <= |run|
    ensures states[end].node.Up? ==>
      states[end].node.next > 0 && LastNumber(states, run, end, states[end].node.next - 1)
    decreases end
  {
    hide Enabled, Apply, Gives;
    if end > 0 {
      var e := end - 1;
      LastNumberGiven(d, catalog, states, run, e);
      if run[e].Insert? || run[e].Recover? {
        NumberGiven(d, states[e], run[e]);
        assert NoNumbers(run, e + 1, end);
      } else {
        NextSame(d, states[e], run[e]);
        if states[end].node.Up? {
          LastNumberStays(states, run, e, states[end].node.next - 1);
        }
      }
    }
  }

  lemma LastNumberStays(states: seq<System>, run: seq<Action>, e: nat, n: nat)
    requires e < |run| < |states| && LastNumber(states, run, e, n) && !run[e].Insert? && !run[e].Recover?
    ensures LastNumber(states, run, e + 1, n)
  {
    if k :| 0 <= k < e && Gives(states[k], run[k], n) && NoNumbers(run, k + 1, e) {
      assert NoNumbers(run, k + 1, e + 1);
    }
  }

  // The mark the collection stands at was published by a cycle, and is the number of the last
  // batch inserted before that cycle began.
  lemma PublishedMark(d: nat, catalog: Catalog, states: seq<System>, run: seq<Action>, end: nat, mark: nat)
    requires 0 < d && History(d, states, run) && StartsNew(catalog, states[0]) && end <= |run|
    ensures states[end].blob.coll == Some(mark) <==> PublishedBy(states, run, end, mark)
  {
    hide Enabled, Apply, LastNumber, Sets, Clears;
    WrittenSince(d, catalog, states, run, end, Published(mark));
    if states[end].blob.coll == Some(mark) {
      var j :| 0 <= j < end && Sets(states[j], run[j], Published(mark))
        && NotCleared(states, run, j + 1, end, Published(mark));
      PublishFacts(states, run, j, end, mark);
      var i := CycleBefore(d, catalog, states, run, j, mark);
      assert PublishedIn(run, i, j, end);
    }
    if i, j :| 0 <= i < j < end && PublishedIn(run, i, j, end) && LastNumber(states, run, i, mark) {
      PublishesNumber(d, catalog, states, run, i, j, end, mark);
      NoLaterPublish(states, run, j, end, mark);
    }
  }

  lemma PublishFacts(states: seq<System>, run: seq<Action>, j: nat, end: nat, mark: nat)
    requires j < end <= |run| < |states| && Sets(states[j], run[j], Published(mark))
    requires NotCleared(states, run, j + 1, end, Published(mark))
    ensures run[j] == Publish && Holds(states[j], CycleMark(mark)) && forall k :: j < k < end ==> run[k] != Publish
  {
    forall k | j < k < end
      ensures run[k] != Publish
    {
      assert !Clears(states[k], run[k], Published(mark));
    }
  }

  lemma NoLaterPublish(states: seq<System>, run: seq<Action>, j: nat, end: nat, mark: nat)
    requires j < end <= |run| < |states| && run[j] == Publish && Holds(states[j], CycleMark(mark))
    requires forall k :: j < k < end ==> run[k] != Publish
    ensures SetSince(states, run, end, Published(mark))
  {
    assert Sets(states[j], run[j], Published(mark)) && NotCleared(states, run, j + 1, end, Published(mark));
  }

  // A running cycle began with the last such step, with the last number before it as its mark.
  lemma CycleBefore(d: nat, catalog: Catalog, states: seq<System>, run: seq<Action>, j: nat, mark: nat) returns (i: nat)
    requires 0 < d && History(d, states, run) && StartsNew(catalog, states[0]) && j < |run|
    requires Holds(states[j], CycleMark(mark))
    ensures i < j && run[i] == BeginCycle && LastNumber(states, run, i, mark)
    ensures forall k :: i < k < j ==> run[k] != BeginCycle
  {
    hide Enabled, Apply, LastNumber, Sets, Clears, Holds;
    var f := CycleMark(mark);
    WrittenSince(d, catalog, states, run, j, f);
    i :| 0 <= i < j && Sets(states[i], run[i], f) && NotCleared(states, run, i + 1, j, f);
    CycleBegun(states[i], run[i], mark);
    LastNumberGiven(d, catalog, states, run, i);
    forall k | i < k < j
      ensures run[k] != BeginCycle
    {
      assert NotCleared(states, run, i + 1, k, f);
      WrittenSince(d, catalog, states, run, k, f);
      NotAgain(states[k], run[k], mark);
    }
  }

  lemma CycleBegun(s: System, a: Action, mark: nat)
    requires Sets(s, a, CycleMark(mark))
    ensures a == BeginCycle && s.node.Up? && (s.node.next > 0 ==> mark == s.node.next - 1)
  {
  }

  lemma NotAgain(s: System, a: Action, mark: nat)
    requires Enabled(s, a) && Holds(s, CycleMark(mark))
    ensures a != BeginCycle
  {
  }

  lemma PublishesNumber(d: nat, catalog: Catalog, states: seq<System>, run: seq<Action>, i: nat, j: nat, end: nat,
      mark: nat)
    requires 0 < d && History(d, states, run) && StartsNew(catalog, states[0]) && i < j < end <= |run|
    requires PublishedIn(run, i, j, end) && LastNumber(states, run, i, mark)
    ensures Holds(states[j], CycleMark(mark)) && run[j] == Publish
  {
    hide Apply, LastNumber;
    assert Enabled(states[j], run[j]);
    var high := states[j].node.cycle.value.high;
    hide Enabled;
    var i' := CycleBefore(d, catalog, states, run, j, high);
    OneLastNumber(states, run, i, mark, high);
  }

  lemma OneLastNumber(states: seq<System>, run: seq<Action>, end: nat, m: nat, n: nat)
    requires end <= |run| < |states| && LastNumber(states, run, end, m) && LastNumber(states, run, end, n)
    ensures m == n
  {
  }

  ghost predicate PublishedBy(states: seq<System>, run: seq<Action>, end: nat, mark: nat)
    requires end <= |run| < |states|
  {
    exists i, j :: 0 <= i < j < end && PublishedIn(run, i, j, end) && LastNumber(states, run, i, mark)
  }

  // The cycle that began with step `i` published its mark with step `j`, the last to do so.
  ghost predicate PublishedIn(run: seq<Action>, i: nat, j: nat, end: nat)
    requires i < j < end <= |run|
  {
    && run[i] == BeginCycle && run[j] == Publish
    && (forall k :: i < k < j ==> run[k] != BeginCycle) && forall k :: j < k < end ==> run[k] != Publish
  }
}
