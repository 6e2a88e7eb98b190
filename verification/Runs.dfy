// Whole runs of the durability protocol.
module Runs {
  import opened TimeBucket
  import opened BucketChanges
  import opened Protocol
  import opened Durability
  import opened Sorting
  import opened Listings

  ghost predicate CanRun(d: nat, s: System, run: seq<Action>)
    requires 0 < d
    decreases |run|
  {
    run == [] || (Enabled(s, run[0]) && CanRun(d, Apply(d, s, run[0]), run[1..]))
  }

  ghost function After(d: nat, s: System, run: seq<Action>): System
    requires 0 < d && CanRun(d, s, run)
    decreases |run|
  {
    if run == [] then s else After(d, Apply(d, s, run[0]), run[1..])
  }

  // Every catalog write of the run finds all promised vectors in committed snapshots.
  ghost predicate SafeCatalogs(d: nat, s: System, run: seq<Action>)
    requires 0 < d && CanRun(d, s, run)
    decreases |run|
  {
    run == [] || (
      && (run[0] == WriteCatalog ==> CatalogSafe(s))
      && SafeCatalogs(d, Apply(d, s, run[0]), run[1..]))
  }

  lemma CreatedOk(catalog: Catalog)
    requires AtCreation(catalog)
    ensures Inv(Created(catalog))
  {
    var s := Created(catalog);
    assert P(s) == map[];
    assert forall b: nat :: At(s.node.mem, b).None?;
  }

  // Every step keeps the invariant; only a catalog write needs a condition.
  lemma StepKeeps(d: nat, s: System, a: Action)
    requires 0 < d && Inv(s) && Enabled(s, a) && (a == WriteCatalog ==> CatalogSafe(s))
    ensures Inv(Apply(d, s, a))
  {
    hide Inv, Enabled, Apply;
    match a
    case Insert(batch) => KeepsInsert(d, s, batch);
    case PutWal(n) => KeepsPutWal(d, s, n);
    case MarkWal => KeepsMarkWal(d, s);
    case Ack(n) => KeepsAck(d, s, n);
    case Evict(k) => KeepsEvict(d, s, k);
    case BeginCycle => KeepsBeginCycle(d, s);
    case CheckBucket => KeepsCheck(d, s);
    case Capture(snap, chunks) => KeepsCapture(d, s, snap, chunks);
    case GiveUp => KeepsGiveUp(d, s);
    case UploadFile(f) => KeepsUploadFile(d, s, f);
    case CommitPointer => KeepsCommitPointer(d, s);
    case MarkClean => KeepsMarkClean(d, s);
    case CleanFile(name, f) => KeepsCleanFile(d, s, name, f);
    case EndClean => KeepsEndClean(d, s);
    case Publish => KeepsPublish(d, s);
    case PublishFails => KeepsPublishFails(d, s);
    case Abandon => KeepsEndOfCycle(d, s, a);
    case Prune(n) => KeepsPrune(d, s, n);
    case EndPrune => KeepsEndPrune(d, s);
    case SweepPointer(b) => KeepsSweepPointer(d, s, b);
    case SweepFile(b, name, f) => KeepsSweepFile(d, s, b, name, f);
    case EndCycle => KeepsEndOfCycle(d, s, a);
    case WriteCatalog => UpWhenWriting(s); CatalogWriteIff(d, s);
    case Crash => KeepsCrash(d, s);
    case Recover(order, log) => KeepsRecover(d, s, order, log);
  }

  lemma UpWhenWriting(s: System)
    requires Enabled(s, WriteCatalog)
    ensures s.node.Up?
  {
  }

  lemma {:induction false} RunKeeps(d: nat, s: System, run: seq<Action>)
    requires 0 < d && Inv(s) && CanRun(d, s, run) && SafeCatalogs(d, s, run)
    ensures Inv(After(d, s, run))
    decreases |run|
  {
    hide Inv, Enabled, Apply, CatalogSafe;
    if run != [] {
      StepKeeps(d, s, run[0]);
      RunKeeps(d, Apply(d, s, run[0]), run[1..]);
    }
  }

  // A crash now can be followed by this recovery.
  ghost predicate CanComeBack(d: nat, s: System, order: seq<nat>, log: seq<nat>)
    requires 0 < d
  {
    Enabled(Apply(d, s, Crash), Recover(order, log))
  }

  ghost function CameBack(d: nat, s: System, order: seq<nat>, log: seq<nat>): (t: System)
    requires 0 < d && CanComeBack(d, s, order, log)
    ensures t.node.Up?
  {
    Apply(d, Apply(d, s, Crash), Recover(order, log))
  }

  // ── When recovery finds the collection ──

  // Some recovery can follow a crash now.
  ghost predicate Found(d: nat, s: System)
    requires 0 < d
  {
    exists order, log :: CanComeBack(d, s, order, log)
  }

  // In any state, recovery finds the collection if and only if there is a mark to start from.
  lemma FoundIffMarked(d: nat, s: System)
    requires 0 < d
    ensures Found(d, s) <==> Mark(s.blob).Some?
  {
    if Mark(s.blob).Some? {
      var mark := Mark(s.blob).value;
      OrdersAreStrict(s.blob.metas);
      var order := CanBeSorted(s.blob.metas.Keys, Older(s.blob.metas));
      OlderOrder(s.blob, order);
      var log := CanBeSorted((set n | n in s.blob.wal && n > mark), Less);
      assert forall i, j :: 0 <= i < j < |log| ==> Less(log[i], log[j]);
      assert CanComeBack(d, s, order, log);
    }
  }

  // What a caller can see of a run: the catalog was uploaded, at creation or later, or there is
  // no catalog and a snapshot cycle published its mark.
  ghost predicate Announced(catalog: Catalog, run: seq<Action>) {
    catalog.Lists? || WriteCatalog in run || (catalog.NoCatalog? && Publish in run)
  }

  lemma {:induction false} MarkIffAnnounced(d: nat, s: System, run: seq<Action>)
    requires 0 < d && CanRun(d, s, run)
    ensures Mark(After(d, s, run).blob).Some? <==> Announced(s.blob.catalog, run) || Mark(s.blob).Some?
    decreases |run|
  {
    hide Enabled, InsertAll, StoredOf, At, DropOldest, MarkCleanIf;
    if run != [] {
      var t := Apply(d, s, run[0]);
      MarkAfterStep(d, s, run[0]);
      MarkIffAnnounced(d, t, run[1..]);
      assert forall a: Action :: a in run <==> a == run[0] || a in run[1..];
    }
  }

  lemma MarkAfterStep(d: nat, s: System, a: Action)
    requires 0 < d && Enabled(s, a)
    ensures var t := Apply(d, s, a);
      && t.blob.catalog == (if a == WriteCatalog then Lists(CurrentSeq(s.node)) else s.blob.catalog)
      && (t.blob.coll.Some? <==> s.blob.coll.Some? || a == Publish)
  {
    hide InsertAll, StoredOf, At, DropOldest, MarkCleanIf, Recovered;
  }

  // ── Without any condition on catalog writes ──

  // The system with only some of its acknowledgements and the catalog mark of a new collection:
  // nothing but recovery reads the catalog.
  ghost function Base(s: System, acked: set<nat>): System {
    s.(acked := acked, blob := s.blob.(catalog := Lists(0)))
  }

  // All of the invariant but the acknowledgements; and with them, if recovery would start low.
  ghost predicate Sound(s: System) {
    Inv(Base(s, {}))
  }

  ghost predicate Whole(s: System) {
    Inv(Base(s, s.acked))
  }

  lemma CreatedWhole(catalog: Catalog)
    requires AtCreation(catalog)
    ensures Whole(Created(catalog)) && Sound(Created(catalog))
  {
    hide Inv;
    CreatedOk(Lists(0));
    assert Base(Created(catalog), {}) == Created(Lists(0));
  }

  lemma FewerAcked(s: System, acked: set<nat>)
    requires Inv(s) && acked <= s.acked
    ensures Inv(s.(acked := acked))
  {
    hide PointersComplete, PointedApart, Durable, Pointed, Evolves, Grows, WellKept, MemOk, SequencedAt, HeldAt,
      CycleOk, Stored;
    if s.node.Up? {
      MemWellKept(s);
      GrowsNot(s.node.mem);
      GrowsEvolves(s.node.mem, s.node.mem);
      GrowsKeepsAcked(s, s.node.mem);
      KeepsMemory(s, s.node.mem, acked);
      assert s.node.(mem := s.node.mem) == s.node;
      assert s.(acked := acked, node := s.node.(mem := s.node.mem)) == s.(acked := acked);
    }
  }

  lemma EnabledInBase(s: System, a: Action, acked: set<nat>)
    requires Enabled(s, a) && !a.Recover?
    ensures Enabled(Base(s, acked), a)
  {
    hide At, Complete, IsFile;
  }

  lemma SameStepOfBase(d: nat, s: System, a: Action, acked: set<nat>)
    requires 0 < d && Enabled(s, a) && !a.Recover?
    ensures Enabled(Base(s, acked), a)
    ensures a != WriteCatalog ==> Apply(d, Base(s, acked), a) == Base(Apply(d, s, a), Apply(d, Base(s, acked), a).acked)
    ensures a == WriteCatalog ==> Base(Apply(d, s, a), acked) == Base(s, acked) && Apply(d, s, a).acked == s.acked
    ensures a != WriteCatalog && acked == s.acked ==> Apply(d, Base(s, acked), a).acked == Apply(d, s, a).acked
  {
    hide InsertAll, DropOldest, MarkCleanIf, StoredOf, At, Complete, MayUpload, RestoreOrder, ReplayOrder, Least,
      Done, AllCommitted,
      Dirty;
    EnabledInBase(s, a, acked);
  }

  lemma StepKeepsWhole(d: nat, s: System, a: Action)
    requires 0 < d && Whole(s) && Enabled(s, a) && !a.Recover?
    ensures Whole(Apply(d, s, a))
  {
    hide Inv, Enabled, Apply;
    SameStepOfBase(d, s, a, s.acked);
    if a != WriteCatalog {
      StepKeeps(d, Base(s, s.acked), a);
    }
  }

  lemma StepKeepsSound(d: nat, s: System, a: Action)
    requires 0 < d && Sound(s) && Enabled(s, a)
    ensures Sound(Apply(d, s, a))
  {
    hide Inv, Enabled, Apply;
    match a
    case Recover(order, log) =>
      RecoverKeepsBase(d, s, order, log, {});
    case WriteCatalog =>
      SameStepOfBase(d, s, a, {});
    case _ =>
      SameStepOfBase(d, s, a, {});
      StepKeeps(d, Base(s, {}), a);
      FewerAcked(Apply(d, Base(s, {}), a), {});
  }

  // Every acknowledged id is in a committed snapshot or logged above the mark.
  ghost predicate NothingBelow(s: System)
    requires Mark(s.blob).Some?
  {
    forall x :: x in s.acked ==> Durable(P(s), s.blob.wal, Mark(s.blob).value, x)
  }

  lemma RecoverKeepsBase(d: nat, s: System, order: seq<nat>, log: seq<nat>, acked: set<nat>)
    requires 0 < d && Inv(Base(s, acked)) && Enabled(s, Recover(order, log))
    requires forall x :: x in acked ==> Durable(P(s), s.blob.wal, Mark(s.blob).value, x)
    ensures Inv(Base(Apply(d, s, Recover(order, log)), acked))
  {
    hide WellKept, At, Stored, IdsOf, PointersComplete, PointedApart, Durable, PointedMatch, CleanMatch, Recovered,
      Pointed;
    var b, p, mark := s.blob, P(s), Mark(s.blob).value;
    var t := Apply(d, s, Recover(order, log));
    RecoveredOk(d, b, order, log, mark);
    forall x | x in acked
      ensures Stored(t.node.mem, x)
    {
      RecoveredStores(d, b, order, log, mark, x);
    }
    AboveLog(b.wal, mark, log);
  }

  // A recovery brings back all that was acknowledged exactly when nothing rests below its mark.
  lemma RecoveryExact(d: nat, s: System, order: seq<nat>, log: seq<nat>)
    requires 0 < d && Sound(s) && Enabled(s, Recover(order, log))
    ensures (forall x :: x in s.acked ==> Stored(Apply(d, s, Recover(order, log)).node.mem, x)) <==> NothingBelow(s)
  {
    hide UpOk, PointersComplete, PointedApart, Durable, Stored, Recovered, Pointed, RestoreOrder;
    forall x
      ensures Stored(Recovered(d, s.blob, order, log), x) <==> Durable(P(s), s.blob.wal, Mark(s.blob).value, x)
    {
      RecoveredStores(d, s.blob, order, log, Mark(s.blob).value, x);
    }
  }

  // ── Whole runs ──

  ghost predicate AckedStored(s: System) {
    s.node.Up? ==> forall x :: x in s.acked ==> Stored(s.node.mem, x)
  }

  // At every moment of the run at which the node is up, all that was acknowledged is stored.
  ghost predicate AlwaysStored(d: nat, s: System, run: seq<Action>)
    requires 0 < d && CanRun(d, s, run)
    decreases |run|
  {
    AckedStored(s) && (run == [] || AlwaysStored(d, Apply(d, s, run[0]), run[1..]))
  }

  // Every recovery of the run starts from a mark below nothing that rests on the log alone.
  ghost predicate SafeRecoveries(d: nat, s: System, run: seq<Action>)
    requires 0 < d && CanRun(d, s, run)
    decreases |run|
  {
    run == [] || (
      && (run[0].Recover? ==> NothingBelow(s))
      && SafeRecoveries(d, Apply(d, s, run[0]), run[1..]))
  }

  lemma WholeStored(s: System)
    requires Whole(s)
    ensures AckedStored(s) && Sound(s)
  {
    hide PointersComplete, PointedApart, Durable, Pointed, Stored, PointedMatch, CleanMatch, WellKept, HeldAt,
      SequencedAt, CycleOk;
    FewerAcked(Base(s, s.acked), {});
  }

  // Whatever the catalog writes, a run never lacks an acknowledged vector while the node is up
  // if and only if every recovery in it is safe.
  lemma {:induction false} StoredIffSafe(d: nat, s: System, run: seq<Action>)
    requires 0 < d && Whole(s) && CanRun(d, s, run)
    ensures AlwaysStored(d, s, run) <==> SafeRecoveries(d, s, run)
    decreases |run|
  {
    hide Whole, Sound, AckedStored, NothingBelow, Enabled, Apply;
    WholeStored(s);
    if run != [] {
      var a, t := run[0], Apply(d, s, run[0]);
      if a.Recover? {
        RecoveryStored(d, s, a.order, a.log);
      } else {
        StepKeepsWhole(d, s, a);
      }
      if Whole(t) {
        StoredIffSafe(d, t, run[1..]);
      }
    }
  }

  lemma RecoveryStored(d: nat, s: System, order: seq<nat>, log: seq<nat>)
    requires 0 < d && Whole(s) && Enabled(s, Recover(order, log))
    ensures Mark(s.blob).Some?
    ensures var t := Apply(d, s, Recover(order, log));
      (AckedStored(t) <==> NothingBelow(s)) && (NothingBelow(s) ==> Whole(t))
  {
    hide Inv, Stored, Recovered, Durable, RestoreOrder, ReplayOrder;
    WholeStored(s);
    RecoveryExact(d, s, order, log);
    if NothingBelow(s) {
      RecoverKeepsBase(d, s, order, log, s.acked);
    }
  }

  lemma {:induction false} RunKeepsSound(d: nat, s: System, run: seq<Action>)
    requires 0 < d && Sound(s) && CanRun(d, s, run)
    ensures Sound(After(d, s, run))
    decreases |run|
  {
    hide Sound, Enabled, Apply;
    if run != [] {
      StepKeepsSound(d, s, run[0]);
      RunKeepsSound(d, Apply(d, s, run[0]), run[1..]);
    }
  }

  lemma {:induction false} AfterSnoc(d: nat, s: System, run: seq<Action>, a: Action)
    requires 0 < d && CanRun(d, s, run) && Enabled(After(d, s, run), a)
    ensures CanRun(d, s, run + [a]) && After(d, s, run + [a]) == Apply(d, After(d, s, run), a)
    decreases |run|
  {
    hide Enabled, Apply;
    if run == [] {
      assert run + [a] == [a] && [a][1..] == [];
    } else {
      assert (run + [a])[0] == run[0] && (run + [a])[1..] == run[1..] + [a];
      AfterSnoc(d, Apply(d, s, run[0]), run[1..], a);
    }
  }

  // The upload of entry n, and the next marking of an upload after it, which is that of n.
  ghost predicate UploadMarked(run: seq<Action>, n: nat) {
    exists i, j :: 0 <= i < j < |run| && run[i] == PutWal(n) && run[j] == MarkWal && NoUploads(run, i + 1, j)
  }

  ghost predicate NoUploads(run: seq<Action>, from: nat, to: nat)
    requires to <= |run|
  {
    forall k :: from <= k < to ==> !run[k].PutWal? && run[k] != MarkWal
  }

  // The upload of entry n is the last thing the uploader did.
  ghost predicate UploadPending(run: seq<Action>, n: nat) {
    exists i :: 0 <= i < |run| && run[i] == PutWal(n) && NoUploads(run, i + 1, |run|)
  }

  // Before an insert can be acknowledged, its log entry was uploaded and then marked so.
  lemma AckNeedsUpload(d: nat, catalog: Catalog, run: seq<Action>, n: nat)
    requires 0 < d && AtCreation(catalog) && CanRun(d, Created(catalog), run)
    requires Enabled(After(d, Created(catalog), run), Ack(n))
    ensures UploadMarked(run, n)
  {
    hide CanRun, After, Created, Enabled, UploadMarked, UploadPending;
    CreatedWhole(catalog);
    RunKeepsSound(d, Created(catalog), run);
    assert Uploads(Created(catalog), []) by {
      NoUploadsYet(catalog);
    }
    UploadsRecorded(d, Created(catalog), [], run);
    assert [] + run == run;
    AckSettled(After(d, Created(catalog), run), n);
  }

  // A pending batch is in the local log, or `past` has its upload and the marking of it.
  ghost predicate Uploads(s: System, past: seq<Action>) {
    s.node.Up? ==>
      && (s.node.putting.Some? ==> UploadPending(past, s.node.putting.value))
      && forall n :: n in s.node.pending ==> n in s.node.local || UploadMarked(past, n)
  }

  lemma NoUploadsYet(catalog: Catalog)
    ensures Uploads(Created(catalog), [])
  {
  }

  lemma AckSettled(s: System, n: nat)
    requires Sound(s) && Enabled(s, Ack(n))
    ensures s.node.Up? && n in s.node.pending && n !in s.node.local
  {
    hide MemOk, HeldAt, CycleOk, AckedDurable, PointersComplete, PointedApart;
  }

  lemma {:induction false} UploadsRecorded(d: nat, s: System, past: seq<Action>, run: seq<Action>)
    requires 0 < d && Uploads(s, past) && CanRun(d, s, run)
    ensures Uploads(After(d, s, run), past + run)
    decreases |run|
  {
    hide Enabled, Apply, Uploads;
    if run == [] {
      assert past + run == past;
    } else {
      UploadsStep(d, s, past, run[0]);
      UploadsRecorded(d, Apply(d, s, run[0]), past + [run[0]], run[1..]);
      assert past + [run[0]] + run[1..] == past + run;
    }
  }

  lemma UploadsStep(d: nat, s: System, past: seq<Action>, a: Action)
    requires 0 < d && Uploads(s, past) && Enabled(s, a)
    ensures Uploads(Apply(d, s, a), past + [a])
  {
    hide InsertAll, DropOldest, MarkCleanIf, StoredOf, At, Complete, Recovered, UploadMarked, UploadPending;
    forall n
      ensures UploadMarked(past, n) ==> UploadMarked(past + [a], n)
      ensures a == PutWal(n) ==> UploadPending(past + [a], n)
      ensures UploadPending(past, n) && !a.PutWal? && a != MarkWal ==> UploadPending(past + [a], n)
      ensures UploadPending(past, n) && a == MarkWal ==> UploadMarked(past + [a], n)
    {
      UploadLogged(past, a, n);
    }
  }

  lemma UploadLogged(past: seq<Action>, a: Action, n: nat)
    ensures UploadMarked(past, n) ==> UploadMarked(past + [a], n)
    ensures a == PutWal(n) ==> UploadPending(past + [a], n)
    ensures UploadPending(past, n) && !a.PutWal? && a != MarkWal ==> UploadPending(past + [a], n)
    ensures UploadPending(past, n) && a == MarkWal ==> UploadMarked(past + [a], n)
  {
    var more := past + [a];
    if i, j :| 0 <= i < j < |past| && past[i] == PutWal(n) && past[j] == MarkWal && NoUploads(past, i + 1, j) {
      assert more[i] == PutWal(n) && more[j] == MarkWal && NoUploads(more, i + 1, j);
    }
    if a == PutWal(n) {
      assert more[|past|] == PutWal(n) && NoUploads(more, |past| + 1, |more|);
    }
    if i :| 0 <= i < |past| && past[i] == PutWal(n) && NoUploads(past, i + 1, |past|) {
      assert more[i] == PutWal(n) && more[|past|] == a && NoUploads(more, i + 1, |past|);
      if !a.PutWal? && a != MarkWal {
        assert NoUploads(more, i + 1, |more|);
      }
    }
  }

  // ── The durability theorems ──

  // A crash now is survived: some recovery follows it and stores all that was acknowledged.
  ghost predicate Survives(d: nat, s: System)
    requires 0 < d
  {
    exists order, log :: BringsBack(d, s, order, log)
  }

  ghost predicate BringsBack(d: nat, s: System, order: seq<nat>, log: seq<nat>)
    requires 0 < d
  {
    CanComeBack(d, s, order, log) && forall x :: x in s.acked ==> Stored(CameBack(d, s, order, log).node.mem, x)
  }

  // Stop any run anywhere, whatever catalogs were written. A crash now is survived if and only
  // if there is a mark and nothing acknowledged rests on log entries up to it; and which order
  // the files are listed in does not matter.
  lemma SurvivesIff(d: nat, catalog: Catalog, run: seq<Action>)
    requires 0 < d && AtCreation(catalog) && CanRun(d, Created(catalog), run)
    ensures var s := After(d, Created(catalog), run);
      Survives(d, s) <==> Mark(s.blob).Some? && NothingBelow(s)
    ensures var s := After(d, Created(catalog), run);
      forall order, log :: CanComeBack(d, s, order, log) ==> (BringsBack(d, s, order, log) <==> Survives(d, s))
  {
    hide Inv, Stored, Recovered, Durable, RestoreOrder, ReplayOrder, CanRun, After, Created, NothingBelow;
    CreatedWhole(catalog);
    RunKeepsSound(d, Created(catalog), run);
    var s := After(d, Created(catalog), run);
    var t := Apply(d, s, Crash);
    StepKeepsSound(d, s, Crash);
    SameAfterCrash(d, s);
    FoundIffMarked(d, s);
    forall order, log | Enabled(t, Recover(order, log))
      ensures BringsBack(d, s, order, log) <==> NothingBelow(s)
    {
      RecoveryExact(d, t, order, log);
    }
  }

  lemma SameAfterCrash(d: nat, s: System)
    requires 0 < d
    ensures var t := Apply(d, s, Crash);
      t.blob == s.blob && t.acked == s.acked && (Mark(s.blob).Some? ==> (NothingBelow(t) <==> NothingBelow(s)))
  {
    hide Durable, Pointed;
  }

  // The guarantee. If every catalog write found all promised vectors in committed snapshots,
  // then all that was acknowledged is stored while the node is up, and a crash now is survived
  // if and only if the collection was announced.
  lemma NothingAcknowledgedIsLost(d: nat, catalog: Catalog, run: seq<Action>)
    requires 0 < d && AtCreation(catalog)
    requires CanRun(d, Created(catalog), run) && SafeCatalogs(d, Created(catalog), run)
    ensures AlwaysStored(d, Created(catalog), run)
    ensures Survives(d, After(d, Created(catalog), run)) <==> Announced(catalog, run)
  {
    hide CanRun, SafeCatalogs, After, Created, Survives, AlwaysStored, SafeRecoveries, PointersComplete, PointedApart,
      UpOk, Durable;
    CreatedOk(catalog);
    CreatedWhole(catalog);
    RunKeeps(d, Created(catalog), run);
    StoredIffSafe(d, Created(catalog), run);
    SafeCatalogsSafeRecoveries(d, Created(catalog), run);
    MarkIffAnnounced(d, Created(catalog), run);
    NoMarkAtFirst(catalog);
    SurvivesIff(d, catalog, run);
  }

  lemma NoMarkAtFirst(catalog: Catalog)
    ensures Created(catalog).blob.catalog == catalog && (Mark(Created(catalog).blob).Some? <==> catalog.Lists?)
  {
  }

  lemma {:induction false} SafeCatalogsSafeRecoveries(d: nat, s: System, run: seq<Action>)
    requires 0 < d && Inv(s) && CanRun(d, s, run) && SafeCatalogs(d, s, run)
    ensures SafeRecoveries(d, s, run)
    decreases |run|
  {
    hide PointersComplete, PointedApart, UpOk, Apply, CatalogSafe, Durable, Pointed, RestoreOrder, ReplayOrder;
    if run != [] {
      StepKeeps(d, s, run[0]);
      SafeCatalogsSafeRecoveries(d, Apply(d, s, run[0]), run[1..]);
    }
  }

  // At every moment of every run, between any two file operations, a bucket's pointer names a
  // complete snapshot.
  lemma PointersStayComplete(d: nat, catalog: Catalog, run: seq<Action>, b: nat)
    requires 0 < d && AtCreation(catalog) && CanRun(d, Created(catalog), run)
    ensures var s := After(d, Created(catalog), run);
      b in s.blob.metas ==> var key := SnapKey(b, s.blob.metas[b].snap);
        key in s.blob.snaps && Complete(s.blob.snaps[key])
  {
    hide CanRun, After, Created, Complete, UpOk, AckedDurable, PointedApart;
    CreatedWhole(catalog);
    RunKeepsSound(d, Created(catalog), run);
  }

  // A bucket without writes since its clean mark has a committed, complete snapshot of exactly
  // the vectors it holds.
  lemma CleanIsSnapshotted(d: nat, catalog: Catalog, run: seq<Action>, b: nat)
    requires 0 < d && AtCreation(catalog) && CanRun(d, Created(catalog), run)
    ensures var s := After(d, Created(catalog), run);
      s.node.Up? && At(s.node.mem, b).Some? && At(s.node.mem, b).value.writes == At(s.node.mem, b).value.clean ==>
        && b in s.blob.metas
        && var key := SnapKey(b, s.blob.metas[b].snap);
          key in s.blob.snaps && Complete(s.blob.snaps[key]) && s.blob.snaps[key].ids == At(s.node.mem, b).value.ids
  {
    hide CanRun, After, Created, Complete, SequencedAt, HeldAt, CycleOk, AckedDurable, PointedApart, PointedMatch,
      WellKept, At, Stored;
    CreatedWhole(catalog);
    RunKeepsSound(d, Created(catalog), run);
    var s := After(d, Created(catalog), run);
    if s.node.Up? && At(s.node.mem, b).Some? {
      assert CleanBucket(P(s), b, At(s.node.mem, b).value);
    }
  }

  // Recovering from any mark `h` brings back exactly what is pointed to or logged above `h`: it
  // loses no acknowledged vector if and only if none rests only on entries up to `h`, and the
  // mark the collection stands at is always low enough.
  lemma RecoveryFromMark(d: nat, s: System, order: seq<nat>, log: seq<nat>, h: nat)
    requires 0 < d && Inv(s) && RestoreOrder(s.blob, order) && ReplayOrder(s.blob.wal, h, log)
    ensures (forall x :: x in s.acked ==> Stored(Recovered(d, s.blob, order, log), x))
      <==> forall x :: x in s.acked && !InPointed(P(s), x) ==> InWal(s.blob.wal, h, x)
    ensures h <= MarkOrZero(s.blob) ==> forall x :: x in s.acked ==> Stored(Recovered(d, s.blob, order, log), x)
  {
    hide Stored, InPointed, UpOk, PointersComplete, PointedApart, RestoreOrder, Recovered, IdsOf, Pointed;
    var t := Recovered(d, s.blob, order, log);
    forall x
      ensures Stored(t, x) <==> InPointed(P(s), x) || InWal(s.blob.wal, h, x)
    {
      RecoveredStores(d, s.blob, order, log, h, x);
    }
    if h <= MarkOrZero(s.blob) {
      forall x | x in s.acked
        ensures Stored(t, x)
      {
        DurableStays(P(s), s.blob.wal, MarkOrZero(s.blob), P(s), s.blob.wal, h, x);
      }
    }
  }

  // Recovering right after a catalog write replays nothing: it loses no acknowledged vector if
  // and only if every one of them is in a committed snapshot.
  lemma CatalogRecoveryIff(d: nat, s: System, order: seq<nat>)
    requires 0 < d && Inv(s) && s.node.Up? && RestoreOrder(s.blob, order)
    ensures var w := s.blob.(catalog := Lists(CurrentSeq(s.node)));
      && RestoreOrder(w, order) && ReplayOrder(w.wal, Mark(w).value, [])
      && ((forall x :: x in s.acked ==> Stored(Recovered(d, w, order, []), x)) <==> forall x :: x in s.acked ==>
        InPointed(P(s), x))
  {
    hide Stored, InPointed, PointersComplete, PointedApart, Recovered, IdsOf, Pointed, MemOk, HeldAt, CycleOk,
      AckedDurable;
    var w := s.blob.(catalog := Lists(CurrentSeq(s.node)));
    forall x
      ensures Stored(Recovered(d, w, order, []), x) <==> InPointed(P(s), x)
    {
      RecoveredStores(d, w, order, [], CurrentSeq(s.node), x);
      NotAbove(P(s), s.blob.wal, CurrentSeq(s.node), x);
    }
  }

}
