// The window of a bucket survives with it: what a committed pointer records as the start of its
// bucket is the start the bucket has, and it comes back with that start.
module CommittedWindows {
  import opened TimeBucket
  import opened BucketChanges
  import opened Protocol
  import opened Durability
  import opened Runs

  ghost predicate StartsMatch(metas: map<nat, Meta>, mem: State) {
    forall b :: b in metas && At(mem, b).Some? ==> metas[b].created == At(mem, b).value.created
  }

  // A bucket alive since the cycle began has the start it had then.
  ghost predicate BegunMatch(begun: State, mem: State) {
    forall b: nat :: At(begun, b).Some? && At(mem, b).Some? ==> At(begun, b).value.created == At(mem, b).value.created
  }

  ghost predicate Windowed(s: System) {
    s.node.Up? ==>
      && StartsMatch(s.blob.metas, s.node.mem)
      && (s.node.cycle.Some? ==> BegunMatch(s.node.cycle.value.begun, s.node.mem))
  }

  // ── What a sound state gives ──

  // Pointers and the buckets at the cycle's start have numbers below the next; and a bucket being
  // uploaded existed at that start.
  ghost predicate Numbered(s: System)
    requires s.node.Up?
  {
    && (forall b :: b in s.blob.metas ==> b < s.node.mem.next)
    && (s.node.cycle.Some? ==> var c := s.node.cycle.value;
      && (forall b: nat :: At(c.begun, b).Some? ==> b < s.node.mem.next)
      && forall b :: b in c.list ==> At(c.begun, b).Some?)
  }

  lemma SoundNumbered(s: System)
    requires Sound(s) && s.node.Up?
    ensures WellKept(s.node.mem) && Numbered(s)
  {
    hide WellKept, At, Stored, HeldAt, SequencedAt, Since, CommittedCover, PhaseOk, CleanMatch, PointedApart, Beside,
      AckedDurable, Complete;
    forall b | b in s.blob.metas
      ensures b < s.node.mem.next
    {
      assert b in P(Base(s, {}));
    }
    if s.node.cycle.Some? {
      BegunNumbered(s.node.cycle.value, P(Base(s, {})), s.node.mem);
    }
  }

  lemma BegunNumbered(c: Cycle, p: map<nat, seq<nat>>, mem: State)
    requires Listed(c, p, mem)
    ensures forall b: nat :: At(c.begun, b).Some? ==> b < mem.next
    ensures forall b :: b in c.list ==> At(c.begun, b).Some?
  {
    hide WellKept, At;
    forall b: nat | At(c.begun, b).Some?
      ensures b < mem.next
    {
      AtKept(c.begun, b);
      KeptBelow(c.begun, At(c.begun, b).value);
    }
  }

  lemma KeptBelow(s: State, b: Bucket)
    requires Kept(s, b)
    ensures b.seqNo < s.next
  {
  }

  // ── Steps ──

  // Inserts and evictions change no start.
  lemma EvolvesWindows(s: System, mem: State)
    requires s.node.Up? && Windowed(s) && Numbered(s) && Evolves(s.node.mem, mem)
    ensures StartsMatch(s.blob.metas, mem)
    ensures s.node.cycle.Some? ==> BegunMatch(s.node.cycle.value.begun, mem)
  {
    hide At, Stored, DirtyBucket;
  }

  lemma KeepsWindows(d: nat, s: System, a: Action)
    requires 0 < d && Sound(s) && Windowed(s) && Enabled(s, a)
    ensures Windowed(Apply(d, s, a))
  {
    hide Sound, Windowed, Enabled, Apply;
    match a
    case Insert(batch) => InsertWindows(d, s, batch);
    case Evict(k) => EvictWindows(d, s, k);
    case MarkClean => MarkWindows(d, s);
    case CommitPointer => CommitWindows(d, s);
    case Recover(order, log) => RecoverWindows(d, s, order, log);
    case _ => OtherWindows(d, s, a);
  }

  lemma InsertWindows(d: nat, s: System, batch: seq<Entry>)
    requires 0 < d && Sound(s) && Windowed(s) && Enabled(s, Insert(batch))
    ensures Windowed(Apply(d, s, Insert(batch)))
  {
    hide Sound, WellKept, Numbered, StartsMatch, BegunMatch, InsertAll, Grows, Evolves;
    SoundNumbered(s);
    InsertAllGrows(d, s.node.mem, batch);
    GrowsEvolves(s.node.mem, InsertAll(d, s.node.mem, batch).0);
    EvolvesWindows(s, InsertAll(d, s.node.mem, batch).0);
  }

  lemma EvictWindows(d: nat, s: System, k: nat)
    requires 0 < d && Sound(s) && Windowed(s) && Enabled(s, Evict(k))
    ensures Windowed(Apply(d, s, Evict(k)))
  {
    hide Sound, WellKept, Numbered, StartsMatch, BegunMatch, DropOldest, Shrinks, Evolves, HeldByOldest;
    SoundNumbered(s);
    EvictionShrinks(s.node.mem, k);
    ShrinksEvolves(s.node.mem, DropOldest(s.node.mem, k));
    EvolvesWindows(s, DropOldest(s.node.mem, k));
  }

  lemma MarkWindows(d: nat, s: System)
    requires 0 < d && Sound(s) && Windowed(s) && Enabled(s, MarkClean)
    ensures Windowed(Apply(d, s, MarkClean))
  {
    hide Sound, WellKept, Numbered, At, MarkCleanIf;
    SoundNumbered(s);
    forall b: nat
      ensures var t := MarkCleanIf(s.node.mem, Bucket0(s), s.node.cycle.value.phase.version);
        At(t, b).Some? ==> At(s.node.mem, b).Some? && At(t, b).value.created == At(s.node.mem, b).value.created
    {
      MarkAt(s.node.mem, Bucket0(s), s.node.cycle.value.phase.version, b);
    }
  }

  lemma CommitWindows(d: nat, s: System)
    requires 0 < d && Sound(s) && Windowed(s) && Enabled(s, CommitPointer)
    ensures Windowed(Apply(d, s, CommitPointer))
  {
    hide Sound, WellKept, At, Complete;
    SoundNumbered(s);
    assert Bucket0(s) in s.node.cycle.value.list;
  }

  lemma RecoverWindows(d: nat, s: System, order: seq<nat>, log: seq<nat>)
    requires 0 < d && Sound(s) && Enabled(s, Recover(order, log))
    ensures Windowed(Apply(d, s, Recover(order, log)))
  {
    hide Sound, At, Recovered;
    SoundRestores(d, s, order, log);
  }

  lemma OtherWindows(d: nat, s: System, a: Action)
    requires 0 < d && Windowed(s) && Enabled(s, a)
    requires !a.Insert? && !a.Evict? && a != MarkClean && a != CommitPointer && !a.Recover?
    ensures Windowed(Apply(d, s, a))
  {
    hide At, StoredOf, Complete, MayUpload, Least, Dirty;
  }

  // A recovery brings every pointed bucket back, with the start its pointer records.
  lemma SoundRestores(d: nat, s: System, order: seq<nat>, log: seq<nat>)
    requires 0 < d && Sound(s) && Enabled(s, Recover(order, log))
    ensures var t := Recovered(d, s.blob, order, log);
      forall b :: b in s.blob.metas ==> At(t, b).Some? && At(t, b).value.created == s.blob.metas[b].created
  {
    hide At, WellKept, KnownStored, Complete, PointedApart, AckedDurable, UpOk, RestoreAll, Replay;
    var r := RestoreAll(s.blob, order);
    RestoresAll(s.blob, order);
    ReplayGrows(d, r, Logged(s.blob.wal, log));
  }

  // ── Whole runs ──

  lemma {:induction false} RunKeepsWindows(d: nat, s: System, run: seq<Action>)
    requires 0 < d && Sound(s) && Windowed(s) && CanRun(d, s, run)
    ensures Windowed(After(d, s, run))
    decreases |run|
  {
    hide Sound, Windowed, Enabled, Apply;
    if run != [] {
      StepKeepsSound(d, s, run[0]);
      KeepsWindows(d, s, run[0]);
      RunKeepsWindows(d, Apply(d, s, run[0]), run[1..]);
    }
  }

  // After any run, the pointer of a live bucket records the bucket's own start.
  lemma PointersKeepWindows(d: nat, catalog: Catalog, run: seq<Action>, b: nat)
    requires 0 < d && AtCreation(catalog) && CanRun(d, Created(catalog), run)
    ensures var s := After(d, Created(catalog), run);
      s.node.Up? && b in s.blob.metas && At(s.node.mem, b).Some? ==>
        s.blob.metas[b].created == At(s.node.mem, b).value.created
  {
    hide CanRun, After, Sound, At;
    CreatedWhole(catalog);
    RunKeepsWindows(d, Created(catalog), run);
  }

  // Every live bucket committed before a crash comes back from any recovery with the same start,
  // so on the same grid slot.
  lemma WindowsComeBack(d: nat, catalog: Catalog, run: seq<Action>, b: nat, order: seq<nat>, log: seq<nat>)
    requires 0 < d && AtCreation(catalog) && CanRun(d, Created(catalog), run)
    requires var s := After(d, Created(catalog), run);
      && s.node.Up? && b in s.blob.metas && At(s.node.mem, b).Some?
      && CanComeBack(d, s, order, log)
    ensures var s := After(d, Created(catalog), run);
      var t := CameBack(d, s, order, log);
      && t.node.Up? && At(t.node.mem, b).Some?
      && At(t.node.mem, b).value.created == At(s.node.mem, b).value.created
  {
    hide CanRun, After, Sound, At, Recovered, Enabled, Apply;
    var s := After(d, Created(catalog), run);
    PointersKeepWindows(d, catalog, run, b);
    CreatedWhole(catalog);
    RunKeepsSound(d, Created(catalog), run);
    RecoverAfterCrash(d, s, order, log);
    StepKeepsSound(d, s, Crash);
    SoundRestores(d, Apply(d, s, Crash), order, log);
  }

  lemma RecoverAfterCrash(d: nat, s: System, order: seq<nat>, log: seq<nat>)
    requires 0 < d && Enabled(Apply(d, s, Crash), Recover(order, log))
    ensures Enabled(s, Crash) && Apply(d, s, Crash).blob == s.blob && forall n :: n in log ==> n in s.blob.wal
    ensures var t := Apply(d, Apply(d, s, Crash), Recover(order, log));
      t.node.Up? && t.node.mem == Recovered(d, s.blob, order, log)
  {
    hide Recovered, RestoreOrder;
  }
}
