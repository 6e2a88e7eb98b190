// What a snapshot cycle achieves: from any moment of a run it can go through to its end, and then
// everything is in committed snapshots; and it uploads nothing when nothing was written.
module Progress {
  import opened Options
  import opened TimeBucket
  import opened BucketChanges
  import opened Protocol
  import opened Durability
  import opened Runs

  // ── Runs in sequence ──

  // One run leads from `s` to `t`.
  ghost predicate Leads(d: nat, s: System, run: seq<Action>, t: System)
    requires 0 < d
  {
    CanRun(d, s, run) && After(d, s, run) == t && Uninterrupted(run)
  }

  // Nothing but the cycle takes steps.
  ghost predicate Uninterrupted(run: seq<Action>) {
    forall a :: a in run ==> !a.Insert? && !a.Evict? && a != Crash && !a.Recover? && a != WriteCatalog
  }

  lemma OneStep(d: nat, s: System, a: Action)
    requires 0 < d && Enabled(s, a) && Uninterrupted([a])
    ensures Leads(d, s, [a], Apply(d, s, a))
  {
    hide Enabled, Apply;
    assert [a][1..] == [];
    assert CanRun(d, Apply(d, s, a), []) && After(d, Apply(d, s, a), []) == Apply(d, s, a);
  }

  lemma {:induction false} Then(d: nat, s: System, first: seq<Action>, t: System, second: seq<Action>, u: System)
    requires 0 < d && Leads(d, s, first, t) && Leads(d, t, second, u)
    ensures Leads(d, s, first + second, u)
    decreases |first|
  {
    hide Enabled, Apply;
    if first == [] {
      assert first + second == second;
    } else {
      assert (first + second)[0] == first[0] && (first + second)[1..] == first[1..] + second;
      assert forall a :: a in first[1..] ==> a in first;
      Then(d, Apply(d, s, first[0]), first[1..], t, second, u);
    }
  }

  lemma ThenStep(d: nat, s: System, run: seq<Action>, t: System, a: Action)
    requires 0 < d && Leads(d, s, run, t) && Enabled(t, a) && Uninterrupted([a])
    ensures Leads(d, s, run + [a], Apply(d, t, a))
  {
    hide Enabled, Apply, Leads;
    OneStep(d, t, a);
    Then(d, s, run, t, [a], Apply(d, t, a));
  }

  // ── Uploading a snapshot ──

  // The snapshot being uploaded, with other files there.
  ghost function WithFiles(s: System, have: set<File>): System
    requires Staging(s)
  {
    s.(blob := s.blob.(snaps := s.blob.snaps[SnapKey(Bucket0(s), s.node.cycle.value.phase.snap) :=
      Staged(s).(have := have)]))
  }

  ghost function FirstChunks(n: nat): set<File> {
    set i: nat | i < n :: Chunk(i)
  }

  lemma UploadOne(d: nat, s: System, have: set<File>, f: File)
    requires 0 < d && Staging(s) && MayUpload(Staged(s).(have := have), f)
    ensures var t := WithFiles(s, have);
      Enabled(t, UploadFile(f)) && Apply(d, t, UploadFile(f)) == WithFiles(s, have + {f})
  {
    hide MayUpload;
  }

  lemma {:induction false} UploadChunks(d: nat, s: System, n: nat) returns (run: seq<Action>)
    requires 0 < d && Staging(s) && Staged(s).have == {} && n <= Staged(s).chunks
    ensures Leads(d, s, run, WithFiles(s, FirstChunks(n)))
  {
    hide Enabled, Apply, Leads;
    if n == 0 {
      NothingUploaded(d, s);
      run := [];
    } else {
      run := UploadChunks(d, s, n - 1);
      UploadOne(d, s, FirstChunks(n - 1), Chunk(n - 1));
      ThenStep(d, s, run, WithFiles(s, FirstChunks(n - 1)), UploadFile(Chunk(n - 1)));
      assert FirstChunks(n) == FirstChunks(n - 1) + {Chunk(n - 1)};
      run := run + [UploadFile(Chunk(n - 1))];
    }
  }

  lemma NothingUploaded(d: nat, s: System)
    requires 0 < d && Staging(s) && Staged(s).have == {}
    ensures Leads(d, s, [], WithFiles(s, FirstChunks(0)))
  {
    assert FirstChunks(0) == {};
    assert WithFiles(s, {}).blob.snaps == s.blob.snaps;
  }

  // All chunks, then the levels, then the manifest.
  lemma UploadAll(d: nat, s: System) returns (run: seq<Action>, have: set<File>)
    requires 0 < d && Staging(s) && Staged(s).have == {}
    ensures Leads(d, s, run, WithFiles(s, have)) && Complete(Staged(s).(have := have))
  {
    hide Enabled, Apply, Leads;
    var n := Staged(s).chunks;
    var chunks := FirstChunks(n);
    run := UploadChunks(d, s, n);
    assert forall i: nat :: i < n ==> Chunk(i) in chunks;
    UploadOne(d, s, chunks, Levels);
    ThenStep(d, s, run, WithFiles(s, chunks), UploadFile(Levels));
    UploadOne(d, s, chunks + {Levels}, Manifest);
    ThenStep(d, s, run + [UploadFile(Levels)], WithFiles(s, chunks + {Levels}), UploadFile(Manifest));
    run := run + [UploadFile(Levels)] + [UploadFile(Manifest)];
    have := chunks + {Levels} + {Manifest};
  }

  // ── One bucket ──

  function AllWritten(b: Bucket): Bucket {
    b.(clean := b.writes)
  }

  // `t` is `s` with bucket `b` clean.
  ghost predicate Cleaned(s: State, t: State, b: nat) {
    && t.known == s.known && t.next == s.next
    && (forall x :: Stored(t, x) <==> Stored(s, x))
    && forall c: nat :: At(t, c) == if c == b && At(s, b).Some? then Some(AllWritten(At(s, b).value)) else At(s, c)
  }

  // What stays while the cycle goes through its buckets.
  ghost predicate SameBut(s: System, t: System) {
    && t.acked == s.acked && t.blob.wal == s.blob.wal && t.blob.coll == s.blob.coll && t.blob.catalog == s.blob.catalog
    && InPhase(s) && InPhase(t)
    && t.node == s.node.(mem := t.node.mem, cycle := t.node.cycle)
  }

  // The cycle has dealt with its bucket and is ready for the next.
  ghost predicate DidBucket(s: System, t: System)
    requires OnBucket(s)
  {
    && SameBut(s, t) && Cleaned(s.node.mem, t.node.mem, Bucket0(s))
    && var c := s.node.cycle.value;
      t.node.cycle.value == c.(committed := c.committed + {Bucket0(s)}, pos := c.pos + 1, phase := Checking)
  }

  lemma CleanStays(s: State, b: nat)
    requires At(s, b).Some? ==> At(s, b).value.clean == At(s, b).value.writes
    ensures Cleaned(s, s, b)
  {
    hide At, Stored;
  }

  // A bucket without writes since its mark is passed over.
  lemma PassClean(d: nat, s: System) returns (run: seq<Action>, t: System)
    requires 0 < d && Sound(s) && OnBucket(s) && s.node.cycle.value.phase == Checking
    requires !Dirty(s.node.mem, Bucket0(s))
    ensures Leads(d, s, run, t) && DidBucket(s, t)
  {
    hide Leads, Sound, Cleaned;
    var b := Bucket0(s);
    CountersMeet(s, b);
    CleanStays(s.node.mem, b);
    OneStep(d, s, CheckBucket);
    run, t := [CheckBucket], Apply(d, s, CheckBucket);
    if b in s.blob.metas {
      ThenStep(d, s, run, t, EndClean);
      run, t := run + [EndClean], Apply(d, t, EndClean);
    }
  }

  lemma CountersMeet(s: System, b: nat)
    requires Sound(s) && s.node.Up? && !Dirty(s.node.mem, b)
    ensures At(s.node.mem, b).Some? ==> At(s.node.mem, b).value.clean == At(s.node.mem, b).value.writes
  {
    hide WellKept, Stored, HeldAt, SequencedAt, CycleOk, PointedMatch, PointedApart, PointersComplete, AckedDurable;
    if At(s.node.mem, b).Some? {
      assert CleanBucket(P(Base(s, {})), b, At(s.node.mem, b).value);
    }
  }

  lemma FreshName(s: System, b: nat) returns (snap: nat)
    ensures !StagedAt(s, b, snap)
  {
    var names := set k | k in s.blob.snaps :: k.snap;
    snap := Beyond(names);
    assert snap !in names && (StagedAt(s, b, snap) ==> SnapKey(b, snap).snap in names);
  }

  lemma {:induction false} Beyond(names: set<nat>) returns (n: nat)
    ensures forall x :: x in names ==> x < n
  {
    if names == {} {
      n := 0;
    } else {
      var x :| x in names;
      var m := Beyond(names - {x});
      n := if m > x then m else x + 1;
      assert forall y :: y in names ==> y == x || y in names - {x};
    }
  }

  // A bucket with writes since its mark is captured, uploaded, committed and marked.
  lemma SnapshotDirty(d: nat, s: System, chunks: nat) returns (run: seq<Action>, t: System)
    requires 0 < d && Sound(s) && OnBucket(s) && s.node.cycle.value.phase == Checking
    requires Dirty(s.node.mem, Bucket0(s))
    ensures Leads(d, s, run, t) && DidBucket(s, t)
  {
    hide Leads, Sound, Dirty, At, Cleaned, Complete, MarkCleanIf;
    var b := Bucket0(s);
    var snap := FreshName(s, b);
    DirtyIsThere(s.node.mem, b);
    var s1 := BeginUpload(d, s, snap, chunks);
    var up, have := UploadAll(d, s1);
    var s2 := WithFiles(s1, have);
    Then(d, s, [CheckBucket, Capture(snap, chunks)], s1, up, s2);
    var s3 := FinishUpload(d, s, s2);
    Then(d, s, [CheckBucket, Capture(snap, chunks)] + up, s2, [CommitPointer, MarkClean, EndClean], s3);
    run, t := [CheckBucket, Capture(snap, chunks)] + up + [CommitPointer, MarkClean, EndClean], s3;
  }

  lemma DirtyIsThere(mem: State, b: nat)
    requires Dirty(mem, b)
    ensures At(mem, b).Some?
  {
  }

  // The cycle is uploading the content its bucket has now.
  ghost predicate UploadingNow(s: System, t: System)
    requires OnBucket(s) && At(s.node.mem, Bucket0(s)).Some?
  {
    && SameBut(s, t) && t.node.mem == s.node.mem && OnBucket(t) && Staging(t)
    && t.node.cycle.value.phase.version == At(s.node.mem, Bucket0(s)).value.writes
    && t.node.cycle.value == s.node.cycle.value.(phase := t.node.cycle.value.phase)
  }

  lemma BeginUpload(d: nat, s: System, snap: nat, chunks: nat) returns (t: System)
    requires 0 < d && OnBucket(s) && s.node.cycle.value.phase == Checking && Dirty(s.node.mem, Bucket0(s))
    requires !StagedAt(s, Bucket0(s), snap) && At(s.node.mem, Bucket0(s)).Some?
    ensures Leads(d, s, [CheckBucket, Capture(snap, chunks)], t) && UploadingNow(s, t) && Staged(t).have == {}
  {
    hide Leads, Dirty, At;
    OneStep(d, s, CheckBucket);
    var u := Apply(d, s, CheckBucket);
    ThenStep(d, s, [CheckBucket], u, Capture(snap, chunks));
    t := Apply(d, u, Capture(snap, chunks));
    assert [CheckBucket] + [Capture(snap, chunks)] == [CheckBucket, Capture(snap, chunks)];
  }

  lemma FinishUpload(d: nat, s: System, s2: System) returns (t: System)
    requires 0 < d && Sound(s) && OnBucket(s) && At(s.node.mem, Bucket0(s)).Some?
    requires s.node.cycle.value.phase == Checking && UploadingNow(s, s2) && Complete(Staged(s2))
    ensures Leads(d, s2, [CommitPointer, MarkClean, EndClean], t) && DidBucket(s, t)
  {
    hide Leads, Sound, At, Cleaned, Complete, MarkCleanIf;
    OneStep(d, s2, CommitPointer);
    var u := Apply(d, s2, CommitPointer);
    ThenStep(d, s2, [CommitPointer], u, MarkClean);
    var v := Apply(d, u, MarkClean);
    ThenStep(d, s2, [CommitPointer] + [MarkClean], v, EndClean);
    t := Apply(d, v, EndClean);
    assert [CommitPointer] + [MarkClean] + [EndClean] == [CommitPointer, MarkClean, EndClean];
    MarkedClean(s, Bucket0(s));
  }

  lemma MarkedClean(s: System, b: nat)
    requires Sound(s) && s.node.Up? && At(s.node.mem, b).Some?
    ensures Cleaned(s.node.mem, MarkCleanIf(s.node.mem, b, At(s.node.mem, b).value.writes), b)
  {
    hide Sound, At, Stored, WellKept, MarkCleanIf;
    SoundMem(s);
    var version := At(s.node.mem, b).value.writes;
    StoredAfterMark(s.node.mem, b, version);
    forall c: nat
      ensures At(MarkCleanIf(s.node.mem, b, version), c) ==
        if c == b then Some(At(s.node.mem, b).value.(clean := version)) else At(s.node.mem, c)
    {
      MarkAt(s.node.mem, b, version, c);
    }
  }

  lemma SoundMem(s: System)
    requires Sound(s) && s.node.Up?
    ensures WellKept(s.node.mem)
  {
    hide WellKept, HeldAt, SequencedAt, CycleOk, PointedMatch, CleanMatch, AckedDurable, PointersComplete, PointedApart;
  }

  // ── All buckets ──

  // The cycle has dealt with all its buckets from its position on.
  ghost predicate DidAll(s: System, t: System)
    requires InPhase(s) && s.node.cycle.value.pos <= |s.node.cycle.value.list|
  {
    && SameBut(s, t)
    && var c := s.node.cycle.value;
      && t.node.cycle.value == c.(committed := c.committed + Rest(c), pos := |c.list|, phase := Checking)
      && CleanedAll(s.node.mem, t.node.mem, Rest(c))
  }

  ghost predicate CleanedAll(s: State, t: State, bs: set<nat>) {
    && t.known == s.known && t.next == s.next && (forall x :: Stored(t, x) <==> Stored(s, x))
    && forall b: nat :: At(t, b) == if b in bs && At(s, b).Some? then Some(AllWritten(At(s, b).value)) else At(s, b)
  }

  ghost function Rest(c: Cycle): set<nat>
    requires c.pos <= |c.list|
  {
    set i | c.pos <= i < |c.list| :: c.list[i]
  }

  lemma {:induction false} AllBuckets(d: nat, s: System, chunks: nat) returns (run: seq<Action>, t: System)
    requires 0 < d && Sound(s) && InPhase(s) && s.node.cycle.value.phase == Checking
    requires s.node.cycle.value.pos <= |s.node.cycle.value.list|
    ensures Leads(d, s, run, t) && DidAll(s, t)
    decreases |s.node.cycle.value.list| - s.node.cycle.value.pos
  {
    hide Leads, Sound, Dirty, At, Stored, DidAll, DidBucket;
    if s.node.cycle.value.pos == |s.node.cycle.value.list| {
      NoneLeft(s);
      NoStep(d, s);
      run, t := [], s;
    } else {
      var one, u;
      if Dirty(s.node.mem, Bucket0(s)) {
        one, u := SnapshotDirty(d, s, chunks);
      } else {
        one, u := PassClean(d, s);
      }
      NextPosition(s, u);
      SoundAfter(d, s, one, u);
      var rest;
      rest, t := AllBuckets(d, u, chunks);
      Then(d, s, one, u, rest, t);
      DidOneMore(s, u, t);
      run := one + rest;
    }
  }

  lemma NoStep(d: nat, s: System)
    requires 0 < d
    ensures Leads(d, s, [], s)
  {
  }

  lemma NoneLeft(s: System)
    requires InPhase(s) && s.node.cycle.value.pos == |s.node.cycle.value.list| && s.node.cycle.value.phase == Checking
    ensures DidAll(s, s)
  {
    hide At, Stored;
    var c := s.node.cycle.value;
    assert Rest(c) == {} && c.committed + {} == c.committed;
    assert c.(committed := c.committed + Rest(c), pos := |c.list|, phase := Checking) == c;
  }

  lemma NextPosition(s: System, u: System)
    requires OnBucket(s) && DidBucket(s, u)
    ensures InPhase(u) && u.node.cycle.value.phase == Checking && u.node.cycle.value.pos == s.node.cycle.value.pos + 1
    ensures u.node.cycle.value.list == s.node.cycle.value.list
  {
  }

  lemma SoundAfter(d: nat, s: System, run: seq<Action>, t: System)
    requires 0 < d && Sound(s) && Leads(d, s, run, t)
    ensures Sound(t)
  {
    hide Sound;
    RunKeepsSound(d, s, run);
  }

  lemma DidOneMore(s: System, u: System, t: System)
    requires OnBucket(s) && DidBucket(s, u) && InPhase(u) && u.node.cycle.value.pos <= |u.node.cycle.value.list|
    requires DidAll(u, t)
    ensures DidAll(s, t)
  {
    hide At, Stored;
    var c, e := s.node.cycle.value, u.node.cycle.value;
    var b := Bucket0(s);
    assert Rest(c) == {b} + Rest(e);
    assert c.committed + Rest(c) == e.committed + Rest(e);
  }

  // ── Publishing, pruning and sweeping ──

  // The log without its entries up to the mark.
  ghost function Above(wal: map<nat, seq<Entry>>, mark: nat): map<nat, seq<Entry>> {
    map n | n in wal && n > mark :: wal[n]
  }

  ghost function WithWal(s: System, wal: map<nat, seq<Entry>>): System {
    s.(blob := s.blob.(wal := wal))
  }

  lemma {:induction false} PruneAll(d: nat, s: System) returns (run: seq<Action>)
    requires 0 < d && InPhase(s) && s.node.cycle.value.phase == Pruning
    ensures Leads(d, s, run, WithWal(s, Above(s.blob.wal, s.node.cycle.value.high)))
    decreases |s.blob.wal|
  {
    hide Enabled, Apply, Leads;
    var wal, high := s.blob.wal, s.node.cycle.value.high;
    if forall n :: n in wal ==> n > high {
      assert Above(wal, high) == wal && WithWal(s, wal) == s;
      NoStep(d, s);
      run := [];
    } else {
      var n := Lowest(wal.Keys);
      PruneOne(d, s, n);
      var u := WithWal(s, wal - {n});
      assert |wal - {n}| < |wal| by {
        assert (wal - {n}).Keys == wal.Keys - {n};
      }
      var rest := PruneAll(d, u);
      assert Above(wal - {n}, high) == Above(wal, high);
      assert WithWal(u, Above(wal, high)) == WithWal(s, Above(wal, high));
      OneStep(d, s, Prune(n));
      Then(d, s, [Prune(n)], u, rest, WithWal(s, Above(wal, high)));
      run := [Prune(n)] + rest;
    }
  }

  lemma PruneOne(d: nat, s: System, n: nat)
    requires 0 < d && InPhase(s) && s.node.cycle.value.phase == Pruning && Least(s.blob.wal, n)
    requires n <= s.node.cycle.value.high
    ensures Enabled(s, Prune(n)) && Apply(d, s, Prune(n)) == WithWal(s, s.blob.wal - {n})
  {
  }

  lemma {:induction false} Lowest(names: set<nat>) returns (n: nat)
    requires names != {}
    ensures n in names && forall k :: k in names ==> n <= k
    decreases names
  {
    var x :| x in names;
    if names == {x} {
      n := x;
    } else {
      var m := Lowest(names - {x});
      n := if m < x then m else x;
      assert forall y :: y in names ==> y == x || y in names - {x};
    }
  }

  // The pointers of the buckets the cycle began with.
  ghost function Live(metas: map<nat, Meta>, list: seq<nat>): map<nat, Meta> {
    map b | b in metas && b in list :: metas[b]
  }

  ghost function WithMetas(s: System, metas: map<nat, Meta>): System {
    s.(blob := s.blob.(metas := metas))
  }

  lemma {:induction false} SweepAll(d: nat, s: System) returns (run: seq<Action>)
    requires 0 < d && InPhase(s) && s.node.cycle.value.phase == Sweeping
    ensures Leads(d, s, run, WithMetas(s, Live(s.blob.metas, s.node.cycle.value.list)))
    decreases |s.blob.metas|
  {
    hide Enabled, Apply, Leads;
    var metas, list := s.blob.metas, s.node.cycle.value.list;
    if forall b :: b in metas ==> b in list {
      assert Live(metas, list) == metas && WithMetas(s, metas) == s;
      NoStep(d, s);
      run := [];
    } else {
      var b :| b in metas && b !in list;
      SweepOne(d, s, b);
      var u := WithMetas(s, metas - {b});
      assert |metas - {b}| < |metas| by {
        assert (metas - {b}).Keys == metas.Keys - {b};
      }
      var rest := SweepAll(d, u);
      assert Live(metas - {b}, list) == Live(metas, list);
      assert WithMetas(u, Live(metas, list)) == WithMetas(s, Live(metas, list));
      OneStep(d, s, SweepPointer(b));
      Then(d, s, [SweepPointer(b)], u, rest, WithMetas(s, Live(metas, list)));
      run := [SweepPointer(b)] + rest;
    }
  }

  lemma SweepOne(d: nat, s: System, b: nat)
    requires 0 < d && InPhase(s) && s.node.cycle.value.phase == Sweeping && b in s.blob.metas
    requires b !in s.node.cycle.value.list
    ensures Enabled(s, SweepPointer(b)) && Apply(d, s, SweepPointer(b)) == WithMetas(s, s.blob.metas - {b})
  {
  }

  // ── A whole cycle ──

  // A cycle from `s` has gone through and left `t`: every bucket is clean, the log is empty up to
  // the published number, and only live buckets have pointers.
  ghost predicate WentThrough(s: System, t: System) {
    && s.node.Up? && t.node.Up? && t.node == s.node.(mem := t.node.mem) && t.acked == s.acked
    && CleanedAll(s.node.mem, t.node.mem, Alive(s.node.mem))
    && t.blob.coll == Some(CurrentSeq(s.node)) && t.blob.catalog == s.blob.catalog
    && t.blob.wal == Above(s.blob.wal, CurrentSeq(s.node))
    && forall b :: b in t.blob.metas ==> At(t.node.mem, b).Some?
  }

  ghost function Alive(mem: State): set<nat> {
    set i | 0 <= i < |mem.buckets| :: mem.buckets[i].seqNo
  }

  ghost predicate BeganIn(s: System, u: System) {
    && s.node.Up? && s.node.cycle.None? && u.blob == s.blob && u.acked == s.acked && InPhase(u)
    && u.node == s.node.(cycle := u.node.cycle)
    && var c := u.node.cycle.value;
      && c.phase == Checking && c.pos == 0 && c.committed == {} && c.high == CurrentSeq(s.node)
      && Rest(c) == Alive(s.node.mem)
  }

  lemma Begins(d: nat, s: System) returns (u: System)
    requires 0 < d && s.node.Up? && s.node.cycle.None?
    ensures Leads(d, s, [BeginCycle], u) && BeganIn(s, u)
  {
    hide Leads;
    OneStep(d, s, BeginCycle);
    u := Apply(d, s, BeginCycle);
    var list := u.node.cycle.value.list;
    assert list == Numbers(s.node.mem);
    assert forall i :: 0 <= i < |list| ==> list[i] == s.node.mem.buckets[i].seqNo;
    var mem := s.node.mem;
    forall b
      ensures b in Rest(u.node.cycle.value) <==> b in Alive(mem)
    {
      if b in Rest(u.node.cycle.value) {
        var i :| 0 <= i < |list| && list[i] == b;
        assert mem.buckets[i].seqNo == b;
      }
      if b in Alive(mem) {
        var i :| 0 <= i < |mem.buckets| && mem.buckets[i].seqNo == b;
        assert list[i] == b;
      }
    }
  }

  // The mark is published, the log pruned, and what no bucket of the cycle needs swept.
  lemma Ends(d: nat, s: System) returns (run: seq<Action>, t: System)
    requires 0 < d && InPhase(s) && Done(s.node.cycle.value) && AllCommitted(s.node.cycle.value)
    ensures Leads(d, s, run, t)
    ensures var c := s.node.cycle.value;
      && t.node == s.node.(cycle := None) && t.acked == s.acked
      && t.blob == s.blob.(coll := Some(c.high), wal := Above(s.blob.wal, c.high), metas := Live(s.blob.metas, c.list))
  {
    hide Leads;
    OneStep(d, s, Publish);
    var s1 := Apply(d, s, Publish);
    var prune := PruneAll(d, s1);
    var s2 := WithWal(s1, Above(s1.blob.wal, s1.node.cycle.value.high));
    Then(d, s, [Publish], s1, prune, s2);
    ThenStep(d, s, [Publish] + prune, s2, EndPrune);
    var s3 := Apply(d, s2, EndPrune);
    var sweep := SweepAll(d, s3);
    var s4 := WithMetas(s3, Live(s3.blob.metas, s3.node.cycle.value.list));
    Then(d, s, [Publish] + prune + [EndPrune], s3, sweep, s4);
    ThenStep(d, s, [Publish] + prune + [EndPrune] + sweep, s4, EndCycle);
    run := [Publish] + prune + [EndPrune] + sweep + [EndCycle];
    t := Apply(d, s4, EndCycle);
  }

  // From any sound state a cycle can begin and go through, whatever the number of chunks.
  lemma GoesThrough(d: nat, s: System, chunks: nat) returns (run: seq<Action>, t: System)
    requires 0 < d && Sound(s) && s.node.Up? && s.node.cycle.None?
    ensures Leads(d, s, run, t) && WentThrough(s, t) && Sound(t)
  {
    hide Leads, Sound, At, Stored, Alive, CleanedAll;
    var u := Begins(d, s);
    SoundAfter(d, s, [BeginCycle], u);
    var all, v := AllBuckets(d, u, chunks);
    Then(d, s, [BeginCycle], u, all, v);
    AllAreCommitted(u, v);
    var end;
    end, t := Ends(d, v);
    Then(d, s, [BeginCycle] + all, v, end, t);
    run := [BeginCycle] + all + end;
    SoundAfter(d, s, run, t);
    LiveHere(d, u, v);
  }

  lemma AllAreCommitted(u: System, v: System)
    requires InPhase(u) && u.node.cycle.value.pos == 0 && u.node.cycle.value.committed == {} && DidAll(u, v)
    ensures Done(v.node.cycle.value) && AllCommitted(v.node.cycle.value)
  {
    hide CleanedAll;
    var c, e := u.node.cycle.value, v.node.cycle.value;
    assert e.committed == Rest(c) && e.list == c.list;
  }

  // Buckets of the cycle are still there.
  lemma LiveHere(d: nat, u: System, v: System)
    requires Sound(u) && InPhase(u) && u.node.cycle.value.pos == 0 && DidAll(u, v)
    requires Rest(u.node.cycle.value) == Alive(u.node.mem)
    ensures forall b :: b in u.node.cycle.value.list ==> At(v.node.mem, b).Some?
  {
    hide Sound, Stored;
    SoundMem(u);
    forall b | b in u.node.cycle.value.list
      ensures At(v.node.mem, b).Some?
    {
      var c := u.node.cycle.value;
      assert b in Rest(c);
      var i :| 0 <= i < |u.node.mem.buckets| && u.node.mem.buckets[i].seqNo == b;
      AtPosition(u.node.mem, i);
    }
  }

  // What is stored is in committed, complete snapshots, one for each live bucket, and nothing else
  // is; and the log is empty.
  ghost predicate Consolidated(s: System) {
    && s.node.Up? && s.blob.wal == map[]
    && forall b: nat :: if At(s.node.mem, b).Some? then HasSnapshot(s, b, At(s.node.mem, b).value.ids)
      else b !in s.blob.metas
  }

  ghost predicate HasSnapshot(s: System, b: nat, ids: seq<nat>) {
    && b in s.blob.metas
    && var key := SnapKey(b, s.blob.metas[b].snap);
      key in s.blob.snaps && Complete(s.blob.snaps[key]) && s.blob.snaps[key].ids == ids
  }

  lemma ThroughConsolidates(s: System, t: System)
    requires Sound(s) && Sound(t) && WentThrough(s, t)
    ensures Consolidated(t)
  {
    hide Sound, Stored, Above, Alive;
    LogBelow(s);
    assert t.blob.wal == map[];
    forall b: nat | At(t.node.mem, b).Some?
      ensures HasSnapshot(t, b, At(t.node.mem, b).value.ids)
    {
      AliveAt(s.node.mem, b);
      CleanHasSnapshot(t, b);
    }
  }

  lemma LogBelow(s: System)
    requires Sound(s) && s.node.Up?
    ensures Above(s.blob.wal, CurrentSeq(s.node)) == map[]
  {
    hide MemOk, HeldAt, CycleOk, AckedDurable, PointersComplete, PointedApart;
  }

  lemma AliveAt(mem: State, b: nat)
    ensures At(mem, b).Some? ==> b in Alive(mem)
  {
    if At(mem, b).Some? {
      assert mem.buckets[Find(mem.buckets, b)].seqNo == b;
    }
  }

  lemma CleanHasSnapshot(s: System, b: nat)
    requires Sound(s) && s.node.Up? && At(s.node.mem, b).Some?
    requires At(s.node.mem, b).value.clean == At(s.node.mem, b).value.writes
    ensures HasSnapshot(s, b, At(s.node.mem, b).value.ids)
  {
    hide WellKept, At, Stored, HeldAt, SequencedAt, CycleOk, PointedMatch, PointedApart, AckedDurable, Complete;
    assert CleanBucket(P(Base(s, {})), b, At(s.node.mem, b).value);
  }

  // From a consolidated state a crash loses and brings back nothing: any recovery replays nothing
  // and stores what was stored, the unacknowledged included.
  lemma ConsolidatedSurvives(d: nat, s: System, order: seq<nat>, log: seq<nat>, x: nat)
    requires 0 < d && Sound(s) && Consolidated(s)
    requires CanComeBack(d, s, order, log)
    ensures log == []
    ensures Stored(CameBack(d, s, order, log).node.mem, x) <==> Stored(s.node.mem, x)
  {
    hide Sound, At, Stored, RestoreOrder, Recovered, Complete, WellKept, HasSnapshot;
    SoundPointers(s);
    SoundMem(s);
    assert forall n :: n in log ==> n in s.blob.wal;
    FirstIsIn(log);
    RecoveredStores(d, s.blob, order, log, Mark(s.blob).value, x);
    StoredAt(s.node.mem, x);
    PointedIsStored(s, x);
  }

  lemma FirstIsIn(log: seq<nat>)
    ensures log == [] || log[0] in log
  {
  }

  lemma SoundPointers(s: System)
    requires Sound(s)
    ensures PointersComplete(s.blob.metas, s.blob.snaps) && PointedApart(P(s))
  {
    hide UpOk, AckedDurable, PointersComplete, PointedApart;
  }

  lemma PointedIsStored(s: System, x: nat)
    requires Consolidated(s)
    ensures InPointed(P(s), x) <==> exists b: nat :: At(s.node.mem, b).Some? && x in At(s.node.mem, b).value.ids
  {
    hide At, Complete;
    if b: nat :| At(s.node.mem, b).Some? && x in At(s.node.mem, b).value.ids {
      assert HasSnapshot(s, b, At(s.node.mem, b).value.ids);
      assert b in P(s) && x in P(s)[b];
    }
    if b :| b in P(s) && x in P(s)[b] {
      assert At(s.node.mem, b).Some? && HasSnapshot(s, b, At(s.node.mem, b).value.ids);
    }
  }

  // Stop any run between two cycles: one more cycle can go through with no step but its own, and
  // leaves every stored vector in a committed snapshot, the log empty, and the collection marked
  // up to the last number given.
  lemma CycleConsolidates(d: nat, catalog: Catalog, run: seq<Action>, chunks: nat)
      returns (more: seq<Action>, t: System)
    requires 0 < d && AtCreation(catalog) && CanRun(d, Created(catalog), run)
    requires var s := After(d, Created(catalog), run); s.node.Up? && s.node.cycle.None?
    ensures var s := After(d, Created(catalog), run);
      Leads(d, s, more, t) && WentThrough(s, t) && Consolidated(t) && Sound(t) && Idle(t)
  {
    hide CanRun, After, Created, Sound, Leads, WentThrough, Consolidated, Idle;
    CreatedWhole(catalog);
    RunKeepsSound(d, Created(catalog), run);
    var s := After(d, Created(catalog), run);
    more, t := GoesThrough(d, s, chunks);
    ThroughConsolidates(s, t);
    ThroughIsIdle(s, t);
  }

  // ── Nothing written, nothing uploaded ──

  ghost predicate AllClean(mem: State) {
    forall b: nat :: At(mem, b).Some? ==> At(mem, b).value.writes <= At(mem, b).value.clean
  }

  // Nothing was written since the last snapshots, and no bucket is being uploaded.
  ghost predicate Idle(s: System) {
    && s.node.Up? && AllClean(s.node.mem)
    && (s.node.cycle.Some? ==> var phase := s.node.cycle.value.phase;
      !phase.SeenDirty? && !phase.Uploading? && !phase.Marking?)
  }

  lemma IdleStep(d: nat, s: System, a: Action)
    requires 0 < d && Sound(s) && Idle(s) && Enabled(s, a) && !a.Insert? && a != Crash
    ensures Idle(Apply(d, s, a)) && !a.Capture? && !a.UploadFile? && a != CommitPointer
  {
    hide Sound, StoredOf, At, DropOldest, HeldByOldest, Complete, MayUpload, Dirty, WellKept;
    SoundMem(s);
    match a
    case CheckBucket => NotDirty(s.node.mem, Bucket0(s));
    case Evict(k) => EvictionShrinks(s.node.mem, k);
    case _ =>
  }

  lemma NotDirty(mem: State, b: nat)
    requires AllClean(mem)
    ensures !Dirty(mem, b)
  {
    var i := Find(mem.buckets, b);
    if i < |mem.buckets| {
      assert At(mem, b) == Some(mem.buckets[i]);
    }
  }

  // While nothing is inserted, an idle node goes through any number of cycles without staging,
  // uploading or committing a snapshot.
  lemma {:induction false} IdleUploadsNothing(d: nat, s: System, run: seq<Action>)
    requires 0 < d && Sound(s) && Idle(s) && CanRun(d, s, run)
    requires forall a :: a in run ==> !a.Insert? && a != Crash
    ensures Idle(After(d, s, run))
    ensures forall a :: a in run ==> !a.Capture? && !a.UploadFile? && a != CommitPointer
    decreases |run|
  {
    hide Sound, Idle, Enabled, Apply;
    if run != [] {
      IdleStep(d, s, run[0]);
      StepKeepsSound(d, s, run[0]);
      var rest := run[1..];
      assert forall a :: a in rest ==> a in run;
      IdleUploadsNothing(d, Apply(d, s, run[0]), rest);
      assert forall a :: a in run ==> a == run[0] || a in rest;
    }
  }

  // A consolidated node is idle between two cycles.
  lemma ThroughIsIdle(s: System, t: System)
    requires WentThrough(s, t) && s.node.cycle.None?
    ensures Idle(t)
  {
    hide At, Stored, Alive;
    forall b: nat | At(t.node.mem, b).Some?
      ensures At(t.node.mem, b).value.writes <= At(t.node.mem, b).value.clean
    {
      AliveAt(s.node.mem, b);
    }
  }

  // ── Uploading the log ──

  // A pending batch is in the local log, or its upload was marked.
  ghost predicate PendingUploaded(s: System) {
    s.node.Up? ==> forall n :: n in s.node.pending ==> n in s.node.local || n <= s.node.uploaded
  }

  lemma PendingUploadedStep(d: nat, s: System, a: Action)
    requires 0 < d && Sound(s) && PendingUploaded(s) && Enabled(s, a)
    ensures PendingUploaded(Apply(d, s, a))
  {
    hide Sound, InsertAll, StoredOf, At, DropOldest, HeldByOldest, MarkCleanIf, Recovered, Complete, MayUpload,
      RestoreOrder, ReplayOrder;
    if a == MarkWal {
      UploadsAscend(s);
    }
  }

  lemma UploadsAscend(s: System)
    requires Sound(s) && s.node.Up?
    ensures s.node.putting.Some? ==> Least(s.node.local, s.node.putting.value) && s.node.uploaded < s.node.putting.value
    ensures forall n :: n in s.node.local ==> n in s.node.pending && s.node.local[n] == s.node.pending[n]
  {
    hide MemOk, HeldAt, CycleOk, AckedDurable, PointersComplete, PointedApart;
  }

  lemma {:induction false} PendingUploadedAfter(d: nat, s: System, run: seq<Action>)
    requires 0 < d && Sound(s) && PendingUploaded(s) && CanRun(d, s, run)
    ensures PendingUploaded(After(d, s, run))
    decreases |run|
  {
    hide Sound, PendingUploaded, Enabled, Apply;
    if run != [] {
      PendingUploadedStep(d, s, run[0]);
      StepKeepsSound(d, s, run[0]);
      PendingUploadedAfter(d, Apply(d, s, run[0]), run[1..]);
    }
  }

  // `t` is `s` with the local log uploaded.
  ghost predicate LogUploaded(s: System, t: System) {
    && s.node.Up? && t.node.Up?
    && t == s.(blob := s.blob.(wal := t.blob.wal),
      node := s.node.(local := map[], putting := None, uploaded := t.node.uploaded))
  }

  lemma {:induction false} UploadLog(d: nat, s: System) returns (run: seq<Action>, t: System)
    requires 0 < d && Sound(s) && s.node.Up?
    ensures Leads(d, s, run, t) && LogUploaded(s, t)
    decreases |s.node.local|
  {
    hide Sound, Leads;
    UploadsAscend(s);
    if s.node.local == map[] {
      NoStep(d, s);
      run, t := [], s;
    } else {
      var n := Lowest(s.node.local.Keys);
      var u := s;
      run := [];
      NoStep(d, s);
      if s.node.putting.None? {
        OneStep(d, s, PutWal(n));
        run, u := [PutWal(n)], Apply(d, s, PutWal(n));
      }
      ThenStep(d, s, run, u, MarkWal);
      run, u := run + [MarkWal], Apply(d, u, MarkWal);
      assert |u.node.local| < |s.node.local| by {
        assert u.node.local.Keys == s.node.local.Keys - {n};
      }
      SoundAfter(d, s, run, u);
      var rest;
      rest, t := UploadLog(d, u);
      Then(d, s, run, u, rest, t);
      run := run + rest;
    }
  }

  ghost predicate InPending(pending: map<nat, seq<Entry>>, x: nat) {
    exists n :: n in pending && x in IdsOf(pending[n])
  }

  // `t` is `s` with all pending batches acknowledged.
  ghost predicate AckedAll(s: System, t: System) {
    && s.node.Up? && t.node.Up? && t.node == s.node.(pending := map[]) && t.blob == s.blob
    && forall x :: x in t.acked <==> x in s.acked || (Stored(s.node.mem, x) && InPending(s.node.pending, x))
  }

  lemma {:induction false} AckAll(d: nat, s: System) returns (run: seq<Action>, t: System)
    requires 0 < d && s.node.Up? && forall n :: n in s.node.pending ==> n <= s.node.uploaded
    ensures Leads(d, s, run, t) && AckedAll(s, t)
    decreases |s.node.pending|
  {
    hide Leads, Stored, IdsOf, InPending;
    if s.node.pending == map[] {
      NoStep(d, s);
      run, t := [], s;
      NothingPending(s.node.pending);
    } else {
      var n :| n in s.node.pending;
      OneStep(d, s, Ack(n));
      var u := Apply(d, s, Ack(n));
      assert |u.node.pending| < |s.node.pending| by {
        assert u.node.pending.Keys == s.node.pending.Keys - {n};
      }
      run, t := AckAll(d, u);
      forall x
        ensures InPending(s.node.pending, x) <==> x in IdsOf(s.node.pending[n]) || InPending(u.node.pending, x)
      {
        PendingWithout(s.node.pending, n, x);
      }
      Then(d, s, [Ack(n)], u, run, t);
      run := [Ack(n)] + run;
    }
  }

  lemma NothingPending(pending: map<nat, seq<Entry>>)
    ensures pending == map[] ==> forall x :: !InPending(pending, x)
  {
  }

  lemma PendingWithout(pending: map<nat, seq<Entry>>, n: nat, x: nat)
    requires n in pending
    ensures InPending(pending, x) <==> x in IdsOf(pending[n]) || InPending(pending - {n}, x)
  {
    hide IdsOf;
    if k :| k in pending && x in IdsOf(pending[k]) {
      assert k == n || k in pending - {n};
    }
  }

  // Stop any run while the node is up: by uploading its log, and with no other step, it can come
  // to acknowledge every pending batch.
  lemma CanAcknowledge(d: nat, catalog: Catalog, run: seq<Action>) returns (more: seq<Action>, t: System)
    requires 0 < d && AtCreation(catalog) && CanRun(d, Created(catalog), run)
    requires After(d, Created(catalog), run).node.Up?
    ensures var s := After(d, Created(catalog), run);
      && Leads(d, s, more, t) && t.node.Up? && t.node.pending == map[] && t.node.mem == s.node.mem
      && forall n, x :: n in s.node.pending && x in IdsOf(s.node.pending[n]) && Stored(s.node.mem, x) ==> x in t.acked
  {
    hide CanRun, After, Sound, Leads, Stored, IdsOf;
    CreatedWhole(catalog);
    RunKeepsSound(d, Created(catalog), run);
    PendingUploadedAfter(d, Created(catalog), run);
    var s := After(d, Created(catalog), run);
    var up, u := UploadLog(d, s);
    SoundAfter(d, s, up, u);
    UploadsKept(d, s, up, u);
    var ack;
    ack, t := AckAll(d, u);
    Then(d, s, up, u, ack, t);
    more := up + ack;
  }

  lemma UploadsKept(d: nat, s: System, run: seq<Action>, t: System)
    requires 0 < d && Sound(s) && PendingUploaded(s) && Leads(d, s, run, t)
    ensures PendingUploaded(t)
  {
    hide Sound, PendingUploaded;
    PendingUploadedAfter(d, s, run);
  }
}
