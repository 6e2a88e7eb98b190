// What the durability protocol keeps: over every run, an acknowledged vector whose bucket was
// not evicted survives a crash at any step.
module Durability {
  import opened Options
  import opened TimeBucket
  import opened BucketChanges
  import opened Protocol

  // ── What the pointers name ──

  // The content of the snapshot each pointer names.
  ghost function Pointed(metas: map<nat, Meta>, snaps: map<SnapKey, Snap>): map<nat, seq<nat>> {
    map b | b in metas && SnapKey(b, metas[b].snap) in snaps :: snaps[SnapKey(b, metas[b].snap)].ids
  }

  ghost predicate PointersComplete(metas: map<nat, Meta>, snaps: map<SnapKey, Snap>) {
    forall b :: b in metas ==> SnapKey(b, metas[b].snap) in snaps && Complete(snaps[SnapKey(b, metas[b].snap)])
  }

  // No id twice, within a pointed snapshot or across two.
  ghost predicate PointedApart(p: map<nat, seq<nat>>) {
    && (forall b :: b in p ==> OnlyOnce(p[b]))
    && forall b, c, x :: b in p && c in p && x in p[b] && x in p[c] ==> b == c
  }

  ghost predicate InPointed(p: map<nat, seq<nat>>, x: nat) {
    exists b :: b in p && x in p[b]
  }

  // A live bucket extends its pointed snapshot; an evicted one left nothing stored.
  ghost predicate PointedMatch(p: map<nat, seq<nat>>, mem: State) {
    forall b :: b in p ==> b < mem.next && Beside(p[b], b, mem)
  }

  ghost predicate Beside(ids: seq<nat>, b: nat, mem: State) {
    match At(mem, b)
    case Some(bucket) => ids <= bucket.ids
    case None => forall x :: x in ids ==> x in mem.known && !Stored(mem, x)
  }

  // A bucket whose counters agree has a committed snapshot of exactly its vectors.
  ghost predicate CleanMatch(p: map<nat, seq<nat>>, mem: State) {
    forall b: nat :: At(mem, b).Some? ==> CleanBucket(p, b, At(mem, b).value)
  }

  ghost predicate CleanBucket(p: map<nat, seq<nat>>, b: nat, bucket: Bucket) {
    bucket.clean <= bucket.writes && (bucket.clean == bucket.writes ==> b in p && p[b] == bucket.ids)
  }

  // ── What is durable ──

  ghost predicate InWal(wal: map<nat, seq<Entry>>, h: nat, x: nat) {
    exists n :: n in wal && n > h && x in IdsOf(wal[n])
  }

  ghost predicate Durable(p: map<nat, seq<nat>>, wal: map<nat, seq<Entry>>, h: nat, x: nat) {
    InPointed(p, x) || InWal(wal, h, x)
  }

  ghost predicate Settled(local: map<nat, seq<Entry>>, putting: Option<nat>, n: nat) {
    n !in local || putting == Some(n)
  }

  // Every acknowledged id is durable above `h`, or among the `excused`; so is every stored id of
  // an unacknowledged batch once uploaded, and before that its own log entry will make it so.
  ghost predicate Held(acked: set<nat>, pending: map<nat, seq<Entry>>, local: map<nat, seq<Entry>>,
      putting: Option<nat>,
                       mem: State, p: map<nat, seq<nat>>, wal: map<nat, seq<Entry>>, h: nat, excused: State) {
    && (forall x :: x in acked ==> Stored(excused, x) || Durable(p, wal, h, x))
    && forall n, x :: n in pending && x in IdsOf(pending[n]) && Stored(mem, x) ==>
      if Settled(local, putting, n) then Stored(excused, x) || Durable(p, wal, h, x)
      else n > h || Stored(excused, x) || InPointed(p, x)
  }

  ghost function Nothing(): State {
    State([], 0, {})
  }

  // ── Sequence numbers ──

  ghost predicate Sequenced(local: map<nat, seq<Entry>>, putting: Option<nat>, next: nat, uploaded: nat,
                            pending: map<nat, seq<Entry>>, wal: map<nat, seq<Entry>>, mark: nat, known: set<nat>) {
    && mark < next && uploaded < next
    && (forall n :: n in local ==>
      n in pending && local[n] == pending[n] && uploaded < n && (n in wal ==> putting == Some(n)))
    && (forall n :: n in pending ==> n < next && IdsOf(pending[n]) <= known)
    && (forall n :: n in wal ==> n < next)
    && (putting.Some? ==> Least(local, putting.value))
  }

  // ── Snapshot cycles ──

  // Since the cycle began buckets were only extended, added or evicted.
  ghost predicate Since(begun: State, mem: State) {
    forall b: nat :: At(begun, b).Some? ==> Beside(At(begun, b).value.ids, b, mem)
  }

  ghost predicate Listed(c: Cycle, p: map<nat, seq<nat>>, mem: State) {
    && WellKept(c.begun) && c.begun.next <= mem.next
    && (forall b: nat :: b in c.list <==> At(c.begun, b).Some?)
    && (forall b :: b in p && b !in c.list ==> At(mem, b).None?)
    && (forall b :: b in c.committed ==> b in c.list)
  }

  // A committed bucket's snapshot holds at least what the bucket held when the cycle began.
  ghost predicate CommittedCover(c: Cycle, p: map<nat, seq<nat>>, mem: State) {
    forall b :: b in c.committed ==> CoversBegun(c.begun, p, mem, b)
  }

  ghost predicate CoversBegun(begun: State, p: map<nat, seq<nat>>, mem: State, b: nat) {
    At(mem, b).Some? && At(begun, b).Some? ==> b in p && At(begun, b).value.ids <= p[b]
  }

  // The captured content of bucket `b` against the live bucket: what was added since then is
  // exactly what the write counter counted.
  ghost predicate CapturedMatch(ids: seq<nat>, version: nat, b: nat, mem: State) {
    At(mem, b).Some? ==> var bucket := At(mem, b).value;
      ids <= bucket.ids && bucket.writes == version + |bucket.ids| - |ids|
  }

  ghost predicate PhaseOk(c: Cycle, metas: map<nat, Meta>, snaps: map<SnapKey, Snap>, p: map<nat, seq<nat>>,
      mem: State) {
    match c.phase
    case Checking => true
    case SeenDirty => true
    case Uploading(snap, version) => c.pos < |c.list| && UploadOk(c.begun, snap, version, c.list[c.pos], metas, snaps,
      p, mem)
    case Marking(snap, version) =>
      && c.pos < |c.list| && c.list[c.pos] in metas && metas[c.list[c.pos]].snap == snap
      && c.list[c.pos] in p && CapturedMatch(p[c.list[c.pos]], version, c.list[c.pos], mem)
    case Cleaning(active) =>
      c.pos < |c.list| && (c.list[c.pos] in metas ==> metas[c.list[c.pos]].snap == active)
    case Pruning => true
    case Sweeping => true
  }

  ghost predicate UploadOk(begun: State, snap: nat, version: nat, b: nat, metas: map<nat, Meta>, snaps: map<SnapKey,
      Snap>,
                           p: map<nat, seq<nat>>, mem: State) {
    && SnapKey(b, snap) in snaps && (b in metas ==> metas[b].snap != snap)
    && CapturedOk(begun, snaps[SnapKey(b, snap)].ids, version, b, p, mem)
  }

  ghost predicate CapturedOk(begun: State, ids: seq<nat>, version: nat, b: nat, p: map<nat, seq<nat>>, mem: State) {
    && OnlyOnce(ids) && CapturedMatch(ids, version, b, mem) && Beside(ids, b, mem) && b < mem.next
    && (b in p ==> p[b] <= ids)
    && (At(begun, b).Some? ==> At(begun, b).value.ids <= ids)
    && forall e, x :: e in p && e != b && x in ids ==> x !in p[e]
  }

  function Max(a: nat, b: nat): nat {
    if a >= b then a else b
  }

  // ── The invariant ──

  ghost function P(s: System): map<nat, seq<nat>> {
    Pointed(s.blob.metas, s.blob.snaps)
  }

  ghost predicate MemOk(p: map<nat, seq<nat>>, mem: State, acked: set<nat>) {
    && WellKept(mem) && PointedMatch(p, mem) && CleanMatch(p, mem)
    && forall x :: x in acked ==> Stored(mem, x)
  }

  // All obligations of the node hold above `h` but for the excused ids.
  ghost predicate HeldAt(s: System, h: nat, excused: State)
    requires s.node.Up?
  {
    Held(s.acked, s.node.pending, s.node.local, s.node.putting, s.node.mem, P(s), s.blob.wal, h, excused)
  }

  ghost predicate SequencedAt(s: System)
    requires s.node.Up?
  {
    var n := s.node;
    Sequenced(n.local, n.putting, n.next, n.uploaded, n.pending, s.blob.wal, MarkOrZero(s.blob), n.mem.known)
  }

  ghost predicate CycleOk(s: System, c: Cycle)
    requires s.node.Up?
  {
    && c.high < s.node.next
    && Listed(c, P(s), s.node.mem) && Since(c.begun, s.node.mem) && CommittedCover(c, P(s), s.node.mem)
    && PhaseOk(c, s.blob.metas, s.blob.snaps, P(s), s.node.mem)
    && HeldAt(s, Max(c.high, MarkOrZero(s.blob)), if c.phase == Pruning then Nothing() else c.begun)
  }

  ghost predicate UpOk(s: System)
    requires s.node.Up?
  {
    && MemOk(P(s), s.node.mem, s.acked)
    && SequencedAt(s)
    && HeldAt(s, MarkOrZero(s.blob), Nothing())
    && (s.node.cycle.Some? ==> CycleOk(s, s.node.cycle.value))
  }

  ghost predicate AckedDurable(s: System) {
    forall x :: x in s.acked ==> Durable(P(s), s.blob.wal, MarkOrZero(s.blob), x)
  }

  ghost predicate Inv(s: System) {
    && PointersComplete(s.blob.metas, s.blob.snaps) && PointedApart(P(s))
    && AckedDurable(s)
    && (s.node.Up? ==> UpOk(s))
  }

  // ── How obligations carry over ──

  lemma DurableStays(p: map<nat, seq<nat>>, wal: map<nat, seq<Entry>>, h: nat,
                     p': map<nat, seq<nat>>, wal': map<nat, seq<Entry>>, h': nat, x: nat)
    requires Durable(p, wal, h, x) && (InPointed(p, x) ==> InPointed(p', x))
    requires forall n :: n in wal && n > h ==> n in wal' && wal'[n] == wal[n] && n > h'
    ensures Durable(p', wal', h', x)
  {
    if !InPointed(p, x) {
      var n :| n in wal && n > h && x in IdsOf(wal[n]);
      assert n in wal' && n > h' && x in IdsOf(wal'[n]);
    }
  }

  // Memory may gain ids no pending batch holds, or lose ids; acknowledgements may only be dropped.
  lemma HeldInMemory(acked: set<nat>, pending: map<nat, seq<Entry>>, local: map<nat, seq<Entry>>, putting: Option<nat>,
                     mem: State, p: map<nat, seq<nat>>, wal: map<nat, seq<Entry>>, h: nat, excused: State,
                     acked': set<nat>, mem': State)
    requires Held(acked, pending, local, putting, mem, p, wal, h, excused) && acked' <= acked
    requires forall n, x :: n in pending && x in IdsOf(pending[n]) && Stored(mem', x) ==> Stored(mem, x)
    ensures Held(acked', pending, local, putting, mem', p, wal, h, excused)
  {
    hide Durable, InPointed, Stored, Settled, IdsOf;
  }

  // A new batch will be logged above every mark.
  lemma HeldWithBatch(acked: set<nat>, pending: map<nat, seq<Entry>>, local: map<nat, seq<Entry>>, putting: Option<nat>,
                      mem: State, p: map<nat, seq<nat>>, wal: map<nat, seq<Entry>>, h: nat, excused: State, n: nat,
                        batch: seq<Entry>)
    requires Held(acked, pending, local, putting, mem, p, wal, h, excused) && n !in pending && n > h
      && putting != Some(n)
    ensures Held(acked, pending[n := batch], local[n := batch], putting, mem, p, wal, h, excused)
  {
    hide Durable, InPointed, Stored, IdsOf;
  }

  lemma HeldWithUpload(acked: set<nat>, pending: map<nat, seq<Entry>>, local: map<nat, seq<Entry>>,
                       mem: State, p: map<nat, seq<nat>>, wal: map<nat, seq<Entry>>, h: nat, excused: State, n: nat)
    requires Held(acked, pending, local, None, mem, p, wal, h, excused)
    requires n in local && n !in wal && (n in pending ==> pending[n] == local[n])
    ensures Held(acked, pending, local, Some(n), mem, p, wal[n := local[n]], h, excused)
  {
    hide InPointed, Stored, InWal, IdsOf;
    var wal' := wal[n := local[n]];
    forall x | Durable(p, wal, h, x)
      ensures Durable(p, wal', h, x)
    {
      DurableStays(p, wal, h, p, wal', h, x);
    }
    forall x | x in IdsOf(local[n]) && n > h
      ensures Durable(p, wal', h, x)
    {
      LoggedIsDurable(p, wal', h, n, x);
    }
    forall x | InPointed(p, x)
      ensures Durable(p, wal', h, x)
    {
    }
  }

  lemma LoggedIsDurable(p: map<nat, seq<nat>>, wal: map<nat, seq<Entry>>, h: nat, n: nat, x: nat)
    requires n in wal && n > h && x in IdsOf(wal[n])
    ensures Durable(p, wal, h, x)
  {
  }

  // Pointers may come to cover more, unpointed content may go if it is not stored, and log
  // entries up to the mark may go.
  lemma HeldInBlob(acked: set<nat>, pending: map<nat, seq<Entry>>, local: map<nat, seq<Entry>>, putting: Option<nat>,
                   mem: State, p: map<nat, seq<nat>>, wal: map<nat, seq<Entry>>, h: nat, excused: State,
                   p': map<nat, seq<nat>>, wal': map<nat, seq<Entry>>, h': nat, excused': State)
    requires Held(acked, pending, local, putting, mem, p, wal, h, excused) && h' <= h
    requires forall x :: x in acked ==> Stored(mem, x)
    requires forall x :: InPointed(p, x) && Stored(mem, x) ==> InPointed(p', x)
    requires forall x :: Stored(excused, x) && Stored(mem, x) ==> Stored(excused', x) || InPointed(p', x)
    requires forall n :: n in wal && n > h ==> n in wal' && wal'[n] == wal[n]
    ensures Held(acked, pending, local, putting, mem, p', wal', h', excused')
  {
    hide InPointed, Stored, InWal, Settled, IdsOf;
    forall x | Durable(p, wal, h, x) && Stored(mem, x)
      ensures Durable(p', wal', h', x)
    {
      DurableStays(p, wal, h, p', wal', h', x);
    }
  }

  // ── Inserts and evictions ──

  // Buckets were extended, added or evicted; evicted content is stored nowhere.
  ghost predicate Evolves(s: State, t: State) {
    && s.known <= t.known && s.next <= t.next
    && (forall b: nat :: At(s, b).Some? && At(t, b).Some? ==> Extends(At(s, b).value, At(t, b).value))
    && (forall b: nat :: At(s, b).None? && At(t, b).Some? ==> b >= s.next && DirtyBucket(At(t, b).value))
    && (forall b: nat, x: nat :: At(s, b).Some? && At(t, b).None? && x in At(s, b).value.ids ==> !Stored(t, x))
    && (forall x: nat :: Stored(t, x) && !Stored(s, x) ==> x !in s.known)
  }

  lemma GrowsEvolves(s: State, t: State)
    requires Grows(s, t)
    ensures Evolves(s, t)
  {
    hide At, Stored, DirtyBucket, Extends;
  }

  lemma ShrinksEvolves(s: State, t: State)
    requires Shrinks(s, t)
    ensures Evolves(s, t)
  {
    hide At, Stored, DirtyBucket;
  }

  lemma EvolvesBeside(ids: seq<nat>, b: nat, s: State, t: State)
    requires Evolves(s, t) && WellKept(s) && Beside(ids, b, s) && b < s.next
    ensures Beside(ids, b, t)
  {
    hide At, Stored, DirtyBucket, WellKept;
    if At(s, b).Some? && At(t, b).None? {
      AtKept(s, b);
    }
  }

  lemma EvolvesCaptured(ids: seq<nat>, version: nat, b: nat, s: State, t: State)
    requires Evolves(s, t) && CapturedMatch(ids, version, b, s) && b < s.next
    ensures CapturedMatch(ids, version, b, t)
  {
    hide At, Stored, DirtyBucket;
  }

  lemma EvolvesMem(p: map<nat, seq<nat>>, s: State, t: State, acked: set<nat>, acked': set<nat>)
    requires MemOk(p, s, acked) && Evolves(s, t) && WellKept(t)
    requires forall x :: x in acked' ==> Stored(t, x)
    ensures MemOk(p, t, acked')
  {
    hide At, Stored, WellKept, Beside;
    forall b | b in p
      ensures b < t.next && Beside(p[b], b, t)
    {
      EvolvesBeside(p[b], b, s, t);
    }
    forall b: nat | At(t, b).Some?
      ensures CleanBucket(p, b, At(t, b).value)
    {
      assert At(s, b).Some? ==> CleanBucket(p, b, At(s, b).value);
    }
  }

  lemma EvolvesCycle(c: Cycle, metas: map<nat, Meta>, snaps: map<SnapKey, Snap>, p: map<nat, seq<nat>>, s: State,
      t: State)
    requires Evolves(s, t) && WellKept(s) && PointedMatch(p, s)
    requires Listed(c, p, s) && Since(c.begun, s) && CommittedCover(c, p, s) && PhaseOk(c, metas, snaps, p, s)
    ensures Listed(c, p, t) && Since(c.begun, t) && CommittedCover(c, p, t) && PhaseOk(c, metas, snaps, p, t)
  {
    hide At, Stored, WellKept, Beside, CapturedMatch, DirtyBucket, Extends;
    forall b: nat | At(c.begun, b).Some?
      ensures Beside(At(c.begun, b).value.ids, b, t) && b < s.next
    {
      AtKept(c.begun, b);
      EvolvesBeside(At(c.begun, b).value.ids, b, s, t);
    }
    assert CommittedCover(c, p, t);
    match c.phase
    case Uploading(snap, version) =>
      var b := c.list[c.pos];
      EvolvesBeside(snaps[SnapKey(b, snap)].ids, b, s, t);
      EvolvesCaptured(snaps[SnapKey(b, snap)].ids, version, b, s, t);
    case Marking(snap, version) =>
      EvolvesCaptured(p[c.list[c.pos]], version, c.list[c.pos], s, t);
    case _ =>
  }

  // A step that changes only memory, and drops acknowledgements of what is no longer stored.
  lemma KeepsMemory(s: System, mem: State, acked: set<nat>)
    requires Inv(s) && s.node.Up? && Evolves(s.node.mem, mem) && WellKept(mem) && acked <= s.acked
    requires forall x :: x in acked ==> Stored(mem, x)
    ensures Inv(s.(acked := acked, node := s.node.(mem := mem)))
  {
    hide Evolves, WellKept, Held, Listed, Since, CommittedCover, PhaseOk, PointedMatch, CleanMatch, PointersComplete,
      PointedApart, Durable, Pointed;
    var n := s.node;
    var t := s.(acked := acked, node := n.(mem := mem));
    EvolvesMem(P(s), n.mem, mem, s.acked, acked);
    PendingNotRestored(n.pending, n.mem, mem, n.next);
    HeldInMemory(s.acked, n.pending, n.local, n.putting, n.mem, P(s), s.blob.wal, MarkOrZero(s.blob), Nothing(),
      acked, mem);
    SequencedKnown(s, mem);
    if n.cycle.Some? {
      var c := n.cycle.value;
      EvolvesCycle(c, s.blob.metas, s.blob.snaps, P(s), n.mem, mem);
      HeldInMemory(s.acked, n.pending, n.local, n.putting, n.mem, P(s), s.blob.wal, Max(c.high, MarkOrZero(s.blob)),
                   if c.phase == Pruning then Nothing() else c.begun, acked, mem);
    }
  }

  lemma SequencedKnown(s: System, mem: State)
    requires s.node.Up? && SequencedAt(s) && Evolves(s.node.mem, mem)
    ensures SequencedAt(s.(node := s.node.(mem := mem)))
    ensures forall n :: n in s.node.pending ==> IdsOf(s.node.pending[n]) <= s.node.mem.known
  {
    hide IdsOf, Least, At, Stored;
  }

  lemma PendingNotRestored(pending: map<nat, seq<Entry>>, s: State, t: State, next: nat)
    requires Evolves(s, t) && forall n :: n in pending ==> IdsOf(pending[n]) <= s.known
    ensures forall n, x :: n in pending && x in IdsOf(pending[n]) && Stored(t, x) ==> Stored(s, x)
  {
    hide At, Stored, IdsOf;
  }

  lemma KeepsEvict(d: nat, s: System, k: nat)
    requires 0 < d && Inv(s) && Enabled(s, Evict(k))
    ensures Inv(Apply(d, s, Evict(k)))
  {
    hide Evolves, Shrinks, WellKept, PointersComplete, PointedApart, Durable, Pointed, SequencedAt, HeldAt, CycleOk,
      PointedMatch, CleanMatch;
    EvictionShrinks(s.node.mem, k);
    ShrinksEvolves(s.node.mem, DropOldest(s.node.mem, k));
    NotHeldStays(s.node.mem, k);
    KeepsMemory(s, DropOldest(s.node.mem, k), s.acked - HeldByOldest(s.node.mem, k));
  }

  lemma NotHeldStays(mem: State, k: nat)
    requires k <= |mem.buckets|
    ensures forall x :: Stored(mem, x) && x !in HeldByOldest(mem, k) ==> Stored(DropOldest(mem, k), x)
  {
  }

  lemma KeepsInsert(d: nat, s: System, batch: seq<Entry>)
    requires 0 < d && Inv(s) && Enabled(s, Insert(batch))
    ensures Inv(Apply(d, s, Insert(batch)))
  {
    hide WellKept, Stored, IdsOf, At, MemOk, CycleOk, PointersComplete, PointedApart, Durable, Pointed, Held;
    var n := s.node;
    MemWellKept(s);
    var mem := InsertAll(d, n.mem, batch).0;
    InsertAllKeeps(d, n.mem, batch);
    InsertAllGrows(d, n.mem, batch);
    GrowsEvolves(n.mem, mem);
    GrowsKeepsAcked(s, mem);
    KeepsMemory(s, mem, s.acked);
    KeepsBatch(s.(node := n.(mem := mem)), batch);
  }

  lemma MemWellKept(s: System)
    requires Inv(s) && s.node.Up?
    ensures WellKept(s.node.mem)
  {
  }

  lemma GrowsKeepsAcked(s: System, mem: State)
    requires Inv(s) && s.node.Up? && Grows(s.node.mem, mem)
    ensures forall x :: x in s.acked ==> Stored(mem, x)
  {
    hide Stored, WellKept, Held, At;
  }

  // Registering an applied batch under the next sequence number.
  lemma KeepsBatch(s: System, batch: seq<Entry>)
    requires Inv(s) && s.node.Up? && IdsOf(batch) <= s.node.mem.known
    ensures var n := s.node;
      Inv(s.(node := n.(local := n.local[n.next := batch], pending := n.pending[n.next := batch], next := n.next + 1)))
  {
    hide WellKept, Stored, IdsOf, Held, MemOk, Listed, Since, CommittedCover, PhaseOk, PointersComplete, PointedApart,
      Durable, Pointed;
    var n := s.node;
    HeldWithBatch(s.acked, n.pending, n.local, n.putting, n.mem, P(s), s.blob.wal, MarkOrZero(s.blob), Nothing(),
      n.next, batch);
    if n.cycle.Some? {
      var c := n.cycle.value;
      HeldWithBatch(s.acked, n.pending, n.local, n.putting, n.mem, P(s), s.blob.wal, Max(c.high, MarkOrZero(s.blob)),
                    if c.phase == Pruning then Nothing() else c.begun, n.next, batch);
    }
  }

  lemma KeepsPutWal(d: nat, s: System, n: nat)
    requires 0 < d && Inv(s) && Enabled(s, PutWal(n))
    ensures Inv(Apply(d, s, PutWal(n)))
  {
    hide WellKept, Stored, IdsOf, Held, MemOk, Listed, Since, CommittedCover, PointersComplete, PointedApart, Durable,
      Pointed, UploadOk;
    var u := s.node;
    HeldWithUpload(s.acked, u.pending, u.local, u.mem, P(s), s.blob.wal, MarkOrZero(s.blob), Nothing(), n);
    HeldAcked(s, Apply(d, s, PutWal(n)));
    if u.cycle.Some? {
      var c := u.cycle.value;
      HeldWithUpload(s.acked, u.pending, u.local, u.mem, P(s), s.blob.wal, Max(c.high, MarkOrZero(s.blob)),
                     if c.phase == Pruning then Nothing() else c.begun, n);
    }
  }

  lemma HeldAcked(s: System, t: System)
    requires t.node.Up? && HeldAt(t, MarkOrZero(t.blob), Nothing())
    ensures AckedDurable(t)
  {
    hide Durable, IdsOf;
  }

  // The uploaded entry leaves the local log: it stays settled.
  lemma HeldWithMark(acked: set<nat>, pending: map<nat, seq<Entry>>, local: map<nat, seq<Entry>>, n: nat,
                     mem: State, p: map<nat, seq<nat>>, wal: map<nat, seq<Entry>>, h: nat, excused: State)
    requires Held(acked, pending, local, Some(n), mem, p, wal, h, excused)
    ensures Held(acked, pending, local - {n}, None, mem, p, wal, h, excused)
  {
    hide Durable, InPointed, Stored, IdsOf;
  }

  lemma KeepsMarkWal(d: nat, s: System)
    requires 0 < d && Inv(s) && Enabled(s, MarkWal)
    ensures Inv(Apply(d, s, MarkWal))
  {
    hide WellKept, Stored, IdsOf, Held, MemOk, Listed, Since, CommittedCover, PhaseOk, PointersComplete, PointedApart,
      Durable, Pointed;
    var u := s.node;
    HeldWithMark(s.acked, u.pending, u.local, u.putting.value, u.mem, P(s), s.blob.wal, MarkOrZero(s.blob), Nothing());
    if u.cycle.Some? {
      var c := u.cycle.value;
      HeldWithMark(s.acked, u.pending, u.local, u.putting.value, u.mem, P(s), s.blob.wal,
        Max(c.high, MarkOrZero(s.blob)),
                   if c.phase == Pruning then Nothing() else c.begun);
    }
  }

  // Acknowledging a settled batch.
  lemma HeldWithAck(acked: set<nat>, pending: map<nat, seq<Entry>>, local: map<nat, seq<Entry>>, putting: Option<nat>,
                    mem: State, p: map<nat, seq<nat>>, wal: map<nat, seq<Entry>>, h: nat, excused: State, n: nat)
    requires Held(acked, pending, local, putting, mem, p, wal, h, excused) && n in pending && n !in local
    ensures Held(acked + StoredOf(IdsOf(pending[n]), mem), pending - {n}, local, putting, mem, p, wal, h, excused)
  {
    hide Durable, InPointed, Stored, IdsOf;
  }

  lemma KeepsAck(d: nat, s: System, n: nat)
    requires 0 < d && Inv(s) && Enabled(s, Ack(n))
    ensures Inv(Apply(d, s, Ack(n)))
  {
    hide WellKept, Stored, IdsOf, Held, Listed, Since, CommittedCover, PhaseOk, PointersComplete, PointedApart,
      Durable, Pointed, PointedMatch, CleanMatch;
    var u := s.node;
    HeldWithAck(s.acked, u.pending, u.local, u.putting, u.mem, P(s), s.blob.wal, MarkOrZero(s.blob), Nothing(), n);
    HeldAcked(s, Apply(d, s, Ack(n)));
    if u.cycle.Some? {
      var c := u.cycle.value;
      HeldWithAck(s.acked, u.pending, u.local, u.putting, u.mem, P(s), s.blob.wal, Max(c.high, MarkOrZero(s.blob)),
                  if c.phase == Pruning then Nothing() else c.begun, n);
    }
  }

  // ── The snapshot cycle ──

  lemma NumbersListed(mem: State, b: nat)
    ensures b in Numbers(mem) <==> At(mem, b).Some?
  {
    var i := Find(mem.buckets, b);
    if i < |mem.buckets| {
      assert Numbers(mem)[i] == b;
    }
    if b in Numbers(mem) {
      var j :| 0 <= j < |mem.buckets| && Numbers(mem)[j] == b;
      assert mem.buckets[j].seqNo == b;
    }
  }

  lemma BegunNow(mem: State, p: map<nat, seq<nat>>, high: nat)
    requires WellKept(mem) && PointedMatch(p, mem)
    ensures var c := Cycle(mem, Numbers(mem), high, {}, 0, Checking);
      Listed(c, p, mem) && Since(mem, mem) && CommittedCover(c, p, mem)
  {
    hide WellKept, Stored, At;
    forall b: nat
      ensures b in Numbers(mem) <==> At(mem, b).Some?
    {
      NumbersListed(mem, b);
    }
  }

  lemma HeldByMemory(acked: set<nat>, pending: map<nat, seq<Entry>>, local: map<nat, seq<Entry>>, putting: Option<nat>,
                     mem: State, p: map<nat, seq<nat>>, wal: map<nat, seq<Entry>>, h: nat)
    requires forall x :: x in acked ==> Stored(mem, x)
    ensures Held(acked, pending, local, putting, mem, p, wal, h, mem)
  {
  }

  lemma KeepsBeginCycle(d: nat, s: System)
    requires 0 < d && Inv(s) && Enabled(s, BeginCycle)
    ensures Inv(Apply(d, s, BeginCycle))
  {
    hide WellKept, Stored, IdsOf, Held, Listed, Since, CommittedCover, PointersComplete, PointedApart, Durable,
      Pointed, PointedMatch, CleanMatch;
    var u := s.node;
    BegunNow(u.mem, P(s), CurrentSeq(u));
    HeldByMemory(s.acked, u.pending, u.local, u.putting, u.mem, P(s), s.blob.wal,
      Max(CurrentSeq(u), MarkOrZero(s.blob)));
  }

  // A clean or vanished bucket already has what the cycle needs of it.
  lemma SkippedCovers(c: Cycle, p: map<nat, seq<nat>>, mem: State, b: nat)
    requires Since(c.begun, mem) && CleanMatch(p, mem) && !Dirty(mem, b)
    ensures CoversBegun(c.begun, p, mem, b)
  {
    hide Stored;
    if At(mem, b).Some? && At(c.begun, b).Some? {
      assert CleanBucket(p, b, At(mem, b).value);
      assert Beside(At(c.begun, b).value.ids, b, mem);
    }
  }

  lemma KeepsCheck(d: nat, s: System)
    requires 0 < d && Inv(s) && Enabled(s, CheckBucket)
    ensures Inv(Apply(d, s, CheckBucket))
  {
    hide WellKept, Stored, Held, Since, CoversBegun, PointersComplete, PointedApart, Durable, Pointed, PointedMatch,
      CleanMatch, Sequenced, UploadOk;
    if !Dirty(s.node.mem, Bucket0(s)) {
      SkippedCovers(s.node.cycle.value, P(s), s.node.mem, Bucket0(s));
    }
  }

  lemma AbsentCovers(c: Cycle, p: map<nat, seq<nat>>, mem: State, b: nat)
    requires At(mem, b).None?
    ensures CoversBegun(c.begun, p, mem, b)
  {
  }

  lemma KeepsCaptureAbsent(d: nat, s: System, snap: nat, chunks: nat)
    requires 0 < d && Inv(s) && Enabled(s, Capture(snap, chunks)) && At(s.node.mem, Bucket0(s)).None?
    ensures Inv(Apply(d, s, Capture(snap, chunks)))
  {
    hide WellKept, Stored, Held, Since, CoversBegun, PointersComplete, PointedApart, Durable, Pointed, PointedMatch,
      CleanMatch, Sequenced, UploadOk;
    AbsentCovers(s.node.cycle.value, P(s), s.node.mem, Bucket0(s));
  }

  // What a live bucket holds now fits beside all pointers.
  lemma CaptureFits(c: Cycle, p: map<nat, seq<nat>>, mem: State, b: nat)
    requires WellKept(mem) && PointedMatch(p, mem) && Since(c.begun, mem) && At(mem, b).Some?
    ensures CapturedOk(c.begun, At(mem, b).value.ids, At(mem, b).value.writes, b, p, mem)
  {
    hide WellKept, At, Stored, OnlyOnce;
    var ids := At(mem, b).value.ids;
    AtKept(mem, b);
    forall e, x | e in p && e != b && x in ids
      ensures x !in p[e]
    {
      assert Beside(p[e], e, mem);
      StoredAt(mem, x);
    }
    assert At(c.begun, b).Some? ==> Beside(At(c.begun, b).value.ids, b, mem);
  }

  lemma SamePointed(metas: map<nat, Meta>, snaps: map<SnapKey, Snap>, key: SnapKey, snap: Snap)
    requires PointersComplete(metas, snaps)
    requires key.bucket in metas ==> metas[key.bucket].snap != key.snap
    ensures Pointed(metas, snaps[key := snap]) == Pointed(metas, snaps) && PointersComplete(metas, snaps[key := snap])
  {
  }

  lemma KeepsCapture(d: nat, s: System, snap: nat, chunks: nat)
    requires 0 < d && Inv(s) && Enabled(s, Capture(snap, chunks))
    ensures Inv(Apply(d, s, Capture(snap, chunks)))
  {
    hide WellKept, Stored, Held, Since, CoversBegun, PointedApart, Durable, Pointed, PointedMatch, CleanMatch,
      Sequenced, CapturedOk, Complete;
    var b := Bucket0(s);
    if At(s.node.mem, b).None? {
      KeepsCaptureAbsent(d, s, snap, chunks);
    } else {
      CaptureFits(s.node.cycle.value, P(s), s.node.mem, b);
      SamePointed(s.blob.metas, s.blob.snaps, SnapKey(b, snap), Snap(At(s.node.mem, b).value.ids, chunks, {}));
    }
  }

  lemma KeepsGiveUp(d: nat, s: System)
    requires 0 < d && Inv(s) && Enabled(s, GiveUp)
    ensures Inv(Apply(d, s, GiveUp))
  {
    hide WellKept, Stored, Held, Since, CoversBegun, PointersComplete, PointedApart, Durable, Pointed, PointedMatch,
      CleanMatch, Sequenced, UploadOk;
  }

  lemma KeepsUploadFile(d: nat, s: System, f: File)
    requires 0 < d && Inv(s) && Enabled(s, UploadFile(f))
    ensures Inv(Apply(d, s, UploadFile(f)))
  {
    hide WellKept, Stored, Held, Since, CommittedCover, Listed, PointedApart, Durable, Pointed, PointedMatch,
      CleanMatch, Sequenced, CapturedOk, Complete;
    var key := SnapKey(Bucket0(s), s.node.cycle.value.phase.snap);
    SamePointed(s.blob.metas, s.blob.snaps, key, s.blob.snaps[key].(have := s.blob.snaps[key].have + {f}));
  }

  lemma KeepsCleanFile(d: nat, s: System, name: nat, f: File)
    requires 0 < d && Inv(s) && Enabled(s, CleanFile(name, f))
    ensures Inv(Apply(d, s, CleanFile(name, f)))
  {
    hide WellKept, Stored, Held, Since, CommittedCover, Listed, PointedApart, Durable, Pointed, PointedMatch,
      CleanMatch, Sequenced, Complete;
    var key := SnapKey(Bucket0(s), name);
    SamePointed(s.blob.metas, s.blob.snaps, key, s.blob.snaps[key].(have := s.blob.snaps[key].have - {f}));
  }

  lemma KeepsEndClean(d: nat, s: System)
    requires 0 < d && Inv(s) && Enabled(s, EndClean)
    ensures Inv(Apply(d, s, EndClean))
  {
    hide WellKept, Stored, Held, Since, CoversBegun, PointersComplete, PointedApart, Durable, Pointed, PointedMatch,
      CleanMatch, Sequenced, UploadOk;
  }

  // ── Committing a snapshot ──

  lemma PointedAfter(metas: map<nat, Meta>, snaps: map<SnapKey, Snap>, b: nat, m: Meta)
    requires PointersComplete(metas, snaps)
    requires SnapKey(b, m.snap) in snaps && Complete(snaps[SnapKey(b, m.snap)])
    ensures PointersComplete(metas[b := m], snaps)
    ensures Pointed(metas[b := m], snaps) == Pointed(metas, snaps)[b := snaps[SnapKey(b, m.snap)].ids]
  {
  }

  // Pointing to captured content keeps pointed content apart and matched to memory.
  lemma CommitMatches(begun: State, ids: seq<nat>, version: nat, b: nat, p: map<nat, seq<nat>>, mem: State)
    requires CapturedOk(begun, ids, version, b, p, mem)
    requires PointedApart(p) && PointedMatch(p, mem) && CleanMatch(p, mem)
    ensures PointedApart(p[b := ids]) && PointedMatch(p[b := ids], mem) && CleanMatch(p[b := ids], mem)
    ensures forall x :: InPointed(p, x) ==> InPointed(p[b := ids], x)
  {
    hide WellKept, At, Stored, OnlyOnce;
    var q := p[b := ids];
    forall x | InPointed(p, x)
      ensures InPointed(q, x)
    {
      var e :| e in p && x in p[e];
      assert x in q[e];
    }
    forall e: nat | At(mem, e).Some?
      ensures CleanBucket(q, e, At(mem, e).value)
    {
      assert CleanBucket(p, e, At(mem, e).value);
    }
  }

  lemma CommitCovers(c: Cycle, ids: seq<nat>, version: nat, b: nat, p: map<nat, seq<nat>>, mem: State)
    requires CapturedOk(c.begun, ids, version, b, p, mem) && CommittedCover(c, p, mem)
    ensures CommittedCover(c.(committed := c.committed + {b}), p[b := ids], mem)
  {
    hide At, Stored, OnlyOnce, Beside;
    forall e | e in c.committed + {b}
      ensures CoversBegun(c.begun, p[b := ids], mem, e)
    {
      assert e != b ==> CoversBegun(c.begun, p, mem, e);
    }
  }

  lemma KeepsCommitPointer(d: nat, s: System)
    requires 0 < d && Inv(s) && Enabled(s, CommitPointer)
    ensures Inv(Apply(d, s, CommitPointer))
  {
    hide WellKept, Stored, Held, Since, At, PointedApart, Durable, Pointed, PointedMatch, CleanMatch, Sequenced,
      CapturedOk, Complete,
      CommittedCover, CapturedMatch, PointersComplete;
    var u := s.node;
    var c := u.cycle.value;
    var b, snap, p := Bucket0(s), c.phase.snap, P(s);
    var ids := s.blob.snaps[SnapKey(b, snap)].ids;
    var t := Apply(d, s, CommitPointer);
    PointedAfter(s.blob.metas, s.blob.snaps, b, t.blob.metas[b]);
    CommitMatches(c.begun, ids, c.phase.version, b, p, u.mem);
    CommitCovers(c, ids, c.phase.version, b, p, u.mem);
    CommittedAt(c.(committed := c.committed + {b}), t.node.cycle.value, p[b := ids], u.mem);
    CapturedKept(c.begun, ids, c.phase.version, b, p, u.mem);
    HeldInBlob(s.acked, u.pending, u.local, u.putting, u.mem, p, s.blob.wal, MarkOrZero(s.blob), Nothing(),
               p[b := ids], s.blob.wal, MarkOrZero(s.blob), Nothing());
    HeldAcked(s, t);
    HeldInBlob(s.acked, u.pending, u.local, u.putting, u.mem, p, s.blob.wal, Max(c.high, MarkOrZero(s.blob)), c.begun,
               p[b := ids], s.blob.wal, Max(c.high, MarkOrZero(s.blob)), c.begun);
  }

  lemma CommittedAt(c: Cycle, e: Cycle, p: map<nat, seq<nat>>, mem: State)
    requires CommittedCover(c, p, mem) && e.begun == c.begun && e.committed <= c.committed
    ensures CommittedCover(e, p, mem)
  {
  }

  lemma CapturedKept(begun: State, ids: seq<nat>, version: nat, b: nat, p: map<nat, seq<nat>>, mem: State)
    requires CapturedOk(begun, ids, version, b, p, mem)
    ensures CapturedMatch(ids, version, b, mem)
  {
  }

  // ── Marking a bucket clean ──

  lemma StoredAfterMark(mem: State, b: nat, version: nat)
    requires WellKept(mem)
    ensures var t := MarkCleanIf(mem, b, version);
      WellKept(t) && t.known == mem.known && t.next == mem.next && forall x :: Stored(t, x) <==> Stored(mem, x)
  {
    MarkKeeps(mem, b, version);
  }

  lemma MarkedMem(p: map<nat, seq<nat>>, mem: State, b: nat, version: nat, acked: set<nat>)
    requires MemOk(p, mem, acked) && b in p && CapturedMatch(p[b], version, b, mem)
    ensures MemOk(p, MarkCleanIf(mem, b, version), acked)
  {
    hide WellKept, At, Stored, MarkCleanIf;
    var t := MarkCleanIf(mem, b, version);
    StoredAfterMark(mem, b, version);
    forall e | e in p
      ensures e < t.next && Beside(p[e], e, t)
    {
      MarkAt(mem, b, version, e);
      assert Beside(p[e], e, mem);
    }
    forall e: nat | At(t, e).Some?
      ensures CleanBucket(p, e, At(t, e).value)
    {
      MarkAt(mem, b, version, e);
      assert CleanBucket(p, e, At(mem, e).value);
    }
  }

  lemma MarkedCycle(c: Cycle, p: map<nat, seq<nat>>, mem: State, b: nat, version: nat)
    requires WellKept(mem) && Listed(c, p, mem) && Since(c.begun, mem) && CommittedCover(c, p, mem)
    ensures var t := MarkCleanIf(mem, b, version);
      Listed(c, p, t) && Since(c.begun, t) && CommittedCover(c, p, t)
  {
    hide WellKept, At, Stored, MarkCleanIf;
    var t := MarkCleanIf(mem, b, version);
    StoredAfterMark(mem, b, version);
    forall e: nat
      ensures At(t, e).Some? == At(mem, e).Some?
      ensures At(c.begun, e).Some? ==> Beside(At(c.begun, e).value.ids, e, t)
    {
      MarkAt(mem, b, version, e);
      assert At(c.begun, e).Some? ==> Beside(At(c.begun, e).value.ids, e, mem);
    }
    assert forall e :: e in c.committed ==> CoversBegun(c.begun, p, mem, e);
  }

  lemma KeepsMarkClean(d: nat, s: System)
    requires 0 < d && Inv(s) && Enabled(s, MarkClean)
    ensures Inv(Apply(d, s, MarkClean))
  {
    hide WellKept, Stored, Held, Since, At, PointedApart, Durable, Pointed, PointedMatch, CleanMatch, IdsOf, Least,
      Complete,
      CoversBegun, CapturedMatch, PointersComplete, MarkCleanIf;
    var u := s.node;
    var c := u.cycle.value;
    var b, v := Bucket0(s), c.phase.version;
    var mem := MarkCleanIf(u.mem, b, v);
    StoredAfterMark(u.mem, b, v);
    MarkedMem(P(s), u.mem, b, v, s.acked);
    MarkedCycle(c, P(s), u.mem, b, v);
    HeldInMemory(s.acked, u.pending, u.local, u.putting, u.mem, P(s), s.blob.wal, MarkOrZero(s.blob), Nothing(),
      s.acked, mem);
    HeldInMemory(s.acked, u.pending, u.local, u.putting, u.mem, P(s), s.blob.wal, Max(c.high, MarkOrZero(s.blob)),
      c.begun, s.acked, mem);
  }

  // ── Publishing the mark, pruning, sweeping ──

  // When every listed bucket is committed, the pointers cover all that was stored when the
  // cycle began and still is.
  lemma AllCommittedCover(c: Cycle, p: map<nat, seq<nat>>, mem: State, x: nat)
    requires Listed(c, p, mem) && Since(c.begun, mem) && CommittedCover(c, p, mem) && AllCommitted(c)
    requires Stored(c.begun, x) && Stored(mem, x)
    ensures InPointed(p, x)
  {
    hide WellKept, At, Stored;
    StoredAt(c.begun, x);
    var b: nat :| At(c.begun, b).Some? && x in At(c.begun, b).value.ids;
    assert b in c.committed;
    assert Beside(At(c.begun, b).value.ids, b, mem);
    assert CoversBegun(c.begun, p, mem, b);
    assert x in p[b];
  }

  lemma KeepsPublish(d: nat, s: System)
    requires 0 < d && Inv(s) && Enabled(s, Publish)
    ensures Inv(Apply(d, s, Publish))
  {
    hide WellKept, Stored, Held, Since, At, PointedApart, Durable, InPointed, Pointed, PointedMatch, CleanMatch,
      IdsOf, Least, CoversBegun, PointersComplete, Listed, CommittedCover;
    var u := s.node;
    var c := u.cycle.value;
    var t := Apply(d, s, Publish);
    forall x | Stored(c.begun, x) && Stored(u.mem, x)
      ensures InPointed(P(s), x)
    {
      AllCommittedCover(c, P(s), u.mem, x);
    }
    HeldInBlob(s.acked, u.pending, u.local, u.putting, u.mem, P(s), s.blob.wal, Max(c.high, MarkOrZero(s.blob)),
      c.begun,
               P(t), t.blob.wal, Max(c.high, MarkOrZero(t.blob)), Nothing());
    HeldInBlob(s.acked, u.pending, u.local, u.putting, u.mem, P(s), s.blob.wal, Max(c.high, MarkOrZero(s.blob)),
      c.begun,
               P(t), t.blob.wal, MarkOrZero(t.blob), Nothing());
    HeldAcked(s, t);
    CyclePhase(c, t.node.cycle.value, P(s), u.mem);
  }

  // The facts about a cycle's buckets do not depend on its phase or position.
  lemma CyclePhase(c: Cycle, e: Cycle, p: map<nat, seq<nat>>, mem: State)
    requires Listed(c, p, mem) && CommittedCover(c, p, mem)
    requires e.begun == c.begun && e.list == c.list && e.committed == c.committed
    ensures Listed(e, p, mem) && CommittedCover(e, p, mem)
  {
    hide WellKept, At, CoversBegun;
  }

  lemma KeepsPublishFails(d: nat, s: System)
    requires 0 < d && Inv(s) && Enabled(s, PublishFails)
    ensures Inv(Apply(d, s, PublishFails))
  {
    hide WellKept, Stored, Held, Since, PointersComplete, PointedApart, Durable, Pointed, PointedMatch, CleanMatch,
      Sequenced, UploadOk, Listed, CommittedCover;
    CyclePhase(s.node.cycle.value, Apply(d, s, PublishFails).node.cycle.value, P(s), s.node.mem);
  }

  lemma KeepsEndOfCycle(d: nat, s: System, a: Action)
    requires 0 < d && Inv(s) && Enabled(s, a) && (a == Abandon || a == EndCycle)
    ensures Inv(Apply(d, s, a))
  {
    hide WellKept, Stored, Held, PointersComplete, PointedApart, Durable, Pointed, PointedMatch, CleanMatch,
      Sequenced, CycleOk;
  }

  lemma KeepsPrune(d: nat, s: System, n: nat)
    requires 0 < d && Inv(s) && Enabled(s, Prune(n))
    ensures Inv(Apply(d, s, Prune(n)))
  {
    hide WellKept, Stored, Held, Since, PointersComplete, PointedApart, Durable, InPointed, Pointed, PointedMatch,
      CleanMatch, IdsOf, Listed, CommittedCover;
    var u := s.node;
    var c := u.cycle.value;
    var t := Apply(d, s, Prune(n));
    HeldInBlob(s.acked, u.pending, u.local, u.putting, u.mem, P(s), s.blob.wal, Max(c.high, MarkOrZero(s.blob)),
      Nothing(),
               P(t), t.blob.wal, Max(c.high, MarkOrZero(t.blob)), Nothing());
    HeldInBlob(s.acked, u.pending, u.local, u.putting, u.mem, P(s), s.blob.wal, Max(c.high, MarkOrZero(s.blob)),
      Nothing(),
               P(t), t.blob.wal, MarkOrZero(t.blob), Nothing());
    HeldAcked(s, t);
  }

  lemma NothingStored(x: nat)
    ensures !Stored(Nothing(), x)
  {
  }

  lemma KeepsEndPrune(d: nat, s: System)
    requires 0 < d && Inv(s) && Enabled(s, EndPrune)
    ensures Inv(Apply(d, s, EndPrune))
  {
    hide WellKept, Stored, Held, Since, PointersComplete, PointedApart, Durable, InPointed, Pointed, PointedMatch,
      CleanMatch, Sequenced, UploadOk, Listed, CommittedCover;
    var u := s.node;
    var c := u.cycle.value;
    CyclePhase(c, Apply(d, s, EndPrune).node.cycle.value, P(s), u.mem);
    forall x
      ensures !Stored(Nothing(), x)
    {
      NothingStored(x);
    }
    HeldInBlob(s.acked, u.pending, u.local, u.putting, u.mem, P(s), s.blob.wal, Max(c.high, MarkOrZero(s.blob)),
      Nothing(),
               P(s), s.blob.wal, Max(c.high, MarkOrZero(s.blob)), c.begun);
  }

  lemma PointedWithout(metas: map<nat, Meta>, snaps: map<SnapKey, Snap>, b: nat)
    requires PointersComplete(metas, snaps)
    ensures PointersComplete(metas - {b}, snaps)
    ensures Pointed(metas - {b}, snaps) == Pointed(metas, snaps) - {b}
  {
  }

  // Dropping the pointer of an evicted bucket loses nothing that is stored.
  lemma SweptMatches(p: map<nat, seq<nat>>, mem: State, b: nat, acked: set<nat>)
    requires MemOk(p, mem, acked) && PointedApart(p) && At(mem, b).None?
    ensures MemOk(p - {b}, mem, acked) && PointedApart(p - {b})
    ensures forall x :: InPointed(p, x) && Stored(mem, x) ==> InPointed(p - {b}, x)
  {
    hide WellKept, At, Stored, OnlyOnce;
    var q := p - {b};
    forall x | InPointed(p, x) && Stored(mem, x)
      ensures InPointed(q, x)
    {
      var e :| e in p && x in p[e];
      assert Beside(p[e], e, mem);
      assert e in q && x in q[e];
    }
    forall e: nat | At(mem, e).Some?
      ensures CleanBucket(q, e, At(mem, e).value)
    {
      assert CleanBucket(p, e, At(mem, e).value);
    }
  }

  lemma SweptCycle(c: Cycle, p: map<nat, seq<nat>>, mem: State, b: nat)
    requires Listed(c, p, mem) && CommittedCover(c, p, mem) && b !in c.list
    ensures Listed(c, p - {b}, mem) && CommittedCover(c, p - {b}, mem)
  {
    hide WellKept, At;
    forall e | e in c.committed
      ensures CoversBegun(c.begun, p - {b}, mem, e)
    {
      assert CoversBegun(c.begun, p, mem, e);
    }
  }

  lemma KeepsSweepPointer(d: nat, s: System, b: nat)
    requires 0 < d && Inv(s) && Enabled(s, SweepPointer(b))
    ensures Inv(Apply(d, s, SweepPointer(b)))
  {
    hide WellKept, Stored, Held, Since, At, PointedApart, Durable, InPointed, Pointed, PointedMatch, CleanMatch,
      Sequenced, PointersComplete, CommittedCover;
    var u := s.node;
    var c := u.cycle.value;
    var t := Apply(d, s, SweepPointer(b));
    PointedWithout(s.blob.metas, s.blob.snaps, b);
    PointerNotLive(s, b);
    SweptMatches(P(s), u.mem, b, s.acked);
    SweptCycle(c, P(s), u.mem, b);
    HeldInBlob(s.acked, u.pending, u.local, u.putting, u.mem, P(s), s.blob.wal, MarkOrZero(s.blob), Nothing(),
               P(t), t.blob.wal, MarkOrZero(t.blob), Nothing());
    HeldAcked(s, t);
    HeldInBlob(s.acked, u.pending, u.local, u.putting, u.mem, P(s), s.blob.wal, Max(c.high, MarkOrZero(s.blob)),
      c.begun,
               P(t), t.blob.wal, Max(c.high, MarkOrZero(t.blob)), c.begun);
  }

  lemma PointerNotLive(s: System, b: nat)
    requires Inv(s) && SweepingOver(s, b) && b in s.blob.metas
    ensures At(s.node.mem, b).None?
  {
    assert b in P(s);
  }

  lemma KeepsSweepFile(d: nat, s: System, b: nat, name: nat, f: File)
    requires 0 < d && Inv(s) && Enabled(s, SweepFile(b, name, f))
    ensures Inv(Apply(d, s, SweepFile(b, name, f)))
  {
    hide WellKept, Stored, Held, Since, CommittedCover, Listed, PointedApart, Durable, Pointed, PointedMatch,
      CleanMatch, Sequenced, Complete;
    var key := SnapKey(b, name);
    SamePointed(s.blob.metas, s.blob.snaps, key, s.blob.snaps[key].(have := s.blob.snaps[key].have - {f}));
  }

  lemma KeepsCrash(d: nat, s: System)
    requires 0 < d && Inv(s)
    ensures Inv(Apply(d, s, Crash))
  {
    hide Durable, PointersComplete, PointedApart, Pointed;
  }

  // ── Writing the catalog ──

  // Everything acknowledged or about to be is in a committed snapshot.
  ghost predicate CatalogSafe(s: System)
    requires s.node.Up?
  {
    && (forall x :: x in s.acked ==> InPointed(P(s), x))
    && forall n, x :: n in s.node.pending && x in IdsOf(s.node.pending[n]) && Stored(s.node.mem, x) ==>
      InPointed(P(s), x)
  }

  lemma NotAbove(p: map<nat, seq<nat>>, wal: map<nat, seq<Entry>>, h: nat, x: nat)
    requires forall n :: n in wal ==> n <= h
    ensures Durable(p, wal, h, x) <==> InPointed(p, x)
  {
  }

  lemma HeldAboveAll(acked: set<nat>, pending: map<nat, seq<Entry>>, local: map<nat, seq<Entry>>, putting: Option<nat>,
                     mem: State, p: map<nat, seq<nat>>, wal: map<nat, seq<Entry>>, h: nat, excused: State)
    requires forall x :: x in acked ==> InPointed(p, x)
    requires forall n, x :: n in pending && x in IdsOf(pending[n]) && Stored(mem, x) ==> InPointed(p, x)
    ensures Held(acked, pending, local, putting, mem, p, wal, h, excused)
  {
    hide InPointed, Stored, InWal, IdsOf;
  }

  // A catalog write sets the mark to the current sequence number: it keeps the invariant
  // exactly when nothing promised still rests on the log.
  lemma CatalogWriteIff(d: nat, s: System)
    requires 0 < d && Inv(s) && s.node.Up?
    ensures Inv(Apply(d, s, WriteCatalog)) <==> CatalogSafe(s)
  {
    hide WellKept, Stored, IdsOf, Listed, Since, CommittedCover, PointersComplete, PointedApart, Pointed,
      PointedMatch, CleanMatch, UploadOk, InPointed, Durable;
    var u := s.node;
    var t := Apply(d, s, WriteCatalog);
    var h := CurrentSeq(u);
    forall x
      ensures Durable(P(s), s.blob.wal, h, x) <==> InPointed(P(s), x)
    {
      NotAbove(P(s), s.blob.wal, h, x);
    }
    forall x
      ensures !Stored(Nothing(), x)
    {
      NothingStored(x);
    }
    if CatalogSafe(s) {
      CatalogWriteKeeps(d, s);
    }
  }

  lemma CatalogWriteKeeps(d: nat, s: System)
    requires 0 < d && Inv(s) && s.node.Up? && CatalogSafe(s)
    ensures Inv(Apply(d, s, WriteCatalog))
  {
    hide WellKept, Stored, IdsOf, Held, Listed, Since, CommittedCover, PointersComplete, PointedApart, Durable,
      Pointed, PointedMatch, CleanMatch, UploadOk, InPointed;
    var u := s.node;
    var t := Apply(d, s, WriteCatalog);
    HeldAboveAll(s.acked, u.pending, u.local, u.putting, u.mem, P(s), s.blob.wal, CurrentSeq(u), Nothing());
    HeldAcked(s, t);
    if u.cycle.Some? {
      var c := u.cycle.value;
      HeldAboveAll(s.acked, u.pending, u.local, u.putting, u.mem, P(s), s.blob.wal, Max(c.high, MarkOrZero(t.blob)),
                   if c.phase == Pruning then Nothing() else c.begun);
    }
  }

  // ── Recovery ──

  ghost predicate IsRestored(b: Blob, p: map<nat, seq<nat>>, order: seq<nat>, r: State) {
    && WellKept(r) && KnownStored(r)
    && forall e: nat :: At(r, e) == if e in order && e in b.metas
      && e in p then Some(Bucket(e, b.metas[e].created, p[e], 1, 1)) else None
  }

  lemma RestoredNext(r: State, e: nat, created: nat, ids: seq<nat>, c: nat)
    ensures At(AddRestored(r, e, created, ids), c) == if c == e then Some(Bucket(e, created, ids, 1, 1)) else At(r, c)
  {
    var t := AddRestored(r, e, created, ids);
    assert t.buckets[1..] == r.buckets;
    assert Find(t.buckets, c) == if c == e then 0 else 1 + Find(r.buckets, c);
  }

  lemma RestoredStored(r: State, e: nat, created: nat, ids: seq<nat>)
    requires KnownStored(r)
    ensures KnownStored(AddRestored(r, e, created, ids))
  {
    var t := AddRestored(r, e, created, ids);
    assert t.buckets[0].ids == ids;
    assert forall i :: 0 <= i < |r.buckets| ==> t.buckets[i + 1] == r.buckets[i];
  }

  lemma RestoreApart(p: map<nat, seq<nat>>, r: State, e: nat, created: nat)
    requires PointedApart(p) && e in p && WellKept(r) && At(r, e).None?
    requires forall c: nat :: At(r, c).Some? ==> c in p && At(r, c).value.ids == p[c]
    ensures WellKept(AddRestored(r, e, created, p[e]))
  {
    hide OnlyOnce, At, WellKept;
    forall i | 0 <= i < |r.buckets|
      ensures r.buckets[i].seqNo != e && forall x :: x in p[e] ==> x !in r.buckets[i].ids
    {
      AtPosition(r, i);
    }
    RestoreKeepsIff(r, e, created, p[e]);
  }

  // Restoring the pointed buckets in order rebuilds exactly their snapshots.
  lemma {:induction false} RestoresAll(b: Blob, order: seq<nat>)
    requires PointersComplete(b.metas, b.snaps) && PointedApart(Pointed(b.metas, b.snaps))
    requires Distinct(order) && forall e :: e in order ==> e in b.metas
    ensures IsRestored(b, Pointed(b.metas, b.snaps), order, RestoreAll(b, order))
  {
    hide At, WellKept, KnownStored, AddRestored, Complete;
    var p := Pointed(b.metas, b.snaps);
    if order == [] {
      EmptyRestored();
    } else {
      var n := |order| - 1;
      var e := order[n];
      var r := RestoreAll(b, order[..n]);
      RestoresAll(b, order[..n]);
      assert e in p && p[e] == b.snaps[SnapKey(e, b.metas[e].snap)].ids;
      assert e !in order[..n];
      RestoreApart(p, r, e, b.metas[e].created);
      RestoredStored(r, e, b.metas[e].created, p[e]);
      forall c: nat
        ensures At(RestoreAll(b, order), c) == if c in order && c in b.metas
          && c in p then Some(Bucket(c, b.metas[c].created, p[c], 1, 1)) else None
      {
        RestoredNext(r, e, b.metas[e].created, p[e], c);
        assert c in order <==> c in order[..n] || c == e;
      }
    }
  }

  lemma EmptyRestored()
    ensures WellKept(State([], 0, {})) && KnownStored(State([], 0, {}))
    ensures forall c: nat :: At(State([], 0, {}), c).None?
  {
  }

  lemma {:induction false} ReplayGrows(d: nat, s: State, log: seq<seq<Entry>>)
    requires 0 < d && WellKept(s)
    ensures WellKept(Replay(d, s, log)) && Grows(s, Replay(d, s, log))
    decreases |log|
  {
    hide WellKept, Grows;
    if log == [] {
      GrowsNot(s);
    } else {
      var t := InsertAll(d, s, log[0]).0;
      InsertAllKeeps(d, s, log[0]);
      InsertAllGrows(d, s, log[0]);
      ReplayGrows(d, t, log[1..]);
      GrowsTwice(s, t, Replay(d, t, log[1..]));
    }
  }

  // After a replay onto an index that stores all it knows, every replayed id is stored.
  lemma {:induction false} ReplayStores(d: nat, s: State, log: seq<seq<Entry>>)
    requires 0 < d && WellKept(s) && KnownStored(s)
    ensures KnownStored(Replay(d, s, log))
    ensures forall i, x :: 0 <= i < |log| && x in IdsOf(log[i]) ==> Stored(Replay(d, s, log), x)
    decreases |log|
  {
    hide WellKept, Stored, IdsOf;
    ReplayKnows(d, s, log);
    if log != [] {
      InsertAllKeeps(d, s, log[0]);
      ReplayStores(d, InsertAll(d, s, log[0]).0, log[1..]);
    }
  }

  lemma RecoveredMem(p: map<nat, seq<nat>>, b: Blob, order: seq<nat>, r: State, t: State)
    requires IsRestored(b, p, order, r) && Grows(r, t) && WellKept(t)
    requires forall e :: e in p <==> e in order && e in b.metas
    ensures PointedMatch(p, t) && CleanMatch(p, t)
  {
    hide WellKept, At, Stored, KnownStored;
    forall e | e in p
      ensures e < t.next && Beside(p[e], e, t)
    {
      AtKept(t, e);
    }
    forall e: nat | At(t, e).Some?
      ensures CleanBucket(p, e, At(t, e).value)
    {
      if e in p {
        assert Extends(At(r, e).value, At(t, e).value);
      }
    }
  }

  // What recovery stores: the pointed snapshots and the log above the mark.
  lemma RecoveredStores(d: nat, b: Blob, order: seq<nat>, log: seq<nat>, mark: nat, x: nat)
    requires 0 < d && PointersComplete(b.metas, b.snaps) && PointedApart(Pointed(b.metas, b.snaps))
    requires RestoreOrder(b, order) && ReplayOrder(b.wal, mark, log)
    ensures Stored(Recovered(d, b, order, log), x) <==> Durable(Pointed(b.metas, b.snaps), b.wal, mark, x)
  {
    hide WellKept, At, Stored, IdsOf, KnownStored, PointersComplete, PointedApart;
    var p := Pointed(b.metas, b.snaps);
    var r := RestoreAll(b, order);
    RestoresAll(b, order);
    StoredAt(r, x);
    RestoredIsPointed(b, p, order, r, x);
    var entries := Logged(b.wal, log);
    ReplayGrows(d, r, entries);
    ReplayStores(d, r, entries);
    ReplayOnly(d, r, entries, x);
    if InWal(b.wal, mark, x) {
      var n :| n in b.wal && n > mark && x in IdsOf(b.wal[n]);
      var i :| 0 <= i < |log| && log[i] == n;
      assert entries[i] == b.wal[n];
    }
    if i :| 0 <= i < |entries| && x in IdsOf(entries[i]) {
      assert log[i] in log;
    }
  }

  lemma RestoredIsPointed(b: Blob, p: map<nat, seq<nat>>, order: seq<nat>, r: State, x: nat)
    requires IsRestored(b, p, order, r) && PointersComplete(b.metas, b.snaps) && p == Pointed(b.metas, b.snaps)
    requires forall e :: e in order <==> e in b.metas
    ensures Stored(r, x) <==> InPointed(p, x)
  {
    hide WellKept, At, Stored, KnownStored, Complete;
    StoredAt(r, x);
    if InPointed(p, x) {
      var e :| e in p && x in p[e];
      assert At(r, e).Some? && x in At(r, e).value.ids;
    }
  }

  lemma {:induction false} ReplayOnly(d: nat, s: State, log: seq<seq<Entry>>, x: nat)
    requires 0 < d && WellKept(s)
    ensures Stored(Replay(d, s, log), x) ==> Stored(s, x) || exists i :: 0 <= i < |log| && x in IdsOf(log[i])
    decreases |log|
  {
    hide WellKept, Stored, IdsOf;
    if log != [] {
      InsertAllKeeps(d, s, log[0]);
      ReplayOnly(d, InsertAll(d, s, log[0]).0, log[1..], x);
      assert forall i :: 0 <= i < |log[1..]| ==> log[1..][i] == log[i + 1];
    }
  }

  lemma KeepsRecover(d: nat, s: System, order: seq<nat>, log: seq<nat>)
    requires 0 < d && Inv(s) && Enabled(s, Recover(order, log))
    ensures Inv(Apply(d, s, Recover(order, log)))
  {
    hide WellKept, At, Stored, IdsOf, KnownStored, PointersComplete, PointedApart, Durable, PointedMatch, CleanMatch,
      Recovered;
    var b, p, mark := s.blob, P(s), Mark(s.blob).value;
    var t := Apply(d, s, Recover(order, log));
    var mem := t.node.mem;
    RecoveredOk(d, b, order, log, mark);
    forall x | x in s.acked
      ensures Stored(mem, x)
    {
      RecoveredStores(d, b, order, log, mark, x);
    }
    assert forall n :: n in b.wal ==> n < t.node.next by {
      AboveLog(b.wal, mark, log);
    }
  }

  lemma AboveLog(wal: map<nat, seq<Entry>>, mark: nat, log: seq<nat>)
    requires ReplayOrder(wal, mark, log)
    ensures mark < NextSeq(mark, log) && forall n :: n in wal ==> n < NextSeq(mark, log)
  {
    forall n | n in wal
      ensures n < NextSeq(mark, log)
    {
      if n > mark {
        var i :| 0 <= i < |log| && log[i] == n;
      }
    }
  }

  lemma RecoveredOk(d: nat, b: Blob, order: seq<nat>, log: seq<nat>, mark: nat)
    requires 0 < d && PointersComplete(b.metas, b.snaps) && PointedApart(Pointed(b.metas, b.snaps))
    requires RestoreOrder(b, order) && ReplayOrder(b.wal, mark, log)
    ensures var t := Recovered(d, b, order, log); var p := Pointed(b.metas, b.snaps);
      WellKept(t) && PointedMatch(p, t) && CleanMatch(p, t)
  {
    hide WellKept, At, Stored, IdsOf, KnownStored, PointedApart, Complete;
    var r := RestoreAll(b, order);
    RestoresAll(b, order);
    ReplayGrows(d, r, Logged(b.wal, log));
    RecoveredMem(Pointed(b.metas, b.snaps), b, order, r, Recovered(d, b, order, log));
  }
}
