// The durability protocol of one collection: inserts, write-ahead-log upload, snapshot cycles,
// pruning, eviction, crash and recovery, as steps on one system state.
//
// The content of a vector is its id. A batch's sequence number, its insertion and its local log
// file are one step; so are the bucket list and the log mark a cycle starts from.
module Protocol {
  import opened Options
  import opened TimeBucket
  import opened BucketChanges

  // ── Blob storage ──

  datatype File = Chunk(i: nat) | Levels | Manifest

  // A staged snapshot: what it holds, and which of its files have been uploaded.
  datatype Snap = Snap(ids: seq<nat>, chunks: nat, have: set<File>)

  datatype SnapKey = SnapKey(bucket: nat, snap: nat)

  // A bucket's committed pointer.
  datatype Meta = Meta(created: nat, snap: nat)

  datatype Blob = Blob(wal: map<nat, seq<Entry>>, metas: map<nat, Meta>, snaps: map<SnapKey, Snap>,
                       coll: Option<nat>, catalog: Catalog)

  // The catalog, as far as it concerns this collection: there is none, it lacks the collection,
  // or it lists it with a log mark.
  datatype Catalog = NoCatalog | Lacks | Lists(mark: nat)

  ghost predicate IsFile(chunks: nat, f: File) {
    f.Chunk? ==> f.i < chunks
  }

  predicate Complete(s: Snap) {
    Levels in s.have && Manifest in s.have && forall i :: 0 <= i < s.chunks ==> Chunk(i) in s.have
  }

  // Arena chunks go first, in any order, then the levels, then the manifest.
  ghost predicate MayUpload(s: Snap, f: File) {
    && IsFile(s.chunks, f)
    && (!f.Chunk? ==> forall i: nat :: i < s.chunks ==> Chunk(i) in s.have)
    && (f.Manifest? ==> Levels in s.have)
  }

  // The log mark recovery starts from: the catalog's if there is a catalog, else the collection's.
  // Without a mark recovery does not come upon the collection at all.
  function Mark(b: Blob): Option<nat> {
    match b.catalog
    case NoCatalog => b.coll
    case Lacks => None
    case Lists(mark) => Some(mark)
  }

  function MarkOrZero(b: Blob): nat {
    if Mark(b).Some? then Mark(b).value else 0
  }

  // ── The running node ──

  datatype Phase = Checking | SeenDirty | Uploading(snap: nat, version: nat) | Marking(snap: nat, version: nat)
                 | Cleaning(active: nat) | Pruning | Sweeping

  // A snapshot cycle; `begun` remembers the index at its start.
  datatype Cycle = Cycle(begun: State, list: seq<nat>, high: nat, committed: set<nat>, pos: nat, phase: Phase)

  datatype Node = Down
                | Up(mem: State, local: map<nat, seq<Entry>>, putting: Option<nat>, next: nat, uploaded: nat,
                     pending: map<nat, seq<Entry>>, cycle: Option<Cycle>)

  // `acked` holds the ids whose insert was acknowledged and whose bucket was not evicted since.
  datatype System = System(blob: Blob, node: Node, acked: set<nat>)

  // A collection just created; its catalog upload may have failed.
  ghost predicate AtCreation(catalog: Catalog) {
    catalog.Lists? ==> catalog.mark == 0
  }

  function Created(catalog: Catalog): System {
    System(Blob(map[], map[], map[], None, catalog), Up(State([], 0, {}), map[], None, 1, 0, map[], None), {})
  }

  // ── Recovery ──

  // A pointed snapshot is restored only if all its files can be downloaded.
  function Restore(b: Blob, s: State, bucket: nat): State {
    if bucket in b.metas then
      var key := SnapKey(bucket, b.metas[bucket].snap);
      if key in b.snaps && Complete(b.snaps[key]) then
        AddRestored(s, bucket, b.metas[bucket].created, b.snaps[key].ids) else s
    else s
  }

  function RestoreAll(b: Blob, order: seq<nat>): State {
    if order == [] then State([], 0, {})
    else Restore(b, RestoreAll(b, order[..|order| - 1]), order[|order| - 1])
  }

  ghost predicate Distinct(s: seq<nat>) {
    forall i, j :: 0 <= i < j < |s| ==> s[i] != s[j]
  }

  // The pointed buckets, oldest first.
  ghost predicate RestoreOrder(b: Blob, order: seq<nat>) {
    && Distinct(order) && (forall x :: x in order <==> x in b.metas)
    && forall i, j :: 0 <= i < j < |order| ==>
      var m, n := b.metas[order[i]], b.metas[order[j]];
      m.created < n.created || (m.created == n.created && order[i] < order[j])
  }

  // The log entries above the mark, ascending.
  ghost predicate ReplayOrder(wal: map<nat, seq<Entry>>, mark: nat, log: seq<nat>) {
    && (forall n :: n in log <==> n in wal && n > mark)
    && forall i, j :: 0 <= i < j < |log| ==> log[i] < log[j]
  }

  function Logged(wal: map<nat, seq<Entry>>, log: seq<nat>): seq<seq<Entry>>
    requires forall n :: n in log ==> n in wal
  {
    seq(|log|, i requires 0 <= i < |log| => wal[log[i]])
  }

  function Recovered(d: nat, b: Blob, order: seq<nat>, log: seq<nat>): State
    requires 0 < d && forall n :: n in log ==> n in b.wal
  {
    Replay(d, RestoreAll(b, order), Logged(b.wal, log))
  }

  function NextSeq(mark: nat, log: seq<nat>): nat {
    if log != [] && log[|log| - 1] > mark then log[|log| - 1] + 1 else mark + 1
  }

  // ── Steps ──

  datatype Action =
    | Insert(batch: seq<Entry>) | PutWal(n: nat) | MarkWal | Ack(n: nat) | Evict(k: nat)
    | BeginCycle | CheckBucket | Capture(snap: nat, chunks: nat) | GiveUp | UploadFile(file: File) | CommitPointer
    | MarkClean | CleanFile(name: nat, file: File) | EndClean
    | Publish | PublishFails | Abandon | Prune(n: nat) | EndPrune
    | SweepPointer(bucket: nat) | SweepFile(bucket: nat, name: nat, file: File) | EndCycle
    | WriteCatalog | Crash | Recover(order: seq<nat>, log: seq<nat>)

  function Numbers(s: State): seq<nat> {
    seq(|s.buckets|, i requires 0 <= i < |s.buckets| => s.buckets[i].seqNo)
  }

  ghost predicate Least(m: map<nat, seq<Entry>>, n: nat) {
    n in m && forall k :: k in m ==> n <= k
  }

  ghost predicate InPhase(s: System) {
    s.node.Up? && s.node.cycle.Some?
  }

  ghost predicate OnBucket(s: System) {
    InPhase(s) && s.node.cycle.value.pos < |s.node.cycle.value.list|
  }

  function Bucket0(s: System): nat
    requires OnBucket(s)
  {
    s.node.cycle.value.list[s.node.cycle.value.pos]
  }

  ghost predicate Done(c: Cycle) {
    c.phase == Checking && c.pos >= |c.list|
  }

  ghost predicate AllCommitted(c: Cycle) {
    forall b :: b in c.committed <==> b in c.list
  }

  ghost predicate StagedAt(s: System, bucket: nat, snap: nat) {
    SnapKey(bucket, snap) in s.blob.snaps
  }

  ghost predicate Staging(s: System) {
    OnBucket(s) && s.node.cycle.value.phase.Uploading? && StagedAt(s, Bucket0(s), s.node.cycle.value.phase.snap)
  }

  ghost function Staged(s: System): Snap
    requires Staging(s)
  {
    s.blob.snaps[SnapKey(Bucket0(s), s.node.cycle.value.phase.snap)]
  }

  // The prefix of a bucket that was not live when the cycle began. A prefix is listed in key
  // order, so its pointer (`bucket_meta.json`) goes before its snapshot files.
  ghost predicate SweepingOver(s: System, b: nat) {
    InPhase(s) && s.node.cycle.value.phase == Sweeping && b !in s.node.cycle.value.list
  }

  ghost predicate Enabled(s: System, a: Action) {
    match a
    case Insert(batch) => s.node.Up? && batch != []
    case PutWal(n) => s.node.Up? && s.node.putting == None && Least(s.node.local, n)
    case MarkWal => s.node.Up? && s.node.putting.Some?
    case Ack(n) => s.node.Up? && n in s.node.pending && n <= s.node.uploaded
    case Evict(k) => s.node.Up? && k <= |s.node.mem.buckets|
    case BeginCycle => s.node.Up? && s.node.cycle == None
    case CheckBucket => OnBucket(s) && s.node.cycle.value.phase == Checking
    case Capture(snap, _) => OnBucket(s) && s.node.cycle.value.phase == SeenDirty && !StagedAt(s, Bucket0(s), snap)
    case GiveUp => OnBucket(s) && (s.node.cycle.value.phase == SeenDirty || s.node.cycle.value.phase.Uploading?)
    case UploadFile(f) => Staging(s) && MayUpload(Staged(s), f)
    case CommitPointer => Staging(s) && Complete(Staged(s))
    case MarkClean => OnBucket(s) && s.node.cycle.value.phase.Marking?
    case CleanFile(name, _) =>
      OnBucket(s) && s.node.cycle.value.phase.Cleaning? && name != s.node.cycle.value.phase.active
        && StagedAt(s, Bucket0(s), name)
    case EndClean => OnBucket(s) && s.node.cycle.value.phase.Cleaning?
    case Publish => InPhase(s) && Done(s.node.cycle.value) && AllCommitted(s.node.cycle.value)
    case PublishFails => InPhase(s) && Done(s.node.cycle.value) && AllCommitted(s.node.cycle.value)
    case Abandon => InPhase(s) && Done(s.node.cycle.value) && !AllCommitted(s.node.cycle.value)
    case Prune(n) => InPhase(s) && s.node.cycle.value.phase == Pruning && Least(s.blob.wal, n)
      && n <= s.node.cycle.value.high
    case EndPrune => InPhase(s) && s.node.cycle.value.phase == Pruning
    case SweepPointer(b) => SweepingOver(s, b) && b in s.blob.metas
    case SweepFile(b, name, _) => SweepingOver(s, b) && b !in s.blob.metas && StagedAt(s, b, name)
    case EndCycle => InPhase(s) && s.node.cycle.value.phase == Sweeping
    case WriteCatalog => s.node.Up?
    case Crash => true
    case Recover(order, log) =>
      s.node.Down? && Mark(s.blob).Some? && RestoreOrder(s.blob, order)
        && ReplayOrder(s.blob.wal, Mark(s.blob).value, log)
  }

  // The node in another phase of its cycle, or on its next bucket.
  function InPhaseOf(n: Node, p: Phase): Node
    requires n.Up? && n.cycle.Some?
  {
    n.(cycle := Some(n.cycle.value.(phase := p)))
  }

  function NextBucket(n: Node): Node
    requires n.Up? && n.cycle.Some?
  {
    n.(cycle := Some(n.cycle.value.(pos := n.cycle.value.pos + 1, phase := Checking)))
  }

  function Commit(n: Node, b: nat): Node
    requires n.Up? && n.cycle.Some?
  {
    n.(cycle := Some(n.cycle.value.(committed := n.cycle.value.committed + {b})))
  }

  function WithoutFile(b: Blob, key: SnapKey, f: File): Blob
    requires key in b.snaps
  {
    b.(snaps := b.snaps[key := b.snaps[key].(have := b.snaps[key].have - {f})])
  }

  ghost function StoredOf(ids: set<nat>, mem: State): set<nat> {
    set x | x in ids && Stored(mem, x)
  }

  // What the `k` oldest buckets hold.
  ghost function HeldByOldest(mem: State, k: nat): set<nat>
    requires k <= |mem.buckets|
  {
    set i, x | |mem.buckets| - k <= i < |mem.buckets| && x in mem.buckets[i].ids :: x
  }

  function Inserted(d: nat, n: Node, batch: seq<Entry>): Node
    requires 0 < d && n.Up?
  {
    n.(mem := InsertAll(d, n.mem, batch).0, local := n.local[n.next := batch], pending := n.pending[n.next := batch],
       next := n.next + 1)
  }

  function CurrentSeq(n: Node): nat
    requires n.Up?
  {
    if n.next == 0 then 0 else n.next - 1
  }

  function Checked(s: System): System
    requires OnBucket(s)
  {
    var b := Bucket0(s);
    if Dirty(s.node.mem, b) then s.(node := InPhaseOf(s.node, SeenDirty))
    else if b in s.blob.metas then s.(node := InPhaseOf(Commit(s.node, b), Cleaning(s.blob.metas[b].snap)))
    else s.(node := NextBucket(Commit(s.node, b)))
  }

  function Snapped(s: System, snap: nat, chunks: nat): System
    requires OnBucket(s)
  {
    var b := Bucket0(s);
    match At(s.node.mem, b)
    case None => s.(node := NextBucket(Commit(s.node, b)))
    case Some(bucket) =>
      s.(blob := s.blob.(snaps := s.blob.snaps[SnapKey(b, snap) := Snap(bucket.ids, chunks, {})]),
         node := InPhaseOf(s.node, Uploading(snap, bucket.writes)))
  }

  function Pointing(s: System): System
    requires OnBucket(s) && s.node.cycle.value.phase.Uploading?
  {
    var b := Bucket0(s);
    var c := s.node.cycle.value;
    var created := if At(c.begun, b).Some? then At(c.begun, b).value.created else 0;
    s.(blob := s.blob.(metas := s.blob.metas[b := Meta(created, c.phase.snap)]),
       node := InPhaseOf(Commit(s.node, b), Marking(c.phase.snap, c.phase.version)))
  }

  ghost function Apply(d: nat, s: System, a: Action): System
    requires 0 < d && Enabled(s, a)
  {
    match a
    case Insert(batch) => s.(node := Inserted(d, s.node, batch))
    case PutWal(n) => s.(blob := s.blob.(wal := s.blob.wal[n := s.node.local[n]]), node := s.node.(putting := Some(n)))
    case MarkWal =>
      var n := s.node.putting.value;
      s.(node := s.node.(local := s.node.local - {n}, uploaded := n, putting := None))
    case Ack(n) =>
      s.(acked := s.acked + StoredOf(IdsOf(s.node.pending[n]), s.node.mem), node :=
        s.node.(pending := s.node.pending - {n}))
    case Evict(k) =>
      s.(acked := s.acked - HeldByOldest(s.node.mem, k), node := s.node.(mem := DropOldest(s.node.mem, k)))
    case BeginCycle =>
      s.(node := s.node.(cycle := Some(Cycle(s.node.mem, Numbers(s.node.mem), CurrentSeq(s.node), {}, 0, Checking))))
    case CheckBucket => Checked(s)
    case Capture(snap, chunks) => Snapped(s, snap, chunks)
    case GiveUp => s.(node := NextBucket(s.node))
    case UploadFile(f) =>
      var key := SnapKey(Bucket0(s), s.node.cycle.value.phase.snap);
      s.(blob := s.blob.(snaps := s.blob.snaps[key := s.blob.snaps[key].(have := s.blob.snaps[key].have + {f})]))
    case CommitPointer => Pointing(s)
    case MarkClean =>
      var p := s.node.cycle.value.phase;
      s.(node := InPhaseOf(s.node.(mem := MarkCleanIf(s.node.mem, Bucket0(s), p.version)), Cleaning(p.snap)))
    case CleanFile(name, f) => s.(blob := WithoutFile(s.blob, SnapKey(Bucket0(s), name), f))
    case EndClean => s.(node := NextBucket(s.node))
    case Publish => s.(blob := s.blob.(coll := Some(s.node.cycle.value.high)), node := InPhaseOf(s.node, Pruning))
    case PublishFails => s.(node := InPhaseOf(s.node, Sweeping))
    case Abandon => s.(node := s.node.(cycle := None))
    case Prune(n) => s.(blob := s.blob.(wal := s.blob.wal - {n}))
    case EndPrune => s.(node := InPhaseOf(s.node, Sweeping))
    case SweepPointer(b) => s.(blob := s.blob.(metas := s.blob.metas - {b}))
    case SweepFile(b, name, f) => s.(blob := WithoutFile(s.blob, SnapKey(b, name), f))
    case EndCycle => s.(node := s.node.(cycle := None))
    case WriteCatalog => s.(blob := s.blob.(catalog := Lists(CurrentSeq(s.node))))
    case Crash => s.(node := Down)
    case Recover(order, log) =>
      var next := NextSeq(Mark(s.blob).value, log);
      s.(node := Up(Recovered(d, s.blob, order, log), map[], None, next, next - 1, map[], None))
  }
}
