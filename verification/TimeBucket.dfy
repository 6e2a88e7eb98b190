// The time-bucket index: routing by time window, deduplication, batches, restores and the
// search that merges per-bucket answers.
//
// A bucket is represented by the ids of its vectors and its two version counters; the graph
// inside it is the business of modules ArenaStore and HnswIndex.
module TimeBucket {
  import opened Options
  import opened Grid

  datatype Bucket = Bucket(seqNo: nat, created: nat, ids: seq<nat>, writes: nat, clean: nat)

  // Buckets newest first, the next bucket sequence number, and every id ever accepted.
  datatype State = State(buckets: seq<Bucket>, next: nat, known: set<nat>)

  datatype NodeRef = NodeRef(bucketSeq: nat, vectorId: nat)

  datatype Entry = Entry(time: nat, id: nat)

  // ── One insert ──

  predicate NeedsNew(s: State, start: nat) {
    s.buckets == [] || start > s.buckets[0].created
  }

  function Alloc(s: State, start: nat): State {
    State([Bucket(s.next, start, [], 1, 0)] + s.buckets, s.next + 1, s.known)
  }

  function Opened(s: State, start: nat): (r: State)
    ensures r.buckets != [] && !NeedsNew(r, start)
    ensures NeedsNew(s, start) ==> r.buckets[0].created == start
  {
    if NeedsNew(s, start) then Alloc(s, start) else s
  }

  // Store a new id in the front bucket.
  function Accept(s: State, id: nat): State
    requires s.buckets != []
  {
    var b := s.buckets[0];
    State([b.(ids := b.ids + [id], writes := b.writes + 1)] + s.buckets[1..], s.next, s.known + {id})
  }

  function InsertOne(d: nat, s: State, e: Entry): (State, Option<NodeRef>)
    requires 0 < d
  {
    if e.id in s.known then (s, None)
    else
      var o := Opened(s, BucketStart(d, e.time));
      (Accept(o, e.id), Some(NodeRef(o.buckets[0].seqNo, e.id)))
  }

  function InsertAll(d: nat, s: State, batch: seq<Entry>): (r: (State, seq<Option<NodeRef>>))
    requires 0 < d
    ensures |r.1| == |batch|
    decreases |batch|
  {
    if batch == [] then (s, [])
    else
      var (s1, x) := InsertOne(d, s, batch[0]);
      var (s2, xs) := InsertAll(d, s1, batch[1..]);
      (s2, [x] + xs)
  }

  // ── Batches by runs ──

  // The length of the longest prefix whose entries share one window.
  function RunLength(d: nat, batch: seq<Entry>): (n: nat)
    requires 0 < d
    ensures n <= |batch| && (batch != [] ==> 0 < n)
    ensures batch != [] ==> forall i :: 0 <= i < n ==> BucketStart(d, batch[i].time) == BucketStart(d, batch[0].time)
    ensures n < |batch| ==> BucketStart(d, batch[n].time) != BucketStart(d, batch[0].time)
  {
    if |batch| <= 1 then |batch|
    else if BucketStart(d, batch[1].time) == BucketStart(d, batch[0].time) then 1 + RunLength(d, batch[1..])
    else 1
  }

  // Store the new ids of a run in the front bucket.
  function AcceptNew(s: State, run: seq<Entry>): (r: (State, seq<Option<NodeRef>>))
    requires s.buckets != []
    ensures |r.1| == |run|
    decreases |run|
  {
    if run == [] then (s, [])
    else
      var e := run[0];
      var (s1, x) := if e.id in s.known then (s, None) else (Accept(s, e.id), Some(NodeRef(s.buckets[0].seqNo, e.id)));
      var (s2, xs) := AcceptNew(s1, run[1..]);
      (s2, [x] + xs)
  }

  function InsertRun(d: nat, s: State, run: seq<Entry>): (r: (State, seq<Option<NodeRef>>))
    requires 0 < d && run != []
    ensures |r.1| == |run|
  {
    AcceptNew(Opened(s, BucketStart(d, run[0].time)), run)
  }

  function InsertBatch(d: nat, s: State, batch: seq<Entry>): (r: (State, seq<Option<NodeRef>>))
    requires 0 < d
    ensures |r.1| == |batch|
    decreases |batch|
  {
    if batch == [] then (s, [])
    else
      var n := RunLength(d, batch);
      var (s1, x) := InsertRun(d, s, batch[..n]);
      var (s2, xs) := InsertBatch(d, s1, batch[n..]);
      (s2, x + xs)
  }

  // A run that would open a window although every id in it is already known.
  ghost predicate OpensForNothing(d: nat, s: State, run: seq<Entry>)
    requires 0 < d && run != []
  {
    NeedsNew(s, BucketStart(d, run[0].time)) && forall i :: 0 <= i < |run| ==> run[i].id in s.known
  }

  // No run of the batch opens a window just for duplicates.
  ghost predicate NoEmptyOpening(d: nat, s: State, batch: seq<Entry>)
    requires 0 < d
    decreases |batch|
  {
    batch == [] || (
      var n := RunLength(d, batch);
      && !OpensForNothing(d, s, batch[..n])
      && NoEmptyOpening(d, InsertRun(d, s, batch[..n]).0, batch[n..]))
  }

  lemma {:induction false} InsertAllConcat(d: nat, s: State, a: seq<Entry>, b: seq<Entry>)
    requires 0 < d
    ensures InsertAll(d, s, a + b).0 == InsertAll(d, InsertAll(d, s, a).0, b).0
    ensures InsertAll(d, s, a + b).1 == InsertAll(d, s, a).1 + InsertAll(d, InsertAll(d, s, a).0, b).1
    decreases |a|
  {
    if a == [] {
      assert a + b == b;
    } else {
      assert (a + b)[0] == a[0] && (a + b)[1..] == a[1..] + b;
      InsertAllConcat(d, InsertOne(d, s, a[0]).0, a[1..], b);
    }
  }

  // While no window has to be opened, a run is just repeated inserts.
  lemma {:induction false} RunWithoutOpening(d: nat, s: State, run: seq<Entry>, start: nat)
    requires 0 < d && !NeedsNew(s, start)
    requires forall i :: 0 <= i < |run| ==> BucketStart(d, run[i].time) == start
    ensures InsertAll(d, s, run) == AcceptNew(s, run)
    decreases |run|
  {
    if run != [] {
      RunWithoutOpening(d, InsertOne(d, s, run[0]).0, run[1..], start);
    }
  }

  // A run that opens its window for a new id: the duplicates before that id change nothing.
  lemma {:induction false} RunWithOpening(d: nat, s: State, run: seq<Entry>, start: nat, i: nat)
    requires 0 < d && NeedsNew(s, start)
    requires forall i :: 0 <= i < |run| ==> BucketStart(d, run[i].time) == start
    requires i < |run| && run[i].id !in s.known
    ensures InsertAll(d, s, run) == AcceptNew(Opened(s, start), run)
    decreases |run|
  {
    if run[0].id in s.known {
      RunWithOpening(d, s, run[1..], start, i - 1);
    } else {
      RunWithoutOpening(d, InsertOne(d, s, run[0]).0, run[1..], start);
    }
  }

  // A run of duplicates only: repeated inserts do nothing, the batch may leave an empty bucket.
  lemma {:induction false} RunOfDuplicates(d: nat, s: State, o: State, run: seq<Entry>)
    requires 0 < d && o.buckets != [] && o.known == s.known
    requires forall i :: 0 <= i < |run| ==> run[i].id in s.known
    ensures InsertAll(d, s, run).0 == s && AcceptNew(o, run).0 == o
    ensures InsertAll(d, s, run).1 == AcceptNew(o, run).1
    decreases |run|
  {
    if run != [] {
      RunOfDuplicates(d, s, o, run[1..]);
    }
  }

  lemma RunIsSequential(d: nat, s: State, run: seq<Entry>)
    requires 0 < d && run != [] && !OpensForNothing(d, s, run)
    requires forall i :: 0 <= i < |run| ==> BucketStart(d, run[i].time) == BucketStart(d, run[0].time)
    ensures InsertRun(d, s, run) == InsertAll(d, s, run)
  {
    var start := BucketStart(d, run[0].time);
    if NeedsNew(s, start) {
      var i :| 0 <= i < |run| && run[i].id !in s.known;
      RunWithOpening(d, s, run, start, i);
    } else {
      RunWithoutOpening(d, s, run, start);
    }
  }

  // Every batch without an empty opening behaves as repeated inserts: same state, same results.
  lemma {:induction false} BatchIsSequential(d: nat, s: State, batch: seq<Entry>)
    requires 0 < d && NoEmptyOpening(d, s, batch)
    ensures InsertBatch(d, s, batch) == InsertAll(d, s, batch)
    decreases |batch|
  {
    if batch != [] {
      var n := RunLength(d, batch);
      RunIsSequential(d, s, batch[..n]);
      BatchIsSequential(d, InsertRun(d, s, batch[..n]).0, batch[n..]);
      InsertAllConcat(d, s, batch[..n], batch[n..]);
      assert batch == batch[..n] + batch[n..];
    }
  }

  // ── When a timestamp-ordered batch differs ──

  ghost predicate Ordered(d: nat, batch: seq<Entry>)
    requires 0 < d
  {
    forall i, j :: 0 <= i < j < |batch| ==> BucketStart(d, batch[i].time) <= BucketStart(d, batch[j].time)
  }

  // Two states that accept the same ids and open the same windows above `w`.
  ghost predicate AgreeAbove(a: State, b: State, w: int) {
    a.known == b.known && forall x: nat :: x > w ==> (NeedsNew(a, x) <==> NeedsNew(b, x))
  }

  lemma {:induction false} AcceptNewFront(s: State, run: seq<Entry>)
    requires s.buckets != []
    ensures var r := AcceptNew(s, run).0;
      r.next == s.next && r.buckets != [] && r.buckets[0].created == s.buckets[0].created
    ensures AcceptNew(s, run).0.known == s.known + IdsOf(run)
    decreases |run|
  {
    if run != [] {
      var e := run[0];
      AcceptNewFront(if e.id in s.known then s else Accept(s, e.id), run[1..]);
      assert IdsOf(run) == {e.id} + IdsOf(run[1..]);
    }
  }

  ghost function IdsOf(batch: seq<Entry>): set<nat> {
    set i | 0 <= i < |batch| :: batch[i].id
  }

  // One run from two agreeing states: the batch opens a window where repeated inserts do, or
  // one more if the run opens for nothing.
  lemma RunKeepsAgreement(d: nat, a: State, b: State, run: seq<Entry>, w: int)
    requires 0 < d && run != [] && AgreeAbove(a, b, w) && w < BucketStart(d, run[0].time)
    requires forall i :: 0 <= i < |run| ==> BucketStart(d, run[i].time) == BucketStart(d, run[0].time)
    ensures AgreeAbove(InsertRun(d, a, run).0, InsertAll(d, b, run).0, BucketStart(d, run[0].time))
    ensures InsertRun(d, a, run).0.next - a.next
         == InsertAll(d, b, run).0.next - b.next + (if OpensForNothing(d, a, run) then 1 else 0)
  {
    hide AcceptNew, InsertAll, BucketStart;
    var start := BucketStart(d, run[0].time);
    var o := Opened(a, start);
    AcceptNewFront(o, run);
    if OpensForNothing(d, a, run) {
      RunOfDuplicates(d, b, o, run);
    } else {
      assert !OpensForNothing(d, b, run);
      RunIsSequential(d, b, run);
      var q := Opened(b, start);
      AcceptNewFront(q, run);
      assert NeedsNew(a, start) <==> NeedsNew(b, start);
      forall x: nat | x > start
        ensures NeedsNew(InsertRun(d, a, run).0, x) <==> NeedsNew(InsertAll(d, b, run).0, x)
      {
        assert NeedsNew(a, x) <==> NeedsNew(b, x);
        assert NeedsNew(o, x) <==> NeedsNew(q, x);
      }
    }
  }

  lemma {:induction false} OpeningsCounted(d: nat, a: State, b: State, batch: seq<Entry>, w: int)
    requires 0 < d && AgreeAbove(a, b, w) && Ordered(d, batch)
    requires batch != [] ==> w < BucketStart(d, batch[0].time)
    ensures InsertBatch(d, a, batch).0.next - a.next >= InsertAll(d, b, batch).0.next - b.next
    ensures InsertBatch(d, a, batch).0.next - a.next == InsertAll(d, b, batch).0.next - b.next
      <==> NoEmptyOpening(d, a, batch)
    decreases |batch|
  {
    hide AgreeAbove, OpensForNothing, InsertRun, BucketStart;
    if batch != [] {
      var n := RunLength(d, batch);
      var run, rest := batch[..n], batch[n..];
      RunKeepsAgreement(d, a, b, run, w);
      OpeningsCounted(d, InsertRun(d, a, run).0, InsertAll(d, b, run).0, rest, BucketStart(d, batch[0].time));
      InsertAllConcat(d, b, run, rest);
      assert batch == run + rest;
    }
  }

  // The same results, and bucket by bucket the same sequence number and ids.
  ghost predicate SameOutcome(a: (State, seq<Option<NodeRef>>), b: (State, seq<Option<NodeRef>>)) {
    && a.1 == b.1 && a.0.next == b.0.next && |a.0.buckets| == |b.0.buckets|
    && forall i :: 0 <= i < |a.0.buckets| ==>
      a.0.buckets[i].seqNo == b.0.buckets[i].seqNo && a.0.buckets[i].ids == b.0.buckets[i].ids
  }

  // A timestamp-ordered batch gives the outcome of repeated inserts exactly when no run opens
  // a window for duplicates alone.
  lemma OrderedBatchIffSequential(d: nat, s: State, batch: seq<Entry>)
    requires 0 < d && Ordered(d, batch)
    ensures SameOutcome(InsertBatch(d, s, batch), InsertAll(d, s, batch)) <==> NoEmptyOpening(d, s, batch)
  {
    OpeningsCounted(d, s, s, batch, -1);
    if NoEmptyOpening(d, s, batch) {
      BatchIsSequential(d, s, batch);
    }
  }

  // A known id in a newer window: repeated inserts ignore it, the batch leaves an empty bucket.
  lemma DuplicateOpensWindow()
    ensures var s, batch := State([Bucket(0, 0, [7], 2, 0)], 1, {7}), [Entry(10, 7)];
      && InsertAll(10, s, batch) == (s, [None])
      && InsertBatch(10, s, batch) == (Alloc(s, 10), [None])
      && !NoEmptyOpening(10, s, batch) && !SameOutcome(InsertBatch(10, s, batch), InsertAll(10, s, batch))
  {
    var s, batch := State([Bucket(0, 0, [7], 2, 0)], 1, {7}), [Entry(10, 7)];
    assert BucketStart(10, 10) == 10 && RunLength(10, batch) == 1;
    assert batch[..1] == batch && batch[1..] == [];
    assert OpensForNothing(10, s, batch);
    var o := Alloc(s, 10);
    assert Opened(s, 10) == o;
    RunOfDuplicates(10, s, o, batch);
    assert InsertAll(10, s, batch) == (s, [None] + InsertAll(10, s, []).1);
    assert [None] + InsertAll(10, s, []).1 == [None];
    assert AcceptNew(o, batch) == (o, [None]) && batch[0].time == 10;
    assert InsertRun(10, s, batch[..1]) == AcceptNew(o, batch);
    assert InsertBatch(10, s, batch) == (o, [None] + InsertBatch(10, o, []).1);
    assert [None] + InsertBatch(10, o, []).1 == [None];
  }

  // ── What every operation keeps ──

  ghost predicate OnlyOnce(ids: seq<nat>) {
    forall i, j :: 0 <= i < j < |ids| ==> ids[i] != ids[j]
  }

  ghost predicate Kept(s: State, b: Bucket) {
    && OnlyOnce(b.ids) && b.seqNo < s.next
    && forall x :: x in b.ids ==> x in s.known
  }

  ghost predicate Apart(a: Bucket, b: Bucket) {
    a.seqNo != b.seqNo && forall x :: x in a.ids ==> x !in b.ids
  }

  // Every id is stored at most once over all buckets and is known; sequence numbers are unique
  // and below the next one.
  ghost predicate WellKept(s: State) {
    && (forall i :: 0 <= i < |s.buckets| ==> Kept(s, s.buckets[i]))
    && forall i, j :: 0 <= i < j < |s.buckets| ==> Apart(s.buckets[i], s.buckets[j])
  }

  ghost predicate Stored(s: State, x: nat) {
    exists i :: 0 <= i < |s.buckets| && x in s.buckets[i].ids
  }

  // Every known id is stored: what the set of known ids is documented to be.
  ghost predicate KnownStored(s: State) {
    forall x :: x in s.known ==> Stored(s, x)
  }

  lemma KeptGrows(s: State, r: State, b: Bucket)
    requires Kept(s, b) && s.next <= r.next && s.known <= r.known
    ensures Kept(r, b)
  {
  }

  lemma PushedFront(s: State, b: Bucket, next: nat, known: set<nat>)
    requires WellKept(s) && s.next <= next && s.known <= known
    ensures var r := State([b] + s.buckets, next, known);
      WellKept(r) <==> Kept(r, b) && forall i :: 0 <= i < |s.buckets| ==> Apart(b, s.buckets[i])
  {
    hide OnlyOnce, Apart, Kept;
    var r := State([b] + s.buckets, next, known);
    if Kept(r, b) && forall i :: 0 <= i < |s.buckets| ==> Apart(b, s.buckets[i]) {
      forall i | 0 <= i < |r.buckets|
        ensures Kept(r, r.buckets[i])
      {
        if i > 0 {
          KeptGrows(s, r, s.buckets[i - 1]);
        }
      }
      forall i, j | 0 <= i < j < |r.buckets|
        ensures Apart(r.buckets[i], r.buckets[j])
      {
        assert i > 0 ==> Apart(s.buckets[i - 1], s.buckets[j - 1]);
      }
    }
    if WellKept(r) {
      assert Kept(r, r.buckets[0]);
      forall i | 0 <= i < |s.buckets|
        ensures Apart(b, s.buckets[i])
      {
        assert Apart(r.buckets[0], r.buckets[i + 1]);
      }
    }
  }

  lemma AllocKeeps(s: State, start: nat)
    requires WellKept(s)
    ensures WellKept(Alloc(s, start))
    ensures forall x :: Stored(Alloc(s, start), x) <==> Stored(s, x)
  {
    PushedFront(s, Bucket(s.next, start, [], 1, 0), s.next + 1, s.known);
    assert forall i :: 0 <= i < |s.buckets| ==> Alloc(s, start).buckets[i + 1] == s.buckets[i];
  }

  lemma OpenedKeeps(s: State, start: nat)
    requires WellKept(s)
    ensures WellKept(Opened(s, start))
    ensures forall x :: Stored(Opened(s, start), x) <==> Stored(s, x)
  {
    if NeedsNew(s, start) {
      AllocKeeps(s, start);
    }
  }

  lemma AcceptKeeps(s: State, id: nat)
    requires WellKept(s) && s.buckets != [] && id !in s.known
    ensures WellKept(Accept(s, id))
    ensures forall x :: Stored(Accept(s, id), x) <==> Stored(s, x) || x == id
  {
    var r := Accept(s, id);
    var b := s.buckets[0];
    assert r.buckets[0].ids == b.ids + [id] && forall i :: 1 <= i < |s.buckets| ==> r.buckets[i] == s.buckets[i];
    assert Kept(s, b);
    assert forall i :: 1 <= i < |s.buckets| ==> Kept(s, s.buckets[i]) && Apart(b, s.buckets[i]);
    assert id in r.buckets[0].ids;
    assert forall x :: x in b.ids ==> x in r.buckets[0].ids;
  }

  lemma InsertOneKeeps(d: nat, s: State, e: Entry)
    requires 0 < d && WellKept(s)
    ensures var (r, x) := InsertOne(d, s, e);
      WellKept(r) && r.known == s.known + {e.id} && (x.Some? <==> e.id !in s.known)
    ensures var (r, x) := InsertOne(d, s, e);
      forall y :: Stored(r, y) <==> Stored(s, y) || (y == e.id && e.id !in s.known)
  {
    if e.id !in s.known {
      OpenedKeeps(s, BucketStart(d, e.time));
      AcceptKeeps(Opened(s, BucketStart(d, e.time)), e.id);
    }
  }

  // Repeated inserts store exactly the ids that were not known before, each once.
  lemma {:induction false} InsertAllKeeps(d: nat, s: State, batch: seq<Entry>)
    requires 0 < d && WellKept(s)
    ensures WellKept(InsertAll(d, s, batch).0)
    ensures InsertAll(d, s, batch).0.known == s.known + IdsOf(batch)
    ensures forall y :: Stored(InsertAll(d, s, batch).0, y) <==> Stored(s, y) || (y in IdsOf(batch) && y !in s.known)
    decreases |batch|
  {
    hide WellKept, Stored, InsertOne;
    if batch != [] {
      InsertOneKeeps(d, s, batch[0]);
      InsertAllKeeps(d, InsertOne(d, s, batch[0]).0, batch[1..]);
      assert IdsOf(batch) == {batch[0].id} + IdsOf(batch[1..]);
    }
  }

  lemma {:induction false} AcceptNewKeeps(s: State, run: seq<Entry>)
    requires WellKept(s) && s.buckets != []
    ensures WellKept(AcceptNew(s, run).0)
    ensures forall y :: Stored(AcceptNew(s, run).0, y) <==> Stored(s, y) || (y in IdsOf(run) && y !in s.known)
    decreases |run|
  {
    hide WellKept, Stored;
    if run != [] {
      var e := run[0];
      if e.id in s.known {
        AcceptNewKeeps(s, run[1..]);
      } else {
        AcceptKeeps(s, e.id);
        AcceptNewKeeps(Accept(s, e.id), run[1..]);
      }
      assert IdsOf(run) == {e.id} + IdsOf(run[1..]);
    }
  }

  // A batch stores the same ids as repeated inserts, whatever its runs open.
  lemma {:induction false} InsertBatchKeeps(d: nat, s: State, batch: seq<Entry>)
    requires 0 < d && WellKept(s)
    ensures WellKept(InsertBatch(d, s, batch).0)
    ensures InsertBatch(d, s, batch).0.known == s.known + IdsOf(batch)
    ensures forall y :: Stored(InsertBatch(d, s, batch).0, y) <==> Stored(s, y) || (y in IdsOf(batch) && y !in s.known)
    decreases |batch|
  {
    hide WellKept, Stored, AcceptNew, BucketStart;
    if batch != [] {
      var n := RunLength(d, batch);
      var run, rest := batch[..n], batch[n..];
      var o := Opened(s, BucketStart(d, run[0].time));
      OpenedKeeps(s, BucketStart(d, run[0].time));
      AcceptNewKeeps(o, run);
      AcceptNewFront(o, run);
      InsertBatchKeeps(d, InsertRun(d, s, run).0, rest);
      IdsOfParts(batch, n);
    }
  }

  // Inserts keep the known ids the stored ones.
  lemma InsertsKeepKnown(d: nat, s: State, batch: seq<Entry>)
    requires 0 < d && WellKept(s) && KnownStored(s)
    ensures KnownStored(InsertAll(d, s, batch).0) && KnownStored(InsertBatch(d, s, batch).0)
  {
    hide Stored;
    InsertAllKeeps(d, s, batch);
    InsertBatchKeeps(d, s, batch);
  }

  lemma IdsOfParts(batch: seq<Entry>, n: nat)
    requires n <= |batch|
    ensures IdsOf(batch) == IdsOf(batch[..n]) + IdsOf(batch[n..])
  {
    forall i | 0 <= i < |batch|
      ensures batch[i].id in IdsOf(batch[..n]) + IdsOf(batch[n..])
    {
      if i < n {
        assert batch[..n][i] == batch[i];
      } else {
        assert batch[n..][i - n] == batch[i];
      }
    }
  }

  // ── Replay ──

  // Replaying a log inserts its entries one WAL entry after the other.
  function Replay(d: nat, s: State, log: seq<seq<Entry>>): State
    requires 0 < d
    decreases |log|
  {
    if log == [] then s else Replay(d, InsertAll(d, s, log[0]).0, log[1..])
  }

  lemma {:induction false} KnownChangesNothing(d: nat, s: State, batch: seq<Entry>)
    requires 0 < d && IdsOf(batch) <= s.known
    ensures InsertAll(d, s, batch).0 == s
    ensures forall i :: 0 <= i < |batch| ==> InsertAll(d, s, batch).1[i] == None
    decreases |batch|
  {
    if batch != [] {
      assert batch[0].id in IdsOf(batch);
      assert IdsOf(batch[1..]) <= IdsOf(batch) by {
        IdsOfParts(batch, 1);
      }
      KnownChangesNothing(d, s, batch[1..]);
    }
  }

  lemma {:induction false} ReplayKnows(d: nat, s: State, log: seq<seq<Entry>>)
    requires 0 < d && WellKept(s)
    ensures WellKept(Replay(d, s, log)) && s.known <= Replay(d, s, log).known
    ensures forall i :: 0 <= i < |log| ==> IdsOf(log[i]) <= Replay(d, s, log).known
    decreases |log|
  {
    if log != [] {
      InsertAllKeeps(d, s, log[0]);
      ReplayKnows(d, InsertAll(d, s, log[0]).0, log[1..]);
      assert forall i :: 1 <= i < |log| ==> log[i] == log[1..][i - 1];
    }
  }

  // Replaying again any of the entries, in any order and any number of times, changes nothing.
  lemma ReplayAgain(d: nat, s: State, log: seq<seq<Entry>>, again: seq<seq<Entry>>)
    requires 0 < d && WellKept(s) && forall i :: 0 <= i < |again| ==> again[i] in log
    ensures Replay(d, Replay(d, s, log), again) == Replay(d, s, log)
  {
    ReplayKnows(d, s, log);
    ReplayKnown(d, Replay(d, s, log), again);
  }

  lemma {:induction false} ReplayKnown(d: nat, s: State, log: seq<seq<Entry>>)
    requires 0 < d && forall i :: 0 <= i < |log| ==> IdsOf(log[i]) <= s.known
    ensures Replay(d, s, log) == s
    decreases |log|
  {
    if log != [] {
      KnownChangesNothing(d, s, log[0]);
      ReplayKnown(d, s, log[1..]);
    }
  }

  // ── Restores, rotation, eviction, version marks ──

  function AddRestored(s: State, seqNo: nat, created: nat, ids: seq<nat>): State {
    State([Bucket(seqNo, created, ids, 1, 1)] + s.buckets,
          if seqNo >= s.next then seqNo + 1 else s.next,
          s.known + (set x | x in ids))
  }

  // A restore keeps the index well kept exactly when its ids and its number are new to it.
  lemma RestoreKeepsIff(s: State, seqNo: nat, created: nat, ids: seq<nat>)
    requires WellKept(s)
    ensures WellKept(AddRestored(s, seqNo, created, ids)) <==>
      && OnlyOnce(ids)
      && forall i :: 0 <= i < |s.buckets| ==> s.buckets[i].seqNo != seqNo && forall x :: x in ids ==>
        x !in s.buckets[i].ids
  {
    var b := Bucket(seqNo, created, ids, 1, 1);
    var r := AddRestored(s, seqNo, created, ids);
    PushedFront(s, b, r.next, r.known);
    assert Kept(r, b) <==> OnlyOnce(ids);
    assert forall i :: 0 <= i < |s.buckets| ==>
      (Apart(b, s.buckets[i]) <==> s.buckets[i].seqNo != seqNo && forall x :: x in ids ==> x !in s.buckets[i].ids);
  }

  function Rotate(s: State, start: nat): State {
    if s.buckets != [] && s.buckets[0].ids == [] then s.(buckets := [s.buckets[0].(created := start)] + s.buckets[1..])
    else Alloc(s, start)
  }

  lemma RotateKeeps(s: State, start: nat)
    requires WellKept(s)
    ensures WellKept(Rotate(s, start))
    ensures forall x :: Stored(Rotate(s, start), x) <==> Stored(s, x)
  {
    hide OnlyOnce;
    var r := Rotate(s, start);
    if s.buckets != [] && s.buckets[0].ids == [] {
      assert Kept(s, s.buckets[0]) && Kept(r, r.buckets[0]);
      assert forall i :: 1 <= i < |s.buckets| ==> Kept(s, s.buckets[i]);
      assert forall i :: 1 <= i < |s.buckets| ==> r.buckets[i] == s.buckets[i] && Apart(s.buckets[0], s.buckets[i]);
    } else {
      AllocKeeps(s, start);
    }
  }

  function DropOldest(s: State, k: nat): State
    requires k <= |s.buckets|
  {
    s.(buckets := s.buckets[..|s.buckets| - k])
  }

  // Eviction forgets vectors but not that their ids were seen.
  lemma EvictionKeeps(s: State, k: nat)
    requires WellKept(s) && k <= |s.buckets|
    ensures WellKept(DropOldest(s, k)) && DropOldest(s, k).known == s.known
    ensures forall x :: Stored(DropOldest(s, k), x) <==>
      Stored(s, x) && !exists i :: |s.buckets| - k <= i < |s.buckets| && x in s.buckets[i].ids
  {
    var n := |s.buckets| - k;
    forall x
      ensures Stored(DropOldest(s, k), x) <==> Stored(s, x) && !exists i ::
        n <= i < |s.buckets| && x in s.buckets[i].ids
    {
      if i :| 0 <= i < n && x in s.buckets[i].ids {
        assert forall j :: n <= j < |s.buckets| ==> Apart(s.buckets[i], s.buckets[j]);
        assert x in DropOldest(s, k).buckets[i].ids;
      }
    }
  }

  // So the known ids remain the stored ones exactly when the dropped buckets were empty.
  lemma EvictionKeepsKnownIff(s: State, k: nat)
    requires WellKept(s) && KnownStored(s) && k <= |s.buckets|
    ensures KnownStored(DropOldest(s, k)) <==> forall i :: |s.buckets| - k <= i < |s.buckets| ==> s.buckets[i].ids == []
  {
    var n, t := |s.buckets| - k, DropOldest(s, k);
    EvictionKeeps(s, k);
    if i :| n <= i < |s.buckets| && s.buckets[i].ids != [] {
      var x := s.buckets[i].ids[0];
      assert x in s.buckets[i].ids && Kept(s, s.buckets[i]);
      assert x in t.known && !Stored(t, x);
    }
  }

  // An evicted id is refused from then on, although nothing holds it.
  lemma EvictedIsRefused()
    ensures var s := State([Bucket(0, 0, [7], 2, 0)], 1, {7}); var t := DropOldest(s, 1);
      WellKept(s) && KnownStored(s) && !Stored(t, 7) && InsertOne(10, t, Entry(0, 7)) == (t, None)
  {
    var s := State([Bucket(0, 0, [7], 2, 0)], 1, {7});
    assert 7 in s.buckets[0].ids;
  }

  // The start times of the buckets.
  function Starts(s: State): (r: seq<nat>)
    ensures |r| == |s.buckets|
  {
    seq(|s.buckets|, i requires 0 <= i < |s.buckets| => s.buckets[i].created)
  }

  // An accepted insert moves the deque as `AfterInsert` says; a refused one not at all.
  lemma InsertStarts(d: nat, s: State, e: Entry)
    requires 0 < d
    ensures Starts(InsertOne(d, s, e).0) == if e.id in s.known then Starts(s)
      else AfterInsert(Starts(s), BucketStart(d, e.time))
  {
  }

  // Does opening the window `start` leave one out?
  ghost predicate Skips(d: nat, s: State, start: nat) {
    s.buckets != [] && start > s.buckets[0].created + d
  }

  // Each new id of the batch lands at most one window after the front bucket of its moment.
  ghost predicate NeverSkips(d: nat, s: State, batch: seq<Entry>)
    requires 0 < d
    decreases |batch|
  {
    batch == [] || (
      && (batch[0].id in s.known || !Skips(d, s, BucketStart(d, batch[0].time)))
      && NeverSkips(d, InsertOne(d, s, batch[0]).0, batch[1..]))
  }

  // Repeated inserts leave the deque gap-free exactly when they never skip a window.
  lemma {:induction false} GapFreeIffNeverSkips(d: nat, s: State, batch: seq<Entry>)
    requires 0 < d && GapFree(d, Starts(s))
    ensures GapFree(d, Starts(InsertAll(d, s, batch).0)) <==> NeverSkips(d, s, batch)
    decreases |batch|
  {
    hide GapFree, InsertOne, BucketStart, Starts, AfterInsert, Skips;
    if batch != [] {
      var e, t := batch[0], InsertOne(d, s, batch[0]).0;
      StartBounds(d, e.time);
      InsertStarts(d, s, e);
      GapFreeOrSkips(d, s, BucketStart(d, e.time));
      if GapFree(d, Starts(t)) {
        GapFreeIffNeverSkips(d, t, batch[1..]);
      } else {
        AllInFront(d, t, batch[1..]);
        if GapFree(d, Starts(InsertAll(d, t, batch[1..]).0)) {
          GapStays(d, Starts(InsertAll(d, t, batch[1..]).0), Starts(t));
        }
      }
    }
  }

  // And then the deque is gap-free at every moment on the way.
  lemma {:induction false} GapFreeThroughout(d: nat, s: State, batch: seq<Entry>, k: nat)
    requires 0 < d && GapFree(d, Starts(s)) && NeverSkips(d, s, batch) && k <= |batch|
    ensures GapFree(d, Starts(InsertAll(d, s, batch[..k]).0))
    decreases |batch|
  {
    hide GapFree, InsertOne, BucketStart;
    if k > 0 {
      var e, t := batch[0], InsertOne(d, s, batch[0]).0;
      StartBounds(d, e.time);
      InsertStarts(d, s, e);
      GapFreeOrSkips(d, s, BucketStart(d, e.time));
      assert batch[..k][1..] == batch[1..][..k - 1];
      GapFreeThroughout(d, t, batch[1..], k - 1);
    }
  }

  lemma GapFreeOrSkips(d: nat, s: State, start: nat)
    requires GapFree(d, Starts(s)) && OnGrid(d, start)
    ensures GapFree(d, AfterInsert(Starts(s), start)) <==> !Skips(d, s, start)
  {
    InsertKeepsGapFree(d, Starts(s), start);
  }

  // New buckets come in front; what was there stays behind them.
  ghost predicate InFront(cs: seq<nat>, bs: seq<nat>) {
    |bs| <= |cs| && cs[|cs| - |bs|..] == bs
  }

  lemma {:induction false} AllInFront(d: nat, s: State, batch: seq<Entry>)
    requires 0 < d
    ensures InFront(Starts(InsertAll(d, s, batch).0), Starts(s))
    decreases |batch|
  {
    hide InsertOne;
    if batch != [] {
      InsertStarts(d, s, batch[0]);
      AllInFront(d, InsertOne(d, s, batch[0]).0, batch[1..]);
    }
  }

  lemma GapStays(d: nat, cs: seq<nat>, bs: seq<nat>)
    requires InFront(cs, bs) && GapFree(d, cs)
    ensures GapFree(d, bs)
  {
    var k := |cs| - |bs|;
    assert forall i :: 0 <= i < |bs| ==> bs[i] == cs[k + i];
    forall i | 0 <= i < |bs| - 1
      ensures bs[i] == bs[i + 1] + d
    {
      assert cs[k + i] == cs[k + i + 1] + d;
    }
  }

  // Each run of the batch opens at most the window after the front bucket of its moment, if any.
  ghost predicate RunsNeverSkip(d: nat, s: State, batch: seq<Entry>)
    requires 0 < d
    decreases |batch|
  {
    batch == [] || (
      var n := RunLength(d, batch);
      && !Skips(d, s, BucketStart(d, batch[0].time))
      && RunsNeverSkip(d, InsertRun(d, s, batch[..n]).0, batch[n..]))
  }

  // The same for batches, which open the window of every run.
  lemma {:induction false} BatchGapFreeIff(d: nat, s: State, batch: seq<Entry>)
    requires 0 < d && GapFree(d, Starts(s))
    ensures GapFree(d, Starts(InsertBatch(d, s, batch).0)) <==> RunsNeverSkip(d, s, batch)
    decreases |batch|
  {
    hide GapFree, InsertRun, BucketStart;
    if batch != [] {
      var n := RunLength(d, batch);
      var start, t := BucketStart(d, batch[0].time), InsertRun(d, s, batch[..n]).0;
      StartBounds(d, batch[0].time);
      RunStarts(d, s, batch[..n]);
      GapFreeOrSkips(d, s, start);
      if GapFree(d, Starts(t)) {
        BatchGapFreeIff(d, t, batch[n..]);
      } else {
        BatchInFront(d, t, batch[n..]);
        if GapFree(d, Starts(InsertBatch(d, t, batch[n..]).0)) {
          GapStays(d, Starts(InsertBatch(d, t, batch[n..]).0), Starts(t));
        }
      }
    }
  }

  lemma RunStarts(d: nat, s: State, run: seq<Entry>)
    requires 0 < d && run != []
    ensures Starts(InsertRun(d, s, run).0) == AfterInsert(Starts(s), BucketStart(d, run[0].time))
  {
    hide AcceptNew, BucketStart;
    AcceptStarts(Opened(s, BucketStart(d, run[0].time)), run);
  }

  lemma {:induction false} AcceptStarts(s: State, run: seq<Entry>)
    requires s.buckets != []
    ensures Starts(AcceptNew(s, run).0) == Starts(s)
    decreases |run|
  {
    if run != [] {
      AcceptStarts(if run[0].id in s.known then s else Accept(s, run[0].id), run[1..]);
    }
  }

  lemma {:induction false} BatchInFront(d: nat, s: State, batch: seq<Entry>)
    requires 0 < d
    ensures InFront(Starts(InsertBatch(d, s, batch).0), Starts(s))
    decreases |batch|
  {
    hide InsertRun, BucketStart;
    if batch != [] {
      var n := RunLength(d, batch);
      RunStarts(d, s, batch[..n]);
      BatchInFront(d, InsertRun(d, s, batch[..n]).0, batch[n..]);
    }
  }

  // Rotation moves the deque as `AfterRotate` says.
  lemma RotateStarts(s: State, start: nat)
    ensures Starts(Rotate(s, start)) == AfterRotate(Starts(s), s.buckets != [] && s.buckets[0].ids == [], start)
  {
    var r := Rotate(s, start);
    if s.buckets != [] && s.buckets[0].ids == [] {
      assert r.buckets[1..] == s.buckets[1..] && Starts(r)[1..] == Starts(s)[1..];
    } else {
      assert r.buckets[1..] == s.buckets;
    }
  }

  // The position of the bucket numbered `seqNo`.
  function Find(bs: seq<Bucket>, seqNo: nat): (i: nat)
    ensures i <= |bs| && (i < |bs| ==> bs[i].seqNo == seqNo)
    ensures forall j :: 0 <= j < i ==> bs[j].seqNo != seqNo
  {
    if bs == [] || bs[0].seqNo == seqNo then 0 else 1 + Find(bs[1..], seqNo)
  }

  predicate Dirty(s: State, seqNo: nat) {
    var i := Find(s.buckets, seqNo);
    i < |s.buckets| && s.buckets[i].writes > s.buckets[i].clean
  }

  function MarkCleanIf(s: State, seqNo: nat, version: nat): State {
    var i := Find(s.buckets, seqNo);
    if i < |s.buckets| && s.buckets[i].writes == version then
      s.(buckets := s.buckets[i := s.buckets[i].(clean := version)])
    else s
  }

  lemma MarkKeeps(s: State, seqNo: nat, version: nat)
    requires WellKept(s)
    ensures WellKept(MarkCleanIf(s, seqNo, version))
    ensures forall x :: Stored(MarkCleanIf(s, seqNo, version), x) <==> Stored(s, x)
  {
    var i := Find(s.buckets, seqNo);
    var r := MarkCleanIf(s, seqNo, version);
    assert |r.buckets| == |s.buckets| && forall j :: 0 <= j < |s.buckets| ==>
      r.buckets[j].ids == s.buckets[j].ids && r.buckets[j].seqNo == s.buckets[j].seqNo;
    assert forall j :: 0 <= j < |s.buckets| ==> Kept(s, s.buckets[j]);
    assert forall j, k :: 0 <= j < k < |s.buckets| ==> Apart(s.buckets[j], s.buckets[k]);
  }
}
