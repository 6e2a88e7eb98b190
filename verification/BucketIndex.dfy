// The index object: its methods carry out the state changes that module TimeBucket specifies.
module BucketIndex {
  import opened Options
  import opened Grid
  import opened Heaps
  import opened TimeBucket
  import TopK

  // The ids of the new entries of a run, in order: what the front bucket gains.
  function NewIds(known: set<nat>, run: seq<Entry>): seq<nat>
    decreases |run|
  {
    if run == [] then []
    else if run[0].id in known then NewIds(known, run[1..])
    else [run[0].id] + NewIds(known + {run[0].id}, run[1..])
  }

  function NewRefs(known: set<nat>, seqNo: nat, run: seq<Entry>): (r: seq<Option<NodeRef>>)
    ensures |r| == |run|
    decreases |run|
  {
    if run == [] then []
    else [if run[0].id in known then None else Some(NodeRef(seqNo, run[0].id))] + NewRefs(known + {run[0].id}, seqNo,
      run[1..])
  }

  // Storing a run entry by entry is appending its new ids at once.
  lemma {:induction false} AcceptNewAtOnce(s: State, run: seq<Entry>)
    requires s.buckets != []
    ensures var b := s.buckets[0]; var ids := NewIds(s.known, run);
      AcceptNew(s, run).0 == State([b.(ids := b.ids + ids, writes := b.writes + |ids|)] + s.buckets[1..], s.next,
        s.known + IdsOf(run))
    ensures AcceptNew(s, run).1 == NewRefs(s.known, s.buckets[0].seqNo, run)
    decreases |run|
  {
    hide IdsOf;
    var b := s.buckets[0];
    if run == [] {
      assert s.known + IdsOf(run) == s.known by { NoIds(); }
      assert b.ids + [] == b.ids;
      assert s.buckets == [b] + s.buckets[1..];
    } else {
      var e := run[0];
      IdsSplit(run);
      assert s.known + ({e.id} + IdsOf(run[1..])) == s.known + {e.id} + IdsOf(run[1..]);
      if e.id in s.known {
        assert s.known + {e.id} == s.known;
        AcceptNewAtOnce(s, run[1..]);
      } else {
        AcceptNewAtOnce(Accept(s, e.id), run[1..]);
        var rest := NewIds(s.known + {e.id}, run[1..]);
        assert b.ids + ([e.id] + rest) == b.ids + [e.id] + rest;
      }
    }
  }

  lemma NoIds()
    ensures IdsOf([]) == {}
  {
  }

  lemma IdsSplit(run: seq<Entry>)
    requires run != []
    ensures IdsOf(run) == {run[0].id} + IdsOf(run[1..])
  {
    IdsOfParts(run, 1);
    assert IdsOf(run[..1]) == {run[..1][0].id};
  }

  lemma {:induction false} NewIdsSnoc(known: set<nat>, seqNo: nat, run: seq<Entry>, e: Entry)
    ensures NewIds(known, run + [e]) == NewIds(known, run) + (if e.id in known + IdsOf(run) then [] else [e.id])
    ensures NewRefs(known, seqNo, run + [e])
         == NewRefs(known, seqNo, run) + [if e.id in known + IdsOf(run) then None else Some(NodeRef(seqNo, e.id))]
    decreases |run|
  {
    hide IdsOf;
    if run == [] {
      NoIds();
      assert run + [e] == [e];
    } else {
      assert (run + [e])[1..] == run[1..] + [e];
      IdsSplit(run);
      NewIdsSnoc(known + {run[0].id}, seqNo, run[1..], e);
      assert known + {run[0].id} + IdsOf(run[1..]) == known + IdsOf(run);
      assert run[0].id in known ==> known + {run[0].id} == known;
    }
  }

  function IdList(run: seq<Entry>): (r: seq<nat>)
    ensures |r| == |run|
  {
    seq(|run|, i requires 0 <= i < |run| => run[i].id)
  }

  lemma StartFresh(known: set<nat>, run: seq<Entry>)
    ensures NewIds(known, run[..0]) == [] && known + IdsOf(run[..0]) == known
  {
  }

  lemma FreshStep(known: set<nat>, run: seq<Entry>, e: Entry)
    ensures NewIds(known, run + [e]) == NewIds(known, run) + (if e.id in known + IdsOf(run) then [] else [e.id])
    ensures forall q ::
      NewRefs(known, q, run + [e]) == NewRefs(known, q, run) + [if e.id in known + IdsOf(run) then None
        else Some(NodeRef(q, e.id))]
    ensures known + IdsOf(run + [e]) == known + IdsOf(run) + {e.id}
  {
    forall q: nat
      ensures NewRefs(known, q, run + [e])
           == NewRefs(known, q, run) + [if e.id in known + IdsOf(run) then None else Some(NodeRef(q, e.id))]
    {
      NewIdsSnoc(known, q, run, e);
    }
    NewIdsSnoc(known, 0, run, e);
    IdsOfParts(run + [e], |run|);
    assert (run + [e])[..|run|] == run && (run + [e])[|run|..] == [e];
    assert IdsOf([e]) == {[e][0].id};
  }

  // ── The key that orders nodes of different buckets ──

  function Key(r: NodeRef): int {
    r.bucketSeq * U64 + r.vectorId
  }

  // Keys order nodes by bucket sequence number, then by vector id.
  lemma KeyOrder(a: NodeRef, b: NodeRef)
    requires a.vectorId < U64 && b.vectorId < U64
    ensures Key(a) <= Key(b) <==> a.bucketSeq < b.bucketSeq || (a.bucketSeq == b.bucketSeq && a.vectorId <= b.vectorId)
    ensures Key(a) == Key(b) <==> a == b
    ensures Key(a) % U64 == a.vectorId
  {
  }

  // ── Searching a range of buckets ──

  // What a bucket's search found, with adjusted distances and index-wide keys.
  function Answers(b: Bucket, found: seq<(nat, int)>, adjust: (nat, int) -> int): (r: seq<Cand>)
    ensures |r| == |found|
  {
    seq(|found|, j requires 0 <= j < |found| => Cand(adjust(b.created, found[j].1), Key(NodeRef(b.seqNo, found[j].0))))
  }

  function Parts(s: State, found: seq<seq<(nat, int)>>, adjust: (nat, int) -> int): (r: seq<seq<Cand>>)
    requires |found| == |s.buckets|
    ensures |r| == |found|
  {
    seq(|found|, i requires 0 <= i < |found| => Answers(s.buckets[i], found[i], adjust))
  }

  // The buckets a search visits.
  function VisitedRange(d: nat, s: State, range: Option<(nat, nat)>): (r: (nat, nat))
    requires 0 < d
    ensures r.1 <= |s.buckets|
  {
    match range
    case None => (0, |s.buckets|)
    case Some((start, end)) =>
      match Slice(d, Starts(s), start, end)
      case None => (0, 0)
      case Some(slice) => slice
  }

  function Between(parts: seq<seq<Cand>>, lo: nat, hi: nat): seq<Cand>
  {
    if lo < hi <= |parts| then TopK.Concat(parts[lo..hi]) else []
  }

  // All answers of the visited buckets.
  function Visited(d: nat, s: State, found: seq<seq<(nat, int)>>, adjust: (nat, int) -> int,
      range: Option<(nat, nat)>): seq<Cand>
    requires 0 < d && |found| == |s.buckets|
  {
    var (lo, hi) := VisitedRange(d, s, range);
    Between(Parts(s, found, adjust), lo, hi)
  }

  // Buckets have distinct numbers and no bucket answers with the same vector twice.
  ghost predicate DistinctAnswers(s: State, found: seq<seq<(nat, int)>>)
    requires |found| == |s.buckets|
  {
    && (forall i, j :: 0 <= i < j < |s.buckets| ==> s.buckets[i].seqNo != s.buckets[j].seqNo)
    && (forall i, j :: 0 <= i < |found| && 0 <= j < |found[i]| ==> found[i][j].0 < U64)
    && forall i, j, k :: 0 <= i < |found| && 0 <= j < k < |found[i]| ==> found[i][j].0 != found[i][k].0
  }

  // Each distance by its key; a later entry overwrites an earlier one.
  function ScoreMap(all: seq<Cand>): map<int, int> {
    if all == [] then map[]
    else var c := all[|all| - 1]; ScoreMap(all[..|all| - 1])[c.id := c.d]
  }

  lemma NoScores()
    ensures ScoreMap([]) == map[] && DistinctIds([])
  {
  }

  lemma BetweenSnoc(parts: seq<seq<Cand>>, lo: nat, i: nat)
    requires lo <= i < |parts|
    ensures Between(parts, lo, i + 1) == Between(parts, lo, i) + parts[i]
  {
    assert parts[lo..i + 1] == parts[lo..i] + [parts[i]];
    TopK.ConcatSnoc(parts[lo..i], parts[i]);
  }

  lemma ScoreMapSnoc(all: seq<Cand>, c: Cand)
    ensures ScoreMap(all + [c]) == ScoreMap(all)[c.id := c.d]
  {
    assert (all + [c])[..|all|] == all;
  }

  lemma {:induction false} ScoresFound(all: seq<Cand>, i: nat)
    requires DistinctIds(all) && i < |all|
    ensures all[i].id in ScoreMap(all) && ScoreMap(all)[all[i].id] == all[i].d
    decreases |all|
  {
    if i < |all| - 1 {
      ScoresFound(all[..|all| - 1], i);
    }
  }

  function Scored(scores: map<int, int>, id: int): Cand {
    Cand(if id in scores then scores[id] else 0, id)
  }

  function Lookup(scores: map<int, int>): int -> Cand {
    id => Scored(scores, id)
  }

  // Looking the selected ids up again gives back the selected candidates.
  lemma Recovered(all: seq<Cand>, bids: seq<int>, k: nat)
    requires DistinctIds(all) && multiset(bids) == TopK.TopIds(all, k)
    ensures forall i :: 0 <= i < |bids| ==> bids[i] in ScoreMap(all)
    ensures TopK.KSmallest(TopK.Map(Lookup(ScoreMap(all)), bids), all, k)
  {
    hide TopK.Smallest, TopK.Sort, ScoreMap;
    var top := TopK.Taken(TopK.Sort(all), k);
    var scores := ScoreMap(all);
    var f := Lookup(scores);
    TopK.SortedPrefix(all, k);
    forall i | 0 <= i < |top|
      ensures top[i].id in scores && f(top[i].id) == top[i]
    {
      assert top[i] in multiset(TopK.Sort(all));
      var j :| 0 <= j < |all| && all[j] == top[i];
      ScoresFound(all, j);
    }
    TopK.SameMapped(f, bids, TopK.Ids(top));
    forall i | 0 <= i < |top|
      ensures TopK.Map(f, TopK.Ids(top))[i] == top[i]
    {
      TopK.MapAt(f, TopK.Ids(top), i);
      TopK.MapAt(TopK.IdOf, top, i);
    }
    assert TopK.Map(f, TopK.Ids(top)) == top;
    forall i | 0 <= i < |bids|
      ensures bids[i] in scores
    {
      assert bids[i] in multiset(TopK.Ids(top));
    }
  }

  lemma {:induction false} PartsDistinct(s: State, found: seq<seq<(nat, int)>>, adjust: (nat, int) -> int, lo: nat,
      hi: nat)
    requires |found| == |s.buckets| && DistinctAnswers(s, found) && lo <= hi <= |found|
    ensures DistinctIds(TopK.Concat(Parts(s, found, adjust)[lo..hi]))
    ensures forall c :: c in TopK.Concat(Parts(s, found, adjust)[lo..hi]) ==>
      exists i: nat, v: nat :: lo <= i < hi && v < U64 && c.id == Key(NodeRef(s.buckets[i].seqNo, v))
    decreases hi - lo
  {
    var parts := Parts(s, found, adjust);
    if lo < hi {
      PartsDistinct(s, found, adjust, lo + 1, hi);
      assert parts[lo..hi][1..] == parts[lo + 1..hi];
      var a, b := parts[lo], TopK.Concat(parts[lo + 1..hi]);
      forall i, j | 0 <= i < |a| && (i < j < |a|)
        ensures a[i].id != a[j].id
      {
        KeyOrder(NodeRef(s.buckets[lo].seqNo, found[lo][i].0), NodeRef(s.buckets[lo].seqNo, found[lo][j].0));
      }
      forall i, j | 0 <= i < |a| && 0 <= j < |b|
        ensures a[i].id != b[j].id
      {
        assert b[j] in b;
        var q: nat, v: nat :| lo + 1 <= q < hi && v < U64 && b[j].id == Key(NodeRef(s.buckets[q].seqNo, v));
        KeyOrder(NodeRef(s.buckets[lo].seqNo, found[lo][i].0), NodeRef(s.buckets[q].seqNo, v));
      }
      assert TopK.Concat(parts[lo..hi]) == a + b;
    }
  }

  lemma StartsAt(s: State)
    ensures forall i :: 0 <= i < |s.buckets| ==> Starts(s)[i] == s.buckets[i].created
  {
  }

  lemma EvictsExactly(d: nat, s: State, time: nat)
    requires GapFree(d, Starts(s)) && NoWrap(d, Starts(s), time) && time < U64 && d < U64
    ensures EvictCount(d, Starts(s), time) <= |s.buckets|
    ensures forall i :: 0 <= i < |s.buckets| ==> (i < |s.buckets| - EvictCount(d, Starts(s), time)
      <==> time <= s.buckets[i].created)
  {
    GapFreeEviction(d, Starts(s), time);
    assert forall i :: 0 <= i < |s.buckets| ==> Starts(s)[i] == s.buckets[i].created;
  }

  function Hits(chosen: seq<Cand>): (r: seq<(nat, int)>)
    ensures |r| == |chosen|
  {
    seq(|chosen|, i requires 0 <= i < |chosen| => (chosen[i].id % U64, chosen[i].d))
  }

  // ── What a search returns ──

  // Answer `at.1` of bucket `at.0`, with its distance adjusted.
  function Adjusted(s: State, found: seq<seq<(nat, int)>>, adjust: (nat, int) -> int, at: (nat, nat)): (nat, int)
    requires at.0 < |found| == |s.buckets| && at.1 < |found[at.0]|
  {
    (found[at.0][at.1].0, adjust(s.buckets[at.0].created, found[at.0][at.1].1))
  }

  // An answer of one of the buckets from `lo` to `hi`.
  ghost predicate Asked(found: seq<seq<(nat, int)>>, lo: nat, hi: nat, at: (nat, nat)) {
    lo <= at.0 < hi && at.0 < |found| && at.1 < |found[at.0]|
  }

  // `r` lists `k` of the answers of these buckets, each at most once, and none left out is nearer;
  // or it lists all of them.
  ghost predicate BestAnswers(s: State, found: seq<seq<(nat, int)>>, adjust: (nat, int) -> int, lo: nat, hi: nat,
      k: nat, r: seq<(nat, int)>, from: seq<(nat, nat)>)
    requires |found| == |s.buckets|
  {
    && |from| == |r| <= k
    && (forall n :: 0 <= n < |r| ==> Asked(found, lo, hi, from[n]) && r[n] == Adjusted(s, found, adjust, from[n]))
    && (forall m, n :: 0 <= m < n < |r| ==> from[m] != from[n])
    && forall at: (nat, nat) :: Asked(found, lo, hi, at) && at !in from ==>
      |r| == k && forall n :: 0 <= n < |r| ==> r[n].1 <= Adjusted(s, found, adjust, at).1
  }

  // Every bucket, or those whose window overlaps the range.
  ghost predicate InRange(d: nat, s: State, range: Option<(nat, nat)>, i: nat) {
    && i < |s.buckets|
    && match range
      case None => true
      case Some((start, end)) => 0 < d && start < end && Overlaps(d, s.buckets[i].created, start, end)
  }

  // A search without a range visits every bucket; with one, on a gap-free deque, exactly those
  // whose window overlaps it.
  lemma VisitsInRange(d: nat, s: State, range: Option<(nat, nat)>)
    requires 0 < d && (range.Some? ==> GapFree(d, Starts(s)))
    ensures var (lo, hi) := VisitedRange(d, s, range); forall i: nat :: lo <= i < hi <==> InRange(d, s, range, i)
  {
    match range
    case None =>
    case Some((start, end)) =>
      if start < end {
        hide Overlaps, Slice;
        StartsAt(s);
        GapFreeSlice(d, Starts(s), start, end);
      }
  }

  // The candidates of a range of parts are their elements.
  lemma {:induction false} Gathered(parts: seq<seq<Cand>>, lo: nat, hi: nat)
    requires lo <= hi <= |parts|
    ensures forall i, j :: lo <= i < hi && 0 <= j < |parts[i]| ==> parts[i][j] in TopK.Concat(parts[lo..hi])
    ensures forall c :: c in TopK.Concat(parts[lo..hi]) ==>
      exists i: nat, j: nat :: lo <= i < hi && j < |parts[i]| && c == parts[i][j]
    decreases hi - lo
  {
    if lo < hi {
      Gathered(parts, lo + 1, hi);
      assert parts[lo..hi][1..] == parts[lo + 1..hi];
      assert TopK.Concat(parts[lo..hi]) == parts[lo] + TopK.Concat(parts[lo + 1..hi]);
    }
  }

  // An answer as a candidate: its adjusted distance, and a key no other answer has.
  lemma PartAt(s: State, found: seq<seq<(nat, int)>>, adjust: (nat, int) -> int, at: (nat, nat))
    requires |found| == |s.buckets| && DistinctAnswers(s, found) && Asked(found, 0, |found|, at)
    ensures |Parts(s, found, adjust)| == |found| && |Parts(s, found, adjust)[at.0]| == |found[at.0]|
    ensures var c := Parts(s, found, adjust)[at.0][at.1];
      c.id >= 0 && (c.id % U64, c.d) == Adjusted(s, found, adjust, at)
  {
    KeyOrder(NodeRef(s.buckets[at.0].seqNo, found[at.0][at.1].0), NodeRef(0, 0));
  }

  lemma KeyOfOne(s: State, found: seq<seq<(nat, int)>>, adjust: (nat, int) -> int, a: (nat, nat), b: (nat, nat))
    requires |found| == |s.buckets| && DistinctAnswers(s, found)
    requires Asked(found, 0, |found|, a) && Asked(found, 0, |found|, b)
    requires Parts(s, found, adjust)[a.0][a.1].id == Parts(s, found, adjust)[b.0][b.1].id
    ensures a == b
  {
    KeyOrder(NodeRef(s.buckets[a.0].seqNo, found[a.0][a.1].0), NodeRef(s.buckets[b.0].seqNo, found[b.0][b.1].0));
  }

  ghost predicate ElementAt(parts: seq<seq<Cand>>, lo: nat, hi: nat, at: (nat, nat), c: Cand) {
    lo <= at.0 < hi && at.0 < |parts| && at.1 < |parts[at.0]| && c == parts[at.0][at.1]
  }

  lemma SourceOf(parts: seq<seq<Cand>>, lo: nat, hi: nat, c: Cand) returns (at: (nat, nat))
    requires hi <= |parts| && c in Between(parts, lo, hi)
    ensures ElementAt(parts, lo, hi, at, c)
  {
    Gathered(parts, lo, hi);
    var i: nat, j: nat :| lo <= i < hi && j < |parts[i]| && c == parts[i][j];
    at := (i, j);
  }

  // Where each chosen candidate comes from.
  lemma {:induction false} Sources(parts: seq<seq<Cand>>, lo: nat, hi: nat, chosen: seq<Cand>)
      returns (from: seq<(nat, nat)>)
    requires hi <= |parts| && forall c :: c in chosen ==> c in Between(parts, lo, hi)
    ensures |from| == |chosen| && forall n :: 0 <= n < |from| ==> ElementAt(parts, lo, hi, from[n], chosen[n])
  {
    hide ElementAt, Between;
    from := [];
    if chosen != [] {
      var most, c := chosen[..|chosen| - 1], chosen[|chosen| - 1];
      assert c in chosen && forall x :: x in most ==> x in chosen;
      from := Sources(parts, lo, hi, most);
      var at := SourceOf(parts, lo, hi, c);
      from := from + [at];
    }
  }

  // The best candidates of a range of buckets are the best answers of those buckets.
  lemma ChosenAnswers(s: State, found: seq<seq<(nat, int)>>, adjust: (nat, int) -> int, lo: nat, hi: nat, k: nat,
      chosen: seq<Cand>) returns (from: seq<(nat, nat)>)
    requires |found| == |s.buckets| && DistinctAnswers(s, found) && hi <= |found|
    requires DistinctIds(Between(Parts(s, found, adjust), lo, hi))
    requires TopK.KSmallest(chosen, Between(Parts(s, found, adjust), lo, hi), k)
    ensures BestAnswers(s, found, adjust, lo, hi, k, Hits(chosen), from)
  {
    hide DistinctAnswers, Answers, Parts, Between, TopK.Smallest, Adjusted, DistinctIds;
    var parts, all := Parts(s, found, adjust), Between(Parts(s, found, adjust), lo, hi);
    ChosenDistinct(chosen, all, k);
    from := Sources(parts, lo, hi, chosen);
    forall n | 0 <= n < |chosen|
      ensures Asked(found, lo, hi, from[n]) && Hits(chosen)[n] == Adjusted(s, found, adjust, from[n])
    {
      assert ElementAt(parts, lo, hi, from[n], chosen[n]);
      PartSize(s, found, adjust, from[n].0);
      PartAt(s, found, adjust, from[n]);
    }
    forall m, n | 0 <= m < n < |chosen|
      ensures from[m] != from[n]
    {
      assert ElementAt(parts, lo, hi, from[m], chosen[m]) && ElementAt(parts, lo, hi, from[n], chosen[n]);
    }
    forall at: (nat, nat) | Asked(found, lo, hi, at) && at !in from
      ensures |chosen| == k && forall n :: 0 <= n < |chosen| ==> Hits(chosen)[n].1 <= Adjusted(s, found, adjust, at).1
    {
      PartAt(s, found, adjust, at);
      NotChosen(s, found, adjust, lo, hi, chosen, from, at);
      InBetween(s, found, adjust, lo, hi, at);
      LeftOut(chosen, all, k, parts[at.0][at.1]);
    }
  }

  lemma PartSize(s: State, found: seq<seq<(nat, int)>>, adjust: (nat, int) -> int, i: nat)
    requires i < |found| == |s.buckets|
    ensures |Parts(s, found, adjust)| == |found| && |Parts(s, found, adjust)[i]| == |found[i]|
  {
  }

  lemma InBetween(s: State, found: seq<seq<(nat, int)>>, adjust: (nat, int) -> int, lo: nat, hi: nat, at: (nat, nat))
    requires hi <= |found| == |s.buckets| && Asked(found, lo, hi, at)
    ensures Parts(s, found, adjust)[at.0][at.1] in Between(Parts(s, found, adjust), lo, hi)
  {
    Gathered(Parts(s, found, adjust), lo, hi);
  }

  lemma NotChosen(s: State, found: seq<seq<(nat, int)>>, adjust: (nat, int) -> int, lo: nat, hi: nat,
      chosen: seq<Cand>, from: seq<(nat, nat)>, at: (nat, nat))
    requires hi <= |found| == |s.buckets| && DistinctAnswers(s, found) && Asked(found, lo, hi, at) && at !in from
    requires |from| == |chosen|
    requires forall n :: 0 <= n < |from| ==> ElementAt(Parts(s, found, adjust), lo, hi, from[n], chosen[n])
    ensures Parts(s, found, adjust)[at.0][at.1] !in chosen
  {
    hide DistinctAnswers;
    forall n | 0 <= n < |chosen|
      ensures chosen[n] != Parts(s, found, adjust)[at.0][at.1]
    {
      assert ElementAt(Parts(s, found, adjust), lo, hi, from[n], chosen[n]);
      if chosen[n] == Parts(s, found, adjust)[at.0][at.1] {
        KeyOfOne(s, found, adjust, at, from[n]);
      }
    }
  }

  lemma ChosenDistinct(chosen: seq<Cand>, all: seq<Cand>, k: nat)
    requires DistinctIds(all) && TopK.KSmallest(chosen, all, k)
    ensures |chosen| <= k && forall c :: c in chosen ==> c in all
    ensures forall m, n :: 0 <= m < n < |chosen| ==> chosen[m] != chosen[n]
  {
    forall c | c in chosen
      ensures c in all
    {
      assert c in multiset(chosen) && c in multiset(all);
    }
    forall m, n | 0 <= m < n < |chosen|
      ensures chosen[m] != chosen[n]
    {
      if chosen[m] == chosen[n] {
        TwiceThere(chosen, m, n);
        OnceThere(all, chosen[m]);
      }
    }
  }

  lemma OnceThere(all: seq<Cand>, c: Cand)
    requires DistinctIds(all)
    ensures multiset(all)[c] <= 1
  {
    if i :| 0 <= i < |all| && all[i] == c {
      assert all == all[..i] + [c] + all[i + 1..];
      assert c !in all[..i] && c !in all[i + 1..];
    }
  }

  lemma TwiceThere(s: seq<Cand>, m: nat, n: nat)
    requires m < n < |s| && s[m] == s[n]
    ensures multiset(s)[s[m]] >= 2
  {
    assert s == s[..m] + [s[m]] + s[m + 1..n] + [s[n]] + s[n + 1..];
  }

  lemma LeftOut(chosen: seq<Cand>, all: seq<Cand>, k: nat, c: Cand)
    requires TopK.KSmallest(chosen, all, k) && c in all && c !in chosen
    ensures |chosen| == k && forall n :: 0 <= n < |chosen| ==> chosen[n].d <= c.d
  {
    assert c in multiset(all) && c !in multiset(chosen);
    if |chosen| < k {
      TopK.ContainedOfEqualSize(multiset(chosen), multiset(all));
      assert false;
    }
    forall n | 0 <= n < |chosen|
      ensures chosen[n].d <= c.d
    {
      assert chosen[n] in multiset(chosen);
    }
  }

  function RawDistance(x: (nat, int)): int {
    x.1
  }

  // A bucket's own search found its k nearest vectors.
  ghost predicate FoundNearest(found: seq<(nat, int)>, content: seq<(nat, int)>, k: nat) {
    TopK.Smallest(TopK.IntLeq, multiset(TopK.Map(RawDistance, found)), multiset(TopK.Map(RawDistance, content)), k)
  }

  // Adjustments depend on the bucket and never reorder distances within one.
  ghost predicate Monotone(adjust: (nat, int) -> int) {
    forall t: nat, a, b :: a <= b ==> adjust(t, a) <= adjust(t, b)
  }

  lemma AnswersNearest(b: Bucket, found: seq<(nat, int)>, content: seq<(nat, int)>, adjust: (nat, int) -> int, k: nat)
    requires FoundNearest(found, content, k) && Monotone(adjust)
    ensures TopK.Nearest(Answers(b, found, adjust), Answers(b, content, adjust), k)
  {
    var f := x => adjust(b.created, x);
    TopK.MonotoneKeepsSmallest(f, TopK.Map(RawDistance, found), TopK.Map(RawDistance, content), k);
    AdjustedDistances(b, found, adjust, f);
    AdjustedDistances(b, content, adjust, f);
  }

  lemma AdjustedDistances(b: Bucket, xs: seq<(nat, int)>, adjust: (nat, int) -> int, f: int -> int)
    requires forall x :: f(x) == adjust(b.created, x)
    ensures TopK.Map(f, TopK.Map(RawDistance, xs)) == TopK.Distances(Answers(b, xs, adjust))
  {
    forall i | 0 <= i < |xs|
      ensures TopK.Map(f, TopK.Map(RawDistance, xs))[i] == TopK.Distances(Answers(b, xs, adjust))[i]
    {
      TopK.MapAt(f, TopK.Map(RawDistance, xs), i);
      TopK.MapAt(RawDistance, xs, i);
      TopK.MapAt(TopK.DistanceOf, Answers(b, xs, adjust), i);
    }
  }

  // If every visited bucket answers with its k nearest, the merged answer is the k nearest of
  // all vectors in the visited buckets, under any monotone adjustment.
  lemma SearchIsExact(d: nat, s: State, found: seq<seq<(nat, int)>>, content: seq<seq<(nat, int)>>,
                      adjust: (nat, int) -> int, range: Option<(nat, nat)>, chosen: seq<Cand>, k: nat)
    requires 0 < d && |found| == |content| == |s.buckets| && Monotone(adjust)
    requires forall i :: 0 <= i < |found| ==> FoundNearest(found[i], content[i], k)
    requires TopK.KSmallest(chosen, Visited(d, s, found, adjust, range), k)
    ensures TopK.Nearest(chosen, Visited(d, s, content, adjust, range), k)
  {
    hide TopK.Smallest, Answers, FoundNearest, Monotone, VisitedRange;
    var (lo, hi) := VisitedRange(d, s, range);
    if lo < hi {
      var a, b := Parts(s, found, adjust)[lo..hi], Parts(s, content, adjust)[lo..hi];
      forall i | 0 <= i < |a|
        ensures TopK.Nearest(a[i], b[i], k)
      {
        AnswersNearest(s.buckets[lo + i], found[lo + i], content[lo + i], adjust, k);
      }
      TopK.MergeLosesNothing(a, b, chosen, k);
    } else {
      TopK.SmallestAreNearest(chosen, [], k);
    }
  }

  // The parts of the buckets whose window overlaps [start, end).
  function InWindow(d: nat, s: State, parts: seq<seq<Cand>>, start: nat, end: nat, n: nat): seq<Cand>
    requires n <= |parts| == |s.buckets|
  {
    if n == 0 then []
    else InWindow(d, s, parts, start, end, n - 1) + (if Overlaps(d, s.buckets[n - 1].created, start, end) then
      parts[n - 1] else [])
  }

  lemma {:induction false} NoneInWindow(d: nat, s: State, parts: seq<seq<Cand>>, start: nat, end: nat, n: nat)
    requires n <= |parts| == |s.buckets|
    requires forall i :: 0 <= i < n ==> !Overlaps(d, s.buckets[i].created, start, end)
    ensures InWindow(d, s, parts, start, end, n) == []
  {
    if n > 0 {
      NoneInWindow(d, s, parts, start, end, n - 1);
    }
  }

  lemma {:induction false} SliceInWindow(d: nat, s: State, parts: seq<seq<Cand>>, start: nat, end: nat, lo: nat,
      hi: nat, n: nat)
    requires n <= |parts| == |s.buckets| && lo <= hi <= |parts|
    requires forall i :: 0 <= i < |s.buckets| ==> (lo <= i < hi <==> Overlaps(d, s.buckets[i].created, start, end))
    ensures InWindow(d, s, parts, start, end, n) == Between(parts, lo, if n <= hi then n else hi)
  {
    hide Overlaps;
    if n > 0 {
      SliceInWindow(d, s, parts, start, end, lo, hi, n - 1);
      if lo < n <= hi {
        BetweenSnoc(parts, lo, n - 1);
      }
    }
  }

  // On a gap-free deque a time-range search visits exactly the buckets that overlap the range.
  lemma VisitsWindow(d: nat, s: State, found: seq<seq<(nat, int)>>, adjust: (nat, int) -> int, start: nat, end: nat)
    requires GapFree(d, Starts(s)) && start < end && |found| == |s.buckets|
    ensures Visited(d, s, found, adjust, Some((start, end)))
         == InWindow(d, s, Parts(s, found, adjust), start, end, |s.buckets|)
  {
    hide GapFree, Overlaps, Answers, Slice, Starts;
    GapFreePositive(d, s);
    StartsAt(s);
    GapFreeSlice(d, Starts(s), start, end);
    var parts := Parts(s, found, adjust);
    match Slice(d, Starts(s), start, end)
    case None =>
      NoneInWindow(d, s, parts, start, end, |parts|);
    case Some((lo, hi)) =>
      SliceInWindow(d, s, parts, start, end, lo, hi, |parts|);
  }

  lemma GapFreePositive(d: nat, s: State)
    requires GapFree(d, Starts(s))
    ensures 0 < d
  {
  }

  class TimeBucketIndex {
    const d: nat
    var buckets: seq<Bucket>
    var next: nat
    var known: set<nat>

    ghost function View(): State
      reads this
    {
      State(buckets, next, known)
    }

    constructor (duration: nat)
      requires 0 < duration
      ensures d == duration && View() == State([], 0, {})
      ensures WellKept(View())
    {
      d := duration;
      buckets, next, known := [], 0, {};
    }

    method AllocBucket(start: nat)
      modifies `buckets, `next
      ensures View() == Alloc(old(View()), start)
    {
      buckets := [Bucket(next, start, [], 1, 0)] + buckets;
      next := next + 1;
    }

    // Store one vector in the window that covers `time`, unless its id is known.
    method Insert(time: nat, id: nat) returns (r: Option<NodeRef>)
      requires 0 < d
      modifies this
      ensures (View(), r) == InsertOne(d, old(View()), Entry(time, id))
    {
      if id in known {
        return None;
      }
      known := known + {id};
      var start := BucketStart(d, time);
      if buckets == [] || start > buckets[0].created {
        AllocBucket(start);
      }
      AppendToFront([id]);
      r := Some(NodeRef(buckets[0].seqNo, id));
    }

    method AppendToFront(ids: seq<nat>)
      requires buckets != []
      modifies `buckets
      ensures var b := old(buckets[0]);
        buckets == [b.(ids := b.ids + ids, writes := b.writes + |ids|)] + old(buckets)[1..]
    {
      var b := buckets[0];
      buckets := [b.(ids := b.ids + ids, writes := b.writes + |ids|)] + buckets[1..];
    }

    // Store a batch run by run: a run's new vectors go to the front bucket together.
    method InsertBatchParallel(batch: seq<Entry>) returns (inserted: seq<Option<NodeRef>>)
      requires 0 < d
      modifies this
      ensures (View(), inserted) == InsertBatch(d, old(View()), batch)
    {
      hide InsertRun, RunLength;
      ghost var was := View();
      inserted := [];
      var start := 0;
      assert batch[0..] == batch && inserted + InsertBatch(d, was, batch).1 == InsertBatch(d, was, batch).1;
      while start < |batch|
        invariant start <= |batch| && |inserted| == start
        invariant InsertBatch(d, was, batch)
               == (InsertBatch(d, View(), batch[start..]).0, inserted + InsertBatch(d, View(), batch[start..]).1)
        decreases |batch| - start
      {
        ghost var s := View();
        ghost var rest := batch[start..];
        var end := RunEnd(batch, start);
        var run := batch[start..end];
        assert rest[..end - start] == run && rest[end - start..] == batch[end..];
        var refs := InsertOneRun(run);
        ghost var after := InsertBatch(d, View(), batch[end..]);
        assert InsertBatch(d, s, rest) == (after.0, refs + after.1);
        assert inserted + (refs + after.1) == inserted + refs + after.1;
        inserted := inserted + refs;
        start := end;
      }
      assert batch[start..] == [];
      assert inserted + [] == inserted;
    }

    // The end of the run that starts at `start`.
    method RunEnd(batch: seq<Entry>, start: nat) returns (end: nat)
      requires 0 < d && start < |batch|
      ensures start < end <= |batch| && end - start == RunLength(d, batch[start..])
    {
      var bucketStart := BucketStart(d, batch[start].time);
      end := start + 1;
      while end < |batch| && BucketStart(d, batch[end].time) == bucketStart
        invariant start < end <= |batch|
        invariant RunLength(d, batch[start..]) == end - 1 - start + RunLength(d, batch[end - 1..])
        invariant BucketStart(d, batch[end - 1].time) == bucketStart
      {
        assert batch[end - 1..][1..] == batch[end..];
        end := end + 1;
      }
    }

    method InsertOneRun(run: seq<Entry>) returns (refs: seq<Option<NodeRef>>)
      requires 0 < d && run != []
      modifies this
      ensures (View(), refs) == InsertRun(d, old(View()), run)
    {
      hide IdsOf, NewIds, NewRefs, BucketStart, AcceptNew;
      var start := BucketStart(d, run[0].time);
      if buckets == [] || start > buckets[0].created {
        AllocBucket(start);
      }
      ghost var o := View();
      AcceptNewAtOnce(o, run);
      var novel, isNovel := CollectFresh(run);
      if |novel| == |run| {
        AppendToFront(IdList(run));
      } else {
        AppendEach(novel);
      }
      var seqNo := buckets[0].seqNo;
      refs := [];
      for i := 0 to |run|
        invariant refs == NewRefs(o.known, seqNo, run)[..i]
      {
        refs := refs + [if isNovel[i] then Some(NodeRef(seqNo, run[i].id)) else None];
      }
      assert NewRefs(o.known, seqNo, run)[..|run|] == NewRefs(o.known, seqNo, run);
    }

    method AppendEach(ids: seq<nat>)
      requires buckets != []
      modifies `buckets
      ensures var b := old(buckets[0]);
        buckets == [b.(ids := b.ids + ids, writes := b.writes + |ids|)] + old(buckets)[1..]
    {
      ghost var b, rest := buckets[0], buckets[1..];
      assert ids[..0] == [] && b.ids + [] == b.ids;
      for i := 0 to |ids|
        invariant buckets == [b.(ids := b.ids + ids[..i], writes := b.writes + i)] + rest
      {
        assert ids[..i + 1] == ids[..i] + [ids[i]];
        assert b.ids + ids[..i] + [ids[i]] == b.ids + ids[..i + 1];
        AppendToFront([ids[i]]);
      }
      assert ids[..|ids|] == ids;
    }

    // Register the ids of a run; report which of them are new.
    method CollectFresh(run: seq<Entry>) returns (novel: seq<nat>, isNovel: seq<bool>)
      modifies `known
      ensures known == old(known) + IdsOf(run) && novel == NewIds(old(known), run)
      ensures |novel| == |run| ==> novel == IdList(run)
      ensures |isNovel| == |run| && forall q, i :: 0 <= i < |run| ==>
        NewRefs(old(known), q, run)[i] == if isNovel[i] then Some(NodeRef(q, run[i].id)) else None
    {
      hide IdsOf, NewIds, NewRefs;
      ghost var was := known;
      novel, isNovel := [], [];
      StartFresh(was, run);
      for i := 0 to |run|
        invariant known == was + IdsOf(run[..i]) && novel == NewIds(was, run[..i])
        invariant |isNovel| == i && |novel| <= i && (|novel| == i ==> novel == IdList(run[..i]))
        invariant forall q, j :: 0 <= j < i ==>
          NewRefs(was, q, run[..i])[j] == if isNovel[j] then Some(NodeRef(q, run[j].id)) else None
      {
        var e := run[i];
        FreshStep(was, run[..i], e);
        assert run[..i + 1] == run[..i] + [e];
        assert IdList(run[..i + 1]) == IdList(run[..i]) + [e.id];
        if e.id in known {
          isNovel := isNovel + [false];
        } else {
          known := known + {e.id};
          novel := novel + [e.id];
          isNovel := isNovel + [true];
        }
      }
      assert run[..|run|] == run;
    }

    // Start a new bucket, or move the empty front one.
    method RotateBucket(time: nat)
      requires 0 < d
      modifies this
      ensures View() == Rotate(old(View()), BucketStart(d, time))
    {
      var start := BucketStart(d, time);
      if buckets != [] && buckets[0].ids == [] {
        buckets := [buckets[0].(created := start)] + buckets[1..];
        return;
      }
      AllocBucket(start);
    }

    // Put a restored bucket at the front, clean, and remember its ids.
    method AddRestoredBucket(seqNo: nat, created: nat, ids: seq<nat>)
      modifies this
      ensures View() == AddRestored(old(View()), seqNo, created, ids)
    {
      var writes := 1;
      known := known + (set x | x in ids);
      buckets := [Bucket(seqNo, created, ids, writes, writes)] + buckets;
      if seqNo >= next {
        next := seqNo + 1;
      }
    }

    method FindBucket(seqNo: nat) returns (i: nat)
      ensures i == Find(buckets, seqNo)
    {
      i := 0;
      assert buckets[0..] == buckets;
      while i < |buckets| && buckets[i].seqNo != seqNo
        invariant i <= |buckets| && Find(buckets, seqNo) == i + Find(buckets[i..], seqNo)
      {
        assert buckets[i..][1..] == buckets[i + 1..];
        i := i + 1;
      }
    }

    // An unknown bucket counts as clean.
    method IsBucketDirty(seqNo: nat) returns (dirty: bool)
      ensures dirty == Dirty(View(), seqNo)
    {
      var i := FindBucket(seqNo);
      dirty := i < |buckets| && buckets[i].writes > buckets[i].clean;
    }

    method MarkBucketCleanIfVersion(seqNo: nat, version: nat)
      modifies `buckets
      ensures View() == MarkCleanIf(old(View()), seqNo, version)
    {
      var i := FindBucket(seqNo);
      if i < |buckets| && buckets[i].writes == version {
        buckets := buckets[i := buckets[i].(clean := version)];
      }
    }

    method EvictOldest() returns (seqNo: Option<nat>)
      modifies `buckets
      ensures old(buckets) == [] ==> seqNo == None && View() == old(View())
      ensures old(buckets) != [] ==>
        seqNo == Some(old(buckets[|buckets| - 1].seqNo)) && View() == DropOldest(old(View()), 1)
    {
      if buckets == [] {
        return None;
      }
      seqNo := Some(buckets[|buckets| - 1].seqNo);
      buckets := buckets[..|buckets| - 1];
    }

    // Drop the buckets that start before `time`, counting them by arithmetic alone.
    method EvictBefore(time: nat) returns (count: nat)
      requires 0 < d && time < U64 && d < U64
      modifies `buckets
      ensures count == EvictCount(d, Starts(old(View())), time) && View() == DropOldest(old(View()), count)
      ensures var s := old(View()); GapFree(d, Starts(s)) && NoWrap(d, Starts(s), time) ==>
        (forall i :: 0 <= i < |s.buckets| ==> (i < |buckets| <==> time <= s.buckets[i].created))
    {
      hide GapFree, NoWrap, Starts, CeilSlots;
      ghost var s := View();
      if GapFree(d, Starts(s)) && NoWrap(d, Starts(s), time) {
        EvictsExactly(d, s, time);
      }
      StartsAt(s);
      if buckets == [] {
        return 0;
      }
      var oldest := buckets[|buckets| - 1].created;
      if time <= oldest {
        return 0;
      }
      count := CeilSlots(d, time - oldest);
      if count > |buckets| {
        count := |buckets|;
      }
      assert count == EvictCount(d, Starts(s), time);
      var popped := 0;
      while popped < count
        modifies `buckets
        invariant popped <= count && buckets == s.buckets[..|s.buckets| - popped]
      {
        buckets := buckets[..|buckets| - 1];
        popped := popped + 1;
      }
    }

    // Search the buckets of a time range, given what each bucket's own graph answers, and keep
    // the k best adjusted distances.
    method Search(found: seq<seq<(nat, int)>>, k: nat, adjust: (nat, int) -> int, range: Option<(nat, nat)>)
      returns (r: seq<(nat, int)>)
      requires 0 < d && |found| == |buckets|
      requires DistinctAnswers(View(), found)
      ensures exists chosen :: TopK.KSmallest(chosen, Visited(d, View(), found, adjust, range), k) && r == Hits(chosen)
      // The k nearest answers of all buckets, or of those whose window overlaps the range.
      ensures var (lo, hi) := VisitedRange(d, View(), range);
        exists from :: BestAnswers(View(), found, adjust, lo, hi, k, r, from)
      ensures range.None? || GapFree(d, Starts(View())) ==>
        var (lo, hi) := VisitedRange(d, View(), range); forall i: nat :: lo <= i < hi <==> InRange(d, View(), range, i)
    {
      hide DistinctAnswers, Slice, TopK.Smallest, ScoreMap, DistinctIds, TopK.TopIds, BestAnswers, InRange, GapFree,
        Starts;
      ghost var parts := Parts(View(), found, adjust);
      var lo, hi := DequeSlice(range);
      var all: seq<Cand>, scores: map<int, int> := [], map[];
      NoScores();
      var i := lo;
      while i < hi
        invariant lo <= i && (lo <= hi ==> i <= hi) && (hi <= lo ==> i == lo)
        invariant all == Between(parts, lo, i) && scores == ScoreMap(all)
      {
        ghost var before := all;
        for j := 0 to |found[i]|
          invariant all == before + parts[i][..j] && scores == ScoreMap(all)
        {
          var c := Cand(adjust(buckets[i].created, found[i][j].1), Key(NodeRef(buckets[i].seqNo, found[i][j].0)));
          ScoreMapSnoc(all, c);
          assert before + parts[i][..j + 1] == before + parts[i][..j] + [c];
          all := all + [c];
          scores := scores[c.id := c.d];
        }
        BetweenSnoc(parts, lo, i);
        i := i + 1;
      }
      if lo < hi {
        PartsDistinct(View(), found, adjust, lo, hi);
      } else {
        NoScores();
      }
      var bids := TopK.TopKQuickselect(all, k);
      Recovered(all, bids, k);
      ghost var chosen := TopK.Map(Lookup(scores), bids);
      r := [];
      for j := 0 to |bids|
        invariant r == Hits(chosen)[..j]
      {
        r := r + [(bids[j] % U64, scores[bids[j]])];
      }
      assert Hits(chosen)[..|bids|] == Hits(chosen);
      ghost var from := ChosenAnswers(View(), found, adjust, lo, hi, k, chosen);
      if range.None? || GapFree(d, Starts(View())) {
        VisitsInRange(d, View(), range);
      }
    }

    // The positions of the buckets to search, from the ends of the deque alone.
    method DequeSlice(range: Option<(nat, nat)>) returns (lo: nat, hi: nat)
      requires 0 < d
      ensures (lo, hi) == VisitedRange(d, View(), range)
    {
      hide BucketStart, Starts;
      StartsAt(View());
      var n := |buckets|;
      match range
      case None =>
        return 0, n;
      case Some((start, end)) =>
        if n == 0 || start >= end {
          return 0, 0;
        }
        var oldest, newest := buckets[n - 1].created, buckets[0].created;
        var first, last := BucketStart(d, start), BucketStart(d, end - 1);
        if first < oldest {
          first := oldest;
        }
        if last > newest {
          last := newest;
        }
        if first > last {
          return 0, 0;
        }
        lo := SlotsDown(d, newest, last);
        hi := SlotsDown(d, newest, first) + 1;
        if hi > n {
          hi := n;
        }
    }
  }
}
