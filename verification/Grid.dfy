// Grid arithmetic of the time-bucket deque: bucket starts, the slice a time range selects,
// and the number of buckets an eviction drops.
//
// A deque is given by the start times of its buckets, newest first.
module Grid {
  import opened Options
  import opened Arithmetic

  const U64: nat := 0x1_0000_0000_0000_0000

  // Snap a timestamp down to the grid.
  function BucketStart(d: nat, t: nat): (r: nat)
    requires 0 < d
  {
    (t / d) * d
  }

  lemma StartBounds(d: nat, t: nat)
    requires 0 < d
    ensures BucketStart(d, t) <= t < BucketStart(d, t) + d
    ensures OnGrid(d, BucketStart(d, t))
  {
    assert t == (t / d) * d + t % d;
    assert IsSlot(d, BucketStart(d, t), t / d);
  }

  ghost predicate IsSlot(d: nat, c: nat, q: nat) {
    c == q * d
  }

  ghost predicate OnGrid(d: nat, c: nat) {
    exists q: nat :: IsSlot(d, c, q)
  }

  // Distinct grid points are at least one slot apart.
  lemma SlotsApart(d: nat, a: nat, b: nat)
    requires 0 < d && OnGrid(d, a) && OnGrid(d, b) && a < b
    ensures a + d <= b
  {
    var p: nat :| IsSlot(d, a, p);
    var q: nat :| IsSlot(d, b, q);
    assert (q - p) * d == q * d - p * d && (p - q) * d == p * d - q * d;
    Multiples(q - p, d);
    Multiples(p - q, d);
  }

  // The distance between grid points is a whole number of slots.
  lemma SlotsBetween(d: nat, a: nat, b: nat) returns (k: nat)
    requires 0 < d && OnGrid(d, a) && OnGrid(d, b) && a <= b
    ensures b == a + k * d && (b - a) / d == k
  {
    var p: nat :| IsSlot(d, a, p);
    var q: nat :| IsSlot(d, b, q);
    assert (q - p) * d == q * d - p * d && (p - q) * d == p * d - q * d;
    Multiples(p - q, d);
    k := q - p;
    DivExact(k, d);
  }

  // The greatest grid point not above `t` is `BucketStart(t)`.
  lemma StartIsGreatest(d: nat, c: nat, t: nat)
    requires 0 < d && OnGrid(d, c)
    ensures c <= t <==> c <= BucketStart(d, t)
  {
    StartBounds(d, t);
    if c > BucketStart(d, t) {
      SlotsApart(d, BucketStart(d, t), c);
    }
  }

  // ── Deques ──

  // What every operation leaves; rotation can repeat a start, or go back.
  ghost predicate Aligned(d: nat, cs: seq<nat>) {
    0 < d && forall i :: 0 <= i < |cs| ==> OnGrid(d, cs[i])
  }

  // On the grid and strictly newest first: what inserts alone produce.
  ghost predicate Descending(d: nat, cs: seq<nat>) {
    && 0 < d
    && (forall i :: 0 <= i < |cs| ==> OnGrid(d, cs[i]))
    && (forall i, j :: 0 <= i < j < |cs| ==> cs[j] < cs[i])
  }

  // No window between the oldest and the newest bucket is missing.
  ghost predicate GapFree(d: nat, cs: seq<nat>) {
    && Descending(d, cs)
    && forall i :: 0 <= i < |cs| - 1 ==> cs[i] == cs[i + 1] + d
  }

  // With or without gaps, bucket i is at least i slots below the newest one.
  lemma {:induction false} AtLeastSlots(d: nat, cs: seq<nat>, i: nat, j: nat)
    requires Descending(d, cs) && i <= j < |cs|
    ensures cs[j] + (j - i) * d <= cs[i]
  {
    if i < j {
      AtLeastSlots(d, cs, i, j - 1);
      SlotsApart(d, cs[j], cs[j - 1]);
      assert (j - i) * d == (j - 1 - i) * d + d;
    }
  }

  // Aligned starts that lie one slot apart, counted from the newest, have no gap.
  lemma SteppedIsGapFree(d: nat, cs: seq<nat>)
    requires Aligned(d, cs) && forall i :: 0 <= i < |cs| ==> StepsDown(d, cs, i)
    ensures GapFree(d, cs)
  {
    hide OnGrid, StepsDown;
    forall i, j | 0 <= i < j < |cs|
      ensures cs[j] < cs[i] && (j == i + 1 ==> cs[i] == cs[j] + d)
    {
      StepsBetween(d, cs, i, j);
    }
  }

  ghost predicate StepsDown(d: nat, cs: seq<nat>, i: nat)
    requires i < |cs|
  {
    cs[0] == cs[i] + i * d
  }

  lemma StepsBetween(d: nat, cs: seq<nat>, i: nat, j: nat)
    requires 0 < d && i < j < |cs| && StepsDown(d, cs, i) && StepsDown(d, cs, j)
    ensures cs[i] == cs[j] + (j - i) * d && cs[j] < cs[i] && (j == i + 1 ==> cs[i] == cs[j] + d)
  {
    assert j * d == i * d + (j - i) * d;
    Multiples(d, j - i);
    Multiples(j - i, d);
  }

  lemma {:induction false} ExactSlots(d: nat, cs: seq<nat>, i: nat, j: nat)
    requires GapFree(d, cs) && i <= j < |cs|
    ensures cs[j] + (j - i) * d == cs[i]
  {
    if i < j {
      ExactSlots(d, cs, i, j - 1);
      assert cs[j - 1] == cs[j - 1 + 1] + d;
      assert (j - i) * d == (j - 1 - i) * d + d;
    }
  }

  // A deque that spans exactly its length in slots has no gap.
  lemma SpanIsGapFree(d: nat, cs: seq<nat>)
    requires Descending(d, cs) && cs != []
    requires cs[0] <= cs[|cs| - 1] + (|cs| - 1) * d
    ensures GapFree(d, cs)
  {
    var n := |cs|;
    forall i | 0 <= i < n - 1
      ensures cs[i] == cs[i + 1] + d
    {
      AtLeastSlots(d, cs, 0, i);
      AtLeastSlots(d, cs, i, i + 1);
      AtLeastSlots(d, cs, i + 1, n - 1);
      assert (n - 1) * d == i * d + d + (n - 2 - i) * d;
    }
  }

  // With a gap the newest bucket is a slot too high.
  lemma GapWidens(d: nat, cs: seq<nat>)
    requires Descending(d, cs) && cs != [] && !GapFree(d, cs)
    ensures cs[|cs| - 1] + |cs| * d <= cs[0]
  {
    var n := |cs|;
    var oldest := cs[n - 1];
    if cs[0] < oldest + n * d {
      var q: nat :| IsSlot(d, oldest, q);
      assert IsSlot(d, oldest + n * d, q + n);
      SlotsApart(d, cs[0], oldest + n * d);
      assert n * d == (n - 1) * d + d;
      SpanIsGapFree(d, cs);
    }
  }

  // ── Time-range slice ──

  // How many slots `c` is below `newest`.
  function SlotsDown(d: nat, newest: nat, c: nat): nat
    requires 0 < d && c <= newest
  {
    (newest - c) / d
  }

  // The slice [lo, hi) of the deque that a search over [start, end) visits.
  function Slice(d: nat, cs: seq<nat>, start: nat, end: nat): Option<(nat, nat)>
    requires 0 < d
  {
    if cs == [] || start >= end then None
    else
      var oldest, newest := cs[|cs| - 1], cs[0];
      var first := if BucketStart(d, start) >= oldest then BucketStart(d, start) else oldest;
      var last := if BucketStart(d, end - 1) <= newest then BucketStart(d, end - 1) else newest;
      if first > last then None
      else
        var hi := SlotsDown(d, newest, first) + 1;
        Some((SlotsDown(d, newest, last), if hi <= |cs| then hi else |cs|))
  }

  // Does the window of a bucket overlap [start, end)?
  predicate Overlaps(d: nat, c: nat, start: nat, end: nat) {
    c < end && start < c + d
  }

  // The slice is a proper range, and holds exactly the buckets that overlap.
  ghost predicate SliceMatches(d: nat, cs: seq<nat>, start: nat, end: nat)
    requires 0 < d
  {
    match Slice(d, cs, start, end)
    case None => forall i :: 0 <= i < |cs| ==> !Overlaps(d, cs[i], start, end)
    case Some((lo, hi)) =>
      lo <= hi <= |cs| && forall i :: 0 <= i < |cs| ==> (lo <= i < hi <==> Overlaps(d, cs[i], start, end))
  }

  lemma OverlapOnGrid(d: nat, c: nat, start: nat, end: nat)
    requires 0 < d && OnGrid(d, c) && start < end
    ensures Overlaps(d, c, start, end) <==> BucketStart(d, start) <= c <= BucketStart(d, end - 1)
  {
    StartIsGreatest(d, c, end - 1);
    StartBounds(d, start);
    if c < BucketStart(d, start) {
      SlotsApart(d, c, BucketStart(d, start));
    }
  }

  lemma CompareSlots(a: nat, b: nat, d: nat)
    requires 0 < d
    ensures a * d <= b * d <==> a <= b
  {
    assert (a - b) * d == a * d - b * d && (b - a) * d == b * d - a * d;
    Multiples(a - b, d);
    Multiples(b - a, d);
  }

  // Positions of a gap-free deque whose start lies in a range of grid points.
  lemma PositionsBetween(d: nat, cs: seq<nat>, first: nat, last: nat, i: nat)
    requires GapFree(d, cs) && i < |cs|
    requires OnGrid(d, first) && OnGrid(d, last) && cs[|cs| - 1] <= first <= last <= cs[0]
    ensures (cs[0] - last) / d <= (cs[0] - first) / d < |cs|
    ensures (cs[0] - last) / d <= i <= (cs[0] - first) / d <==> first <= cs[i] <= last
  {
    var lo := SlotsBetween(d, last, cs[0]);
    var k := SlotsBetween(d, first, cs[0]);
    ExactSlots(d, cs, 0, |cs| - 1);
    ExactSlots(d, cs, 0, i);
    CompareSlots(k, |cs| - 1, d);
    CompareSlots(lo, k, d);
    CompareSlots(lo, i, d);
    CompareSlots(i, k, d);
  }

  // On a gap-free deque the arithmetic slice is the overlap filter.
  lemma GapFreeSlice(d: nat, cs: seq<nat>, start: nat, end: nat)
    requires GapFree(d, cs) && start < end
    ensures SliceMatches(d, cs, start, end)
  {
    hide BucketStart, OnGrid, Overlaps;
    if cs != [] {
      var oldest, newest := cs[|cs| - 1], cs[0];
      StartBounds(d, start);
      StartBounds(d, end - 1);
      assert OnGrid(d, oldest) && OnGrid(d, newest);
      var first := if BucketStart(d, start) >= oldest then BucketStart(d, start) else oldest;
      var last := if BucketStart(d, end - 1) <= newest then BucketStart(d, end - 1) else newest;
      forall i | 0 <= i < |cs|
        ensures Overlaps(d, cs[i], start, end) <==> first <= cs[i] <= last
      {
        OverlapOnGrid(d, cs[i], start, end);
      }
      if first <= last {
        forall i | 0 <= i < |cs|
          ensures (newest - last) / d <= i <= (newest - first) / d <==> first <= cs[i] <= last
        {
          PositionsBetween(d, cs, first, last, i);
        }
        PositionsBetween(d, cs, first, last, 0);
      }
    }
  }

  // And only there: whatever aligned starts a deque has, if one is out of step with its
  // position, the range of that bucket's first unit selects the wrong buckets.
  lemma SliceIffGapFree(d: nat, cs: seq<nat>)
    requires Aligned(d, cs) && cs != []
    ensures (forall start: nat, end: nat :: start < end ==> SliceMatches(d, cs, start, end)) <==> GapFree(d, cs)
  {
    if GapFree(d, cs) {
      forall start: nat, end: nat | start < end
        ensures SliceMatches(d, cs, start, end)
      {
        GapFreeSlice(d, cs, start, end);
      }
    }
    if forall start: nat, end: nat :: start < end ==> SliceMatches(d, cs, start, end) {
      forall i | 0 <= i < |cs|
        ensures StepsDown(d, cs, i)
      {
        assert SliceMatches(d, cs, cs[i], cs[i] + 1);
        MatchedInStep(d, cs, i);
      }
      SteppedIsGapFree(d, cs);
    }
  }

  // If the range of a bucket's first unit is matched, the bucket is in step with its position.
  lemma MatchedInStep(d: nat, cs: seq<nat>, i: nat)
    requires Aligned(d, cs) && i < |cs| && SliceMatches(d, cs, cs[i], cs[i] + 1)
    ensures StepsDown(d, cs, i)
  {
    StartIsGreatest(d, cs[i], cs[i]);
    StartBounds(d, cs[i]);
    assert BucketStart(d, cs[i]) == cs[i];
    assert Overlaps(d, cs[i], cs[i], cs[i] + 1);
    assert cs[|cs| - 1] <= cs[i] <= cs[0];
    var k := SlotsBetween(d, cs[i], cs[0]);
    assert k <= i < k + 1;
  }

  // The range that covers just the oldest bucket's first unit misses it.
  lemma OldestMissed(d: nat, cs: seq<nat>)
    requires Descending(d, cs) && cs != [] && !GapFree(d, cs)
    ensures var oldest := cs[|cs| - 1]; !SliceMatches(d, cs, oldest, oldest + 1)
  {
    var n := |cs|;
    var oldest := cs[n - 1];
    GapWidens(d, cs);
    StartIsGreatest(d, oldest, oldest);
    StartBounds(d, oldest);
    var lo := SlotsBetween(d, oldest, cs[0]);
    CompareSlots(n, lo, d);
    assert Overlaps(d, cs[n - 1], oldest, oldest + 1);
  }

  // ── Eviction ──

  // The ceiling of y / d, with a sum that wraps at 2^64.
  function CeilSlots(d: nat, y: nat): nat
    requires 0 < d
  {
    ((y + d - 1) % U64) / d
  }

  // How many buckets `evict_before` pops.
  function EvictCount(d: nat, cs: seq<nat>, t: nat): nat
    requires 0 < d
  {
    if cs == [] || t <= cs[|cs| - 1] then 0
    else
      var k := CeilSlots(d, t - cs[|cs| - 1]);
      if k <= |cs| then k else |cs|
  }

  // Popping that many drops exactly the buckets that start before `t`.
  ghost predicate EvictMatches(d: nat, cs: seq<nat>, t: nat)
    requires 0 < d
  {
    forall i :: 0 <= i < |cs| ==> (|cs| - EvictCount(d, cs, t) <= i <==> cs[i] < t)
  }

  ghost predicate NoWrap(d: nat, cs: seq<nat>, t: nat) {
    cs == [] || t <= cs[|cs| - 1] || t - cs[|cs| - 1] + d - 1 < U64
  }

  // On a gap-free deque eviction is exact if and only if the sum does not wrap.
  lemma GapFreeEviction(d: nat, cs: seq<nat>, t: nat)
    requires GapFree(d, cs) && t < U64 && d < U64
    ensures EvictMatches(d, cs, t) <==> NoWrap(d, cs, t)
  {
    if cs != [] && t > cs[|cs| - 1] {
      var n := |cs|;
      var oldest := cs[n - 1];
      var y := t - oldest;
      if y + d - 1 < U64 {
        forall i | 0 <= i < n
          ensures n - EvictCount(d, cs, t) <= i <==> cs[i] < t
        {
          ExactSlots(d, cs, i, n - 1);
          CeilIff(n - 1 - i, y, d);
        }
      } else {
        assert (y + d - 1) % U64 == y + d - 1 - U64 < d;
        assert EvictCount(d, cs, t) == 0 by {
          UniqueDivMod(y + d - 1 - U64, d, 0, y + d - 1 - U64);
        }
        assert cs[n - 1] < t;
      }
    }
  }

  // The last time an eviction can be asked for without the sum wrapping.
  function LastTime(d: nat, oldest: nat): nat
    requires d < U64
  {
    if oldest + U64 - d < U64 - 1 then oldest + U64 - d else U64 - 1
  }

  // Where bucket i starts, in step with the oldest one.
  function InStep(d: nat, cs: seq<nat>, i: nat): nat
    requires i < |cs|
  {
    cs[|cs| - 1] + (|cs| - 1 - i) * d
  }

  // What eviction tests of bucket i is whether a time is past the start it has in step.
  lemma EvictedInStep(d: nat, cs: seq<nat>, t: nat, i: nat)
    requires 0 < d < U64 && i < |cs| && t < U64 && NoWrap(d, cs, t)
    ensures |cs| - EvictCount(d, cs, t) <= i <==> InStep(d, cs, i) < t
  {
    hide CeilSlots;
    var oldest, k := cs[|cs| - 1], |cs| - 1 - i;
    InStepAbove(d, cs, i);
    if t > oldest {
      CeilingOf(d, t - oldest);
      CeilIff(k, t - oldest, d);
      assert InStep(d, cs, i) == oldest + k * d;
    }
  }

  lemma InStepAbove(d: nat, cs: seq<nat>, i: nat)
    requires i < |cs|
    ensures InStep(d, cs, i) >= cs[|cs| - 1]
  {
  }

  lemma CeilingOf(d: nat, y: nat)
    requires 0 < d && y + d - 1 < U64
    ensures CeilSlots(d, y) == (y + d - 1) / d
  {
    UniqueDivMod(y + d - 1, U64, 0, y + d - 1);
  }

  // Any deque, aligned or not: all evictions that do not wrap are exact if and only if every
  // bucket is in step with the oldest one, or it and its place in step are both out of reach.
  lemma EvictionExact(d: nat, cs: seq<nat>)
    requires 0 < d < U64 && cs != []
    ensures (forall t: nat :: t < U64 && NoWrap(d, cs, t) ==> EvictMatches(d, cs, t))
      <==> forall i :: 0 <= i < |cs| ==>
        cs[i] == InStep(d, cs, i) || (cs[i] >= LastTime(d, cs[|cs| - 1])
          && InStep(d, cs, i) >= LastTime(d, cs[|cs| - 1]))
  {
    hide EvictCount, InStep;
    var last := LastTime(d, cs[|cs| - 1]);
    if forall t: nat :: t < U64 && NoWrap(d, cs, t) ==> EvictMatches(d, cs, t) {
      forall i | 0 <= i < |cs|
        ensures cs[i] == InStep(d, cs, i) || (cs[i] >= last && InStep(d, cs, i) >= last)
      {
        var t := (if cs[i] < InStep(d, cs, i) then cs[i] else InStep(d, cs, i)) + 1;
        if t <= last {
          assert EvictMatches(d, cs, t);
          EvictedInStep(d, cs, t, i);
        }
      }
    }
    if forall i :: 0 <= i < |cs| ==> cs[i] == InStep(d, cs, i) || (cs[i] >= last && InStep(d, cs, i) >= last) {
      forall t: nat, i | t < U64 && NoWrap(d, cs, t) && 0 <= i < |cs|
        ensures |cs| - EvictCount(d, cs, t) <= i <==> cs[i] < t
      {
        EvictedInStep(d, cs, t, i);
      }
    }
  }

  // Unless windows reach past the last time there is, that is to be gap-free.
  lemma EvictionIffGapFree(d: nat, cs: seq<nat>)
    requires Aligned(d, cs) && cs != [] && d < U64
    requires (forall i :: 0 <= i < |cs| ==> cs[i] + d < U64) || (Descending(d, cs) && cs[0] < U64)
    ensures (forall t: nat :: t < U64 && NoWrap(d, cs, t) ==> EvictMatches(d, cs, t)) <==> GapFree(d, cs)
  {
    EvictionExact(d, cs);
    if GapFree(d, cs) {
      forall i | 0 <= i < |cs|
        ensures cs[i] == InStep(d, cs, i)
      {
        ExactSlots(d, cs, i, |cs| - 1);
      }
    } else if forall i :: 0 <= i < |cs| ==> cs[i] == InStep(d, cs, i) {
      forall i | 0 <= i < |cs|
        ensures StepsDown(d, cs, i)
      {
        assert (|cs| - 1) * d == (|cs| - 1 - i) * d + i * d;
      }
      SteppedIsGapFree(d, cs);
    } else {
      var i :| 0 <= i < |cs| && cs[i] != InStep(d, cs, i);
      OutOfStepInReach(d, cs, i);
    }
  }

  lemma OutOfStepInReach(d: nat, cs: seq<nat>, i: nat)
    requires Aligned(d, cs) && d < U64 && i < |cs| && cs[i] != InStep(d, cs, i)
    requires (forall i :: 0 <= i < |cs| ==> cs[i] + d < U64) || (Descending(d, cs) && cs[0] < U64)
    ensures cs[i] < LastTime(d, cs[|cs| - 1]) || InStep(d, cs, i) < LastTime(d, cs[|cs| - 1])
  {
    if Descending(d, cs) && cs[0] < U64 {
      var n := |cs|;
      AtLeastSlots(d, cs, i, n - 1);
      var q: nat :| IsSlot(d, cs[n - 1], q);
      assert (q + (n - 1 - i)) * d == q * d + (n - 1 - i) * d;
      assert IsSlot(d, InStep(d, cs, i), q + (n - 1 - i));
      SlotsApart(d, InStep(d, cs, i), cs[i]);
    }
  }

  // Past that, a tie goes unnoticed: with slots of 2^63 no time that does not wrap lies past
  // the second slot.
  lemma TieOutOfReach()
    ensures var d, cs := 0x8000_0000_0000_0000, [0x8000_0000_0000_0000, 0x8000_0000_0000_0000, 0];
      Aligned(d, cs) && !GapFree(d, cs) && forall t: nat :: t < U64 && NoWrap(d, cs, t) ==> EvictMatches(d, cs, t)
  {
    var d: nat, cs := 0x8000_0000_0000_0000, [0x8000_0000_0000_0000, 0x8000_0000_0000_0000, 0];
    assert IsSlot(d, cs[0], 1) && IsSlot(d, cs[1], 1) && IsSlot(d, cs[2], 0);
    assert InStep(d, cs, 2) == 0 && InStep(d, cs, 1) == d && InStep(d, cs, 0) == 2 * d;
    assert LastTime(d, 0) == d;
    EvictionExact(d, cs);
    assert cs[0] <= cs[1];
  }

  // Eviction on one bucket at 0: the sum of 2^63 + 2 and 2^63 - 1 wraps, and it stays.
  lemma WrappedEvictionKeeps()
    ensures var d, cs, t := 0x7FFF_FFFF_FFFF_FFFF, [0], 0x8000_0000_0000_0002;
      GapFree(d, cs) && t < U64 && cs[0] < t && EvictCount(d, cs, t) == 0 && !EvictMatches(d, cs, t)
  {
    var d: nat, cs: seq<nat>, t: nat := 0x7FFF_FFFF_FFFF_FFFF, [0], 0x8000_0000_0000_0002;
    assert IsSlot(d, cs[0], 0);
    GapFreeEviction(d, cs, t);
  }

  // ── What keeps a deque gap-free ──

  lemma EvictionKeepsGapFree(d: nat, cs: seq<nat>, k: nat)
    requires GapFree(d, cs) && k <= |cs|
    ensures GapFree(d, cs[..|cs| - k])
  {
  }

  // The start times after an insert that opens a window only if it is newer than the front.
  function AfterInsert(cs: seq<nat>, start: nat): seq<nat> {
    if cs == [] || start > cs[0] then [start] + cs else cs
  }

  // An insert keeps the deque gap-free exactly when the window advances by at most one slot.
  lemma InsertKeepsGapFree(d: nat, cs: seq<nat>, start: nat)
    requires GapFree(d, cs) && OnGrid(d, start)
    ensures GapFree(d, AfterInsert(cs, start)) <==> cs == [] || start <= cs[0] + d
  {
    var r := AfterInsert(cs, start);
    if cs != [] && start > cs[0] {
      SlotsApart(d, cs[0], start);
      assert r[0] == start && r[1] == cs[0] && forall i :: 1 <= i < |r| ==> r[i] == cs[i - 1];
      if start == cs[0] + d {
        forall i | 0 <= i < |r| - 1
          ensures r[i] == r[i + 1] + d
        {
          assert i > 0 ==> cs[i - 1] == cs[i - 1 + 1] + d;
        }
      } else {
        assert r[0] != r[0 + 1] + d;
      }
    }
  }

  // The start times after a rotation: an empty front bucket moves, else a new one is put in front.
  function AfterRotate(cs: seq<nat>, frontEmpty: bool, start: nat): seq<nat> {
    if frontEmpty && cs != [] then [start] + cs[1..] else [start] + cs
  }

  // A rotation keeps the deque gap-free exactly when its front ends up one slot ahead of the rest.
  lemma RotateKeepsGapFree(d: nat, cs: seq<nat>, frontEmpty: bool, start: nat)
    requires GapFree(d, cs) && OnGrid(d, start)
    ensures var rest := if frontEmpty && cs != [] then cs[1..] else cs;
      GapFree(d, AfterRotate(cs, frontEmpty, start)) <==> rest == [] || start == rest[0] + d
  {
    var rest := if frontEmpty && cs != [] then cs[1..] else cs;
    var r := AfterRotate(cs, frontEmpty, start);
    assert r == [start] + rest;
    assert GapFree(d, rest) by {
      if frontEmpty && cs != [] {
        assert forall i :: 0 <= i < |rest| ==> rest[i] == cs[i + 1];
      }
    }
    if rest != [] && start == rest[0] + d {
      forall i | 0 <= i < |r| - 1
        ensures r[i] == r[i + 1] + d
      {
        assert i > 0 ==> rest[i - 1] == rest[i - 1 + 1] + d;
      }
    }
    if rest != [] && GapFree(d, r) {
      assert r[0] == r[0 + 1] + d;
    }
  }

  lemma ZeroSlots()
    ensures BucketStart(10, 0) == 0 == BucketStart(10, 9) && SlotsDown(10, 0, 0) == 0 && OnGrid(10, 0)
      && CeilSlots(10, 1) == 1
  {
    assert IsSlot(10, 0, 0);
    CeilingOf(10, 1);
  }

  // Rotating within the current window repeats its start, and both computations go wrong: a
  // search of that window misses one of its two buckets, and eviction drops only one.
  lemma RepeatedStart()
    ensures AfterRotate([0], false, 0) == [0, 0] && Aligned(10, [0, 0])
    ensures Slice(10, [0, 0], 0, 10) == Some((0, 1)) && !SliceMatches(10, [0, 0], 0, 10)
    ensures EvictCount(10, [0, 0], 1) == 1 && NoWrap(10, [0, 0], 1) && !EvictMatches(10, [0, 0], 1)
  {
    hide BucketStart, SlotsDown, OnGrid, CeilSlots;
    var cs: seq<nat> := [0, 0];
    ZeroSlots();
    assert Overlaps(10, cs[1], 0, 10) && cs[0] < 1;
  }
}
