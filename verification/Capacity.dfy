// How many blocks a list of nodes takes: the placement rule of `push_node`, and its bound.
module Capacity {
  import opened Arithmetic
  import opened Layout

  // Bump offset and node count of one block.
  datatype Fill = Fill(bump: nat, count: nat)

  // Does a node of `total` bytes fit above `bump`?
  predicate Fits(bump: nat, total: nat) {
    NextMultipleOf(bump, NODE_ALIGNMENT) + total <= ARENA_BYTES
  }

  function Bumped(f: Fill, total: nat): Fill {
    Fill(NextMultipleOf(f.bump, NODE_ALIGNMENT) + total, f.count + 1)
  }

  // The last block takes the node if it fits; otherwise a new block is opened for it.
  function Place(fills: seq<Fill>, total: nat): seq<Fill> {
    var fs := if fills == [] then [Fill(0, 0)] else fills;
    var last := fs[|fs| - 1];
    if Fits(last.bump, total) then fs[|fs| - 1 := Bumped(last, total)]
    else if Fits(0, total) then fs + [Bumped(Fill(0, 0), total)]
    else fs + [Fill(0, 0)]
  }

  function PlaceAll(totals: seq<nat>): seq<Fill> {
    if totals == [] then [] else Place(PlaceAll(totals[..|totals| - 1]), totals[|totals| - 1])
  }

  // The byte sizes of nodes with the given levels.
  function Sizes(p: Params, levels: seq<nat>): (r: seq<nat>)
    ensures |r| == |levels|
  {
    seq(|levels|, i requires 0 <= i < |levels| => TotalSize(p, levels[i]))
  }

  // What a store's memory and version counters come to.
  datatype Usage = Usage(fills: seq<Fill>, writes: nat, clean: nat)

  // After nodes of these sizes are pushed, one by one.
  function Used(u: Usage, totals: seq<nat>): Usage {
    if totals == [] then u
    else
      var v := Used(u, totals[..|totals| - 1]);
      Usage(Place(v.fills, totals[|totals| - 1]), v.writes + 1, v.clean)
  }

  // Before every one of these pushes there are fewer than 2^14 blocks.
  ghost predicate RoomFor(u: Usage, totals: seq<nat>) {
    forall k :: 0 <= k < |totals| ==> |Used(u, totals[..k]).fills| < MAX_BLOCKS
  }

  lemma UsedNone(u: Usage)
    ensures Used(u, []) == u
  {
  }

  lemma UsedOne(u: Usage, total: nat)
    ensures Used(u, [total]) == Usage(Place(u.fills, total), u.writes + 1, u.clean)
  {
    assert [total][..0] == [];
  }

  lemma {:induction false} UsedConcat(u: Usage, a: seq<nat>, b: seq<nat>)
    ensures Used(u, a + b) == Used(Used(u, a), b)
  {
    hide Place;
    if b == [] {
      assert a + b == a;
    } else {
      var n := |b| - 1;
      UsedConcat(u, a, b[..n]);
      assert (a + b)[..|a + b| - 1] == a + b[..n];
    }
  }

  lemma {:induction false} UsedCounts(u: Usage, totals: seq<nat>)
    ensures Used(u, totals).writes == u.writes + |totals| && Used(u, totals).clean == u.clean
  {
    hide Place;
    if totals != [] {
      UsedCounts(u, totals[..|totals| - 1]);
    }
  }

  // The room for a list of nodes is room for its parts, one after the other.
  lemma RoomSplits(u: Usage, a: seq<nat>, b: seq<nat>)
    requires RoomFor(u, a + b)
    ensures RoomFor(u, a) && RoomFor(Used(u, a), b)
    ensures b != [] ==> |Used(u, a).fills| < MAX_BLOCKS
  {
    hide Used;
    forall k | 0 <= k < |a|
      ensures |Used(u, a[..k]).fills| < MAX_BLOCKS
    {
      assert (a + b)[..k] == a[..k];
    }
    forall k | 0 <= k < |b|
      ensures |Used(Used(u, a), b[..k]).fills| < MAX_BLOCKS
    {
      assert (a + b)[..|a| + k] == a + b[..k];
      UsedConcat(u, a, b[..k]);
    }
    if b != [] {
      UsedNone(Used(u, a));
      assert b[..0] == [];
    }
  }

  // A list of nodes, cut at `i` and `j`.
  lemma UsedMore(p: Params, u: Usage, lv: seq<nat>, i: nat, j: nat)
    requires i <= j <= |lv|
    ensures Used(Used(u, Sizes(p, lv[..i])), Sizes(p, lv[i..j])) == Used(u, Sizes(p, lv[..j]))
    ensures i < |lv| ==> Sizes(p, lv[i..i + 1]) == [TotalSize(p, lv[i])]
    ensures RoomFor(u, Sizes(p, lv)) ==> RoomFor(Used(u, Sizes(p, lv[..i])), Sizes(p, lv[i..j]))
    ensures RoomFor(u, Sizes(p, lv)) && i < |lv| ==> |Used(u, Sizes(p, lv[..i])).fills| < MAX_BLOCKS
  {
    hide TotalSize, Used, RoomFor;
    var a, b, c := Sizes(p, lv[..i]), Sizes(p, lv[i..j]), Sizes(p, lv[j..]);
    assert Sizes(p, lv[..j]) == a + b;
    UsedConcat(u, a, b);
    if RoomFor(u, Sizes(p, lv)) {
      assert Sizes(p, lv) == a + (b + c);
      RoomSplits(u, a, b + c);
      RoomSplits(Used(u, a), b, c);
    }
  }

  // A node that fits a block at all adds at most one block.
  lemma PlaceLength(fills: seq<Fill>, total: nat)
    requires Fits(0, total)
    ensures |fills| <= |Place(fills, total)| <= |fills| + 1
  {
  }

  function Count(fills: seq<Fill>): nat {
    if fills == [] then 0 else Count(fills[..|fills| - 1]) + fills[|fills| - 1].count
  }

  // Used space is at most `size` per node, and every block but the last has no room for
  // another node of that size.
  ghost predicate Packed(fills: seq<Fill>, size: nat) {
    && (forall i :: 0 <= i < |fills| ==>
      NextMultipleOf(fills[i].bump, 8) <= fills[i].count * size && 0 < fills[i].count)
    && (forall i :: 0 <= i < |fills| - 1 ==> ARENA_BYTES < NextMultipleOf(fills[i].bump, 8) + size)
  }

  lemma PlacePacked(fills: seq<Fill>, total: nat, size: nat)
    requires Packed(fills, size)
    requires 0 < total <= size <= ARENA_BYTES && size % 8 == 0
    ensures Packed(Place(fills, total), size)
    ensures Count(Place(fills, total)) == Count(fills) + 1
  {
    hide Packed;
    var r := Place(fills, total);
    assert r != [] && r == r[..|r| - 1] + [r[|r| - 1]];
    if fills == [] {
      BumpedPacked(Fill(0, 0), total, size);
      assert r == [Bumped(Fill(0, 0), total)] && r[..0] == [];
      PackedPush([], Bumped(Fill(0, 0), total), size);
      return;
    }
    var last := fills[|fills| - 1];
    PackedPop(fills, size);
    if Fits(last.bump, total) {
      BumpedPacked(last, total, size);
      assert r[..|r| - 1] == fills[..|fills| - 1];
      PackedPush(fills[..|fills| - 1], Bumped(last, total), size);
    } else {
      BumpedPacked(Fill(0, 0), total, size);
      assert r[..|r| - 1] == fills;
      PackedPush(fills, Bumped(Fill(0, 0), total), size);
    }
  }

  lemma PackedPush(fills: seq<Fill>, f: Fill, size: nat)
    requires Packed(fills, size)
    requires fills != [] ==> ARENA_BYTES < NextMultipleOf(fills[|fills| - 1].bump, 8) + size
    requires NextMultipleOf(f.bump, 8) <= f.count * size && 0 < f.count
    ensures Packed(fills + [f], size)
  {
  }

  lemma PackedPop(fills: seq<Fill>, size: nat)
    requires Packed(fills, size) && fills != []
    ensures var i := |fills| - 1;
            && Packed(fills[..i], size)
            && NextMultipleOf(fills[i].bump, 8) <= fills[i].count * size
            && (0 < i ==> ARENA_BYTES < NextMultipleOf(fills[i - 1].bump, 8) + size)
  {
  }

  lemma BumpedPacked(f: Fill, total: nat, size: nat)
    requires NextMultipleOf(f.bump, 8) <= f.count * size
    requires 0 < total <= size && size % 8 == 0
    ensures NextMultipleOf(Bumped(f, total).bump, 8) <= Bumped(f, total).count * size
  {
    hide NextMultipleOf;
    var y, x := NextMultipleOf(f.bump, 8) + total, (f.count + 1) * size;
    assert x == f.count * size + size && y <= x;
    WholeMultiple(f.count + 1, size);
    NextMultiple(y, 8);
    MultiplesClose(x, NextMultipleOf(y, 8), 8);
  }

  lemma WholeMultiple(n: nat, size: nat)
    requires size % 8 == 0
    ensures (n * size) % 8 == 0
  {
    var q := size / 8;
    assert size == 8 * q && n * size == 8 * (n * q);
  }

  lemma {:induction false} PlaceAllPacked(totals: seq<nat>, size: nat)
    requires size <= ARENA_BYTES && size % 8 == 0
    requires forall i :: 0 <= i < |totals| ==> 0 < totals[i] <= size
    ensures Packed(PlaceAll(totals), size) && Count(PlaceAll(totals)) == |totals|
  {
    if totals != [] {
      var init := totals[..|totals| - 1];
      PlaceAllPacked(init, size);
      PlacePacked(PlaceAll(init), totals[|totals| - 1], size);
    }
  }

  lemma {:induction false} FullBlocks(fills: seq<Fill>, size: nat)
    requires 0 < size && Packed(fills, size)
    requires fills != [] ==> ARENA_BYTES < NextMultipleOf(fills[|fills| - 1].bump, 8) + size
    ensures |fills| * (ARENA_BYTES / size) <= Count(fills)
  {
    if fills != [] {
      var i := |fills| - 1;
      PackedPop(fills, size);
      FullBlocks(fills[..i], size);
      FullBlock(fills[i].count, size);
      assert |fills| * (ARENA_BYTES / size) == i * (ARENA_BYTES / size) + ARENA_BYTES / size;
    }
  }

  // A block without room for one more node of `size` bytes holds its share.
  lemma FullBlock(c: nat, size: nat)
    requires 0 < size && ARENA_BYTES < c * size + size
    ensures ARENA_BYTES / size <= c
  {
    var q := ARENA_BYTES / size;
    assert ARENA_BYTES == q * size + ARENA_BYTES % size;
    assert (q - c) * size == q * size - c * size;
    Multiples(q - c, size);
  }

  // Memory is known in advance: n nodes of at most `size` bytes each (rounded up to 8) take
  // at most ceil(n / floor(2 MiB / size)) blocks.
  lemma MemoryBound(totals: seq<nat>, size: nat)
    requires totals != [] && 0 < size <= ARENA_BYTES && size % 8 == 0
    requires forall i :: 0 <= i < |totals| ==> 0 < totals[i] <= size
    ensures var perBlock := ARENA_BYTES / size;
            0 < perBlock && |PlaceAll(totals)| <= (|totals| + perBlock - 1) / perBlock
  {
    var fills, q, n := PlaceAll(totals), ARENA_BYTES / size, |totals|;
    assert 0 < q by {
      UniqueQuotient(size);
    }
    PlaceAllPacked(totals, size);
    var k := |fills| - 1;
    PackedPop(fills, size);
    FullBlocks(fills[..k], size);
    assert k * q <= n - 1;
    CeilingBound(n, q, k);
  }

  // Blocks of nodes of exactly `size` bytes: all full but the last, which is not empty.
  ghost predicate Even(fills: seq<Fill>, size: nat)
    requires 0 < size
  {
    forall i :: 0 <= i < |fills| ==>
      && fills[i].bump == fills[i].count * size && 0 < fills[i].count <= ARENA_BYTES / size
      && (i < |fills| - 1 ==> fills[i].count == ARENA_BYTES / size)
  }

  lemma FitsIff(count: nat, size: nat)
    requires 0 < size && size % 8 == 0
    ensures Fits(count * size, size) <==> count < ARENA_BYTES / size
    ensures NextMultipleOf(count * size, NODE_ALIGNMENT) == count * size
  {
    WholeMultiple(count, size);
    var q := ARENA_BYTES / size;
    assert ARENA_BYTES == q * size + ARENA_BYTES % size;
    assert (count + 1) * size == count * size + size;
    assert (q - count - 1) * size == q * size - (count + 1) * size && (count - q) * size == count * size - q * size;
    Multiples(q - count - 1, size);
    Multiples(count - q, size);
  }

  lemma PlaceEven(fills: seq<Fill>, size: nat)
    requires 0 < size <= ARENA_BYTES && size % 8 == 0 && Even(fills, size)
    ensures Even(Place(fills, size), size) && Count(Place(fills, size)) == Count(fills) + 1
  {
    hide Fits, NextMultipleOf;
    UniqueQuotient(size);
    FitsIff(0, size);
    var r := Place(fills, size);
    if fills != [] {
      var last := fills[|fills| - 1];
      FitsIff(last.count, size);
      assert (last.count + 1) * size == last.count * size + size;
      if Fits(last.bump, size) {
        assert r[..|r| - 1] == fills[..|fills| - 1];
      } else {
        assert r[..|r| - 1] == fills;
      }
    } else {
      assert r == [Bumped(Fill(0, 0), size)] && r[..0] == [];
    }
  }

  lemma {:induction false} PlaceAllEven(totals: seq<nat>, size: nat)
    requires 0 < size <= ARENA_BYTES && size % 8 == 0 && forall i :: 0 <= i < |totals| ==> totals[i] == size
    ensures Even(PlaceAll(totals), size) && Count(PlaceAll(totals)) == |totals|
  {
    hide Even, Place;
    if totals == [] {
      NoneEven(size);
    } else {
      PlaceAllEven(totals[..|totals| - 1], size);
      PlaceEven(PlaceAll(totals[..|totals| - 1]), size);
    }
  }

  lemma NoneEven(size: nat)
    requires 0 < size
    ensures Even([], size)
  {
  }

  lemma {:induction false} EvenCount(fills: seq<Fill>, size: nat)
    requires 0 < size && Even(fills, size) && (fills != [] ==> fills[|fills| - 1].count == ARENA_BYTES / size)
    ensures Count(fills) == |fills| * (ARENA_BYTES / size)
  {
    if fills != [] {
      var init := fills[..|fills| - 1];
      assert forall i :: 0 <= i < |init| ==> init[i] == fills[i];
      EvenCount(init, size);
      assert |fills| * (ARENA_BYTES / size) == (|fills| - 1) * (ARENA_BYTES / size) + ARENA_BYTES / size;
    }
  }

  // The bound is met: n nodes of exactly that size take exactly that many blocks.
  lemma MemoryExact(totals: seq<nat>, size: nat)
    requires totals != [] && 0 < size <= ARENA_BYTES && size % 8 == 0
    requires forall i :: 0 <= i < |totals| ==> totals[i] == size
    ensures var perBlock := ARENA_BYTES / size;
      0 < perBlock && |PlaceAll(totals)| == (|totals| + perBlock - 1) / perBlock
  {
    hide Even, PlaceAll;
    UniqueQuotient(size);
    PlaceAllEven(totals, size);
    EvenTotal(PlaceAll(totals), size);
    MemoryBound(totals, size);
    CeilIff(|PlaceAll(totals)|, |totals|, ARENA_BYTES / size);
  }

  lemma EvenTotal(fills: seq<Fill>, size: nat)
    requires 0 < size && Even(fills, size)
    ensures Count(fills) <= |fills| * (ARENA_BYTES / size)
  {
    if fills != [] {
      var init := fills[..|fills| - 1];
      assert forall i :: 0 <= i < |init| ==> init[i] == fills[i];
      EvenCount(init, size);
      assert |fills| * (ARENA_BYTES / size) == (|fills| - 1) * (ARENA_BYTES / size) + ARENA_BYTES / size;
    }
  }

  lemma UniqueQuotient(size: nat)
    requires 0 < size <= ARENA_BYTES
    ensures 0 < ARENA_BYTES / size
  {
    var q := ARENA_BYTES / size;
    assert ARENA_BYTES == q * size + ARENA_BYTES % size;
  }

  lemma CeilingBound(n: nat, q: nat, k: nat)
    requires 0 < q && k * q <= n - 1
    ensures k + 1 <= (n + q - 1) / q
  {
    var c := (n + q - 1) / q;
    assert n + q - 1 == c * q + (n + q - 1) % q;
    Multiples(k + 1 - c, q);
    assert (k + 1 - c) * q == k * q + q - c * q;
  }
}
