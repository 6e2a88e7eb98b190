// How much memory a store takes for a given number of nodes.
module Footprint {
  import opened Layout
  import opened Arithmetic
  import opened Graph
  import opened NodeMemory
  import opened Capacity
  import opened ArenaStore

  // Blocks that n nodes of at most `size` bytes can take.
  function BlockBound(n: nat, size: nat): nat
    requires 0 < size <= ARENA_BYTES
  {
    var perBlock := ARENA_BYTES / size;
    UniqueQuotient(size);
    (n + perBlock - 1) / perBlock
  }

  // The bound is the least number of blocks that holds n nodes at `ARENA_BYTES / size` a block.
  lemma BoundIsLeast(n: nat, size: nat, k: nat)
    requires 0 < size <= ARENA_BYTES
    ensures k < BlockBound(n, size) <==> k * (ARENA_BYTES / size) < n
  {
    UniqueQuotient(size);
    CeilIff(k, n, ARENA_BYTES / size);
  }

  lemma BoundGrows(m: nat, n: nat, size: nat)
    requires 0 < size <= ARENA_BYTES && m <= n
    ensures BlockBound(m, size) <= BlockBound(n, size)
  {
    var q := ARENA_BYTES / size;
    UniqueQuotient(size);
    if BlockBound(n, size) < BlockBound(m, size) {
      CeilIff(BlockBound(n, size), m, q);
      CeilIff(BlockBound(n, size), n, q);
    }
  }

  // Push nodes into an empty store: it never has more blocks than the bound, known in advance.
  method PushAll(s: ArenaNodeStore, vectors: seq<seq<Word>>, levels: seq<nat>, ghost size: nat) returns (ids: seq<Word>)
    requires s.Valid() && s.AllInMemory() && s.blocks == [] && s.ids == [] && s.G == map[]
    requires |vectors| == |levels| && forall i :: 0 <= i < |vectors| ==>
      |vectors[i]| == s.p.dim && levels[i] <= MAX_LEVEL
    requires 0 < size <= ARENA_BYTES && size % 8 == 0 && forall i :: 0 <= i < |levels| ==>
      TotalSize(s.p, levels[i]) <= size
    requires BlockBound(|vectors|, size) < MAX_BLOCKS
    modifies s, s.blocks, s.Arenas, s.Words
    ensures s.Valid() && s.ids == ids && |ids| == |vectors|
    ensures vectors != [] ==> |s.blocks| <= BlockBound(|vectors|, size)
    ensures NoDup(ids) && INVALID !in ids && |s.G| == |vectors|
  {
    hide ArenaNodeStore.Valid, ArenaNodeStore.AllInMemory, ArenaNodeStore.FillsOf, TotalSize, BlockBound,
      ArenaNodeStore.Shape, ArenaNodeStore.Using,
      Used, Place;
    ghost var sizes := Sizes(s.p, levels);
    ids := [];
    s.ValidShape();
    assert sizes[..0] == [];
    for i := 0 to |vectors|
      invariant s.Valid() && s.AllInMemory() && fresh(s.BlockSet() - old(s.BlockSet()))
      invariant fresh(s.Arenas - old(s.Arenas)) && fresh(s.Words - old(s.Words))
      invariant s.Shape() && s.Fills() == PlaceAll(sizes[..i]) && |s.blocks| == |s.Fills()|
      invariant s.ids == ids && |ids| == i && |s.G| == i
    {
      ValidParams(s);
      Bounded(s.p, levels, i, size);
      BoundGrows(i, |vectors|, size);
      var r := s.PushNode(vectors[i], levels[i]);
      assert sizes[..i + 1][..i] == sizes[..i];
      ids := ids + [r.value];
      s.ValidShape();
    }
    assert sizes[..|vectors|] == sizes;
    ValidParams(s);
    Bounded(s.p, levels, |vectors|, size);
    DistinctValid(s);
  }

  lemma ValidParams(s: ArenaNodeStore)
    requires s.Valid()
    ensures s.p.Valid()
  {
  }

  lemma Bounded(p: Params, levels: seq<nat>, i: nat, size: nat)
    requires p.Valid() && i <= |levels| && 0 < size <= ARENA_BYTES && size % 8 == 0
    requires forall j :: 0 <= j < |levels| ==> TotalSize(p, levels[j]) <= size
    ensures var placed := PlaceAll(Sizes(p, levels)[..i]); |placed| <= BlockBound(i, size)
  {
    var totals := Sizes(p, levels)[..i];
    forall j | 0 <= j < |totals|
      ensures 0 < totals[j] <= size
    {
      NodeNotTiny(p, levels[j]);
      WordSizes(p, levels[j]);
    }
    if i > 0 {
      MemoryBound(totals, size);
    }
  }

  lemma DistinctValid(s: ArenaNodeStore)
    requires s.Valid()
    ensures NoDup(s.ids) && INVALID !in s.ids
  {
    if INVALID in s.ids {
      s.InStore(INVALID);
    }
  }
}
