// Byte layout of a node inside a 2 MiB arena block, and the packing of a block index and
// an 8-byte-aligned offset into a 32-bit node id.
//
// A node is `[ vector | level-0 row | level-1 row | ... ]`.  Block memory is modelled as
// 32-bit words: an f32 by its bits, a neighbour slot by the id it holds.
module Layout {
  import opened Arithmetic

  type Word = x: int | 0 <= x < 0x1_0000_0000

  // The id that marks an unused neighbour slot.
  const INVALID: Word := 0xFFFF_FFFF

  const ARENA_BYTES: nat := 2 * 1024 * 1024
  const ARENA_WORDS: nat := 524288
  const NODE_ALIGNMENT: nat := 8
  const MAX_LEVEL: nat := 32

  // 2^18: ids per block (offsets are counted in units of 8 bytes).
  const ID_SPAN: nat := 0x4_0000
  // 2^14: block indices that survive the truncation to 32 bits.
  const MAX_BLOCKS: nat := 0x4000

  datatype Params = Params(dim: nat, m: nat, mMax0: nat) {
    // What the constructor of an index asserts.
    predicate Valid() {
      0 < dim && 2 <= m <= mMax0
    }
  }

  function NextMultipleOf(n: nat, k: nat): (r: nat)
    requires 0 < k
    ensures n <= r < n + k
  {
    if n % k == 0 then n else n + (k - n % k)
  }

  lemma NextMultiple(n: nat, k: nat)
    requires 0 < k
    ensures NextMultipleOf(n, k) % k == 0
  {
    if n % k != 0 {
      UniqueDivMod(n + (k - n % k), k, n / k + 1, 0);
    }
  }

  // ── Node layout (sizes in bytes, as in the source) ──

  function VectorSpan(dim: nat): nat {
    NextMultipleOf(dim * 4, 8)
  }

  function EdgeCount(p: Params, maxLevel: nat): nat {
    p.mMax0 + maxLevel * p.m
  }

  function TotalSize(p: Params, maxLevel: nat): nat {
    VectorSpan(p.dim) + EdgeCount(p, maxLevel) * 4
  }

  // Number of neighbour slots in a row.
  function Cap(p: Params, level: nat): nat {
    if level == 0 then p.mMax0 else p.m
  }

  // Slot index of a row inside a node's packed edge array.
  function EdgeOffset(p: Params, level: nat): nat {
    if level == 0 then 0 else p.mMax0 + (level - 1) * p.m
  }

  function SpanWords(p: Params): nat {
    VectorSpan(p.dim) / 4
  }

  function TotalWords(p: Params, maxLevel: nat): nat {
    SpanWords(p) + EdgeCount(p, maxLevel)
  }

  lemma WordSizes(p: Params, maxLevel: nat)
    ensures TotalSize(p, maxLevel) == 4 * TotalWords(p, maxLevel)
    ensures p.dim <= SpanWords(p)
  {
    NextMultiple(p.dim * 4, 8);
  }

  // A row ends where the edge array of a node of exactly that level ends, so rows of
  // different levels do not overlap and a row lies inside every node of at least its level.
  lemma {:induction false} RowsInsideNode(p: Params, level: nat, maxLevel: nat)
    requires level <= maxLevel
    ensures EdgeOffset(p, level) + Cap(p, level) == EdgeCount(p, level) <= EdgeCount(p, maxLevel)
    ensures level < maxLevel ==> EdgeCount(p, level) <= EdgeOffset(p, maxLevel)
  {
    assert level * p.m <= maxLevel * p.m;
    if level > 0 {
      assert (level - 1) * p.m + p.m == level * p.m;
    }
    if level < maxLevel {
      assert level * p.m <= (maxLevel - 1) * p.m;
    }
  }

  // The slots of the rows of levels 0 to `maxLevel`: `mMax0` in row 0, `m` in every other.
  function SlotsUpTo(p: Params, maxLevel: nat): nat {
    if maxLevel == 0 then p.mMax0 else SlotsUpTo(p, maxLevel - 1) + p.m
  }

  // Rows follow one another without gaps and fill the node after the vector, which takes the
  // least multiple of eight bytes that holds it.
  lemma {:induction false} RowsTile(p: Params, maxLevel: nat)
    ensures Cap(p, maxLevel) == if maxLevel == 0 then p.mMax0 else p.m
    ensures EdgeOffset(p, maxLevel + 1) == EdgeOffset(p, maxLevel) + Cap(p, maxLevel) == SlotsUpTo(p, maxLevel)
    ensures TotalSize(p, maxLevel) == VectorSpan(p.dim) + 4 * SlotsUpTo(p, maxLevel)
    ensures VectorSpan(p.dim) % 8 == 0 && 4 * p.dim <= VectorSpan(p.dim) < 4 * p.dim + 8
  {
    NextMultiple(p.dim * 4, 8);
    if maxLevel > 0 {
      RowsTile(p, maxLevel - 1);
      assert maxLevel * p.m == (maxLevel - 1) * p.m + p.m;
    }
  }

  // ── Node ids ──

  // `block_index << 18 | (offset >> 3) & (2^18 - 1)`, truncated to 32 bits.
  function EncodeId(blockIndex: nat, offset: nat): Word {
    (blockIndex * ID_SPAN + (offset / 8) % ID_SPAN) % 0x1_0000_0000
  }

  function BlockOf(id: Word): nat {
    id / ID_SPAN
  }

  function OffsetOf(id: Word): nat {
    (id % ID_SPAN) * 8
  }

  function BaseWord(id: Word): nat {
    (id % ID_SPAN) * 2
  }

  // An id gives back the offset it was made from always, and the block index exactly when
  // that index is below 2^14.  It is never the sentinel for a node of at least 16 bytes.
  lemma IdRoundTrip(blockIndex: nat, offset: nat)
    requires offset % 8 == 0 && offset < ARENA_BYTES
    ensures OffsetOf(EncodeId(blockIndex, offset)) == offset
    ensures BlockOf(EncodeId(blockIndex, offset)) == blockIndex <==> blockIndex < MAX_BLOCKS
    ensures offset + 16 <= ARENA_BYTES ==> EncodeId(blockIndex, offset) != INVALID
    // The ids of a block are consecutive, and those of the next block follow them.
    ensures blockIndex < MAX_BLOCKS ==> EncodeId(blockIndex, offset) == EncodeId(blockIndex, 0) + offset / 8
    ensures blockIndex < MAX_BLOCKS ==> EncodeId(blockIndex, 0) * 8 == blockIndex * ARENA_BYTES
  {
    var unit := offset / 8;
    assert unit < ID_SPAN && unit % ID_SPAN == unit;
    var packed := blockIndex * ID_SPAN + unit;
    var q := packed / 0x1_0000_0000;
    var id := EncodeId(blockIndex, offset);
    assert packed == q * 0x1_0000_0000 + id;
    assert id == (blockIndex - q * MAX_BLOCKS) * ID_SPAN + unit;
    UniqueDivMod(id, ID_SPAN, blockIndex - q * MAX_BLOCKS, unit);
    if blockIndex < MAX_BLOCKS {
      assert packed < 0x1_0000_0000;
    } else {
      assert packed >= 0x1_0000_0000;
    }
  }

  // Two placements get the same id only if they are the same placement.
  lemma IdsDistinct(b: nat, offset: nat, b': nat, offset': nat)
    requires offset % 8 == 0 && offset < ARENA_BYTES && b < MAX_BLOCKS
    requires offset' % 8 == 0 && offset' < ARENA_BYTES && b' < MAX_BLOCKS
    ensures EncodeId(b, offset) == EncodeId(b', offset') <==> b == b' && offset == offset'
  {
    IdRoundTrip(b, offset);
    IdRoundTrip(b', offset');
  }
}
