// The packed node store: blocks of arena memory holding vectors and neighbour rows.
//
// `G` is the graph the words mean, `image` the words of every block, whether they are in
// memory, in a chunk file, or only known from before an eviction.
module ArenaStore {
  import opened Layout
  import opened Graph
  import opened NodeMemory
  import opened Options
  import opened ArenaAlloc
  import opened Capacity

  const BLOCKS_PER_FILE: nat := 32

  // ── Chunk files ──

  // One block's slot in a chunk file: its words and the checksum written after them.
  datatype Slot = Slot(words: seq<Word>, crc: Word)

  class ChunkFile {
    const chunk: nat
    var slots: map<nat, Slot>

    constructor (chunk: nat)
      ensures this.chunk == chunk && slots == map[]
    {
      this.chunk := chunk;
      this.slots := map[];
    }
  }

  datatype Storage =
    | InMemory(arena: Arena)
    | OnDisk(file: ChunkFile, slot: nat)
    | Evicted

  // ── One block ──

  class NodeBlock {
    const p: Params
    const blockIndex: nat
    var storage: Storage
    var len: nat

    constructor (p: Params, blockIndex: nat)
      ensures this.p == p && this.blockIndex == blockIndex && len == 0
      ensures storage.InMemory? && fresh(storage.arena) && fresh(storage.arena.words)
      ensures storage.arena.Valid() && storage.arena.capacity == ARENA_BYTES && storage.arena.bump == 0
    {
      this.p := p;
      this.blockIndex := blockIndex;
      this.len := 0;
      var arena := new Arena(ARENA_BYTES);
      this.storage := InMemory(arena);
    }

    ghost predicate Ready()
      reads this, if storage.InMemory? then {storage.arena} else {}
    {
      p.Valid() && (storage.InMemory? ==> storage.arena.Valid() && storage.arena.capacity == ARENA_BYTES)
    }

    // Copy the vector to the node's base and fill its edge slots with the sentinel.
    method WriteNode(words: array<Word>, s: nat, vector: seq<Word>, maxLevel: nat)
      requires |vector| == p.dim <= SpanWords(p)
      requires s + TotalWords(p, maxLevel) <= words.Length
      modifies words
      ensures words[s..s + p.dim] == vector
      ensures forall k :: s + SpanWords(p) <= k < s + TotalWords(p, maxLevel) ==> words[k] == INVALID
      ensures forall k :: 0 <= k < s ==> words[k] == old(words[k])
    {
      forall k | 0 <= k < p.dim {
        words[s + k] := vector[k];
      }
      assert words[s..s + p.dim] == vector;
      forall k | s + SpanWords(p) <= k < s + TotalWords(p, maxLevel) {
        words[k] := INVALID;
      }
      assert words[s..s + p.dim] == vector;
    }

    // Allocate a node, write its vector and empty rows, and return its id.
    method PushNode(vector: seq<Word>, maxLevel: nat) returns (id: Option<Word>)
      requires Ready() && |vector| == p.dim
      modifies this`len, if storage.InMemory? then {storage.arena, storage.arena.words} else {}
      ensures Ready()
      ensures id.Some? <==> storage.InMemory? && Fits(old(storage.arena.bump), TotalSize(p, maxLevel))
      ensures id.None? ==> unchanged(this)
      ensures id.None? && storage.InMemory? ==> unchanged(storage.arena) && unchanged(storage.arena.words)
      ensures id.Some? ==>
                var start := NextMultipleOf(old(storage.arena.bump), NODE_ALIGNMENT);
                && id.value == EncodeId(blockIndex, start)
                && len == old(len) + 1
                && storage.arena.bump == start + TotalSize(p, maxLevel)
                && WrittenAt(p, old(storage.arena.words[..]), storage.arena.words[..], old(storage.arena.bump),
                  vector, maxLevel)
    {
      if !storage.InMemory? {
        return None;
      }
      hide NextMultipleOf, EncodeId, TotalSize, TotalWords, SpanWords;
      var arena := storage.arena;
      WordSizes(p, maxLevel);
      NodeNotTiny(p, maxLevel);
      NextMultiple(arena.bump, NODE_ALIGNMENT);
      arena.FullSize();
      var start := arena.AllocRaw(TotalSize(p, maxLevel), NODE_ALIGNMENT);
      if start.None? {
        return None;
      }
      WriteNode(arena.words, start.value / 4, vector, maxLevel);
      len := len + 1;
      id := Some(EncodeId(blockIndex, start.value));
    }
  }

  // How many of the given ids lie in block `b`.
  function CountIn(ids: seq<Word>, b: nat): nat {
    if ids == [] then 0
    else CountIn(ids[..|ids| - 1], b) + if BlockOf(ids[|ids| - 1]) == b then 1 else 0
  }

  // Scan a row up to its first sentinel for the last slot that holds `target`.
  method FindTarget(words: array<Word>, start: nat, cap: nat, target: Word) returns (targetIndex: nat, firstEmpty: nat)
    requires start + cap <= words.Length && target != INVALID
    ensures var raw := words[start..start + cap];
            && firstEmpty <= cap && INVALID !in raw[..firstEmpty]
            && (firstEmpty < cap ==> raw[firstEmpty] == INVALID)
            && if target in raw[..firstEmpty]
               then targetIndex < firstEmpty && raw[targetIndex] == target
                 && target !in raw[targetIndex + 1..firstEmpty]
               else targetIndex == cap
  {
    ghost var raw := words[start..start + cap];
    targetIndex, firstEmpty := cap, cap;
    var i := 0;
    while i < cap
      invariant i <= cap && firstEmpty == cap && INVALID !in raw[..i]
      invariant if target in raw[..i]
                then targetIndex < i && raw[targetIndex] == target && target !in raw[targetIndex + 1..i]
                else targetIndex == cap
    {
      assert words[start + i] == raw[i] && raw[..i + 1] == raw[..i] + [raw[i]];
      if words[start + i] == target {
        targetIndex := i;
      }
      if words[start + i] == INVALID {
        firstEmpty := i;
        break;
      }
      assert targetIndex < i ==> raw[targetIndex + 1..i + 1] == raw[targetIndex + 1..i] + [raw[i]];
      i := i + 1;
    }
  }

  // In a row without duplicates an element has one position.
  lemma OnlyIndex(row: seq<Word>, x: Word, i: nat)
    requires NoDup(row) && i < |row| && row[i] == x
    ensures IndexOf(row, x) == i
  {
  }

  // The slots of a row after its last element moved over `target`.
  lemma RemovedSlot(p: Params, words: seq<Word>, id: Word, l: nat, row: seq<Word>, target: Word)
    requires RowStored(p, words, id, l, row) && target in row
    ensures var start, k, last := RowStart(p, id, l), IndexOf(row, target), |row| - 1;
      && start + k < |words| && start + last < |words|
      && Rewritten(p, words, words[start + k := words[start + last]][start + last := INVALID], id, l,
        SwapRemove(row, target))
  {
    hide RowStart, IndexOf, SameOutside;
    var start, cap, k, last := RowStart(p, id, l), Cap(p, l), IndexOf(row, target), |row| - 1;
    StoredSlots(p, words, id, l, row);
    var mid := words[start + k := row[last]];
    SlotWrite(words, start, cap, k, row[last]);
    SlotWrite(mid, start, cap, last, INVALID);
    SameOutsideTrans(words, mid, mid[start + last := INVALID], start, cap);
    SwapRemoveSlots(row, cap, target);
    SwapRemoveBounds(row, target);
    assert words[start + last] == row[last];
  }

  lemma StoredSlots(p: Params, words: seq<Word>, id: Word, l: nat, row: seq<Word>)
    requires RowStored(p, words, id, l, row)
    ensures var start, cap := RowStart(p, id, l), Cap(p, l);
      && start + cap <= |words| && |row| <= cap && INVALID !in row && words[start..start + cap] == Pad(row, cap)
      && forall i :: 0 <= i < |row| ==> words[start + i] == row[i]
  {
    var start, cap := RowStart(p, id, l), Cap(p, l);
    var raw := words[start..start + cap];
    assert raw == Pad(row, cap);
    forall i | 0 <= i < |row|
      ensures words[start + i] == row[i]
    {
      assert raw[i] == Pad(row, cap)[i];
    }
  }

  lemma SwapRemoveBounds(row: seq<Word>, target: Word)
    requires INVALID !in row && target in row
    ensures |SwapRemove(row, target)| == |row| - 1 && INVALID !in SwapRemove(row, target)
  {
  }

  // Clear slot `k`, then move the content of slot `last` into it.
  method MoveLast(words: array<Word>, k: nat, last: nat)
    requires k <= last < words.Length
    modifies words
    ensures words[..] == old(words[..])[k := old(words[last])][last := INVALID]
  {
    var moved := words[last];
    words[k] := INVALID;
    words[k] := if k == last then INVALID else moved;
    words[last] := INVALID;
  }

  // First slot that is free or already holds `id`; `cap` if there is none.
  method FindSlot(words: array<Word>, start: nat, cap: nat, id: Word) returns (i: nat)
    requires start + cap <= words.Length
    ensures var raw := words[start..start + cap];
            && i <= cap && INVALID !in raw[..i] && id !in raw[..i]
            && (i < cap ==> raw[i] == INVALID || raw[i] == id)
  {
    ghost var raw := words[start..start + cap];
    i := 0;
    while i < cap
      invariant i <= cap && INVALID !in raw[..i] && id !in raw[..i]
    {
      assert words[start + i] == raw[i] && raw[..i + 1] == raw[..i] + [raw[i]];
      if words[start + i] == INVALID || words[start + i] == id {
        return;
      }
      i := i + 1;
    }
  }

  // In a stored row the sentinels start right after the list.
  lemma FirstEmptyIsLength(row: seq<Word>, cap: nat, k: nat)
    requires |row| <= cap && INVALID !in row && k <= cap
    requires INVALID !in Pad(row, cap)[..k] && (k < cap ==> Pad(row, cap)[k] == INVALID)
    ensures k == |row| && Pad(row, cap)[..k] == row
  {
    var pad := Pad(row, cap);
    PrefixFree(pad, k, INVALID);
    assert |row| < cap ==> pad[|row|] == INVALID;
    assert pad[..|row|] == row;
  }

  lemma PrefixFree(s: seq<Word>, k: nat, x: Word)
    requires k <= |s| && x !in s[..k]
    ensures forall j :: 0 <= j < k ==> s[j] != x
  {
    assert forall j :: 0 <= j < k ==> s[..k][j] == s[j];
  }

  // The first slot that is free or holds `x`: where the list has `x`, or its end.
  lemma SlotInRow(row: seq<Word>, cap: nat, k: nat, x: Word)
    requires |row| <= cap && INVALID !in row && k <= cap && x != INVALID
    requires var pad := Pad(row, cap);
             INVALID !in pad[..k] && x !in pad[..k] && (k < cap ==> pad[k] == INVALID || pad[k] == x)
    ensures k == cap ==> x !in row && |row| == cap
    ensures k < cap ==> if Pad(row, cap)[k] == INVALID then k == |row| && x !in row else x in row
  {
    var pad := Pad(row, cap);
    PrefixFree(pad, k, INVALID);
    PrefixFree(pad, k, x);
    assert |row| < cap ==> pad[|row|] == INVALID;
    assert forall j :: 0 <= j < |row| ==> pad[j] == row[j];
  }

  // A list written over the leading slots of a row; what it does not reach stays.
  function Overwritten(row: seq<Word>, neighbors: seq<Word>): seq<Word> {
    if |row| <= |neighbors| then neighbors else neighbors + row[|neighbors|..]
  }

  lemma OverwrittenAt(row: seq<Word>, neighbors: seq<Word>, i: nat)
    ensures |Overwritten(row, neighbors)| == if |row| <= |neighbors| then |neighbors| else |row|
    ensures i < |Overwritten(row, neighbors)| ==>
      Overwritten(row, neighbors)[i] == if i < |neighbors| then neighbors[i] else row[i]
  {
  }

  // Overwriting the leading slots of a row.
  lemma SaveSlots(p: Params, words: seq<Word>, words': seq<Word>, id: Word, l: nat, row: seq<Word>,
      neighbors: seq<Word>)
    requires RowStored(p, words, id, l, row)
    requires |neighbors| <= Cap(p, l) && INVALID !in neighbors
    requires |words'| == |words|
    requires forall k :: 0 <= k < |words| ==>
               words'[k] == if RowStart(p, id, l) <= k < RowStart(p, id, l) + |neighbors|
                            then neighbors[k - RowStart(p, id, l)] else words[k]
    ensures Rewritten(p, words, words', id, l, Overwritten(row, neighbors))
  {
    var start, cap := RowStart(p, id, l), Cap(p, l);
    var raw := words[start..start + cap];
    assert words'[start..start + cap] == neighbors + raw[|neighbors|..];
    assert raw == Pad(row, cap);
    assert neighbors + raw[|neighbors|..] == Pad(Overwritten(row, neighbors), cap);
  }

  // Nodes counted over the first `n` blocks.
  function SumIn(ids: seq<Word>, n: nat): nat {
    if n == 0 then 0 else SumIn(ids, n - 1) + CountIn(ids, n - 1)
  }

  lemma {:induction false} SumPush(ids: seq<Word>, id: Word, n: nat)
    ensures SumIn(ids + [id], n) == SumIn(ids, n) + if BlockOf(id) < n then 1 else 0
  {
    if n > 0 {
      SumPush(ids, id, n - 1);
      CountPush(ids, id, n - 1);
    }
  }

  lemma {:induction false} SumIsLength(ids: seq<Word>, n: nat)
    requires forall id :: id in ids ==> BlockOf(id) < n
    ensures SumIn(ids, n) == |ids|
  {
    if ids == [] {
      SumOfNone(n);
    } else {
      var init, last := ids[..|ids| - 1], ids[|ids| - 1];
      assert ids == init + [last];
      SumIsLength(init, n);
      SumPush(init, last, n);
    }
  }

  lemma {:induction false} SumOfNone(n: nat)
    ensures SumIn([], n) == 0
  {
    if n > 0 {
      SumOfNone(n - 1);
    }
  }

  lemma FitsLess(total: nat)
    ensures forall bump: nat :: Fits(bump, total) ==> Fits(0, total)
    ensures Fits(0, total) <==> total <= ARENA_BYTES
  {
  }

  lemma CountPush(ids: seq<Word>, id: Word, b: nat)
    ensures CountIn(ids + [id], b) == CountIn(ids, b) + if BlockOf(id) == b then 1 else 0
  {
    assert (ids + [id])[..|ids|] == ids;
  }

  lemma {:induction false} NoneCounted(ids: seq<Word>, b: nat)
    requires forall id :: id in ids ==> BlockOf(id) != b
    ensures CountIn(ids, b) == 0
  {
    if ids != [] {
      assert ids[|ids| - 1] in ids;
      NoneCounted(ids[..|ids| - 1], b);
    }
  }

  // ── The store ──

  class ArenaNodeStore {
    const p: Params
    const dist: Metric
    const crc: seq<Word> -> Word
    var blocks: seq<NodeBlock>
    var writeCount: nat
    var cleanVersion: nat

    ghost var Arenas: set<Arena>
    ghost var Words: set<array<Word>>
    ghost var Files: set<ChunkFile>
    ghost var image: Image
    ghost var G: Graph
    ghost var ids: seq<Word>

    ghost predicate BlockOk(i: nat)
      reads `blocks, `Arenas, `Words, `Files, blocks, Arenas, Files
    {
      && i < |blocks| && blocks[i].p == p && blocks[i].blockIndex == i
      && match blocks[i].storage {
           case InMemory(a) =>
             a in Arenas && a.words in Words && a.Valid() && a.capacity == ARENA_BYTES
           case OnDisk(f, s) =>
             && f in Files && f.chunk == i / BLOCKS_PER_FILE && s == i % BLOCKS_PER_FILE
             && s in f.slots && |f.slots[s].words| == ARENA_WORDS
           case Evicted => true
         }
    }

    ghost predicate ArenasApart(i: nat, j: nat)
      reads `blocks, blocks
    {
      && i < |blocks| && j < |blocks|
      && var s, t := blocks[i].storage, blocks[j].storage;
         s.InMemory? && t.InMemory? ==> s.arena != t.arena && s.arena.words != t.arena.words
    }

    // The heap objects are laid out as they should be.
    ghost predicate Shape()
      reads `blocks, `Arenas, `Words, `Files, blocks, Arenas, Files
    {
      && (forall i :: 0 <= i < |blocks| ==> BlockOk(i))
      && (forall i, j :: 0 <= i < j < |blocks| ==> ArenasApart(i, j))
    }

    // What a read of block `i` sees, now.
    ghost predicate Reads(i: nat, words: seq<Word>)
      reads `blocks, `Arenas, `Words, `Files, blocks, Arenas, Files, Words
    {
      && BlockOk(i) && |words| == ARENA_WORDS
      && match blocks[i].storage {
           case InMemory(a) => a.words[..] == words
           case OnDisk(f, s) => f.slots[s].words == words
           case Evicted => true
         }
    }

    ghost predicate Synced(i: nat)
      reads `blocks, `Arenas, `Words, `Files, `image, blocks, Arenas, Files, Words
    {
      i < |image| && Reads(i, image[i])
    }

    // No node reaches above the bump of its block.
    ghost predicate BelowBump(id: Word)
      reads `blocks, `Arenas, `Words, `Files, `G, blocks, Arenas, Files
    {
      && id in G && BlockOk(BlockOf(id))
      && var s := blocks[BlockOf(id)].storage;
         s.InMemory? ==> EndWord(p, id, Level(G[id])) * 4 <= s.arena.bump
    }

    // Block `i` counts its nodes.
    ghost predicate Counted(i: nat)
      reads `blocks, `ids, blocks
    {
      i < |blocks| && blocks[i].len == CountIn(ids, i)
    }

    // The bookkeeping beside the words.
    ghost predicate Registered()
      reads `blocks, `Arenas, `Words, `Files, `G, `ids, blocks, Arenas, Files
    {
      && p.Valid()
      && (forall id :: id in G ==> BelowBump(id))
      && NoDup(ids) && (forall id :: id in ids <==> id in G)
      && (forall i :: 0 <= i < |blocks| ==> Counted(i))
    }

    ghost predicate Valid()
      reads `blocks, `Arenas, `Words, `Files, `image, `G, `ids, blocks, Arenas, Files, Words
    {
      && Shape() && Registered()
      && |image| == |blocks| && Represents(p, image, G)
      && (forall i :: 0 <= i < |blocks| ==> Synced(i))
    }

    ghost predicate AllInMemory()
      reads `blocks, blocks
    {
      forall i :: 0 <= i < |blocks| ==> blocks[i].storage.InMemory?
    }

    ghost function BlockSet(): set<NodeBlock>
      reads `blocks
    {
      set b | b in blocks
    }

    ghost predicate NoneEvicted()
      reads `blocks, blocks
    {
      forall i :: 0 <= i < |blocks| ==> !blocks[i].storage.Evicted?
    }

    constructor (p: Params, dist: Metric, crc: seq<Word> -> Word)
      requires p.Valid()
      ensures Valid() && AllInMemory()
      ensures this.p == p && this.dist == dist && this.crc == crc
      ensures blocks == [] && Arenas == {} && Files == {} && Words == {}
      ensures G == map[] && ids == [] && writeCount == 1 && cleanVersion == 0
    {
      this.p := p;
      this.dist := dist;
      this.crc := crc;
      blocks, writeCount, cleanVersion := [], 1, 0;
      Arenas, Files, Words := {}, {}, {};
      image, G, ids := [], map[], [];
    }

    // ── Row writes ──

    // Adopt a new graph on the same nodes, and the image that stores it.
    ghost method Adopt(image': Image, g': Graph)
      requires Shape() && Registered() && SameNodes(G, g') && Represents(p, image', g')
      requires |image'| == |blocks|
      requires forall i :: 0 <= i < |blocks| ==> Reads(i, image'[i])
      modifies `image, `G
      ensures Valid()
      ensures G == g' && image == image'
    {
      hide Represents, NodeStored, Apart;
      image := image';
      G := g';
      assert Registered() by {
        assert forall x :: x in G ==> old(BelowBump(x));
        assert forall i :: 0 <= i < |blocks| ==> old(Counted(i));
      }
    }

    // Take over a row whose slots have been rewritten in memory.
    ghost method CommitRow(id: Word, l: nat, row: seq<Word>)
      requires Shape() && Registered() && |image| == |blocks| && Represents(p, image, G)
      requires forall i :: 0 <= i < |blocks| && i != BlockOf(id) ==> Synced(i)
      requires HasRow(G, id, l) && BlockOf(id) < |blocks| && blocks[BlockOf(id)].storage.InMemory?
      requires Rewritten(p, image[BlockOf(id)], blocks[BlockOf(id)].storage.arena.words[..], id, l, row)
      modifies `image, `G
      ensures Valid()
      ensures G == SetRow(old(G), id, l, row)
    {
      hide Represents, NodeStored, Apart, Registered, SameNodes, NextMultipleOf, Rewritten;
      var b := BlockOf(id);
      var image' := image[b := blocks[b].storage.arena.words[..]];
      RowRewritten(p, image, image'[b], G, id, l, row);
      SetRowSameNodes(G, id, l, row);
      forall i | 0 <= i < |blocks|
        ensures Reads(i, image'[i])
      {
        if i != b {
          assert Synced(i);
        } else {
          assert BlockOk(i);
          blocks[i].storage.arena.FullSize();
        }
      }
      Adopt(image', SetRow(G, id, l, row));
    }

    // The slots of a row in memory.
    lemma RowInMemory(id: Word, l: nat)
      requires Valid() && HasRow(G, id, l)
      ensures BlockOf(id) < |blocks|
      ensures blocks[BlockOf(id)].storage.InMemory? ==>
                var words := blocks[BlockOf(id)].storage.arena.words;
                && words in Words
                && words[..] == image[BlockOf(id)]
                && RowStored(p, words[..], id, l, Row(G, id, l))
    {
      StoredRow(p, image, G, id, l);
      assert Synced(BlockOf(id));
    }

    // Stored lists fit their rows and hold no sentinel.
    lemma RowBounds(id: Word, l: nat)
      requires Valid() && HasRow(G, id, l)
      ensures |Row(G, id, l)| <= Cap(p, l) && INVALID !in Row(G, id, l)
    {
      StoredRow(p, image, G, id, l);
    }

    // After writes to the words of block `b` only, the other blocks read as before.
    twostate lemma OthersKept(b: nat)
      requires old(Valid())
      requires unchanged(this)
      requires unchanged(blocks, Arenas, Files)
      requires b < |blocks| && blocks[b].storage.InMemory?
      requires forall w :: w in Words && w != blocks[b].storage.arena.words ==> unchanged(w)
      ensures Shape() && Registered()
      ensures forall i :: 0 <= i < |blocks| && i != b ==> Synced(i)
    {
      hide Represents, NextMultipleOf;
      forall i | 0 <= i < |blocks| && i != b
        ensures Synced(i)
      {
        assert old(Synced(i)) && BlockOk(i) && BlockOk(b);
        assert if i < b then ArenasApart(i, b) else ArenasApart(b, i);
        if blocks[i].storage.InMemory? {
          var w := blocks[i].storage.arena.words;
          assert w in Words && w != blocks[b].storage.arena.words;
          assert w[..] == old(w[..]);
        }
      }
    }

    // ── Operations ──

    // Remove `target` from a node's row; the last neighbour moves into the freed slot.
    method RemoveOutgoingTo(id: Word, target: Word, level: nat)
      requires Valid() && AllInMemory()
      requires id == INVALID || target == INVALID || BlockOf(id) >= |blocks|
               || (HasRow(G, id, level) && NoDup(Row(G, id, level)))
      modifies `image, `G, Words
      ensures Valid() && AllInMemory()
      ensures G == if id == INVALID || target == INVALID || BlockOf(id) >= |blocks| then old(G)
                   else RemoveOutgoing(old(G), id, target, level)
    {
      hide Represents, Registered, NextMultipleOf, Shape, Synced, IndexOf;
      if id == INVALID || target == INVALID {
        return;
      }
      var b := BlockOf(id);
      if b >= |blocks| {
        return;
      }
      ghost var row := Row(G, id, level);
      RowInMemory(id, level);
      var words, start, cap := blocks[b].storage.arena.words, RowStart(p, id, level), Cap(p, level);
      ghost var before := words[..];
      assert words[start..start + cap] == Pad(row, cap);
      var targetIndex, firstEmpty := FindTarget(words, start, cap, target);
      FirstEmptyIsLength(row, cap, firstEmpty);
      if targetIndex == cap {
        SetRowNop(G, id, level);
        return;
      }
      OnlyIndex(row, target, targetIndex);
      var last := firstEmpty - 1;
      MoveLast(words, start + targetIndex, start + last);
      assert before[start..start + cap][last] == row[last];
      RemovedSlot(p, before, id, level, row, target);
      OthersKept(b);
      CommitRow(id, level, SwapRemove(row, target));
    }

    // The vector of a node, from memory or from its chunk file.
    method VectorAt(id: Word) returns (v: seq<Word>)
      requires Valid() && id in G && BlockOf(id) < |blocks| && !blocks[BlockOf(id)].storage.Evicted?
      ensures v == G[id].vector
    {
      var b, base := BlockOf(id), BaseWord(id);
      assert NodeStored(p, image, id, G[id]) && Synced(b);
      match blocks[b].storage
      case InMemory(arena) =>
        assert image[b][base..base + p.dim] == arena.words[base..base + p.dim];
        v := arena.words[base..base + p.dim];
      case OnDisk(file, slot) =>
        v := file.slots[slot].words[base..base + p.dim];
    }

    // The raw row of a node, sentinels included; an unknown block has no neighbours.
    method NeighborsAt(id: Word, level: nat) returns (raw: seq<Word>)
      requires Valid()
      requires BlockOf(id) < |blocks| ==> HasRow(G, id, level) && !blocks[BlockOf(id)].storage.Evicted?
      ensures raw == if BlockOf(id) < |blocks| then Pad(Row(G, id, level), Cap(p, level)) else []
    {
      var b := BlockOf(id);
      if b >= |blocks| {
        return [];
      }
      var start, cap := RowStart(p, id, level), Cap(p, level);
      StoredRow(p, image, G, id, level);
      assert Synced(b);
      match blocks[b].storage
      case InMemory(arena) =>
        assert image[b][start..start + cap] == arena.words[start..start + cap];
        raw := arena.words[start..start + cap];
      case OnDisk(file, slot) =>
        raw := file.slots[slot].words[start..start + cap];
    }

    // Every node has a proper id in an existing block.
    lemma InStore(id: Word)
      requires Valid() && id in G
      ensures id != INVALID && BlockOf(id) < |blocks|
      ensures NoneEvicted() ==> !blocks[BlockOf(id)].storage.Evicted?
    {
      assert NodeStored(p, image, id, G[id]);
    }

    // Position and distance of the last of the farthest nodes in a list of neighbours.
    method Farthest(src: Word, row: seq<Word>) returns (idx: nat, far: int, found: bool)
      requires Valid() && AllInMemory() && src in G && forall x :: x in row ==> x in G
      ensures found <==> row != []
      ensures found ==> idx == LastMax(Distances(dist, G, src, row)) && far == Distances(dist, G, src, row)[idx]
    {
      hide Represents, Registered, Shape, Synced, BelowBump, Valid;
      idx, far, found := 0, 0, false;
      InStore(src);
      ghost var ds := Distances(dist, G, src, row);
      var i := 0;
      while i < |row|
        invariant 0 <= i <= |row| && (found <==> 0 < i)
        invariant found ==> idx == LastMax(ds[..i]) && far == ds[idx]
      {
        var nid := row[i];
        InStore(nid);
        var a := VectorAt(src);
        var b := VectorAt(nid);
        var d := dist(a, b);
        assert d == ds[i] && ds[..i + 1][..i] == ds[..i];
        if !found || d >= far {
          idx, far, found := i, d, true;
        }
        i := i + 1;
      }
      assert ds[..|row|] == ds;
    }

    // Bump and count of the first `n` blocks; one that is not in memory takes no more nodes.
    ghost function FillsOf(n: nat): (fs: seq<Fill>)
      requires Shape() && n <= |blocks|
      reads `blocks, `Arenas, `Words, `Files, blocks, Arenas, Files
      ensures |fs| == n
    {
      if n == 0 then []
      else
        assert BlockOk(n - 1);
        var b := blocks[n - 1];
        FillsOf(n - 1) + [Fill(if b.storage.InMemory? then b.storage.arena.bump else ARENA_BYTES, b.len)]
    }

    ghost function Fills(): seq<Fill>
      requires Shape()
      reads `blocks, `Arenas, `Words, `Files, blocks, Arenas, Files
    {
      FillsOf(|blocks|)
    }

    // The fills and the version counters.
    ghost function Using(): Usage
      reads `blocks, `Arenas, `Words, `Files, `writeCount, `cleanVersion, blocks, Arenas, Files
    {
      Usage(if Shape() then Fills() else [], writeCount, cleanVersion)
    }

    lemma UsingBlocks()
      requires Valid()
      ensures |Using().fills| == |blocks|
    {
    }

    // Blocks whose bump and count did not change have the same fills.
    twostate lemma FillsKept(n: nat)
      requires old(Shape()) && Shape() && n <= |old(blocks)| && n <= |blocks|
      requires blocks[..n] == old(blocks)[..n]
      requires forall i :: 0 <= i < n ==>
                 && unchanged(old(blocks)[i])
                 && (old(blocks[i].storage.InMemory?) ==>
                   && allocated(old(blocks[i].storage.arena))
                   && old(blocks[i].storage.arena).bump == old(blocks[i].storage.arena.bump))
      ensures FillsOf(n) == old(FillsOf(n))
    {
      if n > 0 {
        assert blocks[n - 1] == blocks[..n][n - 1] && old(blocks)[n - 1] == old(blocks)[..n][n - 1];
        assert blocks[..n - 1] == blocks[..n][..n - 1] && old(blocks)[..n - 1] == old(blocks)[..n][..n - 1];
        FillsKept(n - 1);
      }
    }

    // Open an empty block at the end.
    method AddBlock()
      requires Valid()
      modifies `blocks, `Arenas, `Words, `image
      ensures Valid() && (old(AllInMemory()) ==> AllInMemory())
      ensures fresh(Arenas - old(Arenas)) && fresh(Words - old(Words)) && old(Arenas) <= Arenas && old(Words) <= Words
      ensures |blocks| == |old(blocks)| + 1 && blocks[..|old(blocks)|] == old(blocks)
      ensures var nb := blocks[|old(blocks)|];
              fresh(nb) && BlockSet() == old(BlockSet()) + {nb} && nb.storage.InMemory? && fresh(nb.storage.arena)
                && fresh(nb.storage.arena.words)
      ensures Fills() == old(Fills()) + [Fill(0, 0)]
    {
      hide Valid, AllInMemory, Shape, FillsOf;
      ValidShape();
      var nb := new NodeBlock(p, |blocks|);
      LinkBlock(nb, nb.storage.arena);
    }

    // Append a new, empty block.
    method LinkBlock(nb: NodeBlock, arena: Arena)
      requires Valid() && nb !in blocks && arena !in Arenas && arena.words !in Words
      requires nb.p == p && nb.blockIndex == |blocks| && nb.len == 0 && nb.storage == InMemory(arena)
      requires arena.Valid() && arena.capacity == ARENA_BYTES && arena.bump == 0
      modifies `blocks, `Arenas, `Words, `image
      ensures Valid() && (old(AllInMemory()) ==> AllInMemory())
      ensures blocks == old(blocks) + [nb] && Arenas == old(Arenas) + {arena} && Words == old(Words) + {arena.words}
      ensures Fills() == old(Fills()) + [Fill(0, 0)]
    {
      hide Represents, NextMultipleOf, NoDup, EndWord, CountIn, BlockOf, Level;
      var n := |blocks|;
      arena.FullSize();
      CountNone(n);
      blocks := blocks + [nb];
      Arenas, Words := Arenas + {arena}, Words + {arena.words};
      forall i | 0 <= i < |blocks|
        ensures BlockOk(i) && Counted(i) && (i < n ==> Synced(i))
      {
        assert i < n ==> old(Synced(i)) && old(Counted(i));
      }
      forall id | id in G
        ensures BelowBump(id)
      {
        assert old(BelowBump(id));
      }
      forall i, j | 0 <= i < j < |blocks|
        ensures ArenasApart(i, j)
      {
        assert j < n ==> old(ArenasApart(i, j));
        assert old(BlockOk(i));
      }
      FillsKept(n);
      RegisterBlock(arena.words[..]);
    }

    // Add the words of the new last block to the image.
    ghost method RegisterBlock(words: seq<Word>)
      requires Shape() && Registered() && Represents(p, image, G) && |blocks| == |image| + 1
      requires (forall i :: 0 <= i < |image| ==> Synced(i)) && Reads(|image|, words)
      modifies `image
      ensures Valid()
    {
      hide Represents, NoDup, Shape, Registered;
      ImageGrows(p, image, words, G);
      image := image + [words];
      forall i | 0 <= i < |blocks|
        ensures Synced(i)
      {
        assert i < |old(image)| ==> old(Synced(i));
      }
    }

    // Allocate a node: in the last block if it fits there, else in a new one.  Refuses only
    // a node that no block can hold.
    method PushNode(vector: seq<Word>, maxLevel: nat) returns (r: Option<Word>)
      requires Valid() && |blocks| < MAX_BLOCKS && |vector| == p.dim && maxLevel <= MAX_LEVEL
      modifies this, blocks, Arenas, Words
      ensures Valid() && (old(AllInMemory()) ==> AllInMemory())
      ensures |old(blocks)| <= |blocks| && blocks[..|old(blocks)|] == old(blocks) && fresh(BlockSet() - old(BlockSet()))
      ensures fresh(Arenas - old(Arenas)) && fresh(Words - old(Words)) && Files == old(Files)
      ensures r.Some? <==> TotalSize(p, maxLevel) <= ARENA_BYTES
      ensures Fills() == Place(old(Fills()), TotalSize(p, maxLevel))
      ensures r.Some? ==> |blocks| <= |old(blocks)| + 1
      ensures r.None? ==> G == old(G) && ids == old(ids) && writeCount == old(writeCount)
      ensures r.Some? ==> Pushed(old(G), old(ids), vector, maxLevel, r.value) && writeCount == old(writeCount) + 1
      ensures cleanVersion == old(cleanVersion)
      ensures r.Some? ==> Using() == Used(old(Using()), [TotalSize(p, maxLevel)])
    {
      hide Valid, Shape, AllInMemory, FillsOf, TotalSize, Pushed, NextMultipleOf, Bumped;
      FitsLess(TotalSize(p, maxLevel));
      ValidShape();
      ghost var fills := Fills();
      EnsureBlock();
      r := PushSomewhere(vector, maxLevel);
      if r.Some? {
        PlaceLength(fills, TotalSize(p, maxLevel));
        writeCount := writeCount + 1;
        ValidShape();
        UsedOne(old(Using()), TotalSize(p, maxLevel));
      }
    }

    // In the last block, or else in a new one.
    method PushSomewhere(vector: seq<Word>, maxLevel: nat) returns (r: Option<Word>)
      requires Valid() && 0 < |blocks| <= MAX_BLOCKS && |vector| == p.dim && maxLevel <= MAX_LEVEL
      requires |blocks| < MAX_BLOCKS || |blocks| == 1
      modifies `blocks, `Arenas, `Words, `image, `G, `ids, blocks, Arenas, Words
      ensures Valid() && (old(AllInMemory()) ==> AllInMemory())
      ensures |old(blocks)| <= |blocks| && blocks[..|old(blocks)|] == old(blocks) && fresh(BlockSet() - old(BlockSet()))
      ensures fresh(Arenas - old(Arenas)) && fresh(Words - old(Words))
      ensures r.Some? <==> Fits(0, TotalSize(p, maxLevel))
      ensures Fills() == Place(old(Fills()), TotalSize(p, maxLevel))
      ensures r.None? ==> G == old(G) && ids == old(ids)
      ensures r.Some? ==> Pushed(old(G), old(ids), vector, maxLevel, r.value)
    {
      hide Valid, Shape, AllInMemory, FillsOf, TotalSize, Pushed, NextMultipleOf, Bumped, Fits;
      FitsLess(TotalSize(p, maxLevel));
      ValidShape();
      r := PushLast(vector, maxLevel);
      if r.None? {
        r := PushInNewBlock(vector, maxLevel);
      }
    }

    method EnsureBlock()
      requires Valid() && |blocks| < MAX_BLOCKS
      modifies `blocks, `Arenas, `Words, `image
      ensures Valid() && (old(AllInMemory()) ==> AllInMemory())
      ensures |blocks| == (if old(blocks) == [] then 1 else |old(blocks)|) && blocks[..|old(blocks)|] == old(blocks)
      ensures fresh(BlockSet() - old(BlockSet())) && fresh(Arenas - old(Arenas)) && fresh(Words - old(Words))
      ensures Fills() == if old(blocks) == [] then [Fill(0, 0)] else old(Fills())
      ensures old(blocks) != [] ==> unchanged(this)
    {
      hide Valid, AllInMemory, Shape, FillsOf;
      if blocks == [] {
        AddBlock();
      }
    }

    method PushInNewBlock(vector: seq<Word>, maxLevel: nat) returns (r: Option<Word>)
      requires Valid() && |blocks| < MAX_BLOCKS && |vector| == p.dim && maxLevel <= MAX_LEVEL
      modifies `blocks, `Arenas, `Words, `image, `G, `ids, blocks, Arenas, Words
      ensures Valid() && (old(AllInMemory()) ==> AllInMemory())
      ensures |old(blocks)| <= |blocks| && blocks[..|old(blocks)|] == old(blocks) && fresh(BlockSet() - old(BlockSet()))
      ensures fresh(Arenas - old(Arenas)) && fresh(Words - old(Words))
      ensures r.Some? <==> Fits(0, TotalSize(p, maxLevel))
      ensures Fills() == old(Fills()) + [if r.Some? then Bumped(Fill(0, 0), TotalSize(p, maxLevel)) else Fill(0, 0)]
      ensures r.None? ==> G == old(G) && ids == old(ids)
      ensures r.Some? ==> Pushed(old(G), old(ids), vector, maxLevel, r.value)
    {
      hide Valid, Shape, AllInMemory, FillsOf, TotalSize, Pushed, NextMultipleOf, Bumped, Fits;
      AddBlock();
      r := PushLast(vector, maxLevel);
    }

    // Try to allocate a node in the last block.
    method PushLast(vector: seq<Word>, maxLevel: nat) returns (r: Option<Word>)
      requires Valid() && 0 < |blocks| <= MAX_BLOCKS && |vector| == p.dim && maxLevel <= MAX_LEVEL
      modifies `image, `G, `ids, blocks, Arenas, Words
      ensures Valid() && (old(AllInMemory()) ==> AllInMemory())
      ensures var last := old(Fills()[|blocks| - 1]);
              && (r.Some? <==> Fits(last.bump, TotalSize(p, maxLevel)))
              && Fills() == if r.Some? then old(Fills())[|blocks| - 1 := Bumped(last, TotalSize(p, maxLevel))]
                else old(Fills())
      ensures r.None? ==> G == old(G) && ids == old(ids)
      ensures r.Some? ==> Pushed(old(G), old(ids), vector, maxLevel, r.value)
    {
      hide Represents, NextMultipleOf, NoDup, EncodeId, TotalSize, Fits, Synced, BelowBump, Counted, WrittenAt, Shape,
        BlockOf, Bumped, FillsOf;
      var b := |blocks| - 1;
      LastFits(maxLevel);
      ghost var bump;
      r, bump := WriteLast(vector, maxLevel);
      if r.None? {
        return;
      }
      ghost var id := EnterGraph(b, bump, vector, maxLevel);
      EnterId(b, id);
    }

    // The memory part of a push: the node is written, but not yet registered.
    method WriteLast(vector: seq<Word>, maxLevel: nat) returns (r: Option<Word>, ghost bump: nat)
      requires Valid() && 0 < |blocks| <= MAX_BLOCKS && |vector| == p.dim && maxLevel <= MAX_LEVEL
      modifies blocks, Arenas, Words
      ensures (old(AllInMemory()) ==> AllInMemory())
      ensures var block := blocks[|blocks| - 1];
              r.Some? <==>
                && block.storage.InMemory? && old(block.storage.InMemory?)
                && Fits(old(block.storage.arena.bump), TotalSize(p, maxLevel))
      ensures r.None? ==> unchanged(blocks) && unchanged(Arenas) && unchanged(Words)
      ensures r.Some? ==>
                var b := |blocks| - 1;
                && blocks[b].storage == old(blocks[b].storage)
                && bump == old(blocks[b].storage.arena.bump)
                && blocks[b].len == old(blocks[b].len) + 1 == CountIn(ids, b) + 1
                && |image[b]| == ARENA_WORDS
                && r.value == EncodeId(b, NextMultipleOf(bump, NODE_ALIGNMENT))
                && blocks[b].storage.arena.bump == NextMultipleOf(bump, NODE_ALIGNMENT) + TotalSize(p, maxLevel)
                && WrittenAt(p, image[b], blocks[b].storage.arena.words[..], bump, vector, maxLevel)
                && Shape()
                && (forall i :: 0 <= i < b ==> Synced(i) && Counted(i))
                && (forall x :: x in G && BlockOf(x) != b ==> BelowBump(x))
                && (forall x :: x in G && BlockOf(x) == b ==> EndWord(p, x, Level(G[x])) * 4 <= bump)
                && Fills() == old(Fills())[b := Bumped(old(Fills())[b], TotalSize(p, maxLevel))]
    {
      hide Represents, NextMultipleOf, NoDup, EncodeId, TotalSize, EndWord, Fits, WrittenAt;
      var b := |blocks| - 1;
      var block := blocks[b];
      assert BlockOk(b) && Synced(b) && Counted(b);
      bump := if block.storage.InMemory? then block.storage.arena.bump else 0;
      r := block.PushNode(vector, maxLevel);
      if r.None? {
        return;
      }
      forall i | 0 <= i < b
        ensures BlockOk(i) && Synced(i) && Counted(i)
        ensures unchanged(blocks[i])
        ensures blocks[i].storage.InMemory? ==> unchanged(blocks[i].storage.arena)
      {
        assert old(Synced(i)) && old(Counted(i)) && old(BlockOk(i)) && old(ArenasApart(i, b));
      }
      forall i, j | 0 <= i < j < |blocks|
        ensures ArenasApart(i, j)
      {
        assert old(ArenasApart(i, j));
      }
      forall x | x in G
        ensures BlockOf(x) != b ==> BelowBump(x)
        ensures BlockOf(x) == b ==> EndWord(p, x, Level(G[x])) * 4 <= bump
      {
        assert old(BelowBump(x));
      }
      FillsKept(b);
    }

    // Enter the node just written at the top of block `b` into the graph.
    ghost method EnterGraph(b: nat, bump: nat, vector: seq<Word>, maxLevel: nat) returns (id: Word)
      requires Shape() && p.Valid() && |image| == |blocks| && Represents(p, image, G)
      requires b < |blocks| && b < MAX_BLOCKS && blocks[b].storage.InMemory?
      requires |vector| == p.dim && maxLevel <= MAX_LEVEL
      requires forall i :: 0 <= i < |blocks| && i != b ==> Synced(i)
      requires |image[b]| == ARENA_WORDS
      requires forall x :: x in G && BlockOf(x) == b ==> EndWord(p, x, Level(G[x])) * 4 <= bump
      requires forall x :: x in G && BlockOf(x) != b ==> BelowBump(x)
      requires WrittenAt(p, image[b], blocks[b].storage.arena.words[..], bump, vector, maxLevel)
      requires blocks[b].storage.arena.bump == NextMultipleOf(bump, NODE_ALIGNMENT) + TotalSize(p, maxLevel)
      modifies `image, `G
      ensures Shape() && |image| == |blocks| && Represents(p, image, G)
      ensures id == EncodeId(b, NextMultipleOf(bump, NODE_ALIGNMENT)) && BlockOf(id) == b
      ensures id !in old(G) && G == old(G)[id := GNode(vector, EmptyRows(maxLevel))]
      ensures forall i :: 0 <= i < |blocks| ==> Synced(i)
      ensures forall x :: x in G ==> BelowBump(x)
    {
      hide Represents, NextMultipleOf, EncodeId, TotalSize, EndWord, WrittenAt, BlockOf;
      var start := NextMultipleOf(bump, NODE_ALIGNMENT);
      id := EncodeId(b, start);
      var n := GNode(vector, EmptyRows(maxLevel));
      var words' := blocks[b].storage.arena.words[..];
      NodePushed(p, image, words', G, b, bump, vector, maxLevel);
      assert BlockOk(b);
      blocks[b].storage.arena.FullSize();
      image, G := image[b := words'], G[id := n];
      assert BlockOk(b);
      assert Level(n) == maxLevel && BelowBump(id);
      forall x | x in G && x != id
        ensures BelowBump(x)
      {
        if BlockOf(x) == b {
          assert EndWord(p, x, Level(old(G)[x])) * 4 <= bump <= start;
        } else {
          assert old(BelowBump(x));
        }
      }
      forall i | 0 <= i < |blocks|
        ensures Synced(i)
      {
        assert i != b ==> old(Synced(i));
        assert BlockOk(i);
      }
    }

    // Enter the id of the newest node into the list of ids.
    ghost method EnterId(b: nat, id: Word)
      requires Shape() && p.Valid() && b < |blocks| && BlockOf(id) == b
      requires |image| == |blocks| && Represents(p, image, G) && forall i :: 0 <= i < |blocks| ==> Synced(i)
      requires forall x :: x in G ==> BelowBump(x)
      requires NoDup(ids) && id !in ids && forall x :: x in G <==> x in ids || x == id
      requires forall i :: 0 <= i < |blocks| && i != b ==> Counted(i)
      requires blocks[b].len == CountIn(ids, b) + 1
      modifies `ids
      ensures Valid() && ids == old(ids) + [id]
    {
      hide Represents;
      ids := ids + [id];
      forall i | 0 <= i < |blocks|
        ensures Counted(i)
      {
        CountPush(old(ids), id, i);
        assert i != b ==> old(Counted(i));
      }
    }

    lemma ValidShape()
      requires Valid()
      ensures Shape()
    {
    }

    // What a successful push adds: one fresh node with empty rows, and its registration.
    ghost predicate Pushed(g: Graph, known: seq<Word>, vector: seq<Word>, maxLevel: nat, id: Word)
      reads `G, `ids
    {
      && id !in g && G == g[id := GNode(vector, EmptyRows(maxLevel))]
      && ids == known + [id]
    }

    // A block out of memory never has room.
    lemma LastFits(maxLevel: nat)
      requires Valid() && 0 < |blocks|
      ensures var b := blocks[|blocks| - 1];
              Fits(Fills()[|blocks| - 1].bump, TotalSize(p, maxLevel))
              <==> b.storage.InMemory? && Fits(b.storage.arena.bump, TotalSize(p, maxLevel))
    {
      NodeNotTiny(p, maxLevel);
      WordSizes(p, maxLevel);
    }

    lemma CountNone(b: nat)
      requires Valid() && |blocks| <= b
      ensures CountIn(ids, b) == 0
    {
      forall id | id in ids
        ensures BlockOf(id) != b
      {
        InStore(id);
      }
      NoneCounted(ids, b);
    }

    // The number of nodes, added up over the blocks.
    method Len() returns (n: nat)
      requires Valid()
      ensures n == |ids|
    {
      hide Represents, Shape;
      n := 0;
      var i := 0;
      while i < |blocks|
        invariant 0 <= i <= |blocks| && n == SumIn(ids, i)
      {
        assert Counted(i);
        n := n + blocks[i].len;
        i := i + 1;
      }
      forall id | id in ids
        ensures BlockOf(id) < |blocks|
      {
        InStore(id);
      }
      SumIsLength(ids, |blocks|);
    }

    // ── Dirty tracking ──

    predicate HasDirtyBlocks()
      reads `writeCount, `cleanVersion
    {
      writeCount > cleanVersion
    }

    // Mark clean only if nothing was pushed since `version` was read: a store not marked later
    // than that is clean afterwards exactly when nothing was.
    method MarkCleanIfVersion(version: nat)
      modifies `cleanVersion
      ensures cleanVersion == if writeCount == version then version else old(cleanVersion)
      ensures old(cleanVersion) <= version <= writeCount ==> (HasDirtyBlocks() <==> version < writeCount)
    {
      if writeCount == version {
        cleanVersion := version;
      }
    }

    method MarkAllClean()
      modifies `cleanVersion
      ensures cleanVersion == writeCount && !HasDirtyBlocks()
    {
      cleanVersion := writeCount;
    }

    // Use a free slot of a row, unless `dst` is there already; false if the row is full.
    method PutIfRoom(src: Word, dst: Word, level: nat) returns (done: bool)
      requires Valid() && AllInMemory() && HasRow(G, src, level) && BlockOf(src) < |blocks| && dst != INVALID
      modifies `image, `G, Words
      ensures Valid() && AllInMemory()
      ensures var row := Row(old(G), src, level);
              && (done <==> dst in row || |row| < Cap(p, level))
              && G == if dst !in row && |row| < Cap(p, level) then SetRow(old(G), src, level, row + [dst]) else old(G)
    {
      hide Represents, Registered, NextMultipleOf, Shape, Synced, IndexOf;
      var b := BlockOf(src);
      ghost var row := Row(G, src, level);
      RowInMemory(src, level);
      var words, start, cap := blocks[b].storage.arena.words, RowStart(p, src, level), Cap(p, level);
      ghost var before := words[..];
      assert words[start..start + cap] == Pad(row, cap);
      var i := FindSlot(words, start, cap, dst);
      SlotInRow(row, cap, i, dst);
      if i == cap {
        return false;
      }
      if words[start + i] == INVALID {
        words[start + i] := dst;
        assert Rewritten(p, before, words[..], src, level, row + [dst]) by {
          assert words[..] == before[start + i := dst];
          SlotWrite(before, start, cap, i, dst);
          AppendSlot(row, cap, dst);
        }
        OthersKept(b);
        CommitRow(src, level, row + [dst]);
      }
      done := true;
    }

    method ReplaceNeighbor(src: Word, level: nat, idx: nat, dst: Word)
      requires Valid() && AllInMemory() && HasRow(G, src, level) && BlockOf(src) < |blocks| && dst != INVALID
      requires idx < |Row(G, src, level)|
      modifies `image, `G, Words
      ensures Valid() && AllInMemory()
      ensures G == SetRow(old(G), src, level, Row(old(G), src, level)[idx := dst])
    {
      hide Represents, Registered, NextMultipleOf, Shape, Synced, IndexOf;
      var b := BlockOf(src);
      ghost var row := Row(G, src, level);
      RowInMemory(src, level);
      var words, start := blocks[b].storage.arena.words, RowStart(p, src, level);
      ghost var before, cap := words[..], Cap(p, level);
      words[start + idx] := dst;
      assert Rewritten(p, before, words[..], src, level, row[idx := dst]) by {
        assert words[..] == before[start + idx := dst];
        SlotWrite(before, start, cap, idx, dst);
        ReplaceSlot(row, cap, idx, dst);
      }
      OthersKept(b);
      CommitRow(src, level, row[idx := dst]);
    }

    // Add `dst` to the row of `src`, evicting its farthest neighbour on both sides when the
    // row is full, unless `dst` is farther.  Says whether `dst` is in the row afterwards.
    method AddDirectedEdge(src: Word, dst: Word, level: nat) returns (added: bool)
      requires Valid() && AllInMemory()
      requires BlockOf(src) < |blocks| ==>
                 CanAdd(p, G, src, dst, level) && forall x :: x in Row(G, src, level) ==> NoDup(Row(G, x, level))
      modifies `image, `G, Words
      ensures Valid() && AllInMemory()
      ensures BlockOf(src) < |blocks| ==> (G, added) == AddDirected(dist, p, old(G), src, dst, level)
      ensures BlockOf(src) >= |blocks| ==> !added && G == old(G)
    {
      var b := BlockOf(src);
      if b >= |blocks| {
        return false;
      }
      hide Represents, Registered, Shape, Synced, NoDup;
      ghost var row := Row(G, src, level);
      InStore(dst);
      var done := PutIfRoom(src, dst, level);
      if done {
        return true;
      }
      added := EvictFarthest(src, dst, level);
    }

    // The full-row case: replace the farthest neighbour, on both sides, unless `dst` is farther.
    method EvictFarthest(src: Word, dst: Word, level: nat) returns (added: bool)
      requires Valid() && AllInMemory() && BlockOf(src) < |blocks|
      requires CanAdd(p, G, src, dst, level) && forall x :: x in Row(G, src, level) ==> NoDup(Row(G, x, level))
      requires dst !in Row(G, src, level) && |Row(G, src, level)| == Cap(p, level)
      modifies `image, `G, Words
      ensures Valid() && AllInMemory()
      ensures (G, added) == AddDirected(dist, p, old(G), src, dst, level)
    {
      hide Represents, Registered, Shape, Synced, NoDup, Valid, LastMax, SwapRemove;
      ghost var row, ds := Row(G, src, level), Distances(dist, G, src, Row(G, src, level));
      InStore(src);
      InStore(dst);
      RowInMemory(src, level);
      var neighborIds := NeighborsAt(src, level);
      assert neighborIds == row;
      var idx, far, found := Farthest(src, neighborIds);
      var v := VectorAt(src);
      var w := VectorAt(dst);
      if dist(v, w) > far {
        return false;
      }
      EvictAt(src, level, neighborIds[idx], idx, dst);
      added := true;
    }

    // Give the slot of `removed` in the row of `src` to `dst`, and drop the edge back.
    method EvictAt(src: Word, level: nat, removed: Word, idx: nat, dst: Word)
      requires Valid() && AllInMemory() && HasRow(G, src, level) && BlockOf(src) < |blocks|
      requires idx < |Row(G, src, level)| && Row(G, src, level)[idx] == removed && dst in G
        && dst !in Row(G, src, level)
      requires HasRow(G, removed, level) && NoDup(Row(G, removed, level))
      modifies `image, `G, Words
      ensures Valid() && AllInMemory()
      ensures var g := old(G);
        var h := if removed == src then g else RemoveOutgoing(g, removed, src, level);
        HasRow(h, src, level) && G == SetRow(h, src, level, Row(g, src, level)[idx := dst])
    {
      hide Represents, Registered, Shape, Synced, NoDup, Valid;
      InStore(src);
      InStore(dst);
      InStore(removed);
      ghost var row := Row(G, src, level);
      if removed != src && BlockOf(removed) < |blocks| {
        RemoveOutgoingTo(removed, src, level);
      }
      assert Row(G, src, level) == row;
      ReplaceNeighbor(src, level, idx, dst);
    }

    // Overwrite the leading slots of a row; on a row still empty this stores the list.
    method SaveNeighbors(id: Word, neighbors: seq<Word>, level: nat)
      requires Valid() && AllInMemory()
      requires BlockOf(id) < |blocks| ==>
                 HasRow(G, id, level) && |neighbors| <= Cap(p, level) && INVALID !in neighbors
      modifies `image, `G, Words
      ensures Valid() && AllInMemory()
      ensures G == if BlockOf(id) < |blocks| then SetRow(old(G), id, level,
        Overwritten(Row(old(G), id, level), neighbors)) else old(G)
    {
      hide Represents, Registered, NextMultipleOf, Shape, Synced, IndexOf;
      var b := BlockOf(id);
      if b >= |blocks| {
        return;
      }
      ghost var row := Row(G, id, level);
      RowInMemory(id, level);
      var words, start, cap := blocks[b].storage.arena.words, RowStart(p, id, level), Cap(p, level);
      ghost var before := words[..];
      forall k | 0 <= k < |neighbors| {
        words[start + k] := neighbors[k];
      }
      assert Rewritten(p, before, words[..], id, level, Overwritten(row, neighbors)) by {
        SaveSlots(p, before, words[..], id, level, row, neighbors);
      }
      OthersKept(b);
      CommitRow(id, level, Overwritten(row, neighbors));
    }
  }
}
