// How a graph is laid out in the words of its blocks, and what row writes do to that layout.
module NodeMemory {
  import opened Layout
  import opened Graph

  // Contents of all blocks of a store; block i is `image[i]`.
  type Image = seq<seq<Word>>

  function RowStart(p: Params, id: Word, l: nat): nat {
    BaseWord(id) + SpanWords(p) + EdgeOffset(p, l)
  }

  function EndWord(p: Params, id: Word, maxLevel: nat): nat {
    BaseWord(id) + TotalWords(p, maxLevel)
  }

  function Level(n: GNode): nat {
    if |n.rows| == 0 then 0 else |n.rows| - 1
  }

  // The raw slots of a row, sentinels included.
  function RawRow(p: Params, words: seq<Word>, id: Word, l: nat): seq<Word>
    requires RowStart(p, id, l) + Cap(p, l) <= |words|
  {
    words[RowStart(p, id, l)..RowStart(p, id, l) + Cap(p, l)]
  }

  function RawVector(p: Params, words: seq<Word>, id: Word): seq<Word>
    requires BaseWord(id) + p.dim <= |words|
  {
    words[BaseWord(id)..BaseWord(id) + p.dim]
  }

  // A neighbour list as it is stored: the list itself, then sentinels up to the capacity.
  function Pad(row: seq<Word>, cap: nat): (r: seq<Word>)
    ensures |row| <= cap ==> |r| == cap
  {
    if |row| <= cap then row + seq(cap - |row|, _ => INVALID) else row
  }

  // The node's words hold its vector and its rows, and lie inside its block.
  ghost predicate NodeStored(p: Params, image: Image, id: Word, n: GNode) {
    && id != INVALID
    && 0 < |n.rows| <= MAX_LEVEL + 1
    && BlockOf(id) < |image|
    && EndWord(p, id, Level(n)) <= |image[BlockOf(id)]|
    && |n.vector| == p.dim
    && p.dim <= SpanWords(p)
    && RawVector(p, image[BlockOf(id)], id) == n.vector
    && forall l: nat :: l < |n.rows| ==> RowStored(p, image[BlockOf(id)], id, l, n.rows[l])
  }

  ghost predicate RowStored(p: Params, words: seq<Word>, id: Word, l: nat, row: seq<Word>) {
    && RowStart(p, id, l) + Cap(p, l) <= |words|
    && |row| <= Cap(p, l)
    && INVALID !in row
    && RawRow(p, words, id, l) == Pad(row, Cap(p, l))
  }

  ghost predicate Apart(p: Params, a: Word, m: GNode, b: Word, n: GNode) {
    BlockOf(a) == BlockOf(b) ==>
      EndWord(p, a, Level(m)) <= BaseWord(b) || EndWord(p, b, Level(n)) <= BaseWord(a)
  }

  // The image refines the graph: every node reads back exactly, and nodes do not overlap.
  ghost predicate Represents(p: Params, image: Image, g: Graph) {
    && (forall id :: id in g ==> NodeStored(p, image, id, g[id]))
    && (forall a, b :: a in g && b in g && a != b ==> Apart(p, a, g[a], b, g[b]))
  }

  // Two images agree everywhere but in the slots of one row.
  ghost predicate SameOutsideRow(p: Params, image: Image, image': Image, id: Word, l: nat) {
    && |image'| == |image|
    && BlockOf(id) < |image|
    && (forall i :: 0 <= i < |image| && i != BlockOf(id) ==> image'[i] == image[i])
    && |image'[BlockOf(id)]| == |image[BlockOf(id)]|
    && forall k :: 0 <= k < |image[BlockOf(id)]| && !(RowStart(p, id, l) <= k < RowStart(p, id, l) + Cap(p, l))
         ==> image'[BlockOf(id)][k] == image[BlockOf(id)][k]
  }

  // A row's slots lie inside the bytes of its own node, after the vector.
  lemma RowInside(p: Params, id: Word, l: nat, maxLevel: nat)
    requires l <= maxLevel
    ensures BaseWord(id) + SpanWords(p) <= RowStart(p, id, l)
    ensures RowStart(p, id, l) + Cap(p, l) <= EndWord(p, id, maxLevel)
  {
    RowsInsideNode(p, l, maxLevel);
  }

  // Rewriting the slots of one row changes that row of the graph and nothing else.
  lemma RowWrite(p: Params, image: Image, image': Image, g: Graph, id: Word, l: nat, row: seq<Word>)
    requires Represents(p, image, g) && HasRow(g, id, l)
    requires SameOutsideRow(p, image, image', id, l)
    requires RowStored(p, image'[BlockOf(id)], id, l, row)
    ensures Represents(p, image', SetRow(g, id, l, row))
  {
    hide RowStored, RawVector, EndWord;
    var h := SetRow(g, id, l, row);
    SetRowSameNodes(g, id, l, row);
    forall x | x in h
      ensures NodeStored(p, image', x, h[x])
    {
      assert NodeStored(p, image, x, g[x]);
      if BlockOf(x) == BlockOf(id) {
        RowWriteSameBlock(p, image, image', g, id, l, row, x);
      }
    }
    forall a, b | a in h && b in h && a != b
      ensures Apart(p, a, h[a], b, h[b])
    {
      assert Apart(p, a, g[a], b, g[b]);
    }
  }

  lemma RowWriteSameBlock(p: Params, image: Image, image': Image, g: Graph, id: Word, l: nat, row: seq<Word>, x: Word)
    requires Represents(p, image, g) && HasRow(g, id, l)
    requires SameOutsideRow(p, image, image', id, l)
    requires RowStored(p, image'[BlockOf(id)], id, l, row)
    requires x in g && BlockOf(x) == BlockOf(id)
    ensures NodeStored(p, image', x, SetRow(g, id, l, row)[x])
  {
    assert NodeStored(p, image, x, g[x]) && NodeStored(p, image, id, g[id]);
    RowInside(p, id, l, Level(g[id]));
    assert x != id ==> Apart(p, x, g[x], id, g[id]);
    assert TotalWords(p, Level(g[x])) >= p.dim;
    var words, words' := image[BlockOf(id)], image'[BlockOf(id)];
    assert RawVector(p, words', x) == RawVector(p, words, x);
    forall k: nat | k < |g[x].rows| && !(x == id && k == l)
      ensures RowStored(p, words', x, k, g[x].rows[k])
    {
      OtherRowKept(p, words, words', g, id, l, x, k);
    }
  }

  // A row other than the rewritten one keeps its slots.
  lemma OtherRowKept(p: Params, words: seq<Word>, words': seq<Word>, g: Graph, id: Word, l: nat, x: Word, k: nat)
    requires HasRow(g, id, l) && HasRow(g, x, k) && !(x == id && k == l)
    requires x != id ==> Apart(p, x, g[x], id, g[id])
    requires BlockOf(x) == BlockOf(id)
    requires RowStored(p, words, x, k, g[x].rows[k])
    requires |words'| == |words|
    requires forall i :: 0 <= i < |words| && !(RowStart(p, id, l) <= i < RowStart(p, id, l) + Cap(p, l)) ==>
      words'[i] == words[i]
    ensures RowStored(p, words', x, k, g[x].rows[k])
  {
    RowInside(p, id, l, Level(g[id]));
    RowInside(p, x, k, Level(g[x]));
    if x == id {
      if k < l {
        RowsInsideNode(p, k, l);
      } else {
        RowsInsideNode(p, l, k);
      }
    }
    assert RawRow(p, words', x, k) == RawRow(p, words, x, k);
  }

  // Allocating a node whose words are written, apart from all others, leaving theirs alone.
  lemma NodeAdded(p: Params, image: Image, image': Image, g: Graph, id: Word, n: GNode)
    requires Represents(p, image, g) && id !in g
    requires NodeStored(p, image', id, n)
    requires forall x :: x in g ==> Apart(p, x, g[x], id, n)
    requires forall x :: x in g ==> SameNodeWords(p, image, image', x, g[x])
    ensures Represents(p, image', g[id := n])
  {
    var h := g[id := n];
    forall x | x in g
      ensures NodeStored(p, image', x, g[x])
    {
      assert NodeStored(p, image, x, g[x]) && SameNodeWords(p, image, image', x, g[x]);
      var words, words' := image[BlockOf(x)], image'[BlockOf(x)];
      assert TotalWords(p, Level(g[x])) >= p.dim;
      assert RawVector(p, words', x) == RawVector(p, words, x);
      forall k: nat | k < |g[x].rows|
        ensures RowStored(p, words', x, k, g[x].rows[k])
      {
        assert RowStored(p, words, x, k, g[x].rows[k]);
        RowInside(p, x, k, Level(g[x]));
        assert RawRow(p, words', x, k) == RawRow(p, words, x, k);
      }
    }
    forall a, b | a in h && b in h && a != b
      ensures Apart(p, a, h[a], b, h[b])
    {
      assert a in g && b in g ==> Apart(p, a, g[a], b, g[b]);
      assert a in g ==> Apart(p, a, g[a], id, n);
      assert b in g ==> Apart(p, b, g[b], id, n);
    }
  }

  lemma ImageGrows(p: Params, image: Image, words: seq<Word>, g: Graph)
    requires Represents(p, image, g)
    ensures Represents(p, image + [words], g)
  {
    forall id | id in g
      ensures NodeStored(p, image + [words], id, g[id])
    {
      assert NodeStored(p, image, id, g[id]);
    }
  }

  function EmptyRows(maxLevel: nat): seq<seq<Word>> {
    seq(maxLevel + 1, _ => [])
  }

  // The words of a block after a node was written at the next aligned offset above `bump`.
  ghost predicate WrittenAt(p: Params, words: seq<Word>, words': seq<Word>, bump: nat, vector: seq<Word>,
      maxLevel: nat) {
    var start := NextMultipleOf(bump, NODE_ALIGNMENT);
    && start % 8 == 0 && |words'| == |words|
    && start / 4 + TotalWords(p, maxLevel) <= |words|
    && |vector| == p.dim <= SpanWords(p) && SpanWords(p) <= TotalWords(p, maxLevel)
    && words'[start / 4..start / 4 + p.dim] == vector
    && (forall k :: start / 4 + SpanWords(p) <= k < start / 4 + TotalWords(p, maxLevel) ==> words'[k] == INVALID)
    && (forall k :: 0 <= k < bump / 4 ==> words'[k] == words[k])
  }

  // A node bumped up at the end of block `b`: its id is new, and it is stored beside the others.
  lemma NodePushed(p: Params, image: Image, words': seq<Word>, g: Graph, b: nat, bump: nat,
                   vector: seq<Word>, maxLevel: nat)
    requires Represents(p, image, g)
    requires b < |image| && b < MAX_BLOCKS && |image[b]| == ARENA_WORDS && maxLevel <= MAX_LEVEL
    requires p.Valid()
    requires forall x :: x in g && BlockOf(x) == b ==> EndWord(p, x, Level(g[x])) * 4 <= bump
    requires WrittenAt(p, image[b], words', bump, vector, maxLevel)
    ensures var start := NextMultipleOf(bump, NODE_ALIGNMENT);
            var id := EncodeId(b, start);
            && id !in g && BlockOf(id) == b && EndWord(p, id, maxLevel) * 4 == start + TotalSize(p, maxLevel)
            && Represents(p, image[b := words'], g[id := GNode(vector, EmptyRows(maxLevel))])
  {
    hide Represents, NodeStored, EncodeId, TotalWords, SpanWords, NextMultipleOf;
    var start := NextMultipleOf(bump, NODE_ALIGNMENT);
    var id, n, image' := EncodeId(b, start), GNode(vector, EmptyRows(maxLevel)), image[b := words'];
    NodeNotTiny(p, maxLevel);
    WordSizes(p, maxLevel);
    IdRoundTrip(b, start);
    assert EndWord(p, id, maxLevel) == start / 4 + TotalWords(p, maxLevel);
    forall x | x in g
      ensures x != id && Apart(p, x, g[x], id, n) && SameNodeWords(p, image, image', x, g[x])
    {
      NodeBelow(p, image, words', g, b, bump, x);
    }
    PushedNodeStored(p, image', id, vector, maxLevel);
    NodeAdded(p, image, image', g, id, n);
  }

  lemma NodeNotTiny(p: Params, maxLevel: nat)
    requires p.Valid()
    ensures 2 <= SpanWords(p) && SpanWords(p) + 2 <= TotalWords(p, maxLevel)
  {
    RowsInsideNode(p, 0, maxLevel);
  }

  // A node under the old bump keeps its words, and lies below whatever is allocated next.
  lemma NodeBelow(p: Params, image: Image, words': seq<Word>, g: Graph, b: nat, bump: nat, x: Word)
    requires Represents(p, image, g) && p.Valid()
    requires b < |image| && |words'| == |image[b]|
    requires x in g && (BlockOf(x) == b ==> EndWord(p, x, Level(g[x])) * 4 <= bump)
    requires forall k :: 0 <= k < bump / 4 && k < |words'| ==> words'[k] == image[b][k]
    ensures SameNodeWords(p, image, image[b := words'], x, g[x])
    ensures BlockOf(x) == b ==> BaseWord(x) * 4 < bump
  {
    assert NodeStored(p, image, x, g[x]);
    NodeNotTiny(p, Level(g[x]));
  }

  lemma PushedNodeStored(p: Params, image: Image, id: Word, vector: seq<Word>, maxLevel: nat)
    requires id != INVALID && maxLevel <= MAX_LEVEL
    requires BlockOf(id) < |image| && EndWord(p, id, maxLevel) <= |image[BlockOf(id)]|
    requires |vector| == p.dim <= SpanWords(p) && BaseWord(id) + p.dim <= |image[BlockOf(id)]|
    requires RawVector(p, image[BlockOf(id)], id) == vector
    requires forall k :: BaseWord(id) + SpanWords(p) <= k < EndWord(p, id, maxLevel) ==>
      image[BlockOf(id)][k] == INVALID
    ensures NodeStored(p, image, id, GNode(vector, EmptyRows(maxLevel)))
  {
    var words := image[BlockOf(id)];
    forall l: nat | l <= maxLevel
      ensures RowStored(p, words, id, l, [])
    {
      RowInside(p, id, l, maxLevel);
      assert RawRow(p, words, id, l) == Pad([], Cap(p, l));
    }
  }

  ghost predicate SameNodeWords(p: Params, image: Image, image': Image, x: Word, n: GNode) {
    && BlockOf(x) < |image| && BlockOf(x) < |image'|
    && EndWord(p, x, Level(n)) <= |image[BlockOf(x)]|
    && EndWord(p, x, Level(n)) <= |image'[BlockOf(x)]|
    && forall k :: BaseWord(x) <= k < EndWord(p, x, Level(n))
         ==> image'[BlockOf(x)][k] == image[BlockOf(x)][k]
  }

  lemma StoredRow(p: Params, image: Image, g: Graph, id: Word, l: nat)
    requires Represents(p, image, g) && HasRow(g, id, l)
    ensures BlockOf(id) < |image|
    ensures RowStored(p, image[BlockOf(id)], id, l, Row(g, id, l))
  {
    assert NodeStored(p, image, id, g[id]);
  }

  // Edges are undirected as they are stored: of two nodes, each one's slots hold the other's id,
  // or neither's do.
  lemma StoredUndirected(p: Params, image: Image, g: Graph, x: Word, y: Word, l: nat)
    requires WellFormed(p, g) && Represents(p, image, g) && HasRow(g, x, l) && HasRow(g, y, l)
    ensures BlockOf(x) < |image| && BlockOf(y) < |image|
    ensures RowStored(p, image[BlockOf(x)], x, l, Row(g, x, l)) && RowStored(p, image[BlockOf(y)], y, l, Row(g, y, l))
    ensures y in RawRow(p, image[BlockOf(x)], x, l) <==> x in RawRow(p, image[BlockOf(y)], y, l)
  {
    hide WellFormed;
    StoredRow(p, image, g, x, l);
    StoredRow(p, image, g, y, l);
    assert NodeStored(p, image, x, g[x]) && NodeStored(p, image, y, g[y]);
    PadHolds(Row(g, x, l), Cap(p, l), y);
    PadHolds(Row(g, y, l), Cap(p, l), x);
    Undirected(p, g, x, y, l);
  }

  lemma PadHolds(row: seq<Word>, cap: nat, x: Word)
    requires |row| <= cap && x != INVALID
    ensures x in Pad(row, cap) <==> x in row
  {
  }

  // New words for a block differ only in the slots of one row, which now hold `row`.
  ghost predicate Rewritten(p: Params, words: seq<Word>, words': seq<Word>, id: Word, l: nat, row: seq<Word>) {
    && SameOutside(words, words', RowStart(p, id, l), Cap(p, l))
    && RowStored(p, words', id, l, row)
  }

  ghost predicate SameOutside(words: seq<Word>, words': seq<Word>, start: nat, cap: nat) {
    && |words'| == |words| && start + cap <= |words|
    && words'[..start] == words[..start]
    && words'[start + cap..] == words[start + cap..]
  }

  lemma RowRewritten(p: Params, image: Image, words': seq<Word>, g: Graph, id: Word, l: nat, row: seq<Word>)
    requires Represents(p, image, g) && HasRow(g, id, l)
    requires BlockOf(id) < |image| && Rewritten(p, image[BlockOf(id)], words', id, l, row)
    ensures Represents(p, image[BlockOf(id) := words'], SetRow(g, id, l, row))
  {
    var image' := image[BlockOf(id) := words'];
    var words, start, cap := image[BlockOf(id)], RowStart(p, id, l), Cap(p, l);
    assert SameOutsideRow(p, image, image', id, l) by {
      forall k | 0 <= k < |words| && !(start <= k < start + cap)
        ensures words'[k] == words[k]
      {
        if k < start {
          assert words'[..start][k] == words[..start][k];
        } else {
          assert words'[start + cap..][k - (start + cap)] == words[start + cap..][k - (start + cap)];
        }
      }
    }
    RowWrite(p, image, image', g, id, l, row);
  }

  // Writing one slot of a window of words.
  lemma SlotWrite(words: seq<Word>, start: nat, cap: nat, k: nat, w: Word)
    requires start + cap <= |words| && k < cap
    ensures SameOutside(words, words[start + k := w], start, cap)
    ensures words[start + k := w][start..start + cap] == words[start..start + cap][k := w]
  {
  }

  lemma SameOutsideTrans(a: seq<Word>, b: seq<Word>, c: seq<Word>, start: nat, cap: nat)
    requires SameOutside(a, b, start, cap) && SameOutside(b, c, start, cap)
    ensures SameOutside(a, c, start, cap)
  {
  }

  // Moving the last slot into the target's and clearing the last one stores the shorter list.
  lemma SwapRemoveSlots(row: seq<Word>, cap: nat, x: Word)
    requires |row| <= cap && x in row
    ensures Pad(SwapRemove(row, x), cap) == Pad(row, cap)[IndexOf(row, x) := row[|row| - 1]][|row| - 1 := INVALID]
  {
  }

  lemma AppendSlot(row: seq<Word>, cap: nat, x: Word)
    requires |row| < cap
    ensures Pad(row + [x], cap) == Pad(row, cap)[|row| := x]
  {
  }

  lemma ReplaceSlot(row: seq<Word>, cap: nat, k: nat, x: Word)
    requires |row| <= cap && k < |row|
    ensures Pad(row[k := x], cap) == Pad(row, cap)[k := x]
  {
  }
}
