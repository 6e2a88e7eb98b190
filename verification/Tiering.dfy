// Moving the blocks of a store between memory, chunk files and nowhere, and loading a store back
// from its chunk files. None of it changes what the store holds.
module Tiering {
  import opened Layout
  import opened Graph
  import opened NodeMemory
  import opened Options
  import opened ArenaAlloc
  import opened ArenaStore
  import opened Sorting
  import WalCodec
  import LevelsFile

  // A directory of chunk files, by chunk number.
  class Directory {
    var files: map<nat, ChunkFile>

    ghost predicate Valid()
      reads this, files.Values
    {
      forall c :: c in files ==> files[c].chunk == c && forall k :: k in files[c].slots ==> k < BLOCKS_PER_FILE
    }

    constructor ()
      ensures Valid() && files == map[]
    {
      files := map[];
    }

    // Open a chunk file for writing, creating it if it is missing; nothing is truncated.
    method OpenForWrite(chunk: nat) returns (f: ChunkFile)
      requires Valid()
      modifies this
      ensures Valid() && f.chunk == chunk && files == old(files)[chunk := f]
      ensures chunk in old(files) ==> f == old(files)[chunk]
      ensures chunk !in old(files) ==> fresh(f) && f.slots == map[]
    {
      if chunk in files {
        f := files[chunk];
        assert files == files[chunk := f];
      } else {
        f := new ChunkFile(chunk);
        files := files[chunk := f];
      }
    }
  }

  // What the directory holds for block `i`.
  ghost function SlotAt(dir: Directory, i: nat): Option<Slot>
    reads dir, dir.files.Values
  {
    var c := i / BLOCKS_PER_FILE;
    if c in dir.files && i % BLOCKS_PER_FILE in dir.files[c].slots then Some(dir.files[c].slots[i % BLOCKS_PER_FILE])
      else None
  }

  // Block `i` with its checksum, as it is written.
  ghost function Written(s: ArenaNodeStore, i: nat): Option<Slot>
    requires i < |s.image|
    reads s`image
  {
    Some(Slot(s.image[i], s.crc(s.image[i])))
  }

  // ── One block ──

  // Write an in-memory block to its slot of a chunk file.
  method CopyToAt(s: ArenaNodeStore, i: nat, f: ChunkFile)
    requires s.Valid() && i < |s.blocks| && s.blocks[i].storage.InMemory? && f.chunk == i / BLOCKS_PER_FILE
    modifies f
    ensures s.Valid()
    ensures f.slots == old(f.slots)[i % BLOCKS_PER_FILE := Slot(s.image[i], s.crc(s.image[i]))]
  {
    hide Represents, NoDup, NextMultipleOf;
    assert s.Synced(i);
    var words := s.blocks[i].storage.arena.words[..];
    f.slots := f.slots[i % BLOCKS_PER_FILE := Slot(words, s.crc(words))];
    // A write to the slot of a block in memory disturbs no other block.
    forall j | 0 <= j < |s.blocks|
      ensures s.BlockOk(j) && s.Synced(j) && s.Counted(j)
    {
      assert old(s.Synced(j)) && old(s.Counted(j));
      if s.blocks[j].storage.OnDisk? && j != i && j / BLOCKS_PER_FILE == i / BLOCKS_PER_FILE {
        OtherSlot(i, j);
      }
    }
    forall id | id in s.G
      ensures s.BelowBump(id)
    {
      assert old(s.BelowBump(id)) && s.Synced(BlockOf(id));
    }
    assert words == s.image[i];
    forall j, k | 0 <= j < k < |s.blocks|
      ensures s.ArenasApart(j, k)
    {
      assert old(s.ArenasApart(j, k));
    }
  }

  // Blocks of one chunk have distinct slots.
  lemma OtherSlot(i: nat, j: nat)
    requires i != j && i / BLOCKS_PER_FILE == j / BLOCKS_PER_FILE
    ensures i % BLOCKS_PER_FILE != j % BLOCKS_PER_FILE
  {
  }

  // Write an in-memory block to its slot and let go of its arena.
  method SwapOutAt(s: ArenaNodeStore, i: nat, b: NodeBlock, f: ChunkFile)
    requires s.Valid() && i < |s.blocks| && s.blocks[i] == b && b.storage.InMemory? && f.chunk == i / BLOCKS_PER_FILE
    modifies f, b`storage, s`Files, s`Arenas, s`Words
    ensures s.Valid() && s.Files == old(s.Files) + {f} && s.Arenas == old(s.Arenas) && s.Words == old(s.Words)
    ensures b.storage == OnDisk(f, i % BLOCKS_PER_FILE)
    ensures f.slots == old(f.slots)[i % BLOCKS_PER_FILE := Slot(s.image[i], s.crc(s.image[i]))]
  {
    CopyToAt(s, i, f);
    Point(s, i, b, OnDisk(f, i % BLOCKS_PER_FILE));
  }

  // Give block `i` other storage that reads the same, in memory only if it is sealed.
  method Point(s: ArenaNodeStore, i: nat, b: NodeBlock, storage: Storage)
    requires s.Valid() && i < |s.blocks| && s.blocks[i] == b
    requires storage.OnDisk? ==>
      && storage.file.chunk == i / BLOCKS_PER_FILE && storage.slot == i % BLOCKS_PER_FILE
      && storage.slot in storage.file.slots && storage.file.slots[storage.slot].words == s.image[i]
    requires storage.InMemory? ==>
      && storage.arena.Valid() && storage.arena.capacity == ARENA_BYTES == storage.arena.bump
      && storage.arena.words[..] == s.image[i]
      && storage.arena !in s.Arenas && storage.arena.words !in s.Words
    modifies b`storage, s`Files, s`Arenas, s`Words
    ensures s.Valid() && b.storage == storage
    ensures s.Files == if storage.OnDisk? then old(s.Files) + {storage.file} else old(s.Files)
    ensures s.Arenas == if storage.InMemory? then old(s.Arenas) + {storage.arena} else old(s.Arenas)
    ensures s.Words == if storage.InMemory? then old(s.Words) + {storage.arena.words} else old(s.Words)
  {
    hide Represents, NoDup, NextMultipleOf, EndWord, Level, BlockOf, CountIn;
    assert s.Synced(i);
    b.storage := storage;
    s.Arenas := if storage.InMemory? then s.Arenas + {storage.arena} else s.Arenas;
    s.Words := if storage.InMemory? then s.Words + {storage.arena.words} else s.Words;
    s.Files := if storage.OnDisk? then s.Files + {storage.file} else s.Files;
    forall j | 0 <= j < |s.blocks|
      ensures s.BlockOk(j) && s.Synced(j) && s.Counted(j)
    {
      assert old(s.Synced(j)) && old(s.Counted(j)) && old(s.BlockOk(j));
    }
    forall id | id in s.G
      ensures s.BelowBump(id)
    {
      assert old(s.BelowBump(id));
      assert s.Synced(BlockOf(id));
      NodeInBlock(s.p, s.image, s.G, id);
    }
    forall j, k | 0 <= j < k < |s.blocks|
      ensures s.ArenasApart(j, k)
    {
      assert old(s.ArenasApart(j, k)) && old(s.BlockOk(j)) && old(s.BlockOk(k));
    }
  }

  lemma NodeInBlock(p: Params, image: Image, g: Graph, id: Word)
    requires Represents(p, image, g) && id in g
    ensures BlockOf(id) < |image| && EndWord(p, id, Level(g[id])) <= |image[BlockOf(id)]|
  {
    assert NodeStored(p, image, id, g[id]);
  }

  // ── The whole store ──

  // How many blocks moved; or the step failed part-way, after moving some blocks.
  datatype Outcome = Done(count: nat) | Failed

  lemma BlocksDistinct(s: ArenaNodeStore)
    requires s.Valid()
    ensures |s.image| == |s.blocks| && forall i, j :: 0 <= i < j < |s.blocks| ==> s.blocks[i] != s.blocks[j]
  {
    hide Represents;
    forall i, j | 0 <= i < j < |s.blocks|
      ensures s.blocks[i] != s.blocks[j]
    {
      assert s.BlockOk(i) && s.BlockOk(j);
      assert s.blocks[i].blockIndex != s.blocks[j].blockIndex;
    }
  }

  // Writing one slot of one file of a directory.
  lemma SlotOf(files: map<nat, ChunkFile>, i: nat, j: nat)
    requires forall c :: c in files ==> files[c].chunk == c
    requires i != j && i / BLOCKS_PER_FILE in files && j / BLOCKS_PER_FILE in files
    ensures files[i / BLOCKS_PER_FILE] == files[j / BLOCKS_PER_FILE] ==> i % BLOCKS_PER_FILE != j % BLOCKS_PER_FILE
  {
  }

  // Store one block in the directory and drop its arena.
  method SwapOutOne(s: ArenaNodeStore, i: nat, b: NodeBlock, dir: Directory)
    requires s.Valid() && dir.Valid() && i < |s.blocks| && s.blocks[i] == b && b.storage.InMemory?
    modifies dir, dir.files.Values, b`storage, s`Files, s`Arenas, s`Words
    ensures s.Valid() && dir.Valid() && |s.image| == |s.blocks| && b.storage.OnDisk?
    ensures forall f :: f in dir.files.Values ==> f in old(dir.files.Values) || fresh(f)
    ensures forall j: nat :: SlotAt(dir, j) == if j == i then Written(s, i) else old(SlotAt(dir, j))
  {
    hide ArenaNodeStore.Valid;
    BlocksDistinct(s);
    var f := dir.OpenForWrite(i / BLOCKS_PER_FILE);
    SwapOutAt(s, i, b, f);
    forall j: nat
      ensures SlotAt(dir, j) == if j == i then Written(s, i) else old(SlotAt(dir, j))
    {
      if j != i && j / BLOCKS_PER_FILE in dir.files {
        SlotOf(dir.files, i, j);
      }
    }
  }

  // Move every block in memory to the directory's chunk files.
  method SwapOut(s: ArenaNodeStore, dir: Directory) returns (r: Outcome)
    requires s.Valid() && dir.Valid()
    modifies dir, dir.files.Values, s.BlockSet(), s`Files, s`Arenas, s`Words
    ensures s.Valid() && dir.Valid() && |s.image| == |s.blocks|
    ensures forall i :: 0 <= i < |s.blocks| ==> s.blocks[i].len == old(s.blocks[i].len)
    ensures r.Failed? <==> !old(s.NoneEvicted())
    ensures r.Done? ==> forall i :: 0 <= i < |s.blocks| ==> s.blocks[i].storage.OnDisk?
    ensures forall f :: f in dir.files.Values ==> f in old(dir.files.Values) || fresh(f)
    ensures forall i: nat ::
      SlotAt(dir, i) == old(SlotAt(dir, i)) || (i < |s.blocks| && SlotAt(dir, i) == Written(s, i))
    ensures r.Done? ==> forall i: nat ::
      SlotAt(dir, i) == if i < |s.blocks| && old(s.blocks[i].storage).InMemory? then Written(s, i)
        else old(SlotAt(dir, i))
  {
    hide ArenaNodeStore.Valid, SlotAt;
    BlocksDistinct(s);
    var moved := 0;
    for i := 0 to |s.blocks|
      invariant s.Valid() && dir.Valid() && |s.image| == |s.blocks|
      invariant forall j :: 0 <= j < |s.blocks| ==> s.blocks[j].len == old(s.blocks[j].len)
      invariant forall j :: i <= j < |s.blocks| ==> s.blocks[j].storage == old(s.blocks[j].storage)
      invariant forall j :: 0 <= j < i ==> !old(s.blocks[j].storage).Evicted? && s.blocks[j].storage.OnDisk?
      invariant forall j: nat :: SlotAt(dir, j) == if j < i && old(s.blocks[j].storage).InMemory? then Written(s, j)
        else old(SlotAt(dir, j))
      invariant forall f :: f in dir.files.Values ==> f in old(dir.files.Values) || fresh(f)
    {
      if !s.blocks[i].storage.OnDisk? {
        if s.blocks[i].storage.Evicted? {
          return Failed;
        }
        SwapOutOne(s, i, s.blocks[i], dir);
        moved := moved + 1;
      }
    }
    r := Done(moved);
  }

  // A new arena with the given words, sealed: nothing more can be allocated in it.
  method SealedArena(words: seq<Word>) returns (a: Arena)
    requires |words| == ARENA_WORDS
    ensures fresh(a) && fresh(a.words) && a.Valid() && a.capacity == ARENA_BYTES == a.bump && a.words[..] == words
  {
    a := new Arena(ARENA_BYTES);
    a.FullSize();
    forall k | 0 <= k < ARENA_WORDS {
      a.words[k] := words[k];
    }
    assert a.words[..] == words;
    Seal(a);
  }

  method Seal(a: Arena)
    requires a.Valid() && a.capacity == ARENA_BYTES && a.bump == 0
    modifies a`bump, a.words
    ensures a.Valid() && a.bump == ARENA_BYTES && a.words[..] == old(a.words[..])
  {
    var start := a.AllocRaw(a.capacity, 1);
  }

  // Bring a block back into memory with the words it had.
  method Bring(s: ArenaNodeStore, i: nat, b: NodeBlock, words: seq<Word>)
    requires s.Valid() && i < |s.blocks| == |s.image| && s.blocks[i] == b && words == s.image[i]
    modifies b`storage, s`Files, s`Arenas, s`Words
    ensures s.Valid() && b.storage.InMemory? && b.storage.arena.bump == ARENA_BYTES
    ensures fresh(s.Arenas - old(s.Arenas)) && fresh(s.Words - old(s.Words)) && s.Files == old(s.Files)
  {
    hide ArenaNodeStore.Valid;
    WordsOfBlock(s, i);
    var arena := SealedArena(words);
    Point(s, i, b, InMemory(arena));
  }

  lemma WordsOfBlock(s: ArenaNodeStore, i: nat)
    requires s.Valid() && i < |s.blocks|
    ensures i < |s.image| && |s.image[i]| == ARENA_WORDS
    ensures s.blocks[i].storage.OnDisk? ==>
      var f, k := s.blocks[i].storage.file, s.blocks[i].storage.slot; k in f.slots && f.slots[k].words == s.image[i]
  {
    assert s.Synced(i);
  }

  // Read every on-disk block back into a sealed arena.
  method SwapIn(s: ArenaNodeStore) returns (r: Outcome)
    requires s.Valid()
    modifies s.BlockSet(), s`Files, s`Arenas, s`Words
    ensures s.Valid()
    ensures forall i :: 0 <= i < |s.blocks| ==> s.blocks[i].len == old(s.blocks[i].len)
    ensures r.Failed? <==> !old(s.NoneEvicted())
    ensures r.Done? ==> s.AllInMemory()
    ensures forall i :: 0 <= i < |s.blocks| && old(s.blocks[i].storage).InMemory? ==>
      s.blocks[i].storage == old(s.blocks[i].storage)
  {
    hide ArenaNodeStore.Valid;
    BlocksDistinct(s);
    var restored := 0;
    for i := 0 to |s.blocks|
      invariant s.Valid() && |s.image| == |s.blocks|
      invariant forall j :: 0 <= j < |s.blocks| ==> s.blocks[j].len == old(s.blocks[j].len)
      invariant forall j :: i <= j < |s.blocks| ==> s.blocks[j].storage == old(s.blocks[j].storage)
      invariant forall j :: 0 <= j < i ==> !old(s.blocks[j].storage).Evicted? && s.blocks[j].storage.InMemory?
      invariant forall j :: 0 <= j < i && old(s.blocks[j].storage).InMemory? ==>
        s.blocks[j].storage == old(s.blocks[j].storage)
    {
      WordsOfBlock(s, i);
      match s.blocks[i].storage {
        case InMemory(_) =>
        case OnDisk(file, slot) =>
          Bring(s, i, s.blocks[i], file.slots[slot].words);
          restored := restored + 1;
        case Evicted =>
          return Failed;
      }
    }
    r := Done(restored);
  }

  // Drop the local backing of every block.
  method Evict(s: ArenaNodeStore) returns (evicted: nat)
    requires s.Valid()
    modifies s.BlockSet(), s`Files, s`Arenas, s`Words
    ensures s.Valid() && forall i :: 0 <= i < |s.blocks| ==>
      s.blocks[i].storage.Evicted? && s.blocks[i].len == old(s.blocks[i].len)
  {
    hide ArenaNodeStore.Valid;
    BlocksDistinct(s);
    evicted := 0;
    for i := 0 to |s.blocks|
      invariant s.Valid() && |s.image| == |s.blocks|
      invariant forall j :: 0 <= j < |s.blocks| ==> s.blocks[j].len == old(s.blocks[j].len)
      invariant forall j :: 0 <= j < i ==> s.blocks[j].storage.Evicted?
    {
      if !s.blocks[i].storage.Evicted? {
        Point(s, i, s.blocks[i], Evicted);
        evicted := evicted + 1;
      }
    }
  }

  // A slot whose checksum is right holds what the block held.
  ghost predicate Trusted(s: ArenaNodeStore, dir: Directory)
    requires |s.image| == |s.blocks|
    reads s`image, s`blocks, dir, dir.files.Values
  {
    forall i: nat :: i < |s.blocks| && Checked(s, dir, i) ==> SlotAt(dir, i).value.words == s.image[i]
  }

  ghost predicate Checked(s: ArenaNodeStore, dir: Directory, i: nat)
    reads dir, dir.files.Values
  {
    SlotAt(dir, i).Some? && SlotAt(dir, i).value.crc == s.crc(SlotAt(dir, i).value.words)
  }

  method ReadChecked(s: ArenaNodeStore, dir: Directory, i: nat) returns (words: Option<seq<Word>>)
    ensures words.Some? <==> Checked(s, dir, i)
    ensures words.Some? ==> words.value == SlotAt(dir, i).value.words
  {
    var c, k := i / BLOCKS_PER_FILE, i % BLOCKS_PER_FILE;
    if c !in dir.files || k !in dir.files[c].slots {
      return None;
    }
    var slot := dir.files[c].slots[k];
    words := if s.crc(slot.words) == slot.crc then Some(slot.words) else None;
  }

  // Restore every block out of memory from a directory; fails at the first missing or damaged
  // one.
  method SwapInFrom(s: ArenaNodeStore, dir: Directory) returns (r: Outcome)
    requires s.Valid() && |s.image| == |s.blocks| && Trusted(s, dir)
    modifies s.BlockSet(), s`Files, s`Arenas, s`Words
    ensures s.Valid()
    ensures forall i :: 0 <= i < |s.blocks| ==> s.blocks[i].len == old(s.blocks[i].len)
    ensures r.Done? ==> s.AllInMemory()
    ensures r.Done? <==> forall i :: 0 <= i < |s.blocks| && !old(s.blocks[i].storage).InMemory? ==> Checked(s, dir, i)
  {
    hide ArenaNodeStore.Valid, SlotAt, Checked;
    BlocksDistinct(s);
    var restored := 0;
    for i := 0 to |s.blocks|
      invariant s.Valid() && |s.image| == |s.blocks|
      invariant forall j :: 0 <= j < |s.blocks| ==> s.blocks[j].len == old(s.blocks[j].len)
      invariant forall j :: i <= j < |s.blocks| ==> s.blocks[j].storage == old(s.blocks[j].storage)
      invariant forall j :: 0 <= j < i ==> s.blocks[j].storage.InMemory?
      invariant forall j :: 0 <= j < i && !old(s.blocks[j].storage).InMemory? ==> Checked(s, dir, j)
    {
      if !s.blocks[i].storage.InMemory? {
        var words := ReadChecked(s, dir, i);
        if words.None? {
          return Failed;
        }
        Bring(s, i, s.blocks[i], words.value);
        restored := restored + 1;
      }
    }
    r := Done(restored);
  }

  // Copy every block in memory to the directory, leaving the store as it is.
  method SnapshotToDir(s: ArenaNodeStore, dir: Directory) returns (written: nat)
    requires s.Valid() && dir.Valid()
    modifies dir, dir.files.Values
    ensures s.Valid() && dir.Valid() && |s.image| == |s.blocks|
    ensures forall f :: f in dir.files.Values ==> f in old(dir.files.Values) || fresh(f)
    ensures forall i: nat ::
      SlotAt(dir, i) == if i < |s.blocks| && s.blocks[i].storage.InMemory? then Written(s, i) else old(SlotAt(dir, i))
  {
    hide ArenaNodeStore.Valid, SlotAt;
    BlocksDistinct(s);
    written := 0;
    for i := 0 to |s.blocks|
      invariant s.Valid() && dir.Valid()
      invariant forall j: nat ::
        SlotAt(dir, j) == if j < i && s.blocks[j].storage.InMemory? then Written(s, j) else old(SlotAt(dir, j))
      invariant forall f :: f in dir.files.Values ==> f in old(dir.files.Values) || fresh(f)
    {
      if s.blocks[i].storage.InMemory? {
        CopyOne(s, i, dir);
        written := written + 1;
      }
    }
  }

  method CopyOne(s: ArenaNodeStore, i: nat, dir: Directory)
    requires s.Valid() && dir.Valid() && i < |s.blocks| && s.blocks[i].storage.InMemory?
    modifies dir, dir.files.Values
    ensures s.Valid() && dir.Valid() && |s.image| == |s.blocks|
    ensures forall f :: f in dir.files.Values ==> f in old(dir.files.Values) || fresh(f)
    ensures forall j: nat :: SlotAt(dir, j) == if j == i then Written(s, i) else old(SlotAt(dir, j))
  {
    hide ArenaNodeStore.Valid;
    BlocksDistinct(s);
    var f := dir.OpenForWrite(i / BLOCKS_PER_FILE);
    CopyToAt(s, i, f);
    forall j: nat
      ensures SlotAt(dir, j) == if j == i then Written(s, i) else old(SlotAt(dir, j))
    {
      if j != i && j / BLOCKS_PER_FILE in dir.files {
        SlotOf(dir.files, i, j);
      }
    }
  }

  // ── Loading a store from its chunk files ──

  // The blocks so far hold the start of the image, each in a sealed arena.
  ghost predicate Loading(s: ArenaNodeStore, image: Image)
    reads s, s.blocks, s.Arenas, s.Files, s.Words
  {
    && s.Shape() && |s.blocks| <= |image|
    && forall j :: 0 <= j < |s.blocks| ==>
      s.Reads(j, image[j]) && s.blocks[j].storage.InMemory? && s.blocks[j].storage.arena.bump == ARENA_BYTES
  }

  method LoadOne(s: ArenaNodeStore, words: seq<Word>, ghost image: Image)
    requires Loading(s, image) && |s.blocks| < |image| && words == image[|s.blocks|] && |words| == ARENA_WORDS
    modifies s`blocks, s`Arenas, s`Words
    ensures Loading(s, image) && |s.blocks| == old(|s.blocks|) + 1
    ensures fresh(s.BlockSet() - old(s.BlockSet()))
  {
    hide NextMultipleOf;
    var k := |s.blocks|;
    var b := new NodeBlock(s.p, k);
    var a := SealedArena(words);
    b.storage := InMemory(a);
    s.blocks := s.blocks + [b];
    s.Arenas, s.Words := s.Arenas + {a}, s.Words + {a.words};
    forall j | 0 <= j < |s.blocks|
      ensures s.BlockOk(j) && s.Reads(j, image[j])
      ensures s.blocks[j].storage.InMemory? && s.blocks[j].storage.arena.bump == ARENA_BYTES
    {
      if j < k {
        assert old(s.Reads(j, image[j]));
        assert s.blocks[j] == old(s.blocks[j]);
      }
    }
    forall i, j | 0 <= i < j < |s.blocks|
      ensures s.ArenasApart(i, j)
    {
      assert old(s.BlockOk(i));
      if j < k {
        assert old(s.ArenasApart(i, j));
      }
    }
  }

  // The directory holds the blocks of the image, in slots 0 to 31 of each file, and no others;
  // what passes its checksum is what was written.
  ghost predicate Holds(dir: Directory, crc: seq<Word> -> Word, image: Image)
    reads dir, dir.files.Values
  {
    && (forall c, k :: c in dir.files && k in dir.files[c].slots ==> k < BLOCKS_PER_FILE)
    && (forall i: nat :: SlotAt(dir, i).Some? <==> i < |image|)
    && forall i: nat :: i < |image| ==>
      |image[i]| == ARENA_WORDS && (SlotOk(dir, crc, i) ==> SlotAt(dir, i).value.words == image[i])
  }

  ghost predicate SlotOk(dir: Directory, crc: seq<Word> -> Word, i: nat)
    reads dir, dir.files.Values
  {
    SlotAt(dir, i).Some? && SlotAt(dir, i).value.crc == crc(SlotAt(dir, i).value.words)
  }

  ghost predicate AllOk(dir: Directory, crc: seq<Word> -> Word, from: nat, to: nat)
    reads dir, dir.files.Values
  {
    forall i: nat :: from <= i < to ==> SlotOk(dir, crc, i)
  }

  // The number of block slots a chunk file spans: its length over the stride.
  method SlotCount(f: ChunkFile) returns (n: nat)
    requires forall k :: k in f.slots ==> k < BLOCKS_PER_FILE
    ensures n <= BLOCKS_PER_FILE && (forall k :: k in f.slots ==> k < n) && (n > 0 ==> n - 1 in f.slots)
  {
    n := BLOCKS_PER_FILE;
    while n > 0 && n - 1 !in f.slots
      invariant n <= BLOCKS_PER_FILE && forall k :: k in f.slots ==> k < n
    {
      n := n - 1;
    }
  }

  // After the first `k` chunks exactly the blocks of these chunks are loaded.
  ghost predicate ChunksDone(keys: seq<nat>, k: nat, loaded: nat, total: nat) {
    && k <= |keys| && loaded <= total
    && forall i :: 0 <= i < total ==> (i < loaded <==> i / BLOCKS_PER_FILE in keys[..k])
  }

  // The blocks of the next chunk follow directly, and all its slots up to the last are there.
  lemma NextChunk(dir: Directory, crc: seq<Word> -> Word, image: Image, keys: seq<nat>, k: nat, loaded: nat, n: nat)
    requires dir.Valid() && Holds(dir, crc, image) && Ascending(Less, keys)
      && (forall c :: c in keys <==> c in dir.files)
    requires ChunksDone(keys, k, loaded, |image|) && k < |keys|
    requires n <= BLOCKS_PER_FILE && (forall x :: x in dir.files[keys[k]].slots ==> x < n)
    requires n > 0 ==> n - 1 in dir.files[keys[k]].slots
    ensures n > 0 ==> loaded == keys[k] * BLOCKS_PER_FILE
    ensures loaded + n <= |image| && ChunksDone(keys, k + 1, loaded + n, |image|)
  {
    var c := keys[k];
    assert forall j :: 0 <= j < k ==> Less(keys[j], keys[k]);
    assert c !in keys[..k];
    assert keys[..k + 1] == keys[..k] + [c];
    if n > 0 {
      var last := c * BLOCKS_PER_FILE + (n - 1);
      assert last / BLOCKS_PER_FILE == c && last % BLOCKS_PER_FILE == n - 1;
      assert SlotAt(dir, last).Some?;
      assert (c * BLOCKS_PER_FILE) / BLOCKS_PER_FILE == c;
      if loaded < c * BLOCKS_PER_FILE {
        ChunkListed(dir, crc, image, keys, k, loaded);
      }
    }
    forall i | 0 <= i < |image|
      ensures i < loaded + n <==> i / BLOCKS_PER_FILE in keys[..k + 1]
    {
      assert SlotAt(dir, i).Some?;
    }
  }

  // A block not loaded yet is in a chunk not reached yet.
  lemma ChunkListed(dir: Directory, crc: seq<Word> -> Word, image: Image, keys: seq<nat>, k: nat, i: nat)
    requires Holds(dir, crc, image) && Ascending(Less, keys) && (forall c :: c in keys <==> c in dir.files)
    requires k < |keys| && i < |image| && i / BLOCKS_PER_FILE !in keys[..k]
    ensures keys[k] <= i / BLOCKS_PER_FILE
  {
    assert SlotAt(dir, i).Some?;
    assert forall x :: 0 <= x < k ==> keys[x] in keys[..k];
    var j :| 0 <= j < |keys| && keys[j] == i / BLOCKS_PER_FILE;
    assert k < j ==> Less(keys[k], keys[j]);
  }

  // Read the slots of one chunk; `done` is where in the image it starts.
  method LoadChunk(s: ArenaNodeStore, f: ChunkFile, n: nat, dir: Directory, ghost image: Image) returns (ok: bool)
    requires dir.Valid() && Holds(dir, s.crc, image) && Loading(s, image)
    requires f.chunk in dir.files && dir.files[f.chunk] == f && n <= BLOCKS_PER_FILE
    requires |s.blocks| + n <= |image| && (n > 0 ==> |s.blocks| == f.chunk * BLOCKS_PER_FILE)
    modifies s`blocks, s`Arenas, s`Words
    ensures Loading(s, image) && fresh(s.BlockSet() - old(s.BlockSet()))
    ensures ok ==> |s.blocks| == old(|s.blocks|) + n
    ensures ok <==> AllOk(dir, s.crc, old(|s.blocks|), old(|s.blocks|) + n)
  {
    hide Loading, SlotOk;
    ghost var start := |s.blocks|;
    for k := 0 to n
      invariant Loading(s, image) && |s.blocks| == start + k && fresh(s.BlockSet() - old(s.BlockSet()))
      invariant AllOk(dir, s.crc, start, start + k)
    {
      SlotOfChunk(dir, s.crc, image, f, k);
      var slot := f.slots[k];
      if s.crc(slot.words) != slot.crc {
        return false;
      }
      LoadOne(s, slot.words, image);
    }
    ok := true;
  }

  lemma SlotOfChunk(dir: Directory, crc: seq<Word> -> Word, image: Image, f: ChunkFile, k: nat)
    requires Holds(dir, crc, image) && f.chunk in dir.files && dir.files[f.chunk] == f && k < BLOCKS_PER_FILE
    requires f.chunk * BLOCKS_PER_FILE + k < |image|
    ensures var i := f.chunk * BLOCKS_PER_FILE + k;
      && k in f.slots && |image[i]| == ARENA_WORDS
      && (SlotOk(dir, crc, i) <==> crc(f.slots[k].words) == f.slots[k].crc)
      && (SlotOk(dir, crc, i) ==> f.slots[k].words == image[i])
  {
    var i := f.chunk * BLOCKS_PER_FILE + k;
    assert i / BLOCKS_PER_FILE == f.chunk && i % BLOCKS_PER_FILE == k;
    assert SlotAt(dir, i).Some?;
  }

  // Count the nodes of each block from the list of node ids.
  method RebuildLens(s: ArenaNodeStore, ghost image: Image, nodeIds: seq<Word>)
    requires Loading(s, image)
    modifies s.BlockSet()
    ensures Loading(s, image)
    ensures forall i :: 0 <= i < |s.blocks| ==> s.blocks[i].len == CountIn(nodeIds, i)
  {
    hide CountIn, NextMultipleOf;
    DistinctBlocks(s, image);
    SetLens(s, nodeIds);
    forall j | 0 <= j < |s.blocks|
      ensures s.BlockOk(j) && s.Reads(j, image[j])
    {
      assert old(s.Reads(j, image[j]));
    }
    forall i, j | 0 <= i < j < |s.blocks|
      ensures s.ArenasApart(i, j)
    {
      assert old(s.ArenasApart(i, j));
    }
  }

  method SetLens(s: ArenaNodeStore, nodeIds: seq<Word>)
    requires forall i, j :: 0 <= i < j < |s.blocks| ==> s.blocks[i] != s.blocks[j]
    modifies s.BlockSet()
    ensures forall i :: 0 <= i < |s.blocks| ==>
      s.blocks[i].len == CountIn(nodeIds, i) && s.blocks[i].storage == old(s.blocks[i].storage)
  {
    for i := 0 to |s.blocks|
      invariant forall j :: 0 <= j < i ==> s.blocks[j].len == 0
      invariant forall j :: 0 <= j < |s.blocks| ==> s.blocks[j].storage == old(s.blocks[j].storage)
    {
      s.blocks[i].len := 0;
    }
    assert nodeIds[..0] == [];
    for k := 0 to |nodeIds|
      invariant forall j :: 0 <= j < |s.blocks| ==> s.blocks[j].len == CountIn(nodeIds[..k], j)
      invariant forall j :: 0 <= j < |s.blocks| ==> s.blocks[j].storage == old(s.blocks[j].storage)
    {
      var b := BlockOf(nodeIds[k]);
      assert nodeIds[..k + 1][..k] == nodeIds[..k];
      if b < |s.blocks| {
        s.blocks[b].len := s.blocks[b].len + 1;
      }
    }
    assert nodeIds[..|nodeIds|] == nodeIds;
  }

  // Load a store from a directory that holds an image, and rebuild its counts from the node ids
  // saved beside it: it is the store that was written, all in memory, unless a slot is damaged.
  method LoadFromDir(p: Params, dist: Metric, crc: seq<Word> -> Word, dir: Directory, nodeIds: seq<Word>,
                     ghost image: Image, ghost g: Graph)
    returns (r: Option<ArenaNodeStore>)
    requires p.Valid() && dir.Valid() && Holds(dir, crc, image)
    requires Represents(p, image, g) && NoDup(nodeIds) && forall id :: id in nodeIds <==> id in g
    ensures r.Some? <==> AllOk(dir, crc, 0, |image|)
    ensures r.Some? ==>
      && fresh(r.value) && r.value.Valid() && r.value.AllInMemory()
      && r.value.G == g && r.value.image == image && r.value.ids == nodeIds
      && r.value.p == p && r.value.dist == dist && r.value.writeCount == 1 && r.value.cleanVersion == 0
  {
    hide Loading, AllOk, Represents, ArenaNodeStore.Valid, NextMultipleOf, Holds, ChunksDone;
    var s := new ArenaNodeStore(p, dist, crc);
    StartLoading(s, image);
    LessIsStrict();
    var keys := SortedKeys(dir.files.Keys, Less);
    var ok := LoadChunks(s, dir, keys, image);
    if !ok {
      return None;
    }
    RebuildLens(s, image, nodeIds);
    Assemble(s, image, g, nodeIds);
    r := Some(s);
  }

  // Read the chunks in order; stop at the first damaged slot.
  method LoadChunks(s: ArenaNodeStore, dir: Directory, keys: seq<nat>, ghost image: Image) returns (ok: bool)
    requires dir.Valid() && Holds(dir, s.crc, image) && Loading(s, image) && s.blocks == []
    requires Ascending(Less, keys) && forall c :: c in keys <==> c in dir.files
    modifies s`blocks, s`Arenas, s`Words
    ensures Loading(s, image) && fresh(s.BlockSet())
    ensures ok <==> AllOk(dir, s.crc, 0, |image|)
    ensures ok ==> |s.blocks| == |image|
  {
    hide Loading, AllOk, Holds, ChunksDone, SlotAt, Ascending;
    NoChunks(dir, s.crc, keys, |image|);
    for k := 0 to |keys|
      invariant Loading(s, image) && fresh(s.BlockSet())
      invariant ChunksDone(keys, k, |s.blocks|, |image|) && AllOk(dir, s.crc, 0, |s.blocks|)
    {
      assert keys[k] in keys;
      var f := dir.files[keys[k]];
      SlotsBounded(dir, s.crc, image, keys[k]);
      var n := SlotCount(f);
      NextChunk(dir, s.crc, image, keys, k, |s.blocks|, n);
      AllOkParts(dir, s.crc, |s.blocks|, n, |image|);
      var good := LoadChunk(s, f, n, dir, image);
      if !good {
        return false;
      }
    }
    AllChunks(dir, s.crc, image, keys, |s.blocks|);
    ok := true;
  }

  lemma AllOkParts(dir: Directory, crc: seq<Word> -> Word, loaded: nat, n: nat, total: nat)
    requires loaded + n <= total && AllOk(dir, crc, 0, loaded)
    ensures AllOk(dir, crc, loaded, loaded + n) <==> AllOk(dir, crc, 0, loaded + n)
    ensures AllOk(dir, crc, 0, total) ==> AllOk(dir, crc, 0, loaded + n)
  {
    hide SlotOk;
  }

  lemma StartLoading(s: ArenaNodeStore, image: Image)
    requires s.Valid() && s.blocks == []
    ensures Loading(s, image)
  {
  }

  lemma LessIsStrict()
    ensures StrictOrder(Less)
  {
  }

  lemma NoChunks(dir: Directory, crc: seq<Word> -> Word, keys: seq<nat>, total: nat)
    ensures ChunksDone(keys, 0, 0, total) && AllOk(dir, crc, 0, 0)
  {
  }

  lemma SlotsBounded(dir: Directory, crc: seq<Word> -> Word, image: Image, c: nat)
    requires Holds(dir, crc, image) && c in dir.files
    ensures forall k :: k in dir.files[c].slots ==> k < BLOCKS_PER_FILE
  {
  }

  lemma AllChunks(dir: Directory, crc: seq<Word> -> Word, image: Image, keys: seq<nat>, loaded: nat)
    requires Holds(dir, crc, image) && (forall c :: c in keys <==> c in dir.files)
      && ChunksDone(keys, |keys|, loaded, |image|)
    ensures loaded == |image|
  {
    assert keys[..|keys|] == keys;
    assert loaded < |image| ==> SlotAt(dir, loaded).Some?;
  }

  lemma DistinctBlocks(s: ArenaNodeStore, image: Image)
    requires Loading(s, image)
    ensures forall i, j :: 0 <= i < j < |s.blocks| ==> s.blocks[i] != s.blocks[j]
  {
    forall i, j | 0 <= i < j < |s.blocks|
      ensures s.blocks[i] != s.blocks[j]
    {
      assert s.BlockOk(i) && s.BlockOk(j);
      assert s.blocks[i].blockIndex != s.blocks[j].blockIndex;
    }
  }

  // Fully loaded blocks with the right counts make a valid store.
  ghost method Assemble(s: ArenaNodeStore, image: Image, g: Graph, ids: seq<Word>)
    requires Loading(s, image) && |s.blocks| == |image| && s.p.Valid()
    requires Represents(s.p, image, g) && NoDup(ids) && forall id :: id in ids <==> id in g
    requires forall i :: 0 <= i < |s.blocks| ==> s.blocks[i].len == CountIn(ids, i)
    modifies s`image, s`G, s`ids
    ensures s.Valid() && s.AllInMemory() && s.image == image && s.G == g && s.ids == ids
  {
    hide Represents, NoDup, NextMultipleOf, CountIn;
    s.image, s.G, s.ids := image, g, ids;
    forall i | 0 <= i < |s.blocks|
      ensures s.BlockOk(i) && s.Synced(i) && s.Counted(i)
    {
      assert old(s.Reads(i, image[i]));
    }
    forall i, j | 0 <= i < j < |s.blocks|
      ensures s.ArenasApart(i, j)
    {
      assert old(s.ArenasApart(i, j));
    }
    forall id | id in s.G
      ensures s.BelowBump(id)
    {
      NodeInBlock(s.p, image, g, id);
      assert s.Synced(BlockOf(id));
    }
  }

  // ── Sequences of moves ──

  datatype Move = ToDisk | ToMemory | Drop | FromDirectory | Snapshot

  lemma StillTrusted(s: ArenaNodeStore, dir: Directory, slots: nat -> Option<Slot>)
    requires |s.image| == |s.blocks|
    requires forall i: nat :: i < |s.blocks| && slots(i).Some? && slots(i).value.crc == s.crc(slots(i).value.words) ==>
      slots(i).value.words == s.image[i]
    requires forall i: nat :: SlotAt(dir, i) == slots(i) || (i < |s.blocks| && SlotAt(dir, i) == Written(s, i))
    ensures Trusted(s, dir)
  {
    hide SlotAt;
  }

  // Whatever moves are made, in whatever order and with whatever failures on the way, the store
  // still holds the same vectors, rows and counts. (What a read returns is a function of these.)
  method AnyMoves(s: ArenaNodeStore, dir: Directory, moves: seq<Move>)
    requires s.Valid() && dir.Valid() && |s.image| == |s.blocks| && Trusted(s, dir)
    modifies dir, dir.files.Values, s.BlockSet(), s`Files, s`Arenas, s`Words
    ensures s.Valid() && s.G == old(s.G) && s.image == old(s.image) && s.ids == old(s.ids) && s.blocks == old(s.blocks)
    ensures forall i :: 0 <= i < |s.blocks| ==> s.blocks[i].len == old(s.blocks[i].len)
  {
    hide ArenaNodeStore.Valid, SlotAt, Directory.Valid;
    for k := 0 to |moves|
      invariant s.Valid() && dir.Valid() && |s.image| == |s.blocks| && Trusted(s, dir)
      invariant forall i :: 0 <= i < |s.blocks| ==> s.blocks[i].len == old(s.blocks[i].len)
      invariant forall f :: f in dir.files.Values ==> f in old(dir.files.Values) || fresh(f)
    {
      AnyMove(s, dir, moves[k]);
    }
  }

  method AnyMove(s: ArenaNodeStore, dir: Directory, move: Move)
    requires s.Valid() && dir.Valid() && |s.image| == |s.blocks| && Trusted(s, dir)
    modifies dir, dir.files.Values, s.BlockSet(), s`Files, s`Arenas, s`Words
    ensures s.Valid() && dir.Valid() && Trusted(s, dir)
    ensures forall i :: 0 <= i < |s.blocks| ==> s.blocks[i].len == old(s.blocks[i].len)
    ensures forall f :: f in dir.files.Values ==> f in old(dir.files.Values) || fresh(f)
  {
    hide ArenaNodeStore.Valid, SlotAt, Directory.Valid;
    ghost var slots: nat -> Option<Slot> := (i: nat) => old(SlotAt(dir, i));
    match move
    case ToDisk => var _ := SwapOut(s, dir); StillTrusted(s, dir, slots);
    case ToMemory => var _ := SwapIn(s);
    case Drop => var _ := Evict(s);
    case FromDirectory => var _ := SwapInFrom(s, dir);
    case Snapshot => var _ := SnapshotToDir(s, dir); StillTrusted(s, dir, slots);
  }

  // Out to a directory, evicted, and back: everything is in memory again.
  method EvictAndRestore(s: ArenaNodeStore, dir: Directory) returns (r: Outcome)
    requires s.Valid() && dir.Valid() && s.AllInMemory()
    modifies dir, dir.files.Values, s.BlockSet(), s`Files, s`Arenas, s`Words
    ensures r.Done? && s.Valid() && s.AllInMemory()
    ensures s.G == old(s.G) && s.image == old(s.image) && s.ids == old(s.ids)
    ensures forall i :: 0 <= i < |s.blocks| ==> s.blocks[i].len == old(s.blocks[i].len)
  {
    hide ArenaNodeStore.Valid, SlotAt, Directory.Valid, Trusted, Checked, Written;
    var out := SwapOut(s, dir);
    var _ := Evict(s);
    WrittenChecked(s, dir);
    r := SwapInFrom(s, dir);
  }

  lemma WrittenChecked(s: ArenaNodeStore, dir: Directory)
    requires |s.image| == |s.blocks| && forall i: nat :: i < |s.blocks| ==> SlotAt(dir, i) == Written(s, i)
    ensures Trusted(s, dir) && forall i: nat :: i < |s.blocks| ==> Checked(s, dir, i)
  {
    hide SlotAt;
  }

  // A snapshot of a store in memory, in an empty directory, loads as the same store.
  method SnapshotAndLoad(s: ArenaNodeStore, dir: Directory, nodeIds: seq<Word>) returns (r: Option<ArenaNodeStore>)
    requires s.Valid() && s.AllInMemory() && nodeIds == s.ids && dir.files == map[]
    modifies dir
    ensures r.Some? && fresh(r.value) && r.value.Valid() && r.value.AllInMemory()
    ensures r.value.G == s.G == old(s.G) && r.value.image == s.image && r.value.ids == s.ids
    ensures AsNew(s, r.value)
  {
    hide ArenaNodeStore.Valid, SlotAt, NextMultipleOf, NoDup;
    EmptyDirectory(dir);
    var _ := SnapshotToDir(s, dir);
    SnapshotHolds(s, dir);
    r := LoadFromDir(s.p, s.dist, s.crc, dir, nodeIds, s.image, s.G);
  }

  // A store in memory, swapped out to an empty directory, loads from there as the same store.
  method SwapOutAndLoad(s: ArenaNodeStore, dir: Directory, nodeIds: seq<Word>) returns (r: Option<ArenaNodeStore>)
    requires s.Valid() && s.AllInMemory() && nodeIds == s.ids && dir.files == map[]
    modifies dir, s.BlockSet(), s`Files, s`Arenas, s`Words
    ensures s.Valid() && s.G == old(s.G) && s.image == old(s.image) && s.ids == old(s.ids)
    ensures forall i :: 0 <= i < |s.blocks| ==> s.blocks[i].storage.OnDisk?
    ensures r.Some? && fresh(r.value) && r.value.Valid() && r.value.AllInMemory()
    ensures r.value.G == s.G && r.value.image == s.image && r.value.ids == s.ids
    ensures AsNew(s, r.value)
  {
    hide ArenaNodeStore.Valid, SlotAt, NextMultipleOf, NoDup;
    EmptyDirectory(dir);
    var out := SwapOut(s, dir);
    SnapshotHolds(s, dir);
    r := LoadFromDir(s.p, s.dist, s.crc, dir, nodeIds, s.image, s.G);
  }

  // Save the id lists beside the chunk files, by snapshot or by swapping out; load both, and
  // rebuild the counts from the loaded ids: the same lists and the same store.
  method SaveAndLoad(s: ArenaNodeStore, dir: Directory, lists: LevelsFile.Lists, sum: WalCodec.Checksum, swap: bool)
    returns (r: Option<ArenaNodeStore>, loaded: LevelsFile.Loaded)
    requires s.Valid() && s.AllInMemory() && dir.files == map[]
    requires LevelsFile.Parallel(lists) && lists.nodeIds == s.ids
    modifies dir, s.BlockSet(), s`Files, s`Arenas, s`Words
    ensures loaded == LevelsFile.Loaded(lists)
    ensures s.Valid() && s.G == old(s.G) && s.image == old(s.image) && s.ids == old(s.ids)
    ensures r.Some? && fresh(r.value) && r.value.Valid() && r.value.AllInMemory()
    ensures r.value.G == s.G && r.value.image == s.image && r.value.ids == s.ids
    ensures AsNew(s, r.value)
  {
    hide ArenaNodeStore.Valid, ArenaNodeStore.AllInMemory;
    loaded := LevelsFile.SaveThenLoad(sum, lists);
    if swap {
      r := SwapOutAndLoad(s, dir, loaded.lists.nodeIds);
    } else {
      r := SnapshotAndLoad(s, dir, loaded.lists.nodeIds);
    }
  }

  // Of the same kind, with the version counters of a new store.
  ghost predicate AsNew(s: ArenaNodeStore, r: ArenaNodeStore)
    reads r
  {
    r.p == s.p && r.dist == s.dist && r.writeCount == 1 && r.cleanVersion == 0
  }

  lemma EmptyDirectory(dir: Directory)
    requires dir.files == map[]
    ensures dir.Valid() && forall i: nat :: SlotAt(dir, i).None?
  {
  }

  lemma SnapshotHolds(s: ArenaNodeStore, dir: Directory)
    requires s.Valid() && |s.image| == |s.blocks|
    requires forall i: nat :: SlotAt(dir, i) == if i < |s.blocks| then Written(s, i) else None
    requires forall c, k :: c in dir.files && k in dir.files[c].slots ==> k < BLOCKS_PER_FILE
    ensures Holds(dir, s.crc, s.image) && AllOk(dir, s.crc, 0, |s.image|)
    ensures s.p.Valid() && Represents(s.p, s.image, s.G) && NoDup(s.ids) && forall id :: id in s.ids <==> id in s.G
  {
    hide SlotAt, Represents, NoDup, NextMultipleOf;
    forall i | 0 <= i < |s.blocks|
      ensures |s.image[i]| == ARENA_WORDS
    {
      WordsOfBlock(s, i);
    }
  }
}
