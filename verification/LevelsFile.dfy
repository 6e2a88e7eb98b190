// The `levels.bin` file beside a snapshot's chunks: node ids, vector ids and levels.
module LevelsFile {
  import opened Bytes
  import WalCodec

  datatype Lists = Lists(nodeIds: seq<U32>, vectorIds: seq<U64>, levels: seq<Byte>)

  // `Panics` is a slice past the end of a file whose checksum is right.
  datatype Loaded = Loaded(lists: Lists) | TooSmall | CrcMismatch | BadVersion | Panics

  const VERSION: U32 := 2

  // The three lists are parallel.
  ghost predicate Parallel(x: Lists) {
    |x.nodeIds| == |x.vectorIds| == |x.levels| < 0x1_0000_0000_0000_0000
  }

  function Longs(v: seq<U64>): (s: seq<Byte>)
    ensures |s| == 8 * |v|
  {
    if v == [] then [] else Longs(v[..|v| - 1]) + LE(v[|v| - 1], 8)
  }

  function Head(count: nat): (s: seq<Byte>)
    ensures |s| == 12
  {
    LE(VERSION, 4) + LE(count, 8)
  }

  function Data(x: Lists): seq<Byte> {
    Head(|x.nodeIds|) + WalCodec.VectorBytes(x.nodeIds) + Longs(x.vectorIds) + x.levels
  }

  function File(crc: WalCodec.Checksum, x: Lists): (s: seq<Byte>)
    ensures |s| >= 4
  {
    Data(x) + LE(crc(Data(x)), 4)
  }

  method SaveLevels(crc: WalCodec.Checksum, x: Lists) returns (w: seq<Byte>)
    ensures w == File(crc, x) && (Parallel(x) ==> FileAt(crc, w, x))
  {
    hide LE, FileAt, Parallel;
    if Parallel(x) {
      SavedLayout(crc, x);
    }
    w := Head(|x.nodeIds|);
    ghost var head := w;
    assert x.nodeIds[..0] == [];
    for i := 0 to |x.nodeIds|
      invariant w == head + WalCodec.VectorBytes(x.nodeIds[..i])
    {
      assert x.nodeIds[..i + 1][..i] == x.nodeIds[..i];
      w := w + LE(x.nodeIds[i], 4);
    }
    assert x.nodeIds[..|x.nodeIds|] == x.nodeIds;
    ghost var ids := w;
    assert x.vectorIds[..0] == [];
    for i := 0 to |x.vectorIds|
      invariant w == ids + Longs(x.vectorIds[..i])
    {
      assert x.vectorIds[..i + 1][..i] == x.vectorIds[..i];
      w := w + LE(x.vectorIds[i], 8);
    }
    assert x.vectorIds[..|x.vectorIds|] == x.vectorIds;
    w := w + x.levels;
    w := w + LE(crc(w), 4);
  }

  lemma {:induction false} SameLongs(a: seq<U64>, b: seq<U64>)
    requires |a| == |b| && Longs(a) == Longs(b)
    ensures a == b
  {
    if a != [] {
      var n := |a| - 1;
      var x, y := Longs(a), Longs(b);
      assert x[..8 * n] == Longs(a[..n]) && y[..8 * n] == Longs(b[..n]);
      assert x[8 * n..] == LE(a[n], 8) && y[8 * n..] == LE(b[n], 8);
      SameLongs(a[..n], b[..n]);
      SameBytes8(a[n], b[n]);
      assert a == a[..n] + [a[n]] && b == b[..n] + [b[n]];
    }
  }

  // The data starts with the bytes of `x`.
  ghost predicate Holds(data: seq<Byte>, x: Lists) {
    Parallel(x) && Data(x) <= data
  }

  lemma Fields(data: seq<Byte>, x: Lists)
    requires Parallel(x)
    ensures var n := |x.nodeIds|;
      Holds(data, x) <==>
        && 12 + 13 * n <= |data| && data[..4] == LE(VERSION, 4) && data[4..12] == LE(n, 8)
        && data[12..12 + 4 * n] == WalCodec.VectorBytes(x.nodeIds)
        && data[12 + 4 * n..12 + 12 * n] == Longs(x.vectorIds) && data[12 + 12 * n..12 + 13 * n] == x.levels
  {
    hide LE, Longs, WalCodec.VectorBytes;
    var n := |x.nodeIds|;
    if Holds(data, x) {
      HeldFields(data, x);
    }
    if 12 + 13 * n <= |data| && data[..4] == LE(VERSION, 4) && data[4..12] == LE(n, 8)
      && data[12..12 + 4 * n] == WalCodec.VectorBytes(x.nodeIds)
      && data[12 + 4 * n..12 + 12 * n] == Longs(x.vectorIds) && data[12 + 12 * n..12 + 13 * n] == x.levels
    {
      var d := data[..12 + 13 * n];
      assert d[..4] == data[..4] && d[4..12] == data[4..12] && d[12..12 + 4 * n] == data[12..12 + 4 * n];
      assert d[12 + 4 * n..12 + 12 * n] == data[12 + 4 * n..12 + 12 * n]
        && d[12 + 12 * n..] == data[12 + 12 * n..12 + 13 * n];
      assert d == d[..4] + d[4..12] + d[12..12 + 4 * n] + d[12 + 4 * n..12 + 12 * n] + d[12 + 12 * n..];
    }
  }

  lemma HeldFields(data: seq<Byte>, x: Lists)
    requires Holds(data, x)
    ensures var n := |x.nodeIds|;
      && 12 + 13 * n <= |data| && data[..4] == LE(VERSION, 4) && data[4..12] == LE(n, 8)
      && data[12..12 + 4 * n] == WalCodec.VectorBytes(x.nodeIds)
      && data[12 + 4 * n..12 + 12 * n] == Longs(x.vectorIds) && data[12 + 12 * n..12 + 13 * n] == x.levels
  {
    hide LE, Longs, WalCodec.VectorBytes;
    assert WalCodec.PartAt(data, 0, Data(x));
    DataParts(data, x);
  }

  lemma DataParts(f: seq<Byte>, x: Lists)
    requires Parallel(x) && WalCodec.PartAt(f, 0, Data(x))
    ensures var n := |x.nodeIds|;
      && WalCodec.PartAt(f, 0, LE(VERSION, 4)) && WalCodec.PartAt(f, 4, LE(n, 8))
      && WalCodec.PartAt(f, 12, WalCodec.VectorBytes(x.nodeIds))
      && WalCodec.PartAt(f, 12 + 4 * n, Longs(x.vectorIds)) && WalCodec.PartAt(f, 12 + 12 * n, x.levels)
  {
    hide LE, Longs, WalCodec.VectorBytes, WalCodec.PartAt;
    var ids, longs := WalCodec.VectorBytes(x.nodeIds), Longs(x.vectorIds);
    var version, count := LE(VERSION, 4), LE(|x.nodeIds|, 8);
    WalCodec.TwoParts(f, 0, version + count + ids + longs, x.levels);
    WalCodec.TwoParts(f, 0, version + count + ids, longs);
    WalCodec.TwoParts(f, 0, version + count, ids);
    WalCodec.TwoParts(f, 0, version, count);
  }

  // Data holds at most one triple of lists.
  lemma HoldsUnique(data: seq<Byte>, x: Lists, y: Lists)
    requires Holds(data, x) && Holds(data, y)
    ensures x == y
  {
    hide LE, Longs, WalCodec.VectorBytes, Data;
    Fields(data, x);
    Fields(data, y);
    SameBytes8(|x.nodeIds|, |y.nodeIds|);
    WalCodec.SameVector(x.nodeIds, y.nodeIds);
    SameLongs(x.vectorIds, y.vectorIds);
  }

  // A file, byte by byte: version, count, the node ids, the vector ids, the levels, and the
  // checksum of all that in the last four bytes.
  ghost predicate FileAt(crc: WalCodec.Checksum, f: seq<Byte>, x: Lists) {
    var n := |x.nodeIds|;
    && |f| == 16 + 13 * n && NumberAt(f, 0, 4, VERSION) && NumberAt(f, 4, 8, n)
    && (forall j :: 0 <= j < n ==> NumberAt(f, 12 + 4 * j, 4, x.nodeIds[j]))
    && (forall j :: 0 <= j < |x.vectorIds| ==> NumberAt(f, 12 + 4 * n + 8 * j, 8, x.vectorIds[j]))
    && (forall j :: 0 <= j < |x.levels| ==> 12 + 12 * n + j < |f| && f[12 + 12 * n + j] == x.levels[j])
    && NumberAt(f, |f| - 4, 4, crc(f[..|f| - 4]))
  }

  lemma {:induction false} LongAt(v: seq<U64>, j: nat)
    requires j < |v|
    ensures Longs(v)[8 * j..8 * j + 8] == LE(v[j], 8)
    decreases |v|
  {
    hide LE;
    var n := |v| - 1;
    var b := Longs(v);
    assert b == Longs(v[..n]) + LE(v[n], 8);
    if j < n {
      LongAt(v[..n], j);
      assert b[8 * j..8 * j + 8] == Longs(v[..n])[8 * j..8 * j + 8];
    }
  }

  lemma LongsWrittenAt(f: seq<Byte>, pos: nat, v: seq<U64>)
    requires WalCodec.PartAt(f, pos, Longs(v))
    ensures forall j :: 0 <= j < |v| ==> NumberAt(f, pos + 8 * j, 8, v[j])
  {
    hide LE, Longs, NumberAt, WalCodec.PartAt;
    forall j | 0 <= j < |v|
      ensures NumberAt(f, pos + 8 * j, 8, v[j])
    {
      LongAt(v, j);
      WalCodec.PartWithin(f, pos, Longs(v), 8 * j, 8, v[j]);
    }
  }

  // The bytes of a saved file, one by one.
  lemma SavedLayout(crc: WalCodec.Checksum, x: Lists)
    requires Parallel(x)
    ensures FileAt(crc, File(crc, x), x)
  {
    hide LE, Longs, WalCodec.VectorBytes, NumberAt;
    var f := File(crc, x);
    var sum := LE(crc(Data(x)), 4);
    WalCodec.Whole(f);
    WalCodec.TwoParts(f, 0, Data(x), sum);
    DataParts(f, x);
    assert f[..|f| - 4] == Data(x);
    WrittenAt(f, 0, 4, VERSION);
    WrittenAt(f, 4, 8, |x.nodeIds|);
    WrittenAt(f, |f| - 4, 4, crc(Data(x)));
    WalCodec.VectorWrittenAt(f, 12, x.nodeIds);
    LongsWrittenAt(f, 12 + 4 * |x.nodeIds|, x.vectorIds);
    LevelsWrittenAt(f, 12 + 12 * |x.nodeIds|, x.levels);
  }

  lemma LevelsWrittenAt(f: seq<Byte>, pos: nat, levels: seq<Byte>)
    requires WalCodec.PartAt(f, pos, levels)
    ensures pos + |levels| <= |f| && forall j :: 0 <= j < |levels| ==> f[pos + j] == levels[j]
  {
    forall j | 0 <= j < |levels|
      ensures f[pos + j] == levels[j]
    {
      assert f[pos..pos + |levels|][j] == levels[j];
    }
  }

  // Loading accepts exactly the files that hold lists, and returns those. Everything else is an
  // error, or, if only the length is wrong, a panic.
  method LoadLevels(crc: WalCodec.Checksum, file: seq<Byte>) returns (r: Loaded)
    ensures r.TooSmall? <==> |file| < 4
    ensures r.CrcMismatch? <==> |file| >= 4 && !WalCodec.CrcOk(crc, file)
    ensures r.BadVersion? <==>
      WalCodec.CrcOk(crc, file) && var data := WalCodec.PayloadOf(file); 4 <= |data| && U32At(data, 0) != VERSION
    ensures r.Panics? <==>
      WalCodec.CrcOk(crc, file) && var data := WalCodec.PayloadOf(file);
        |data| < 4 || (U32At(data, 0) == VERSION && (|data| < 12 || |data| < 12 + 13 * U64At(data, 4)))
    ensures r.Loaded? ==> WalCodec.CrcOk(crc, file) && Holds(WalCodec.PayloadOf(file), r.lists)
    ensures WalCodec.CrcOk(crc, file) && !r.Loaded? ==> forall x :: !Holds(WalCodec.PayloadOf(file), x)
  {
    hide LE, Holds;
    if |file| < 4 {
      return TooSmall;
    }
    var data := WalCodec.PayloadOf(file);
    if crc(data) != U32At(file, |file| - 4) {
      return CrcMismatch;
    }
    HeldLength(data);
    if |data| < 4 {
      return Panics;
    }
    if U32At(data, 0) != VERSION {
      return BadVersion;
    }
    if |data| < 12 {
      return Panics;
    }
    var count: nat := U64At(data, 4);
    if |data| < 12 + 13 * count {
      return Panics;
    }
    var nodeIds := WalCodec.ReadVector(data, 12, count);
    var vectorIds := ReadLongs(data, 12 + 4 * count, count);
    var levels := data[12 + 12 * count..12 + 13 * count];
    var x := Lists(nodeIds, vectorIds, levels);
    assert data[0..4] == data[..4];
    Fields(data, x);
    return Loaded(x);
  }

  lemma HeldLength(data: seq<Byte>)
    ensures forall x :: Holds(data, x) ==>
      12 <= |data| && U32At(data, 0) == VERSION && 12 + 13 * U64At(data, 4) <= |data|
  {
    hide LE, Longs, WalCodec.VectorBytes, Data;
    forall x | Holds(data, x)
      ensures 12 <= |data| && U32At(data, 0) == VERSION && 12 + 13 * U64At(data, 4) <= |data|
    {
      Fields(data, x);
      assert data[0..4] == data[..4];
      SameBytes4(U32At(data, 0), VERSION);
      SameBytes8(U64At(data, 4), |x.nodeIds|);
    }
  }

  method ReadLongs(data: seq<Byte>, start: nat, count: nat) returns (v: seq<U64>)
    requires start + 8 * count <= |data|
    ensures |v| == count && data[start..start + 8 * count] == Longs(v)
  {
    hide LE;
    v := [];
    var pos := start;
    while |v| < count
      invariant |v| <= count && pos == start + 8 * |v|
      invariant data[start..pos] == Longs(v)
      decreases count - |v|
    {
      var x := U64At(data, pos);
      assert data[start..pos + 8] == data[start..pos] + data[pos..pos + 8];
      assert (v + [x])[..|v|] == v;
      v := v + [x];
      pos := pos + 8;
    }
  }

  // What was saved is what a load finds.
  lemma SavedHolds(crc: WalCodec.Checksum, x: Lists)
    requires Parallel(x)
    ensures WalCodec.CrcOk(crc, File(crc, x)) && Holds(WalCodec.PayloadOf(File(crc, x)), x)
  {
    hide LE, Data;
    var b := File(crc, x);
    assert WalCodec.PayloadOf(b) == Data(x);
    assert b[|b| - 4..|b|] == LE(crc(Data(x)), 4);
    SameBytes4(U32At(b, |b| - 4), crc(Data(x)));
  }

  method SaveThenLoad(crc: WalCodec.Checksum, x: Lists) returns (r: Loaded)
    requires Parallel(x)
    ensures r == Loaded(x)
  {
    hide File, Holds, Parallel;
    var w := SaveLevels(crc, x);
    r := LoadLevels(crc, w);
    SavedHolds(crc, x);
    if r.Loaded? {
      HoldsUnique(WalCodec.PayloadOf(w), x, r.lists);
    }
  }

  // Four bytes that are the checksum of nothing: the file passes its check, and the load panics.
  method LoadChecksumOnly(crc: WalCodec.Checksum) returns (file: seq<Byte>, r: Loaded)
    ensures |file| == 4 && WalCodec.CrcOk(crc, file) && WalCodec.PayloadOf(file) == [] && r.Panics?
  {
    hide LE, Holds;
    file := LE(crc([]), 4);
    assert WalCodec.PayloadOf(file) == [];
    assert file[0..4] == file;
    SameBytes4(U32At(file, 0), crc([]));
    HeldLength([]);
    r := LoadLevels(crc, file);
  }
}
