// The binary format of write-ahead-log entries. Floats are their 32-bit patterns; the checksum
// is a parameter.
module WalCodec {
  import opened Bytes

  datatype WalItem = WalItem(vector: seq<U32>, timestamp: U64, vectorId: U64)

  datatype WalEntry = WalEntry(seqNo: U64, items: seq<WalItem>)

  datatype DecodeError = TooSmall | CrcMismatch | UnexpectedEof | EofInVector

  datatype Result<T> = Ok(value: T) | Err(error: DecodeError)

  type Checksum = seq<Byte> -> U32

  const U32_LIMIT: nat := 0x1_0000_0000

  // ── The format ──

  function VectorBytes(v: seq<U32>): (s: seq<Byte>)
    ensures |s| == 4 * |v|
  {
    if v == [] then [] else VectorBytes(v[..|v| - 1]) + LE(v[|v| - 1], 4)
  }

  // Counts are written as 32-bit numbers, whatever the length.
  function ItemBytes(it: WalItem): (s: seq<Byte>)
    ensures |s| == 20 + 4 * |it.vector|
  {
    LE(|it.vector| % U32_LIMIT, 4) + VectorBytes(it.vector) + LE(it.timestamp, 8) + LE(it.vectorId, 8)
  }

  function ItemsBytes(items: seq<WalItem>): seq<Byte> {
    if items == [] then [] else ItemsBytes(items[..|items| - 1]) + ItemBytes(items[|items| - 1])
  }

  function Header(seqNo: U64, count: nat): (s: seq<Byte>)
    ensures |s| == 12
  {
    LE(seqNo, 8) + LE(count % U32_LIMIT, 4)
  }

  function Payload(e: WalEntry): seq<Byte> {
    Header(e.seqNo, |e.items|) + ItemsBytes(e.items)
  }

  function Encoded(crc: Checksum, e: WalEntry): (s: seq<Byte>)
    ensures |s| >= 4
  {
    Payload(e) + LE(crc(Payload(e)), 4)
  }

  // The counts of the entry fit in 32 bits.
  ghost predicate ItemFits(it: WalItem) {
    |it.vector| < U32_LIMIT
  }

  ghost predicate Fits(e: WalEntry) {
    |e.items| < U32_LIMIT && forall i :: 0 <= i < |e.items| ==> ItemFits(e.items[i])
  }

  // ── Encoding ──

  method EncodeWalEntry(crc: Checksum, e: WalEntry) returns (buf: seq<Byte>)
    ensures buf == Encoded(crc, e) && EntryAt(crc, buf, e)
  {
    hide LE, ItemBytes, Header, EntryAt;
    EncodedLayout(crc, e);
    buf := Header(e.seqNo, |e.items|);
    var head := buf;
    assert e.items[..0] == [];
    for i := 0 to |e.items|
      invariant buf == head + ItemsBytes(e.items[..i])
    {
      var bytes := EncodeItem(e.items[i]);
      assert e.items[..i + 1][..i] == e.items[..i];
      buf := buf + bytes;
    }
    assert e.items[..|e.items|] == e.items;
    buf := buf + LE(crc(buf), 4);
  }

  method EncodeItem(it: WalItem) returns (buf: seq<Byte>)
    ensures buf == ItemBytes(it)
  {
    hide LE;
    buf := LE(|it.vector| % U32_LIMIT, 4);
    var head := buf;
    assert it.vector[..0] == [];
    for i := 0 to |it.vector|
      invariant buf == head + VectorBytes(it.vector[..i])
    {
      assert it.vector[..i + 1][..i] == it.vector[..i];
      buf := buf + LE(it.vector[i], 4);
    }
    assert it.vector[..|it.vector|] == it.vector;
    buf := buf + LE(it.timestamp, 8);
    buf := buf + LE(it.vectorId, 8);
  }

  // ── What a payload can be read as ──

  // The payload starts with the bytes of `e`; what follows is ignored.
  ghost predicate Reads(payload: seq<Byte>, e: WalEntry) {
    Fits(e) && Payload(e) <= payload
  }

  lemma PrefixParts(a: seq<Byte>, b: seq<Byte>, p: seq<Byte>)
    ensures a + b <= p <==> a <= p && b <= p[|a|..]
  {
    if a <= p && b <= p[|a|..] {
      assert p == a + p[|a|..];
    }
    if a + b <= p {
      assert p[|a|..][..|b|] == b;
    }
  }

  lemma {:induction false} SameVector(a: seq<U32>, b: seq<U32>)
    requires |a| == |b| && VectorBytes(a) == VectorBytes(b)
    ensures a == b
  {
    if a != [] {
      var n := |a| - 1;
      var x, y := VectorBytes(a), VectorBytes(b);
      assert x[..4 * n] == VectorBytes(a[..n]) && y[..4 * n] == VectorBytes(b[..n]);
      assert x[4 * n..] == LE(a[n], 4) && y[4 * n..] == LE(b[n], 4);
      SameVector(a[..n], b[..n]);
      SameBytes4(a[n], b[n]);
      assert a == a[..n] + [a[n]] && b == b[..n] + [b[n]];
    }
  }

  // The fields of an item at the start of `p`.
  lemma ItemFields(it: WalItem, p: seq<Byte>)
    requires ItemFits(it) && ItemBytes(it) <= p
    ensures var n := |it.vector|;
      && 20 + 4 * n <= |p|
      && p[..4] == LE(n, 4) && p[4..4 + 4 * n] == VectorBytes(it.vector)
      && p[4 + 4 * n..12 + 4 * n] == LE(it.timestamp, 8) && p[12 + 4 * n..20 + 4 * n] == LE(it.vectorId, 8)
  {
    hide LE, VectorBytes;
    var n := |it.vector|;
    var b := ItemBytes(it);
    assert p[..|b|] == b;
    assert b[..4] == LE(n, 4) && b[4..4 + 4 * n] == VectorBytes(it.vector);
    assert b[4 + 4 * n..12 + 4 * n] == LE(it.timestamp, 8) && b[12 + 4 * n..20 + 4 * n] == LE(it.vectorId, 8);
  }

  lemma ItemFromFields(it: WalItem, p: seq<Byte>)
    requires ItemFits(it) && 20 + 4 * |it.vector| <= |p|
    requires var n := |it.vector|;
      && p[..4] == LE(n, 4) && p[4..4 + 4 * n] == VectorBytes(it.vector)
      && p[4 + 4 * n..12 + 4 * n] == LE(it.timestamp, 8) && p[12 + 4 * n..20 + 4 * n] == LE(it.vectorId, 8)
    ensures ItemBytes(it) == p[..20 + 4 * |it.vector|]
  {
    hide LE, VectorBytes;
    var n := |it.vector|;
    assert p[..20 + 4 * n] == p[..4] + p[4..4 + 4 * n] + p[4 + 4 * n..12 + 4 * n] + p[12 + 4 * n..20 + 4 * n];
  }

  ghost predicate StartsWith(p: seq<Byte>, it: WalItem) {
    ItemFits(it) && ItemBytes(it) <= p
  }

  // Bytes start with at most one item.
  lemma ItemUnique(a: WalItem, b: WalItem, p: seq<Byte>)
    requires ItemFits(a) && ItemFits(b) && ItemBytes(a) <= p && ItemBytes(b) <= p
    ensures a == b
  {
    hide LE, VectorBytes, ItemBytes;
    ItemFields(a, p);
    ItemFields(b, p);
    SameBytes4(|a.vector|, |b.vector|);
    SameVector(a.vector, b.vector);
    SameBytes8(a.timestamp, b.timestamp);
    SameBytes8(a.vectorId, b.vectorId);
  }

  ghost predicate AllFit(items: seq<WalItem>) {
    forall i :: 0 <= i < |items| ==> ItemFits(items[i])
  }

  lemma {:induction false} ItemsUnique(a: seq<WalItem>, b: seq<WalItem>, p: seq<Byte>)
    requires |a| == |b| && AllFit(a) && AllFit(b) && ItemsBytes(a) <= p && ItemsBytes(b) <= p
    ensures a == b
  {
    hide ItemBytes;
    if a != [] {
      var n := |a| - 1;
      PrefixParts(ItemsBytes(a[..n]), ItemBytes(a[n]), p);
      PrefixParts(ItemsBytes(b[..n]), ItemBytes(b[n]), p);
      ItemsUnique(a[..n], b[..n], p);
      ItemUnique(a[n], b[n], p[|ItemsBytes(a[..n])|..]);
      assert a == a[..n] + [a[n]] && b == b[..n] + [b[n]];
    }
  }

  lemma {:induction false} ItemsPrefix(items: seq<WalItem>, i: nat, p: seq<Byte>)
    requires i < |items| && AllFit(items) && ItemsBytes(items) <= p
    ensures ItemsBytes(items[..i]) <= p && StartsWith(p[|ItemsBytes(items[..i])|..], items[i])
    decreases |items|
  {
    hide ItemBytes;
    var n := |items| - 1;
    PrefixParts(ItemsBytes(items[..n]), ItemBytes(items[n]), p);
    if i < n {
      ItemsPrefix(items[..n], i, p);
      assert items[..n][..i] == items[..i];
    }
  }

  lemma HeaderFields(e: WalEntry, p: seq<Byte>)
    requires Reads(p, e)
    ensures 12 <= |p| && p[..8] == LE(e.seqNo, 8) && p[8..12] == LE(|e.items|, 4) && ItemsBytes(e.items) <= p[12..]
  {
    hide LE, ItemsBytes;
    var h := Header(e.seqNo, |e.items|);
    PrefixParts(h, ItemsBytes(e.items), p);
    assert h[..8] == LE(e.seqNo, 8) && h[8..12] == LE(|e.items|, 4);
    assert p[..12] == h;
  }

  lemma FromHeader(e: WalEntry, p: seq<Byte>)
    requires Fits(e) && 12 <= |p| && p[..8] == LE(e.seqNo, 8) && p[8..12] == LE(|e.items|, 4)
      && ItemsBytes(e.items) <= p[12..]
    ensures Reads(p, e)
  {
    hide LE, ItemsBytes;
    assert p[..12] == p[..8] + p[8..12];
    PrefixParts(Header(e.seqNo, |e.items|), ItemsBytes(e.items), p);
  }

  // A payload can be read in at most one way.
  lemma ReadsUnique(p: seq<Byte>, a: WalEntry, b: WalEntry)
    requires Reads(p, a) && Reads(p, b)
    ensures a == b
  {
    hide LE, ItemsBytes;
    HeaderFields(a, p);
    HeaderFields(b, p);
    SameBytes8(a.seqNo, b.seqNo);
    SameBytes4(|a.items|, |b.items|);
    ItemsUnique(a.items, b.items, p[12..]);
  }

  // ── Decoding ──

  // Read one item; fails exactly if the bytes do not start with one.
  method DecodeItem(payload: seq<Byte>, start: nat) returns (r: Result<(WalItem, nat)>)
    requires start <= |payload|
    ensures r.Ok? ==>
      ItemFits(r.value.0) && start <= r.value.1 <= |payload| && payload[start..r.value.1] == ItemBytes(r.value.0)
    ensures r.Err? ==> r.error.UnexpectedEof? || r.error.EofInVector?
    ensures r == Err(EofInVector) <==> start + 4 <= |payload| && start + 4 + 4 * U32At(payload, start) > |payload|
    ensures r.Err? ==> forall it :: !StartsWith(payload[start..], it)
  {
    hide LE, VectorBytes, ItemBytes;
    ghost var p := payload[start..];
    ItemLength(p);
    var pos := start;
    if pos + 4 > |payload| {
      return Err(UnexpectedEof);
    }
    var vlen: nat := U32At(payload, pos);
    assert payload[pos..pos + 4] == p[..4];
    pos := pos + 4;
    if pos + vlen * 4 > |payload| {
      return Err(EofInVector);
    }
    var vector := ReadVector(payload, pos, vlen);
    pos := pos + 4 * vlen;
    if pos + 8 > |payload| {
      return Err(UnexpectedEof);
    }
    var timestamp := U64At(payload, pos);
    pos := pos + 8;
    if pos + 8 > |payload| {
      return Err(UnexpectedEof);
    }
    var vectorId := U64At(payload, pos);
    pos := pos + 8;
    var it := WalItem(vector, timestamp, vectorId);
    WithinSuffix(payload, start, 4, 4 * vlen);
    WithinSuffix(payload, start, 4 + 4 * vlen, 8);
    WithinSuffix(payload, start, 12 + 4 * vlen, 8);
    ItemFromFields(it, p);
    assert p[..20 + 4 * vlen] == payload[start..pos];
    return Ok((it, pos));
  }

  lemma WithinSuffix(b: seq<Byte>, start: nat, i: nat, w: nat)
    requires start + i + w <= |b|
    ensures b[start..][i..i + w] == b[start + i..start + i + w]
  {
  }

  // Every item at the start of `p` has the length its first four bytes announce.
  lemma ItemLength(p: seq<Byte>)
    ensures forall it :: StartsWith(p, it) ==> 4 <= |p| && U32At(p, 0) == |it.vector| && 20 + 4 * |it.vector| <= |p|
  {
    hide LE, VectorBytes, ItemBytes;
    forall it | StartsWith(p, it)
      ensures 4 <= |p| && U32At(p, 0) == |it.vector| && 20 + 4 * |it.vector| <= |p|
    {
      ItemFields(it, p);
      assert p[0..4] == p[..4];
      SameBytes4(U32At(p, 0), |it.vector|);
    }
  }

  method ReadVector(payload: seq<Byte>, start: nat, vlen: nat) returns (v: seq<U32>)
    requires start + 4 * vlen <= |payload|
    ensures |v| == vlen && payload[start..start + 4 * vlen] == VectorBytes(v)
  {
    hide LE;
    v := [];
    var pos := start;
    while |v| < vlen
      invariant |v| <= vlen && pos == start + 4 * |v|
      invariant payload[start..pos] == VectorBytes(v)
      decreases vlen - |v|
    {
      var x := U32At(payload, pos);
      assert payload[start..pos + 4] == payload[start..pos] + payload[pos..pos + 4];
      assert (v + [x])[..|v|] == v;
      v := v + [x];
      pos := pos + 4;
    }
  }

  // The bytes before the checksum.
  function PayloadOf(bytes: seq<Byte>): seq<Byte>
    requires |bytes| >= 4
  {
    bytes[..|bytes| - 4]
  }

  ghost predicate CrcOk(crc: Checksum, bytes: seq<Byte>) {
    |bytes| >= 4 && crc(PayloadOf(bytes)) == U32At(bytes, |bytes| - 4)
  }

  // Decoding accepts exactly the checked payloads that can be read as an entry, and gives it.
  method DecodeWalEntry(crc: Checksum, bytes: seq<Byte>) returns (r: Result<WalEntry>)
    ensures |bytes| < 4 <==> r == Err(TooSmall)
    ensures |bytes| >= 4 && !CrcOk(crc, bytes) <==> r == Err(CrcMismatch)
    ensures r.Ok? ==> CrcOk(crc, bytes) && Reads(PayloadOf(bytes), r.value)
    ensures CrcOk(crc, bytes) && r.Err? ==> forall e :: !Reads(PayloadOf(bytes), e)
  {
    hide LE, Reads, ItemBytes, ItemFits;
    if |bytes| < 4 {
      return Err(TooSmall);
    }
    var payload := PayloadOf(bytes);
    if crc(payload) != U32At(bytes, |bytes| - 4) {
      return Err(CrcMismatch);
    }
    HeaderLength(payload);
    if 8 > |payload| {
      return Err(UnexpectedEof);
    }
    var seqNo := U64At(payload, 0);
    if 12 > |payload| {
      return Err(UnexpectedEof);
    }
    var count := U32At(payload, 8);
    var items: seq<WalItem> := [];
    var pos := 12;
    ghost var p := payload[12..];
    while |items| < count
      invariant |items| <= count && 12 <= pos <= |payload| && AllFit(items)
      invariant pos - 12 == |ItemsBytes(items)| && p[..pos - 12] == ItemsBytes(items)
      decreases count - |items|
    {
      var x := DecodeItem(payload, pos);
      assert payload[pos..] == p[pos - 12..];
      if x.Err? {
        NoReading(payload, items);
        return Err(x.error);
      }
      var (it, next) := x.value;
      assert (items + [it])[..|items|] == items;
      assert p[..next - 12] == p[..pos - 12] + payload[pos..next];
      items := items + [it];
      pos := next;
    }
    var e := WalEntry(seqNo, items);
    assert payload[0..8] == payload[..8];
    FromHeader(e, payload);
    return Ok(e);
  }

  lemma HeaderLength(p: seq<Byte>)
    ensures forall e :: Reads(p, e) ==>
      12 <= |p| && U32At(p, 8) == |e.items| && AllFit(e.items) && ItemsBytes(e.items) <= p[12..]
  {
    hide LE, ItemsBytes;
    forall e | Reads(p, e)
      ensures 12 <= |p| && U32At(p, 8) == |e.items| && AllFit(e.items) && ItemsBytes(e.items) <= p[12..]
    {
      HeaderFields(e, p);
      SameBytes4(U32At(p, 8), |e.items|);
    }
  }

  // If the bytes after the items read so far start with no item, there is no reading at all.
  lemma NoReading(payload: seq<Byte>, items: seq<WalItem>)
    requires 12 <= |payload| && AllFit(items) && |items| < U32At(payload, 8) && ItemsBytes(items) <= payload[12..]
    requires forall it :: !StartsWith(payload[12..][|ItemsBytes(items)|..], it)
    ensures forall e :: !Reads(payload, e)
  {
    hide LE, ItemsBytes, ItemBytes, Reads;
    HeaderLength(payload);
    forall e
      ensures !Reads(payload, e)
    {
      if Reads(payload, e) {
        ItemsPrefix(e.items, |items|, payload[12..]);
        ItemsUnique(items, e.items[..|items|], payload[12..]);
      }
    }
  }

  // ── Where each byte is ──

  // Where item `k` starts: after the header and the items before it.
  function ItemStart(items: seq<WalItem>, k: nat): nat
    requires k <= |items|
  {
    if k == 0 then 12 else ItemStart(items, k - 1) + 20 + 4 * |items[k - 1].vector|
  }

  // An item at `pos`: the length of its vector, the components, the timestamp and the id.
  ghost predicate ItemAt(b: seq<Byte>, pos: nat, it: WalItem) {
    var n := |it.vector|;
    && NumberAt(b, pos, 4, n % U32_LIMIT)
    && (forall j :: 0 <= j < n ==> NumberAt(b, pos + 4 + 4 * j, 4, it.vector[j]))
    && NumberAt(b, pos + 4 + 4 * n, 8, it.timestamp) && NumberAt(b, pos + 12 + 4 * n, 8, it.vectorId)
  }

  // An entry, byte by byte: sequence number, item count, the items one after the other, and the
  // checksum of all that in the last four bytes.
  ghost predicate EntryAt(crc: Checksum, b: seq<Byte>, e: WalEntry) {
    && |b| == ItemStart(e.items, |e.items|) + 4
    && NumberAt(b, 0, 8, e.seqNo) && NumberAt(b, 8, 4, |e.items| % U32_LIMIT)
    && (forall k :: 0 <= k < |e.items| ==> ItemAt(b, ItemStart(e.items, k), e.items[k]))
    && NumberAt(b, |b| - 4, 4, crc(b[..|b| - 4]))
  }

  lemma {:induction false} ComponentAt(v: seq<U32>, j: nat)
    requires j < |v|
    ensures VectorBytes(v)[4 * j..4 * j + 4] == LE(v[j], 4)
    decreases |v|
  {
    hide LE;
    var n := |v| - 1;
    var b := VectorBytes(v);
    assert b == VectorBytes(v[..n]) + LE(v[n], 4);
    if j < n {
      ComponentAt(v[..n], j);
      assert b[4 * j..4 * j + 4] == VectorBytes(v[..n])[4 * j..4 * j + 4];
    }
  }

  ghost predicate PartAt(b: seq<Byte>, pos: nat, x: seq<Byte>) {
    pos + |x| <= |b| && b[pos..pos + |x|] == x
  }

  lemma Whole(b: seq<Byte>)
    ensures PartAt(b, 0, b)
  {
  }

  lemma TwoParts(b: seq<Byte>, pos: nat, x: seq<Byte>, y: seq<Byte>)
    requires PartAt(b, pos, x + y)
    ensures PartAt(b, pos, x) && PartAt(b, pos + |x|, y)
  {
    var z := b[pos..pos + |x| + |y|];
    assert z[..|x|] == x && z[|x|..] == y;
    assert z[..|x|] == b[pos..pos + |x|] && z[|x|..] == b[pos + |x|..pos + |x| + |y|];
  }

  // A number written within a part.
  lemma PartWithin(b: seq<Byte>, pos: nat, x: seq<Byte>, i: nat, w: nat, n: nat)
    requires PartAt(b, pos, x) && i + w <= |x| && x[i..i + w] == LE(n, w)
    ensures NumberAt(b, pos + i, w, n)
  {
    hide LE;
    forall k | 0 <= k < w
      ensures b[pos + i + k] == n / Pow256(k) % 256
    {
      DigitAt(n, w, k);
      assert x[i..i + w][k] == x[i + k] == b[pos..pos + |x|][i + k];
    }
  }

  lemma VectorWrittenAt(b: seq<Byte>, pos: nat, v: seq<U32>)
    requires PartAt(b, pos, VectorBytes(v))
    ensures forall j :: 0 <= j < |v| ==> NumberAt(b, pos + 4 * j, 4, v[j])
  {
    hide LE, VectorBytes, NumberAt, PartAt;
    forall j | 0 <= j < |v|
      ensures NumberAt(b, pos + 4 * j, 4, v[j])
    {
      ComponentAt(v, j);
      PartWithin(b, pos, VectorBytes(v), 4 * j, 4, v[j]);
    }
  }

  lemma ItemWrittenAt(b: seq<Byte>, pos: nat, it: WalItem)
    requires PartAt(b, pos, ItemBytes(it))
    ensures ItemAt(b, pos, it)
  {
    hide LE, VectorBytes, NumberAt;
    var n := |it.vector|;
    var head, v, t, id := LE(n % U32_LIMIT, 4), VectorBytes(it.vector), LE(it.timestamp, 8), LE(it.vectorId, 8);
    TwoParts(b, pos, head + v + t, id);
    TwoParts(b, pos, head + v, t);
    TwoParts(b, pos, head, v);
    WrittenAt(b, pos, 4, n % U32_LIMIT);
    WrittenAt(b, pos + 4 + 4 * n, 8, it.timestamp);
    WrittenAt(b, pos + 12 + 4 * n, 8, it.vectorId);
    VectorWrittenAt(b, pos + 4, it.vector);
  }

  lemma ItemsNone(items: seq<WalItem>)
    ensures ItemsBytes(items[..0]) == []
  {
  }

  lemma ItemsOneMore(items: seq<WalItem>, m: nat)
    requires m < |items|
    ensures ItemsBytes(items[..m + 1]) == ItemsBytes(items[..m]) + ItemBytes(items[m])
  {
    assert items[..m + 1][..m] == items[..m];
  }

  lemma {:induction false} ItemsWrittenAt(b: seq<Byte>, items: seq<WalItem>, m: nat)
    requires m <= |items| && PartAt(b, 12, ItemsBytes(items[..m]))
    ensures ItemStart(items, m) == 12 + |ItemsBytes(items[..m])|
    ensures forall k :: 0 <= k < m ==> ItemAt(b, ItemStart(items, k), items[k])
    decreases m
  {
    hide ItemBytes, ItemsBytes, ItemAt, PartAt, LE;
    ItemsNone(items);
    if m > 0 {
      var before, last := ItemsBytes(items[..m - 1]), ItemBytes(items[m - 1]);
      ItemsOneMore(items, m - 1);
      TwoParts(b, 12, before, last);
      ItemsWrittenAt(b, items, m - 1);
      var start := ItemStart(items, m - 1);
      hide ItemStart;
      ItemWrittenAt(b, start, items[m - 1]);
      forall k | 0 <= k < m
        ensures ItemAt(b, ItemStart(items, k), items[k])
      {
        assert k < m - 1 || k == m - 1;
      }
    }
  }

  // The bytes of an encoded entry, one by one.
  lemma EncodedLayout(crc: Checksum, e: WalEntry)
    ensures EntryAt(crc, Encoded(crc, e), e)
  {
    hide LE, ItemsBytes, ItemAt, NumberAt;
    var b := Encoded(crc, e);
    assert e.items[..|e.items|] == e.items;
    var head, items, last := Header(e.seqNo, |e.items|), ItemsBytes(e.items), LE(crc(Payload(e)), 4);
    Whole(b);
    assert b[..|b| - 4] == Payload(e);
    TwoParts(b, 0, head + items, last);
    TwoParts(b, 0, head, items);
    TwoParts(b, 0, LE(e.seqNo, 8), LE(|e.items| % U32_LIMIT, 4));
    WrittenAt(b, 0, 8, e.seqNo);
    WrittenAt(b, 8, 4, |e.items| % U32_LIMIT);
    WrittenAt(b, |b| - 4, 4, crc(Payload(e)));
    ItemsWrittenAt(b, e.items, |e.items|);
  }

  // ── Round trip ──

  lemma EncodedPasses(crc: Checksum, e: WalEntry)
    ensures CrcOk(crc, Encoded(crc, e)) && PayloadOf(Encoded(crc, e)) == Payload(e)
  {
    hide LE, Payload;
    var b := Encoded(crc, e);
    assert PayloadOf(b) == Payload(e);
    assert b[|b| - 4..|b|] == LE(crc(Payload(e)), 4);
    SameBytes4(U32At(b, |b| - 4), crc(Payload(e)));
  }

  // An encoded entry reads back as itself, and only as itself, exactly when its counts fit.
  lemma RoundTripIff(crc: Checksum, e: WalEntry)
    ensures var b := Encoded(crc, e); Reads(PayloadOf(b), e) <==> Fits(e)
    ensures var b := Encoded(crc, e); forall f :: Fits(e) && Reads(PayloadOf(b), f) ==> f == e
  {
    hide LE, Payload;
    EncodedPasses(crc, e);
    if Fits(e) {
      forall f | Reads(Payload(e), f)
        ensures f == e
      {
        ReadsUnique(Payload(e), e, f);
      }
    }
  }

  // Decoding what was encoded gives the entry back if and only if its counts fit in 32 bits.
  method EncodeThenDecode(crc: Checksum, e: WalEntry) returns (r: Result<WalEntry>)
    ensures r == Ok(e) <==> Fits(e)
  {
    hide Encoded, Payload;
    var b := EncodeWalEntry(crc, e);
    r := DecodeWalEntry(crc, b);
    EncodedPasses(crc, e);
    RoundTripIff(crc, e);
  }
}
