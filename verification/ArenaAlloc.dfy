// Bump allocation inside one fixed-capacity memory map.
module ArenaAlloc {
  import opened Arithmetic
  import opened Layout
  import opened Options

  const PAGE_BYTES: nat := 4096
  const USIZE: nat := 0x1_0000_0000_0000_0000

  predicate PowerOfTwo(n: nat) {
    n == 1 || (n > 1 && n % 2 == 0 && PowerOfTwo(n / 2))
  }

  // The bits two numbers have in common.
  function And(x: nat, y: nat): nat {
    if x == 0 || y == 0 then 0 else 2 * And(x / 2, y / 2) + (x % 2) * (y % 2)
  }

  // The bits of a 64-bit number that `x` does not have.
  function Not(x: nat): nat
    requires x < USIZE
  {
    USIZE - 1 - x
  }

  // `(n + (align - 1)) & !(align - 1)` for a power of two, with the addition checked.
  function AlignUp(n: nat, align: nat): Option<nat>
    requires PowerOfTwo(align)
  {
    if n + (align - 1) >= USIZE then None
    else Some(And(n + (align - 1), Not(align - 1)))
  }

  // Masking with all bits from `align` up to `width` drops the remainder.
  lemma {:induction false} MaskRoundsDown(x: nat, width: nat, align: nat)
    requires PowerOfTwo(width) && PowerOfTwo(align) && align <= width && x < width
    ensures And(x, width - align) == x - x % align
    decreases width
  {
    hide And, PowerOfTwo;
    PowerPositive(align);
    if align == 1 {
      AllBits(x, width);
      OneDivides(x);
    } else if width == align {
      AndNothing(x);
      SmallRemainder(x, align);
    } else {
      var w, b := width / 2, align / 2;
      Halves(width, x);
      Halves(align, 0);
      MaskRoundsDown(x / 2, w, b);
      AndDoubled(x, w - b);
      assert width - align == 2 * (w - b);
      DoubledRemainder(x, b);
    }
  }

  lemma Halves(n: nat, x: nat)
    requires PowerOfTwo(n) && n > 1 && x < n
    ensures n == 2 * (n / 2) && 0 < n / 2 && PowerOfTwo(n / 2) && x / 2 < n / 2
  {
  }

  lemma OneDivides(x: nat)
    ensures x % 1 == 0
  {
  }

  lemma SmallRemainder(x: nat, k: nat)
    requires x < k
    ensures x % k == x
  {
  }

  lemma DoubledRemainder(x: nat, b: nat)
    requires 0 < b
    ensures 2 * (x / 2 - (x / 2) % b) == x - x % (2 * b)
  {
    RemainderSplit(x, b);
    assert x == 2 * (x / 2) + x % 2;
  }

  lemma {:induction false} AllBits(x: nat, width: nat)
    requires PowerOfTwo(width) && x < width
    ensures And(x, width - 1) == x
    decreases width
  {
    hide And, PowerOfTwo;
    PowerPositive(width);
    if width == 1 {
      AndNothing(x);
    } else {
      var w := width / 2;
      Halves(width, x);
      AllBits(x / 2, w);
      AndSplit(x, 2 * (w - 1) + 1);
    }
  }

  lemma AndNothing(x: nat)
    ensures And(x, 0) == 0
  {
  }

  lemma AndDoubled(x: nat, y: nat)
    ensures And(x, 2 * y) == 2 * And(x / 2, y)
  {
    hide And;
    AndSplit(x, 2 * y);
  }

  lemma AndSplit(x: nat, y: nat)
    ensures And(x, y) == 2 * And(x / 2, y / 2) + (x % 2) * (y % 2)
  {
    assert x == 0 ==> (x % 2) * (y % 2) == 0;
    assert y == 0 ==> (x % 2) * (y % 2) == 0;
  }

  lemma RemainderSplit(x: nat, b: nat)
    requires 0 < b
    ensures x % (2 * b) == 2 * ((x / 2) % b) + x % 2
  {
    var q, r := (x / 2) / b, (x / 2) % b;
    assert x / 2 == q * b + r && x == 2 * (x / 2) + x % 2;
    assert x == q * (2 * b) + (2 * r + x % 2);
    UniqueDivMod(x, 2 * b, q, 2 * r + x % 2);
  }

  lemma {:induction false} PowerProduct(a: nat, b: nat)
    requires PowerOfTwo(a) && PowerOfTwo(b)
    ensures PowerOfTwo(a * b)
  {
    if a > 1 {
      PowerProduct(a / 2, b);
      PowerPositive(b);
      var c := a / 2;
      assert a * b == 2 * (c * b);
      Multiples(b, c);
      assert c * b >= 1;
    }
  }

  lemma WordIsPower()
    ensures PowerOfTwo(USIZE)
  {
    assert PowerOfTwo(16);
    PowerProduct(16, 16);
    PowerProduct(256, 256);
    PowerProduct(65536, 65536);
    PowerProduct(0x1_0000_0000, 0x1_0000_0000);
  }

  // The result is the least multiple of `align` that is not below `n`.
  lemma AlignUpIsLeast(n: nat, align: nat, r: nat)
    requires PowerOfTwo(align)
    requires AlignUp(n, align) == Some(r)
    ensures n <= r && r % align == 0 && forall x: nat :: x % align == 0 && n <= x ==> r <= x
  {
    hide PowerOfTwo, AlignUp;
    PowerPositive(align);
    AlignUpIsNext(n, align, r);
    NextMultiple(n, align);
    NextMultipleClose(n, align);
    forall x: nat | x % align == 0 && n <= x
      ensures r <= x
    {
      MultiplesClose(r, x, align);
    }
  }

  lemma AlignUpIsNext(n: nat, align: nat, r: nat)
    requires PowerOfTwo(align)
    requires AlignUp(n, align) == Some(r)
    ensures r == NextMultipleOf(n, align)
  {
    hide PowerOfTwo, And;
    PowerPositive(align);
    WordIsPower();
    MaskRoundsDown(n + (align - 1), USIZE, align);
    RoundDown(n + (align - 1), align);
    NextMultiple(n, align);
    NextMultipleClose(n, align);
    SameMultiple(r, NextMultipleOf(n, align), align);
  }

  lemma PowerPositive(n: nat)
    requires PowerOfTwo(n)
    ensures 0 < n
  {
  }

  lemma NextMultipleClose(n: nat, k: nat)
    requires 0 < k
    ensures n <= NextMultipleOf(n, k) < n + k
  {
  }

  // Two multiples less than one step apart are equal.
  lemma SameMultiple(a: nat, b: nat, k: nat)
    requires 0 < k && a % k == 0 && b % k == 0 && a < b + k && b < a + k
    ensures a == b
  {
    MultiplesClose(a, b, k);
  }

  lemma {:induction false} PowersOfTwoAboveTwo(n: nat)
    requires PowerOfTwo(n) && 4 <= n
    ensures n % 4 == 0
  {
    assert PowerOfTwo(n / 2) && (n / 2) % 2 == 0;
  }

  // An aligned offset of whole words stays on a word boundary.
  lemma AlignedWords(n: nat, align: nat, r: nat)
    requires PowerOfTwo(align) && n % 4 == 0 && AlignUp(n, align) == Some(r)
    ensures r % 4 == 0 && n <= r
  {
    AlignUpIsNext(n, align, r);
    NextMultiple(n, align);
    if align == 1 || align == 2 {
      assert n % align == 0;
    } else {
      assert align != 3;
      PowersOfTwoAboveTwo(align);
      MultipleOfMultiple(r, align, 4);
    }
  }

  lemma AlignUpOverflows(n: nat, align: nat)
    requires PowerOfTwo(align)
    ensures AlignUp(n, align).None? <==> n + align > USIZE
  {
  }

  method ZeroWords(words: array<Word>, from: nat, to: nat)
    requires from <= to <= words.Length
    modifies words
    ensures forall j :: 0 <= j < words.Length && !(from <= j < to) ==> words[j] == old(words[j])
    ensures forall j :: from <= j < to ==> words[j] == 0
  {
    var k := from;
    while k < to
      invariant from <= k <= to
      invariant forall j :: 0 <= j < words.Length && !(from <= j < k) ==> words[j] == old(words[j])
      invariant forall j :: from <= j < k ==> words[j] == 0
    {
      words[k] := 0;
      k := k + 1;
    }
  }

  class Arena {
    const capacity: nat
    // The mapping: the capacity rounded up to whole pages.
    const words: array<Word>
    var bump: nat

    ghost predicate Valid()
      reads this
    {
      && words.Length * 4 == NextMultipleOf(capacity, PAGE_BYTES)
      && bump <= capacity < USIZE && bump % 4 == 0
    }

    // A 2 MiB arena is already whole pages.
    lemma FullSize()
      requires Valid() && capacity == ARENA_BYTES
      ensures words.Length == ARENA_WORDS
    {
    }

    // A fresh anonymous mapping reads as zeros.
    constructor (capacity: nat)
      requires capacity < USIZE
      ensures Valid() && bump == 0 && this.capacity == capacity
      ensures fresh(words)
      ensures forall k :: 0 <= k < words.Length ==> words[k] == 0
    {
      this.capacity := capacity;
      this.bump := 0;
      hide NextMultipleOf;
      var mapped := NextMultipleOf(capacity, PAGE_BYTES);
      NextMultiple(capacity, PAGE_BYTES);
      this.words := new Word[mapped / 4](_ => 0);
    }

    // Reserve `size` bytes at the next offset aligned to `align`, or refuse without effect.
    method AllocRaw(size: nat, align: nat) returns (start: Option<nat>)
      requires Valid() && PowerOfTwo(align) && size % 4 == 0
      modifies this`bump, words
      ensures Valid()
      ensures start.None? <==> old(bump) + align > USIZE || NextMultipleOf(old(bump), align) + size > capacity
      ensures start.None? ==> unchanged(this) && unchanged(words)
      ensures start.Some? ==>
                && start.value == NextMultipleOf(old(bump), align)
                && start.value % 4 == 0
                && bump == start.value + size
                && (forall k :: 0 <= k < words.Length && !(old(bump) / 4 <= k < start.value / 4) ==>
                  words[k] == old(words[k]))
                && (forall k :: old(bump) / 4 <= k < start.value / 4 ==> words[k] == 0)
    {
      hide NextMultipleOf, PowerOfTwo, AlignUp;
      AlignUpOverflows(bump, align);
      var aligned := AlignUp(bump, align);
      if aligned.None? {
        return None;
      }
      var s := aligned.value;
      AlignUpIsNext(bump, align, s);
      AlignedWords(bump, align, s);
      if s + size >= USIZE || s + size > capacity {
        return None;
      }
      ZeroWords(words, bump / 4, s / 4);
      bump := s + size;
      start := Some(s);
    }

    method Reset()
      requires Valid()
      modifies this`bump
      ensures Valid() && bump == 0
    {
      bump := 0;
    }
  }

  // ── Several arenas in one mapping ──

  datatype Range = Range(offset: nat, len: nat)

  // Byte ranges handed to `n` arenas of the given capacity that share one mapping.
  function BatchRanges(n: nat, capacity: nat): (r: Option<seq<Range>>)
  {
    var mapped := NextMultipleOf(capacity, PAGE_BYTES);
    if mapped * n >= USIZE then None
    else Some(seq(n, i requires 0 <= i < n => Range(i * mapped, mapped)))
  }

  // The ranges hold the capacity, do not overlap, and lie inside the mapping.
  lemma BatchRangesDisjoint(n: nat, capacity: nat, rs: seq<Range>)
    requires BatchRanges(n, capacity) == Some(rs)
    ensures |rs| == n
    ensures forall i :: 0 <= i < n ==>
      capacity <= rs[i].len && rs[i].offset + rs[i].len <= NextMultipleOf(capacity, PAGE_BYTES) * n
    ensures forall i, j :: 0 <= i < j < n ==> rs[i].offset + rs[i].len <= rs[j].offset
  {
    var mapped := NextMultipleOf(capacity, PAGE_BYTES);
    forall i, j | 0 <= i < j <= n
      ensures i * mapped + mapped <= j * mapped
    {
      assert (j - i) * mapped >= mapped by {
        Multiples(j - i, mapped);
      }
    }
    assert forall i :: 0 <= i < n ==> i * mapped + mapped <= n * mapped;
  }
}
