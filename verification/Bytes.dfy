// Bytes and little-endian numbers.
module Bytes {
  import opened Arithmetic

  type Byte = b: nat | b < 256
  type U32 = n: nat | n < 0x1_0000_0000
  type U64 = n: nat | n < 0x1_0000_0000_0000_0000

  // The `w` low bytes of `n`, least significant first.
  function LE(n: nat, w: nat): (s: seq<Byte>)
    ensures |s| == w
  {
    if w == 0 then [] else [n % 256] + LE(n / 256, w - 1)
  }

  function Value(s: seq<Byte>): nat {
    if s == [] then 0 else s[0] + 256 * Value(s[1..])
  }

  function Pow256(w: nat): (r: nat)
    ensures r > 0
  {
    if w == 0 then 1 else 256 * Pow256(w - 1)
  }

  lemma Widths()
    ensures Pow256(4) == 0x1_0000_0000 && Pow256(8) == 0x1_0000_0000_0000_0000
  {
    assert Pow256(2) == 65536;
    assert Pow256(4) == 256 * (256 * Pow256(2));
    assert Pow256(6) == 256 * (256 * Pow256(4));
    assert Pow256(8) == 256 * (256 * Pow256(6));
  }

  // A number that fits is read back as it was written.
  lemma {:induction false} ReadsBack(n: nat, w: nat)
    requires n < Pow256(w)
    ensures Value(LE(n, w)) == n
  {
    if w > 0 {
      ReadsBack(n / 256, w - 1);
      assert LE(n, w)[1..] == LE(n / 256, w - 1);
    }
  }

  // The `w` bytes from `pos` on are the low base-256 digits of `n`, least significant first.
  ghost predicate NumberAt(s: seq<Byte>, pos: nat, w: nat, n: nat) {
    pos + w <= |s| && forall i :: 0 <= i < w ==> s[pos + i] == n / Pow256(i) % 256
  }

  lemma {:induction false} DigitAt(n: nat, w: nat, i: nat)
    requires i < w
    ensures LE(n, w)[i] == n / Pow256(i) % 256
  {
    if i > 0 {
      DigitAt(n / 256, w - 1, i - 1);
      DivTwice(n, Pow256(i - 1));
    }
  }

  lemma DivTwice(n: nat, p: nat)
    requires p > 0
    ensures n / 256 / p == n / (256 * p)
  {
    var q, r := n / (256 * p), n % (256 * p);
    assert n == (p * q + r / 256) * 256 + r % 256;
    UniqueDivMod(n, 256, p * q + r / 256, r % 256);
    UniqueDivMod(n / 256, p, q, r / 256);
  }

  // A number written somewhere is there digit by digit.
  lemma WrittenAt(s: seq<Byte>, pos: nat, w: nat, n: nat)
    requires pos + w <= |s| && s[pos..pos + w] == LE(n, w)
    ensures NumberAt(s, pos, w, n)
  {
    forall i | 0 <= i < w
      ensures s[pos + i] == n / Pow256(i) % 256
    {
      DigitAt(n, w, i);
      assert s[pos + i] == s[pos..pos + w][i];
    }
  }

  // Any bytes are what writing their value gives.
  lemma {:induction false} WritesBack(s: seq<Byte>)
    ensures Value(s) < Pow256(|s|) && LE(Value(s), |s|) == s
  {
    if s != [] {
      WritesBack(s[1..]);
      assert Value(s) / 256 == Value(s[1..]) && Value(s) % 256 == s[0];
      assert s == [s[0]] + s[1..];
    }
  }

  lemma ReadsBack4(n: U32)
    ensures Value(LE(n, 4)) == n
  {
    Widths();
    ReadsBack(n, 4);
  }

  lemma ReadsBack8(n: U64)
    ensures Value(LE(n, 8)) == n
  {
    Widths();
    ReadsBack(n, 8);
  }

  // The number in the four bytes at `pos`.
  function U32At(s: seq<Byte>, pos: nat): (n: U32)
    requires pos + 4 <= |s|
    ensures LE(n, 4) == s[pos..pos + 4]
  {
    Widths();
    WritesBack(s[pos..pos + 4]);
    Value(s[pos..pos + 4])
  }

  function U64At(s: seq<Byte>, pos: nat): (n: U64)
    requires pos + 8 <= |s|
    ensures LE(n, 8) == s[pos..pos + 8]
  {
    Widths();
    WritesBack(s[pos..pos + 8]);
    Value(s[pos..pos + 8])
  }

  // Numbers written with the same width are distinct.
  lemma SameBytes4(a: U32, b: U32)
    requires LE(a, 4) == LE(b, 4)
    ensures a == b
  {
    ReadsBack4(a);
    ReadsBack4(b);
  }

  lemma SameBytes8(a: U64, b: U64)
    requires LE(a, 8) == LE(b, 8)
    ensures a == b
  {
    ReadsBack8(a);
    ReadsBack8(b);
  }
}
