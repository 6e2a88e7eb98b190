// Facts about multiples, quotients and remainders that the solver does not find by itself.
module Arithmetic {

  lemma Multiples(t: int, k: nat)
    ensures 0 < t ==> k <= t * k
  {
    assert t * k == (t - 1) * k + k;
    assert 0 < t ==> 0 <= (t - 1) * k;
  }

  // Quotient and remainder are determined by the defining equation.
  lemma UniqueDivMod(x: nat, k: nat, q: nat, r: nat)
    requires 0 < k && r < k && x == q * k + r
    ensures x / k == q && x % k == r
  {
    var q' := x / k;
    assert x == q' * k + x % k;
    assert (q' - q) * k == q' * k - q * k == -((q - q') * k);
    Multiples(q' - q, k);
    Multiples(q - q', k);
  }

  lemma RoundDown(x: nat, k: nat)
    requires 0 < k
    ensures x % k < k && (x - x % k) % k == 0
  {
    var q := x / k;
    assert x - x % k == q * k;
    UniqueDivMod(x - x % k, k, q, 0);
  }

  lemma MultiplesClose(a: nat, b: nat, k: nat)
    requires 0 < k && a % k == 0 && b % k == 0
    ensures a < b ==> a + k <= b
    ensures b < a ==> b + k <= a
  {
    var x, y := a / k, b / k;
    assert a == x * k && b == y * k;
    assert b - a == (y - x) * k && a - b == (x - y) * k;
    Multiples(y - x, k);
    Multiples(x - y, k);
  }

  lemma MultipleOfMultiple(x: nat, k: nat, d: nat)
    requires 0 < k && 0 < d && x % k == 0 && k % d == 0
    ensures x % d == 0
  {
    var q, t := x / k, k / d;
    assert x == q * k && k == t * d;
    assert x == (q * t) * d;
    UniqueDivMod(x, d, q * t, 0);
  }

  lemma DivExact(q: nat, d: nat)
    requires 0 < d
    ensures (q * d) / d == q
  {
    UniqueDivMod(q * d, d, q, 0);
  }

  // Rounding a quotient up: the least number of `d`s that reach `y`.
  lemma CeilIff(x: nat, y: nat, d: nat)
    requires 0 < d
    ensures x * d < y <==> x < (y + d - 1) / d
  {
    var c := (y + d - 1) / d;
    assert y + d - 1 == c * d + (y + d - 1) % d;
    assert (c - x) * d == c * d - x * d && (x - c) * d == x * d - c * d;
    Multiples(c - x, d);
    Multiples(x - c, d);
    assert c == x ==> c * d == x * d;
  }
}
