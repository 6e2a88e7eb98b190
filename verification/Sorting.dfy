// Listing a set of keys in order.
module Sorting {

  ghost predicate StrictOrder(less: (nat, nat) -> bool) {
    && (forall a: nat :: !less(a, a))
    && (forall a: nat, b: nat :: a != b ==> less(a, b) || less(b, a))
    && (forall a: nat, b: nat, c: nat :: less(a, b) && less(b, c) ==> less(a, c))
  }

  ghost predicate Ascending(less: (nat, nat) -> bool, s: seq<nat>) {
    forall i, j :: 0 <= i < j < |s| ==> less(s[i], s[j])
  }

  method SortedKeys(keys: set<nat>, less: (nat, nat) -> bool) returns (s: seq<nat>)
    requires StrictOrder(less)
    ensures Ascending(less, s) && forall x :: x in s <==> x in keys
  {
    s := [];
    var rest := keys;
    while rest != {}
      invariant rest <= keys && Ascending(less, s) && forall x :: x in s <==> x in keys - rest
      decreases |rest|
    {
      var x :| x in rest;
      InOrder(s, x, less);
      s := PutInOrder(s, x, less);
      rest := rest - {x};
    }
  }

  // Every set of keys can be listed in order.
  lemma {:induction false} CanBeSorted(keys: set<nat>, less: (nat, nat) -> bool) returns (s: seq<nat>)
    requires StrictOrder(less)
    ensures Ascending(less, s) && forall x :: x in s <==> x in keys
    decreases |keys|
  {
    s := [];
    if keys != {} {
      var x :| x in keys;
      s := CanBeSorted(keys - {x}, less);
      InOrder(s, x, less);
      s := PutInOrder(s, x, less);
    }
  }

  // Put `x` before the first element that is not less than it.
  function PutInOrder(s: seq<nat>, x: nat, less: (nat, nat) -> bool): seq<nat> {
    if s == [] || !less(s[0], x) then [x] + s else [s[0]] + PutInOrder(s[1..], x, less)
  }

  lemma {:induction false} InOrder(s: seq<nat>, x: nat, less: (nat, nat) -> bool)
    requires StrictOrder(less) && Ascending(less, s) && x !in s
    ensures var r := PutInOrder(s, x, less); Ascending(less, r) && forall y :: y in r <==> y in s || y == x
  {
    if s != [] && less(s[0], x) {
      InOrder(s[1..], x, less);
      var q := PutInOrder(s[1..], x, less);
      assert PutInOrder(s, x, less) == [s[0]] + q;
      forall j | 0 <= j < |q|
        ensures less(s[0], q[j])
      {
        assert q[j] in q;
      }
    } else {
      assert PutInOrder(s, x, less) == [x] + s;
      forall j | 0 <= j < |s|
        ensures less(x, s[j])
      {
        assert j > 0 ==> less(s[0], s[j]);
      }
    }
  }

  predicate Less(a: nat, b: nat) {
    a < b
  }
}
