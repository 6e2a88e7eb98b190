// The orders in which recovery goes through buckets and log entries.
module Listings {
  import opened Protocol
  import opened Sorting

  // Older buckets first, ties by number; unknown buckets last.
  function Older(metas: map<nat, Meta>): (nat, nat) -> bool {
    (a, b) =>
      if a in metas && b in metas then
        metas[a].created < metas[b].created || (metas[a].created == metas[b].created && a < b)
      else if a in metas then true
      else b !in metas && a < b
  }

  lemma OrdersAreStrict(metas: map<nat, Meta>)
    ensures StrictOrder(Less) && StrictOrder(Older(metas))
  {
  }

  lemma OlderOrder(b: Blob, order: seq<nat>)
    requires Ascending(Older(b.metas), order) && forall x :: x in order <==> x in b.metas.Keys
    ensures RestoreOrder(b, order)
  {
    OrdersAreStrict(b.metas);
    var less := Older(b.metas);
    assert forall i, j :: 0 <= i < j < |order| ==> less(order[i], order[j]);
  }
}
