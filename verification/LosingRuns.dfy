// Concrete runs of the protocol that lose an acknowledged vector.
module LosingRuns {
  import opened Options
  import opened TimeBucket
  import opened Protocol
  import opened Runs

  // One vector, inserted, uploaded and acknowledged; then another collection is created, and
  // the node crashes and recovers.
  function LosingRun(): seq<Action> {
    [Insert([Entry(0, 7)]), PutWal(1), MarkWal, Ack(1), WriteCatalog, Crash, Recover([], [])]
  }

  const E7 := Entry(0, 7)
  const MEM7 := State([Bucket(0, 0, [7], 2, 0)], 1, {7})
  const LOG7: map<nat, seq<Entry>> := map[1 := [E7]]
  const BLOB7 := Blob(LOG7, map[], map[], None, Lists(0))

  // The system before step i of the losing run.
  function LosingState(i: nat): System {
    if i == 0 then Created(Lists(0))
    else if i == 1 then System(Created(Lists(0)).blob, Up(MEM7, LOG7, None, 2, 0, LOG7, None), {})
    else if i == 2 then System(BLOB7, Up(MEM7, LOG7, Some(1), 2, 0, LOG7, None), {})
    else if i == 3 then System(BLOB7, Up(MEM7, map[], None, 2, 1, LOG7, None), {})
    else if i == 4 then System(BLOB7, Up(MEM7, map[], None, 2, 1, map[], None), {7})
    else if i == 5 then System(BLOB7.(catalog := Lists(1)), Up(MEM7, map[], None, 2, 1, map[], None), {7})
    else if i == 6 then System(BLOB7.(catalog := Lists(1)), Down, {7})
    else System(BLOB7.(catalog := Lists(1)), Up(State([], 0, {}), map[], None, 2, 1, map[], None), {7})
  }

  lemma InsertsNothing(s: State, batch: seq<Entry>)
    requires batch == []
    ensures InsertAll(1, s, batch).0 == s
  {
  }

  lemma LosingInsert()
    ensures InsertAll(1, State([], 0, {}), [E7]).0 == MEM7
  {
    var s := State([], 0, {});
    var o := Alloc(s, 0);
    assert Opened(s, 0) == o && o.buckets == [Bucket(0, 0, [], 1, 0)] && o.buckets[1..] == [];
    assert Accept(o, 7) == MEM7 by {
      assert [] + [7] == [7] && {} + {7} == {7};
    }
    assert InsertOne(1, s, E7).0 == MEM7;
    InsertsNothing(MEM7, [E7][1..]);
  }

  lemma LosingAck()
    ensures StoredOf(IdsOf([E7]), MEM7) == {7}
  {
    assert [E7][0].id in IdsOf([E7]);
    assert 7 in MEM7.buckets[0].ids;
  }

  lemma LosingStep(i: nat)
    requires i < 7
    ensures Enabled(LosingState(i), LosingRun()[i]) && Apply(1, LosingState(i), LosingRun()[i]) == LosingState(i + 1)
  {
    hide InsertAll, IdsOf, Stored, StoredOf;
    if i == 0 {
      LosingInsert();
    } else if i == 3 {
      LosingAck();
    }
  }

  lemma {:induction false} LosingFrom(i: nat)
    requires i <= 7
    ensures CanRun(1, LosingState(i), LosingRun()[i..]) && After(1, LosingState(i), LosingRun()[i..]) == LosingState(7)
    decreases 7 - i
  {
    hide Enabled, Apply, LosingState;
    if i < 7 {
      LosingStep(i);
      LosingFrom(i + 1);
      assert LosingRun()[i..][1..] == LosingRun()[i + 1..];
    }
  }

  // It loses the acknowledged vector: the catalog's mark is ahead of every snapshot.
  lemma CatalogMarkLosesAcknowledged()
    ensures CanRun(1, Created(Lists(0)), LosingRun())
    ensures var s := After(1, Created(Lists(0)), LosingRun()); s.node.Up? && 7 in s.acked && !Stored(s.node.mem, 7)
  {
    hide CanRun, After;
    LosingFrom(0);
    assert LosingRun()[0..] == LosingRun();
  }

  // The same vector, with a catalog upload that failed at creation and no snapshot yet.
  function UnlistedRun(): seq<Action> {
    [Insert([E7]), PutWal(1), MarkWal, Ack(1), Crash]
  }

  function UnlistedState(catalog: Catalog, i: nat): System {
    var s := LosingState(i);
    System(s.blob.(catalog := catalog), if i < 5 then s.node else Down, s.acked)
  }

  lemma UnlistedStep(catalog: Catalog, i: nat)
    requires i < 5
    ensures Enabled(UnlistedState(catalog, i), UnlistedRun()[i])
         && Apply(1, UnlistedState(catalog, i), UnlistedRun()[i]) == UnlistedState(catalog, i + 1)
  {
    hide InsertAll, IdsOf, Stored, StoredOf;
    if i == 0 {
      LosingInsert();
    } else if i == 3 {
      LosingAck();
    }
  }

  lemma {:induction false} UnlistedFrom(catalog: Catalog, i: nat)
    requires i <= 5
    ensures CanRun(1, UnlistedState(catalog, i), UnlistedRun()[i..])
    ensures After(1, UnlistedState(catalog, i), UnlistedRun()[i..]) == UnlistedState(catalog, 5)
    decreases 5 - i
  {
    hide Enabled, Apply, UnlistedState;
    if i < 5 {
      UnlistedStep(catalog, i);
      UnlistedFrom(catalog, i + 1);
      assert UnlistedRun()[i..][1..] == UnlistedRun()[i + 1..];
    }
  }

  // With no catalog, or one that lacks the collection, an acknowledged vector is lost although
  // its log entry is in storage: no recovery can follow.
  lemma UnannouncedIsLost(catalog: Catalog, order: seq<nat>, log: seq<nat>)
    requires catalog == NoCatalog || catalog == Lacks
    ensures CanRun(1, Created(catalog), UnlistedRun()) && !Announced(catalog, UnlistedRun())
    ensures var s := After(1, Created(catalog), UnlistedRun());
      7 in s.acked && 1 in s.blob.wal && !Enabled(s, Recover(order, log))
  {
    hide CanRun, After;
    UnlistedFrom(catalog, 0);
    assert UnlistedRun()[0..] == UnlistedRun();
  }

  // Publishing a mark is no remedy once there is a catalog that lacks the collection.
  lemma LacksStaysLost(d: nat, run: seq<Action>, order: seq<nat>, log: seq<nat>)
    requires 0 < d && CanRun(d, Created(Lacks), run) && WriteCatalog !in run
    ensures !Enabled(Apply(d, After(d, Created(Lacks), run), Crash), Recover(order, log))
  {
    MarkIffAnnounced(d, Created(Lacks), run);
    FoundIffMarked(d, After(d, Created(Lacks), run));
  }
}
