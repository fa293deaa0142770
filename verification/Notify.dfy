// One notification: a reading is accounted and passed on to the histories. src/attr.c
module Notify {
  import opened Timing
  import opened Counters
  import opened History
  import opened AttrIndex

  ghost predicate Separate(rings: seq<Ring>)
    reads set r, o | r in rings && o in r.Own() :: o
  {
    forall i, j :: 0 <= i < |rings| && 0 <= j < |rings| && i != j ==> rings[i].Repr() !! rings[j].Repr()
  }

  ghost function All(rings: seq<Ring>): set<object>
    reads set r, o | r in rings && o in r.Own() :: o
  {
    set r, o | r in rings && o in r.Repr() :: o
  }

  ghost predicate Ready(r: Ring, rxTotal: nat, txTotal: nat, ts: Stamp)
    reads r, r.rx, r.tx, r.rx.data, r.tx.data
  {
    r.Valid() && BothTimely(r.Value(), rxTotal, txTotal, ts, r.setting)
  }

  ghost predicate AllReady(rings: seq<Ring>, rxTotal: nat, txTotal: nat, ts: Stamp)
    reads set r, o | r in rings && o in r.Own() :: o, All(rings)
  {
    forall i :: 0 <= i < |rings| ==>
      (assert rings[i].rx in rings[i].Own() && rings[i].tx in rings[i].Own();
       assert rings[i].rx.data != null ==> rings[i].rx.data in rings[i].Repr();
       assert rings[i].tx.data != null ==> rings[i].tx.data in rings[i].Repr();
       Ready(rings[i], rxTotal, txTotal, ts))
  }

  ghost function Values(rings: seq<Ring>): (v: seq<HistoryState>)
    reads set r, o | r in rings && o in r.Own() :: o
    ensures |v| == |rings| && forall i :: 0 <= i < |rings| ==> v[i] == rings[i].Value()
  {
    seq(|rings|, i requires 0 <= i < |rings|
                 reads set r, o | r in rings && o in r.Own() :: o
                 => assert rings[i].rx in rings[i].Own() && rings[i].tx in rings[i].Own(); rings[i].Value())
  }

  // Every history went through one update with these totals.
  ghost predicate AllUpdated(rings: seq<Ring>, before: seq<HistoryState>, rxTotal: nat, txTotal: nat, ts: Stamp)
    requires |before| == |rings|
    reads set r, o | r in rings && o in r.Own() :: o, All(rings)
  {
    forall i :: 0 <= i < |rings| ==>
      (assert rings[i].rx in rings[i].Own() && rings[i].tx in rings[i].Own();
       assert rings[i].rx.data != null ==> rings[i].rx.data in rings[i].Repr();
       assert rings[i].tx.data != null ==> rings[i].tx.data in rings[i].Repr();
       rings[i].Valid() && rings[i].UpdatedFrom(before[i], rxTotal, txTotal, ts))
  }

  // Nothing of a ring changed.
  twostate predicate Kept(r: Ring)
    reads r, r.rx, r.tx, r.rx.data, r.tx.data
  {
    (old(r.Valid()) ==> r.Valid()) && r.Value() == old(r.Value()) && r.Repr() == old(r.Repr())
  }

  // Once an update is accepted, each direction goes on from its own total.
  lemma OwnTotals(r: Ring, before: HistoryState, rxTotal: nat, txTotal: nat, ts: Stamp)
    requires r.UpdatedFrom(before, rxTotal, txTotal, ts) && r.last == ts != before.last
    requires rxTotal != UNKNOWN && txTotal != UNKNOWN
    ensures r.rx.prevTotal == rxTotal && r.tx.prevTotal == txTotal
  {
  }

  // A ring went through one update.
  twostate predicate Went(r: Ring, rxTotal: nat, txTotal: nat, ts: Stamp)
    reads r, r.rx, r.tx, r.rx.data, r.tx.data
  {
    r.Valid() && r.UpdatedFrom(old(r.Value()), rxTotal, txTotal, ts)
  }

  // One of the histories; the others are not touched.
  method UpdateAt(rings: seq<Ring>, i: nat, rxTotal: nat, txTotal: nat, ts: Stamp)
    requires i < |rings| && Separate(rings) && Ready(rings[i], rxTotal, txTotal, ts)
    modifies rings[i].Repr()
    ensures Went(rings[i], rxTotal, txTotal, ts)
    ensures forall j :: 0 <= j < |rings| && j != i ==> Kept(rings[j])
    ensures Separate(rings)
  {
    var r: Ring := rings[i];
    assert r.rx in r.Repr() && r.tx in r.Repr();
    r.Update(rxTotal, txTotal, ts);
    forall j | 0 <= j < |rings| && j != i
      ensures Kept(rings[j]) && rings[i].Repr() !! rings[j].Repr()
    {
      assert old(rings[i].Repr()) !! old(rings[j].Repr());
      assert rings[j].rx in old(rings[j].Repr()) && rings[j].tx in old(rings[j].Repr());
    }
  }

  // The loop over the histories of an attribute.
  method UpdateAll(rings: seq<Ring>, rxTotal: nat, txTotal: nat, ts: Stamp)
    requires Separate(rings) && AllReady(rings, rxTotal, txTotal, ts)
    modifies All(rings)
    ensures AllUpdated(rings, old(Values(rings)), rxTotal, txTotal, ts)
  {
    for i := 0 to |rings|
      invariant Separate(rings)
      invariant forall j :: 0 <= j < i ==> Went(rings[j], rxTotal, txTotal, ts)
      invariant forall j :: i <= j < |rings| ==> Kept(rings[j])
    {
      assert old(Ready(rings[i], rxTotal, txTotal, ts));
      UpdateAt(rings, i, rxTotal, txTotal, ts);
    }
  }

  // The rates of a counter are estimated only over time that has passed.
  ghost predicate BothMeasurable(a: Attr, ts: Stamp, gap: real)
    reads a.rx, a.tx
  {
    && Fits(a.rx.Value()) && Fits(a.tx.Value())
    && (a.def.kind.COUNTER? ==> Measurable(a.rx.Value(), ts, gap) && Measurable(a.tx.Value(), ts, gap))
  }

  // A rate after one notification.
  ghost function Accounted(a: Attr, before: RateState, ts: Stamp, gap: real): RateState
    requires a.def.kind.COUNTER? ==> Measurable(before, ts, gap)
  {
    if a.def.kind.COUNTER? then Calculated(before, a.def.flags, ts, gap) else Taken(before, ts)
  }

  // A counter accumulates its readings; any other attribute is what it reads.
  lemma AccountedTotals(a: Attr, before: RateState, ts: Stamp, gap: real)
    requires a.def.kind.COUNTER? ==> Measurable(before, ts, gap)
    ensures var after := Accounted(a, before, ts, gap);
      && after.prev == after.current == before.current && after.reset == before.reset
      && (a.def.kind.COUNTER? ==>
            after.total == (before.total + Delta(before.prev, before.current, a.def.flags)) % 0x1_0000_0000_0000_0000)
      && (!a.def.kind.COUNTER? ==>
            after.total == before.current && after.rate == before.current as real && after.lastCalc == ts)
  {
  }

  // Both directions of one attribute.
  method CalcRates(a: Attr, ts: Stamp, gap: real)
    requires a.rx != a.tx && BothMeasurable(a, ts, gap)
    modifies a.rx, a.tx
    ensures a.rx.Value() == Accounted(a, old(a.rx.Value()), ts, gap)
    ensures a.tx.Value() == Accounted(a, old(a.tx.Value()), ts, gap)
  {
    if a.def.kind.COUNTER? {
      a.rx.CalcCounterRate(a.def.flags, ts, gap);
      a.tx.CalcCounterRate(a.def.flags, ts, gap);
    } else {
      a.rx.CalcRateTotal(ts);
      a.tx.CalcRateTotal(ts);
    }
  }

  // attr_notify_update; the histories are those of an attribute of this kind.
  method AttrNotifyUpdate(a: Attr, ts: Stamp, gap: real)
    requires a.rx != a.tx && BothMeasurable(a, ts, gap) && Separate(a.histories)
    requires forall i :: 0 <= i < |a.histories| ==> a.histories[i].setting.counter == a.def.kind.COUNTER?
    requires AllReady(a.histories, Accounted(a, a.rx.Value(), ts, gap).total,
                      Accounted(a, a.tx.Value(), ts, gap).total, ts)
    modifies a.rx, a.tx, All(a.histories)
    ensures a.rx.Value() == Accounted(a, old(a.rx.Value()), ts, gap)
    ensures a.tx.Value() == Accounted(a, old(a.tx.Value()), ts, gap)
    ensures AllUpdated(a.histories, old(Values(a.histories)), a.rx.total, a.tx.total, ts)
  {
    ghost var before := Values(a.histories);
    CalcBeside(a, ts, gap);
    assert Values(a.histories) == before;
    UpdateHistories(a, ts);
  }

  // The rates of an attribute; its histories stay as they are, ready for the new totals.
  method CalcBeside(a: Attr, ts: Stamp, gap: real)
    requires a.rx != a.tx && BothMeasurable(a, ts, gap)
    requires AllReady(a.histories, Accounted(a, a.rx.Value(), ts, gap).total,
                      Accounted(a, a.tx.Value(), ts, gap).total, ts)
    modifies a.rx, a.tx
    ensures a.rx.Value() == Accounted(a, old(a.rx.Value()), ts, gap)
    ensures a.tx.Value() == Accounted(a, old(a.tx.Value()), ts, gap)
    ensures forall i :: 0 <= i < |a.histories| ==> Kept(a.histories[i])
    ensures AllReady(a.histories, a.rx.total, a.tx.total, ts)
  {
    var rings := a.histories;
    ghost var rxTotal, txTotal := Accounted(a, a.rx.Value(), ts, gap).total, Accounted(a, a.tx.Value(), ts, gap).total;
    CalcRates(a, ts, gap);
    forall i | 0 <= i < |rings|
      ensures Kept(rings[i]) && Ready(rings[i], rxTotal, txTotal, ts)
    {
      assert old(Ready(rings[i], rxTotal, txTotal, ts));
    }
  }

  // The histories of an attribute; its rates stay as they are.
  method UpdateHistories(a: Attr, ts: Stamp)
    requires Separate(a.histories) && AllReady(a.histories, a.rx.total, a.tx.total, ts)
    modifies All(a.histories)
    ensures a.rx.Value() == old(a.rx.Value()) && a.tx.Value() == old(a.tx.Value())
    ensures AllUpdated(a.histories, old(Values(a.histories)), a.rx.total, a.tx.total, ts)
  {
    assert a.rx !in All(a.histories) && a.tx !in All(a.histories);
    UpdateAll(a.histories, a.rx.total, a.tx.total, ts);
  }

  // attr_reset_counter
  method AttrResetCounter(a: Attr)
    requires a.rx != a.tx
    modifies a.rx`reset, a.tx`reset
    ensures
      var counter := a.def.kind.COUNTER?;
      && a.rx.Value() == (if counter then old(a.rx.Value()).(reset := a.rx.total) else old(a.rx.Value()))
      && a.tx.Value() == (if counter then old(a.tx.Value()).(reset := a.tx.total) else old(a.tx.Value()))
      && (counter ==> a.rx.GetTotal() == 0 && a.tx.GetTotal() == 0)
  {
    if a.def.kind.COUNTER? {
      a.rx.ResetCounter();
      a.tx.ResetCounter();
    }
  }
}
