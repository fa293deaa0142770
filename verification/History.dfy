// The history ring of a counter: src/history.c.
module History {
  import opened Timing
  import opened Counters

  const UNKNOWN := M64 - 1 // HISTORY_UNKNOWN

  // The width of the cells of a history (HISTORY_TYPE_8 and so on).
  datatype Width = Bits8 | Bits16 | Bits32 | Bits64

  // The largest value a cell can hold; in a cell it stands for an unknown value.
  function Top(w: Width): nat {
    match w
    case Bits8 => 0xFF
    case Bits16 => 0xFFFF
    case Bits32 => 0xFFFF_FFFF
    case Bits64 => 0xFFFF_FFFF_FFFF_FFFF
  }

  // struct history_def
  datatype Def = Def(size: nat, width: Width, interval: real)

  // ---- cells ----

  // Storing into a cell truncates.
  function Cell(delta: nat, w: Width): nat {
    delta % (Top(w) + 1)
  }

  // history_data on one cell
  function Decode(cell: nat, w: Width): nat {
    if cell == Top(w) then UNKNOWN else cell
  }

  // A value survives being stored exactly if it is below the mark of its width, or is the mark itself.
  lemma SurvivesIff(delta: nat, w: Width)
    ensures Decode(Cell(delta, w), w) == delta <==> delta < Top(w) || delta == UNKNOWN
  {
    if delta < Top(w) {
      assert Cell(delta, w) == delta;
    }
  }

  // The same in numbers: what the four widths hold, and what is left of a value that is too large.
  lemma WidthLimits(v: nat)
    ensures Decode(Cell(v, Bits8), Bits8) == v <==> v < 255 || v == 18446744073709551615
    ensures Decode(Cell(v, Bits16), Bits16) == v <==> v < 65535 || v == 18446744073709551615
    ensures Decode(Cell(v, Bits32), Bits32) == v <==> v < 4294967295 || v == 18446744073709551615
    ensures Decode(Cell(v, Bits64), Bits64) == v <==> v <= 18446744073709551615
    ensures v % 256 != 255 ==> Decode(Cell(v, Bits8), Bits8) == v % 256
    ensures v % 65536 != 65535 ==> Decode(Cell(v, Bits16), Bits16) == v % 65536
    ensures v % 4294967296 != 4294967295 ==> Decode(Cell(v, Bits32), Bits32) == v % 4294967296
  {
    SurvivesIff(v, Bits8);
    SurvivesIff(v, Bits16);
    SurvivesIff(v, Bits32);
    SurvivesIff(v, Bits64);
  }

  // ---- the ring ----

  // The slot written i pushes before the newest one: where a backward walk from index stands after
  // i + 1 steps.
  function Back(index: nat, i: nat, size: nat): nat
    requires index < size && i < size
  {
    if i < index then index - 1 - i else index + size - 1 - i
  }

  function Succ(index: nat, size: nat): nat
    requires index < size
  {
    if index < size - 1 then index + 1 else 0
  }

  // The i-th newest of the values pushed so far; a slot never pushed reads as 0.
  ghost function Newest(slots: seq<nat>, i: nat): nat {
    if i < |slots| then slots[|slots| - 1 - i] else 0
  }

  ghost predicate Holds(cells: seq<nat>, index: nat, slots: seq<nat>, size: nat) {
    && index < size && |cells| == size
    && forall i :: 0 <= i < size ==> cells[Back(index, i, size)] == Newest(slots, i)
  }

  // The backward walk meets every slot once.
  lemma BackVisitsAll(index: nat, size: nat, slot: nat)
    requires index < size && slot < size
    ensures exists i :: 0 <= i < size && Back(index, i, size) == slot
    ensures forall i, j :: 0 <= i < j < size ==> Back(index, i, size) != Back(index, j, size)
  {
    if slot < index {
      assert Back(index, index - 1 - slot, size) == slot;
    } else {
      assert Back(index, index + size - 1 - slot, size) == slot;
    }
  }

  // A write at the index followed by its increment pushes one value.
  lemma PushHolds(cells: seq<nat>, index: nat, slots: seq<nat>, size: nat, v: nat)
    requires Holds(cells, index, slots, size)
    ensures Holds(cells[index := v], Succ(index, size), slots + [v], size)
  {
    var next, after := Succ(index, size), cells[index := v];
    forall i | 0 <= i < size
      ensures after[Back(next, i, size)] == Newest(slots + [v], i)
    {
      if i > 0 {
        assert Back(next, i, size) == Back(index, i - 1, size);
        assert cells[Back(index, i - 1, size)] == Newest(slots, i - 1);
      }
    }
  }

  lemma BlankHolds(index: nat, slots: seq<nat>, size: nat)
    requires index < size && forall s :: s in slots ==> s == 0
    ensures Holds(Zeros(size), index, slots, size)
  {
    forall i | 0 <= i < size
      ensures Zeros(size)[Back(index, i, size)] == Newest(slots, i)
    {
      if i < |slots| { assert Newest(slots, i) in slots; }
    }
  }

  // The index is the number of pushes modulo the size.
  lemma SuccIsModulo(pushes: nat, size: nat)
    requires size > 0
    ensures pushes % size < size && Succ(pushes % size, size) == (pushes + 1) % size
  {
    var r := pushes % size;
    assert pushes == pushes / size * size + r;
    if r < size - 1 {
      ModuloIs(pushes + 1, pushes / size, r + 1, size);
    } else {
      ModuloIs(pushes + 1, pushes / size + 1, 0, size);
    }
  }

  lemma ModuloIs(n: int, q: int, r: int, d: int)
    requires 0 <= r < d && n == q * d + r
    ensures n % d == r
  {
    var p := n / d;
    assert n == p * d + n % d;
    NoMultiple(p - q, d, r - n % d);
  }

  lemma NoMultiple(k: int, d: int, x: int)
    requires -d < x < d && k * d == x
    ensures k == 0
  {
    assert k > 0 ==> k * d >= d;
    assert k < 0 ==> k * d <= -d;
  }

  function Zeros(n: nat): seq<nat> {
    seq(n, _ => 0)
  }

  function Repeat(v: nat, n: nat): (r: seq<nat>)
    ensures |r| == n && forall i :: 0 <= i < n ==> r[i] == v
  {
    seq(n, _ => v)
  }

  // ---- one direction of a history, as a value ----

  datatype StoreState = StoreState(present: bool, prevTotal: nat, slots: seq<nat>)

  // How far a total has moved, on 64-bit unsigned integers.
  function Moved(prevTotal: nat, total: nat): nat {
    (total - prevTotal) % M64
  }

  // A rate is a difference per second rounded down.
  ghost predicate RoundsDown(rate: nat, delta: int, diff: real) {
    rate as real * diff <= delta as real < rate as real * diff + diff
  }

  // The rate a stored slot stands for; without any growth there is no division.
  ghost function Rated(delta: nat, diff: real): (r: nat)
    requires delta > 0 ==> diff > 0.0
    ensures if delta == 0 then r == 0 else RoundsDown(r, delta, diff)
  {
    if delta == 0 then 0
    else
      var quotient := delta as real / diff;
      assert quotient * diff == delta as real;
      SignTimes(quotient, diff);
      FloorTimes(quotient, quotient.Floor as real, diff, delta as real);
      quotient.Floor
  }

  lemma SignTimes(q: real, d: real)
    requires d > 0.0
    ensures q < 0.0 <==> q * d < 0.0
  {
  }

  lemma FloorTimes(q: real, f: real, d: real, x: real)
    requires d > 0.0 && q * d == x && f <= q < f + 1.0
    ensures f * d <= x < f * d + d
  {
    var r, s := q - f, q - f - 1.0;
    SignTimes(r, d);
    SignTimes(s, d);
    assert r * d == x - f * d && s * d == x - f * d - d;
  }

  // Time has advanced if a delta is to be divided by it.
  predicate Divisible(s: StoreState, total: nat, diff: real) {
    total != UNKNOWN && Moved(s.prevTotal, total) > 0 ==> diff > 0.0
  }

  // What one call of history_store_data and the increment push.
  ghost function Pushed(s: StoreState, total: nat, diff: real, w: Width): StoreState
    requires Divisible(s, total, diff)
  {
    if total == UNKNOWN then s.(slots := s.slots + [if s.present then Top(w) else 0])
    else StoreState(true, total, s.slots + [Cell(Rated(Moved(s.prevTotal, total), diff), w)])
  }

  // k slots passed over, then the total taken as the new base.
  ghost function PassedOver(s: StoreState, k: nat, total: nat, w: Width): StoreState {
    StoreState(s.present, total, s.slots + Repeat(if s.present then Top(w) else 0, k))
  }

  lemma PassOne(s: StoreState, k: nat, w: Width)
    ensures PassedOver(s, 0, s.prevTotal, w) == s
    ensures Pushed(PassedOver(s, k, s.prevTotal, w), UNKNOWN, 0.0, w) == PassedOver(s, k + 1, s.prevTotal, w)
  {
    var mark := if s.present then Top(w) else 0;
    assert s.slots + Repeat(mark, k) + [mark] == s.slots + Repeat(mark, k + 1);
    assert s.slots + Repeat(mark, 0) == s.slots;
  }

  function RoundHalfUp(x: real): int {
    (x + 0.5).Floor
  }

  // The slots the discard loop passes over.
  function GapSlots(diff: real, interval: real): nat
    requires interval > 0.0
  {
    if diff >= 0.0 then RoundQuotient(diff, interval) else 0
  }

  function RoundQuotient(diff: real, interval: real): nat
    requires interval > 0.0 && diff >= 0.0
  {
    SignTimes(diff / interval, interval);
    RoundHalfUp(diff / interval)
  }

  // The number of slots is the one integer that leaves a residue within half an interval.
  lemma GapResidue(diff: real, interval: real, k: nat)
    requires interval > 0.0 && diff >= 0.0
    ensures k == GapSlots(diff, interval) <==> -interval / 2.0 <= Left(diff, interval, k) < interval / 2.0
  {
    var q := diff / interval;
    var r := q - k as real;
    LeftIs(q, r, diff, interval, k);
    Scale(r, interval, Left(diff, interval, k));
  }

  lemma LeftIs(q: real, r: real, diff: real, interval: real, k: nat)
    requires q * interval == diff && r == q - k as real
    ensures r * interval == Left(diff, interval, k)
  {
  }

  lemma Scale(r: real, d: real, x: real)
    requires d > 0.0 && x == r * d
    ensures -0.5 <= r < 0.5 <==> -d / 2.0 <= x < d / 2.0
  {
    var lo, hi := (r + 0.5) * d, (r - 0.5) * d;
    assert lo == r * d + d / 2.0 && hi == r * d - d / 2.0;
    if r + 0.5 < 0.0 { assert lo < 0.0; } else { assert lo >= 0.0; }
    if r - 0.5 < 0.0 { assert hi < 0.0; } else { assert hi >= 0.0; }
  }

  // What is left of a time difference when k slots were passed over.
  ghost function Left(diff: real, interval: real, k: nat): (r: real)
    ensures Left(diff, interval, 0) == diff
  {
    diff - k as real * interval
  }

  // As long as half an interval is left, the loop has further slots to pass over.
  lemma GapMore(diff: real, interval: real, k: nat)
    requires interval > 0.0 && Left(diff, interval, k) >= interval / 2.0
    ensures Left(diff, interval, k + 1) == Left(diff, interval, k) - interval
    ensures diff >= 0.0 && k < GapSlots(diff, interval)
  {
    var q := diff / interval;
    var r := q - k as real;
    LeftIs(q, r, diff, interval, k);
    SignTimes(r - 0.5, interval);
    assert (r - 0.5) * interval == r * interval - interval / 2.0;
    assert (q + 0.5).Floor >= k + 1;
  }

  // ---- history_update ----

  // A history definition with the two options it is used with, and the kind of attribute it is for.
  datatype Setting = Setting(def: Def, readInterval: real, variance: real, counter: bool)

  predicate Sound(c: Setting) {
    c.def.size > 0 && c.def.interval > 0.0 && c.variance != 0.0
  }

  function MinInterval(c: Setting): real {
    c.def.interval - c.readInterval / 2.0
  }

  function MaxInterval(c: Setting): real
    requires Sound(c)
  {
    c.def.interval / c.variance
  }

  // The time difference an update works with; the first one has none.
  function Elapsed(last: Stamp, ts: Stamp): real {
    if last.sec != 0 then Diff(last, ts) else 0.0
  }

  datatype Action = Prime | Store | Discard | Wait

  function Decide(last: Stamp, ts: Stamp, c: Setting): Action
    requires Sound(c)
  {
    if last.sec == 0 && c.counter then Prime
    else if c.readInterval > c.def.interval then Discard
    else if c.readInterval == c.def.interval then Store
    else if Elapsed(last, ts) > MaxInterval(c) then Discard
    else if Elapsed(last, ts) < MinInterval(c) then Wait
    else Store
  }

  // Time has advanced if the update is going to divide by it.
  predicate Timely(s: StoreState, last: Stamp, total: nat, ts: Stamp, c: Setting)
    requires Sound(c)
  {
    Decide(last, ts, c) == Store ==> Divisible(s, total, Elapsed(last, ts))
  }

  ghost function StoreUpdated(s: StoreState, last: Stamp, total: nat, ts: Stamp, c: Setting): StoreState
    requires Sound(c) && Timely(s, last, total, ts, c)
  {
    match Decide(last, ts, c)
    case Prime => s.(prevTotal := total)
    case Store => Pushed(s, total, Elapsed(last, ts), c.def.width)
    case Discard => PassedOver(s, GapSlots(Elapsed(last, ts), c.def.interval), total, c.def.width)
    case Wait => s
  }

  datatype HistoryState = HistoryState(rx: StoreState, tx: StoreState, last: Stamp)

  predicate BothTimely(h: HistoryState, rxTotal: nat, txTotal: nat, ts: Stamp, c: Setting)
    requires Sound(c)
  {
    Timely(h.rx, h.last, rxTotal, ts, c) && Timely(h.tx, h.last, txTotal, ts, c)
  }

  ghost function Updated(h: HistoryState, rxTotal: nat, txTotal: nat, ts: Stamp, c: Setting): HistoryState
    requires Sound(c) && BothTimely(h, rxTotal, txTotal, ts, c)
  {
    HistoryState(StoreUpdated(h.rx, h.last, rxTotal, ts, c), StoreUpdated(h.tx, h.last, txTotal, ts, c),
                 if Decide(h.last, ts, c).Wait? then h.last else ts)
  }

  // The history of an attribute that is not a counter stays empty for good, whatever is read, exactly
  // if the read interval is below the history interval: its first update finds no elapsed time and
  // waits, and so does every later one.
  lemma NeverStartsIff(c: Setting)
    requires Sound(c) && !c.counter && c.variance > 0.0
    ensures c.readInterval < c.def.interval <==>
            forall h: HistoryState, rxTotal: nat, txTotal: nat, ts: Stamp ::
              h.last.sec == 0 && BothTimely(h, rxTotal, txTotal, ts, c) ==>
                Updated(h, rxTotal, txTotal, ts, c) == h
  {
    SignTimes(MaxInterval(c), c.variance);
    if c.readInterval >= c.def.interval {
      var s := StoreState(false, 0, []);
      var h, ts := HistoryState(s, s, Stamp(0, 0)), Stamp(1, 0);
      assert BothTimely(h, 0, 0, ts, c) && Updated(h, 0, 0, ts, c).last == ts;
    }
  }

  // struct history_store
  class HistoryStore {
    var data: array?<nat>      // hs_data, not allocated before the first known value
    var prevTotal: nat         // hs_prev_total
    ghost var slots: seq<nat>  // all that was pushed so far

    constructor ()
      ensures data == null && prevTotal == 0 && slots == []
    {
      data, prevTotal, slots := null, 0, [];
    }

    ghost function Cells(size: nat): seq<nat>
      reads this, data
    {
      if data == null then Zeros(size) else data[..]
    }

    ghost function Value(): StoreState
      reads this
    {
      StoreState(data != null, prevTotal, slots)
    }

    ghost predicate Ok(index: nat, size: nat)
      reads this, data
    {
      && (data == null ==> forall s :: s in slots ==> s == 0)
      && Holds(Cells(size), index, slots, size)
    }
  }

  // struct history
  class Ring {
    const setting: Setting
    const rx: HistoryStore
    const tx: HistoryStore
    const minInterval: real  // h_min_interval
    const maxInterval: real  // h_max_interval
    var index: nat           // h_index
    var last: Stamp          // h_last_update

    ghost predicate Valid()
      reads this, rx, tx, rx.data, tx.data
    {
      && Sound(setting) && minInterval == MinInterval(setting) && maxInterval == MaxInterval(setting)
      && rx != tx && (rx.data == null || rx.data != tx.data)
      && rx.Ok(index, setting.def.size) && tx.Ok(index, setting.def.size)
      && |rx.slots| == |tx.slots| && index == |rx.slots| % setting.def.size
    }

    ghost function Value(): HistoryState
      reads this, rx, tx
    {
      HistoryState(rx.Value(), tx.Value(), last)
    }

    ghost function Own(): set<object> {
      {this, rx, tx}
    }

    ghost function Repr(): set<object>
      reads Own()
    {
      Own() + (if rx.data == null then {} else {rx.data}) + (if tx.data == null then {} else {tx.data})
    }

    // history_alloc
    constructor (c: Setting)
      requires Sound(c)
      ensures Valid() && fresh(rx) && fresh(tx) && setting == c
      ensures Value() == HistoryState(StoreState(false, 0, []), StoreState(false, 0, []), Stamp(0, 0))
    {
      setting := c;
      rx := new HistoryStore();
      tx := new HistoryStore();
      minInterval := c.def.interval - c.readInterval / 2.0;
      maxInterval := c.def.interval / c.variance;
      index, last := 0, Stamp(0, 0);
      new;
      BlankHolds(0, [], c.def.size);
      ModuloIs(0, 0, 0, c.def.size);
    }

    // history_store_data; the value counts as pushed, though the index still points at it.
    method StoreData(hs: HistoryStore, total: nat, diff: real)
      requires hs.Ok(index, setting.def.size) && Divisible(hs.Value(), total, diff)
      modifies hs, hs.data
      ensures hs.Ok(Succ(index, setting.def.size), setting.def.size)
      ensures hs.Value() == Pushed(old(hs.Value()), total, diff, setting.def.width)
      ensures hs.data == old(hs.data) || fresh(hs.data)
      ensures old(hs.data) != null || total == UNKNOWN ==> hs.data == old(hs.data)
    {
      ghost var size, cells := setting.def.size, hs.Cells(setting.def.size);
      if hs.data == null {
        if total == UNKNOWN {
          hs.slots := hs.slots + [0];
          BlankHolds(Succ(index, size), hs.slots, size);
          return;
        }
        hs.data := new nat[setting.def.size](_ => 0);
        assert hs.data[..] == cells;
      }
      var delta := UNKNOWN;
      if total != UNKNOWN {
        delta := Moved(hs.prevTotal, total);
        if delta > 0 {
          SignTimes(delta as real / diff, diff);
          delta := (delta as real / diff).Floor;
        }
        assert delta == Rated(Moved(hs.prevTotal, total), diff);
        hs.prevTotal := total;
      }
      var cell := Cell(delta, setting.def.width);
      hs.data[index] := cell;
      PushHolds(cells, index, hs.slots, size, cell);
      assert hs.data[..] == cells[index := cell];
      hs.slots := hs.slots + [cell];
    }

    // inc_history_index
    method IncIndex()
      requires index < setting.def.size
      modifies this`index
      ensures index == Succ(old(index), setting.def.size)
    {
      if index < setting.def.size - 1 {
        index := index + 1;
      } else {
        index := 0;
      }
    }

    // One push into both stores.
    method Push(rxTotal: nat, txTotal: nat, diff: real)
      requires Valid() && Divisible(rx.Value(), rxTotal, diff) && Divisible(tx.Value(), txTotal, diff)
      modifies this`index, rx, tx, rx.data, tx.data
      ensures Valid()
      ensures rx.data == old(rx.data) || fresh(rx.data)
      ensures tx.data == old(tx.data) || fresh(tx.data)
      ensures old(rx.data) != null || rxTotal == UNKNOWN ==> rx.data == old(rx.data)
      ensures old(tx.data) != null || txTotal == UNKNOWN ==> tx.data == old(tx.data)
      ensures rx.Value() == Pushed(old(rx.Value()), rxTotal, diff, setting.def.width)
      ensures tx.Value() == Pushed(old(tx.Value()), txTotal, diff, setting.def.width)
    {
      SuccIsModulo(|rx.slots|, setting.def.size);
      StoreData(rx, rxTotal, diff);
      StoreData(tx, txTotal, diff);
      IncIndex();
    }

    // The discard loop.
    method PassOver(diff: real)
      requires Valid()
      modifies this`index, rx, tx, rx.data, tx.data
      ensures Valid()
      ensures rx.data == old(rx.data) && tx.data == old(tx.data)
      ensures var k := GapSlots(diff, setting.def.interval);
        && rx.Value() == PassedOver(old(rx.Value()), k, old(rx.prevTotal), setting.def.width)
        && tx.Value() == PassedOver(old(tx.Value()), k, old(tx.prevTotal), setting.def.width)
    {
      var timediff := diff;
      ghost var k: nat := 0;
      ghost var interval, w := setting.def.interval, setting.def.width;
      ghost var rx0, tx0 := rx.Value(), tx.Value();
      PassOne(rx0, 0, w);
      PassOne(tx0, 0, w);
      while timediff >= setting.def.interval / 2.0
        invariant Valid() && rx.data == old(rx.data) && tx.data == old(tx.data)
        invariant timediff == Left(diff, interval, k)
        invariant k <= GapSlots(diff, interval) && (k > 0 ==> timediff >= -interval / 2.0)
        invariant rx.Value() == PassedOver(rx0, k, rx0.prevTotal, w)
        invariant tx.Value() == PassedOver(tx0, k, tx0.prevTotal, w)
        decreases GapSlots(diff, interval) - k
      {
        GapMore(diff, interval, k);
        PassOne(rx0, k, w);
        PassOne(tx0, k, w);
        Push(UNKNOWN, UNKNOWN, 0.0);
        timediff := timediff - setting.def.interval;
        k := k + 1;
      }
      if diff >= 0.0 {
        GapResidue(diff, interval, k);
      }
    }

    // Stores in both directions at time ts.
    method Record(rxTotal: nat, txTotal: nat, diff: real, ts: Stamp)
      requires Valid() && Divisible(rx.Value(), rxTotal, diff) && Divisible(tx.Value(), txTotal, diff)
      modifies this`index, this`last, rx, tx, rx.data, tx.data
      ensures Valid() && fresh(Repr() - old(Repr()))
      ensures Value() == HistoryState(Pushed(old(rx.Value()), rxTotal, diff, setting.def.width),
                                      Pushed(old(tx.Value()), txTotal, diff, setting.def.width), ts)
    {
      Push(rxTotal, txTotal, diff);
      last := ts;
    }

    // Remembers the totals at time ts.
    method Prime(rxTotal: nat, txTotal: nat, ts: Stamp)
      requires Valid()
      modifies this`last, rx`prevTotal, tx`prevTotal
      ensures Valid() && Repr() == old(Repr())
      ensures Value() == HistoryState(old(rx.Value()).(prevTotal := rxTotal),
                                      old(tx.Value()).(prevTotal := txTotal), ts)
    {
      rx.prevTotal := rxTotal;
      tx.prevTotal := txTotal;
      last := ts;
    }

    // history_update for an attribute with these totals.
    method Update(rxTotal: nat, txTotal: nat, ts: Stamp)
      requires Valid() && BothTimely(Value(), rxTotal, txTotal, ts, setting)
      modifies this, rx, tx, rx.data, tx.data
      ensures Valid() && Value() == Updated(old(Value()), rxTotal, txTotal, ts, setting)
      ensures fresh(Repr() - old(Repr()))
    {
      var interval, read := setting.def.interval, setting.readInterval;
      var timediff := 0.0;
      if last.sec != 0 {
        timediff := Diff(last, ts);
      }
      if last.sec != 0 || !setting.counter {
        if !(read > interval) && (read == interval || !(timediff > maxInterval)) {
          if read != interval && timediff < minInterval {
            return;
          }
          Push(rxTotal, txTotal, timediff);
          last := ts;
          return;
        }
        PassOver(timediff);
      }
      Prime(rxTotal, txTotal, ts);
    }

    // The ring after one update from a given state.
    ghost predicate UpdatedFrom(before: HistoryState, rxTotal: nat, txTotal: nat, ts: Stamp)
      reads this, rx, tx
    {
      && Sound(setting) && BothTimely(before, rxTotal, txTotal, ts, setting)
      && Value() == Updated(before, rxTotal, txTotal, ts, setting)
    }

    // history_data
    method Data(hs: HistoryStore, i: nat) returns (v: nat)
      requires hs.data != null && i < hs.data.Length
      ensures v == Decode(hs.data[i], setting.def.width)
    {
      var cell := hs.data[i];
      v := if cell == Top(setting.def.width) then UNKNOWN else cell;
    }
  }
}
