// What a history keeps of the traffic of a counter over whole runs: src/history.c, src/attr.c.
module Ledger {
  import opened Timing
  import opened Counters
  import opened History

  // One update: how much the counter grew since the one before, and when the update came.
  datatype Sight = Sight(growth: nat, ts: Stamp)

  // What a slot stands for: a rate before it was stored, and the seconds it was measured over.
  datatype Entry = Entry(rate: nat, span: real)

  // One direction of a history with the ideal counter it follows: the true count now and at the last
  // accepted total, the traffic not recorded because of gaps, the whole turns of the 64-bit total that
  // no difference of totals can show, and what each slot stands for.
  datatype Book = Book(store: StoreState, last: Stamp, count: nat, base: nat, gaps: nat, turns: nat,
                       entries: seq<Entry>)

  const EMPTY := Book(StoreState(false, 0, []), Stamp(0, 0), 0, 0, 0, 0, [])

  function Total(count: nat): nat {
    count % M64
  }

  // The update can be entered.
  ghost predicate Enterable(b: Book, s: Sight, c: Setting) {
    && Sound(c) && b.base <= b.count
    && Timely(b.store, b.last, Total(b.count + s.growth), s.ts, c)
    && b.store.prevTotal == Total(b.base)
  }

  lemma TotalsApart(n: nat, base: nat)
    requires base <= n
    ensures Moved(Total(base), Total(n)) == (n - base) % M64 <= n - base
    ensures (n - base - Moved(Total(base), Total(n))) % M64 == 0
  {
    WrapApart(n, base);
  }

  // An idle time counts as none if the clock did not advance.
  function Span(diff: real): real {
    if diff > 0.0 then diff else 0.0
  }

  ghost function Enter(b: Book, s: Sight, c: Setting): Book
    requires Enterable(b, s, c)
  {
    var n, diff := b.count + s.growth, Elapsed(b.last, s.ts);
    var store := StoreUpdated(b.store, b.last, Total(n), s.ts, c);
    match Decide(b.last, s.ts, c)
    case Wait => b.(count := n)
    case Prime => Book(store, s.ts, n, n, b.gaps + (n - b.base), b.turns, b.entries)
    case Discard =>
      Book(store, s.ts, n, n, b.gaps + (n - b.base), b.turns, b.entries + Nothing(GapSlots(diff, c.def.interval)))
    case Store =>
      var delta := Moved(b.store.prevTotal, Total(n));
      TotalsApart(n, b.base);
      if Total(n) == UNKNOWN then Book(store, s.ts, n, b.base, b.gaps, b.turns, b.entries + [Entry(0, 0.0)])
      else Book(store, s.ts, n, n, b.gaps, b.turns + (n - b.base - delta),
                b.entries + [Entry(Rated(delta, diff), Span(diff))])
  }

  // A run of updates; time has advanced whenever one divides by it.
  ghost predicate Regular(sights: seq<Sight>, c: Setting)
    decreases |sights|, 0
  {
    sights == [] ||
    var before := sights[..|sights| - 1];
    Regular(before, c) && Enterable(Books(before, c), sights[|sights| - 1], c)
  }

  ghost function Books(sights: seq<Sight>, c: Setting): Book
    requires Regular(sights, c)
    decreases |sights|, 1
  {
    if sights == [] then EMPTY
    else Enter(Books(sights[..|sights| - 1], c), sights[|sights| - 1], c)
  }

  function Nothing(k: nat): (r: seq<Entry>)
    ensures |r| == k && forall i :: 0 <= i < k ==> r[i] == Entry(0, 0.0)
  {
    seq(k, _ => Entry(0, 0.0))
  }

  // ---- when an update stores, waits or gives up ----

  // The books are kept as history_update keeps either direction of a history.
  lemma EntersAsUpdated(b: Book, s: Sight, c: Setting, h: HistoryState, rxTotal: nat, txTotal: nat)
    requires Enterable(b, s, c) && h.last == b.last && BothTimely(h, rxTotal, txTotal, s.ts, c)
    ensures var after, n := Updated(h, rxTotal, txTotal, s.ts, c), b.count + s.growth;
      && after.last == Enter(b, s, c).last
      && (h.rx == b.store && rxTotal == n % M64 ==> after.rx == Enter(b, s, c).store)
      && (h.tx == b.store && txTotal == n % M64 ==> after.tx == Enter(b, s, c).store)
    ensures var after := Enter(b, s, c); after.store.prevTotal == after.base % M64
  {
    TotalsApart(b.count + s.growth, b.base);
  }

  // The difference was stored: one slot more, measured over t seconds, and nothing pending.
  ghost predicate Stored(b: Book, after: Book, n: nat, ts: Stamp, t: real, w: Width) {
    && after.last == ts && after.count == after.base == n && b.base <= n && after.gaps == b.gaps
    && |after.entries| == |b.entries| + 1 && after.entries[..|b.entries|] == b.entries
    && var e := after.entries[|b.entries|];
       && e.span == t && RoundsDown(e.rate, (n - b.base) % M64, t)
       && after.store.slots == b.store.slots + [Cell(e.rate, w)]
  }

  // Slots were passed over, as many as intervals went by (rounded), and what was pending went into the gap.
  ghost predicate Skipped(b: Book, after: Book, n: nat, ts: Stamp, t: real, c: Setting) {
    && after.last == ts && after.count == after.base == n && b.base <= n && after.gaps == b.gaps + (n - b.base)
    && exists k: nat ::
         && (t < 0.0 ==> k == 0)
         && (t >= 0.0 ==> -c.def.interval / 2.0 <= Left(t, c.def.interval, k) < c.def.interval / 2.0)
         && after.entries == b.entries + Nothing(k)
         && after.store.slots == b.store.slots + Repeat(if b.store.present then Top(c.def.width) else 0, k)
  }

  lemma StoreTaken(b: Book, s: Sight, c: Setting, t: real)
    requires Enterable(b, s, c) && b.last.sec != 0 && t == Diff(b.last, s.ts) && t > 0.0
    requires Decide(b.last, s.ts, c) == Store && (b.count + s.growth) % M64 != UNKNOWN
    ensures Stored(b, Enter(b, s, c), b.count + s.growth, s.ts, t, c.def.width)
  {
    var n := b.count + s.growth;
    var delta := Moved(b.store.prevTotal, Total(n));
    TotalsApart(n, b.base);
    assert delta == (n - b.base) % M64;
    assert RoundsDown(Rated(delta, t), delta, t);
    assert (b.entries + [Entry(Rated(delta, t), t)])[..|b.entries|] == b.entries;
  }

  lemma DiscardTaken(b: Book, s: Sight, c: Setting, t: real)
    requires Enterable(b, s, c) && b.last.sec != 0 && t == Diff(b.last, s.ts)
    requires Decide(b.last, s.ts, c) == Discard
    ensures Skipped(b, Enter(b, s, c), b.count + s.growth, s.ts, t, c)
  {
    var k := GapSlots(t, c.def.interval);
    if t >= 0.0 { GapResidue(t, c.def.interval, k); }
    assert Enter(b, s, c).entries == b.entries + Nothing(k);
  }

  // An update after the first one, t seconds after the last accepted one, if reads come more often than the
  // history has slots. It is left pending if and only if it comes more than half a read interval early; it
  // is given up if and only if it comes later than the variance allows; and otherwise it is stored.
  lemma BelowInterval(b: Book, s: Sight, c: Setting, t: real, lo: real, hi: real)
    requires Enterable(b, s, c) && b.last.sec != 0 && t == Diff(b.last, s.ts)
    requires c.readInterval < c.def.interval && c.variance > 0.0
    requires lo == c.def.interval - c.readInterval / 2.0 && hi == c.def.interval / c.variance
    ensures
      var n, after := b.count + s.growth, Enter(b, s, c);
      && (after == b.(count := n) <==> t < lo && t <= hi)
      && (n % M64 != UNKNOWN ==> (Stored(b, after, n, s.ts, t, c.def.width) <==> lo <= t <= hi))
      && (t > hi ==> Skipped(b, after, n, s.ts, t, c))
      && (n % M64 != UNKNOWN && s.ts != b.last ==> (Skipped(b, after, n, s.ts, t, c) <==> t > hi))
  {
    assert lo > 0.0;
    Positive(c.def.interval, c.variance, hi);
    if t > hi {
      DiscardTaken(b, s, c, t);
      assert s.ts != b.last;
      NotStored(b, s, c, t);
    } else if t >= lo {
      if (b.count + s.growth) % M64 != UNKNOWN {
        StoreTaken(b, s, c, t);
        StoredNotSkipped(b, Enter(b, s, c), b.count + s.growth, s.ts, t, c);
      }
    }
  }

  lemma StoredNotSkipped(b: Book, after: Book, n: nat, ts: Stamp, t: real, c: Setting)
    requires Stored(b, after, n, ts, t, c.def.width) && t > 0.0
    ensures !Skipped(b, after, n, ts, t, c)
  {
    forall k: nat
      ensures after.entries != b.entries + Nothing(k)
    {
      LastOfNothing(b.entries, k);
    }
  }

  lemma LastOfNothing(entries: seq<Entry>, k: nat)
    ensures var all := entries + Nothing(k); |all| == |entries| + 1 ==> all[|entries|] == Entry(0, 0.0)
  {
  }

  lemma Positive(x: real, y: real, q: real)
    requires x > 0.0 && y > 0.0 && q == x / y
    ensures q > 0.0
  {
    assert q * y == x;
    SignTimes(q, y);
  }

  lemma NotStored(b: Book, s: Sight, c: Setting, t: real)
    requires Enterable(b, s, c) && b.last.sec != 0 && t == Diff(b.last, s.ts) && t > 0.0
    requires Decide(b.last, s.ts, c) == Discard
    ensures !Stored(b, Enter(b, s, c), b.count + s.growth, s.ts, t, c.def.width)
  {
    var k := GapSlots(t, c.def.interval);
    var after := Enter(b, s, c);
    if |after.entries| == |b.entries| + 1 {
      assert after.entries[|b.entries|] == Nothing(k)[0] == Entry(0, 0.0);
    }
  }

  // If both intervals are the same, every update is stored; if reads come less often, all are given up.
  lemma AtOrAboveInterval(b: Book, s: Sight, c: Setting, t: real)
    requires Enterable(b, s, c) && b.last.sec != 0 && t == Diff(b.last, s.ts) && t > 0.0
    requires c.readInterval >= c.def.interval && (b.count + s.growth) % M64 != UNKNOWN
    ensures
      var n, after := b.count + s.growth, Enter(b, s, c);
      if c.readInterval == c.def.interval then Stored(b, after, n, s.ts, t, c.def.width)
      else Skipped(b, after, n, s.ts, t, c)
  {
    if c.readInterval == c.def.interval { StoreTaken(b, s, c, t); } else { DiscardTaken(b, s, c, t); }
  }

  // The first update of a counter only takes its total as the base.
  lemma FirstUpdate(b: Book, s: Sight, c: Setting)
    requires Enterable(b, s, c) && b.last.sec == 0 && c.counter
    ensures var n, after := b.count + s.growth, Enter(b, s, c);
      && after.last == s.ts && after.count == after.base == n && after.entries == b.entries
      && after.store == b.store.(prevTotal := n % M64)
  {
  }

  // So over any run every slot with a known value of a counter was measured over a time in these limits.
  lemma {:induction false} SpansBounded(sights: seq<Sight>, c: Setting, lo: real, hi: real)
    requires Regular(sights, c) && c.readInterval < c.def.interval && c.variance > 0.0 && c.counter
    requires lo == c.def.interval - c.readInterval / 2.0 && hi == c.def.interval / c.variance
    ensures forall e :: e in Books(sights, c).entries ==> e == Entry(0, 0.0) || lo <= e.span <= hi
  {
    if sights != [] {
      var before, s := sights[..|sights| - 1], sights[|sights| - 1];
      SpansBounded(before, c, lo, hi);
      SpanAdded(Books(before, c), s, c, lo, hi);
    }
  }

  lemma SpanAdded(b: Book, s: Sight, c: Setting, lo: real, hi: real)
    requires Enterable(b, s, c) && c.readInterval < c.def.interval && c.variance > 0.0 && c.counter
    requires lo == c.def.interval - c.readInterval / 2.0 && hi == c.def.interval / c.variance
    requires forall e :: e in b.entries ==> e == Entry(0, 0.0) || lo <= e.span <= hi
    ensures forall e :: e in Enter(b, s, c).entries ==> e == Entry(0, 0.0) || lo <= e.span <= hi
  {
    assert lo > 0.0;
  }

  // ---- what the slots tell ----

  // The number a slot gives back; an unknown value gives none.
  function Told(slot: nat, w: Width): nat {
    if Decode(slot, w) == UNKNOWN then 0 else Decode(slot, w)
  }

  // A stored rate is told exactly if it is below the mark of the width.
  lemma ToldIff(rate: nat, w: Width)
    ensures Told(Cell(rate, w), w) <= rate
    ensures Told(Cell(rate, w), w) == rate <==> rate < Top(w)
  {
    SurvivesIff(rate, w);
  }

  // And it is then, and only then, that the number told accounts for the difference it was made from.
  lemma AccountsIff(rate: nat, delta: nat, diff: real, w: Width)
    requires diff > 0.0 && RoundsDown(rate, delta, diff)
    ensures RoundsDown(Told(Cell(rate, w), w), delta, diff) <==> rate < Top(w)
  {
    ToldIff(rate, w);
    if rate >= Top(w) {
      Short(Told(Cell(rate, w), w), rate, delta, diff);
    }
  }

  lemma Short(told: nat, rate: nat, delta: nat, diff: real)
    requires diff > 0.0 && told < rate && RoundsDown(rate, delta, diff)
    ensures !RoundsDown(told, delta, diff)
  {
    var t, r := told as real, rate as real;
    ShortBy(t, r, r - t - 1.0, delta as real, diff);
  }

  lemma ShortBy(t: real, r: real, q: real, x: real, d: real)
    requires d > 0.0 && q >= 0.0 && q == r - t - 1.0 && r * d <= x
    ensures !(x < t * d + d)
  {
    SignTimes(q, d);
    assert q * d == r * d - t * d - d;
  }

  // The traffic a slot records, and the traffic it lost because the rate did not fit.
  ghost function Worth(slot: nat, e: Entry, w: Width): real {
    Told(slot, w) as real * e.span
  }

  ghost function Missing(slot: nat, e: Entry, w: Width): real {
    (e.rate - Told(slot, w)) as real * e.span
  }

  ghost function Measured(e: Entry): real {
    e.rate as real * e.span
  }

  lemma WorthAndMissing(slot: nat, e: Entry, w: Width)
    ensures Worth(slot, e, w) + Missing(slot, e, w) == Measured(e)
  {
    var t, r := Told(slot, w) as real, e.rate as real;
    assert (e.rate - Told(slot, w)) as real == r - t;
    assert t * e.span + (r - t) * e.span == r * e.span;
  }

  ghost function Recorded(slots: seq<nat>, entries: seq<Entry>, w: Width): real
    requires |slots| == |entries|
  {
    if slots == [] then 0.0
    else
      var n := |slots| - 1;
      Recorded(slots[..n], entries[..n], w) + Worth(slots[n], entries[n], w)
  }

  ghost function Truncated(slots: seq<nat>, entries: seq<Entry>, w: Width): real
    requires |slots| == |entries|
  {
    if slots == [] then 0.0
    else
      var n := |slots| - 1;
      Truncated(slots[..n], entries[..n], w) + Missing(slots[n], entries[n], w)
  }

  ghost function Seconds(entries: seq<Entry>): real {
    if entries == [] then 0.0 else Seconds(entries[..|entries| - 1]) + entries[|entries| - 1].span
  }

  // The two together.
  ghost function Accounted(slots: seq<nat>, entries: seq<Entry>, w: Width): real
    requires |slots| == |entries|
  {
    Recorded(slots, entries, w) + Truncated(slots, entries, w)
  }

  lemma AccountOne(slots: seq<nat>, entries: seq<Entry>, w: Width, slot: nat, e: Entry)
    requires |slots| == |entries|
    ensures Recorded(slots + [slot], entries + [e], w) == Recorded(slots, entries, w) + Worth(slot, e, w)
    ensures Truncated(slots + [slot], entries + [e], w) == Truncated(slots, entries, w) + Missing(slot, e, w)
    ensures Accounted(slots + [slot], entries + [e], w) == Accounted(slots, entries, w) + Measured(e)
    ensures Seconds(entries + [e]) == Seconds(entries) + e.span
  {
    var slots', entries', n := slots + [slot], entries + [e], |slots|;
    assert slots'[..n] == slots && entries'[..n] == entries && slots'[n] == slot && entries'[n] == e;
    WorthAndMissing(slot, e, w);
  }

  lemma {:induction false} AccountNothing(slots: seq<nat>, entries: seq<Entry>, w: Width, mark: nat, k: nat)
    requires |slots| == |entries|
    ensures Accounted(slots + Repeat(mark, k), entries + Nothing(k), w) == Accounted(slots, entries, w)
    ensures Seconds(entries + Nothing(k)) == Seconds(entries)
  {
    if k == 0 {
      assert slots + Repeat(mark, 0) == slots && entries + Nothing(0) == entries;
    } else {
      AccountNothing(slots, entries, w, mark, k - 1);
      AccountOne(slots + Repeat(mark, k - 1), entries + Nothing(k - 1), w, mark, Entry(0, 0.0));
      assert slots + Repeat(mark, k) == slots + Repeat(mark, k - 1) + [mark];
      assert entries + Nothing(k) == entries + Nothing(k - 1) + [Entry(0, 0.0)];
    }
  }

  // ---- truncation ----

  // A slot and what it stands for: a stored rate, or nothing at all.
  ghost predicate Stands(slot: nat, e: Entry, w: Width) {
    || (slot == Cell(e.rate, w) && e.span >= 0.0 && (e.rate > 0 ==> e.span > 0.0))
    || (e == Entry(0, 0.0) && Told(slot, w) == 0)
  }

  ghost predicate AllStand(slots: seq<nat>, entries: seq<Entry>, w: Width) {
    |slots| == |entries| && forall i :: 0 <= i < |slots| ==> Stands(slots[i], entries[i], w)
  }

  ghost predicate Narrow(entries: seq<Entry>, w: Width) {
    forall i :: 0 <= i < |entries| ==> entries[i].rate < Top(w)
  }

  lemma MissingIff(slot: nat, e: Entry, w: Width)
    requires Stands(slot, e, w)
    ensures Missing(slot, e, w) >= 0.0
    ensures Missing(slot, e, w) == 0.0 <==> e.rate < Top(w)
  {
    ToldIff(e.rate, w);
    var m := (e.rate - Told(slot, w)) as real;
    if e.span > 0.0 {
      SignTimes(m, e.span);
      SignTimes(-m, e.span);
    }
  }

  // Nothing is lost to the width of the cells exactly if no rate of the run reached their mark.
  lemma {:induction false} TruncatedIff(slots: seq<nat>, entries: seq<Entry>, w: Width)
    requires AllStand(slots, entries, w)
    ensures Truncated(slots, entries, w) >= 0.0
    ensures Truncated(slots, entries, w) == 0.0 <==> Narrow(entries, w)
  {
    if slots != [] {
      var n := |slots| - 1;
      TruncatedIff(slots[..n], entries[..n], w);
      MissingIff(slots[n], entries[n], w);
      assert Narrow(entries, w) <==> Narrow(entries[..n], w) && entries[n].rate < Top(w);
    }
  }

  lemma StandOne(slots: seq<nat>, entries: seq<Entry>, w: Width, slot: nat, e: Entry)
    requires AllStand(slots, entries, w) && Stands(slot, e, w)
    ensures AllStand(slots + [slot], entries + [e], w)
  {
  }

  lemma StandNothing(slots: seq<nat>, entries: seq<Entry>, w: Width, mark: nat, k: nat)
    requires AllStand(slots, entries, w) && (mark == Top(w) || mark == 0)
    ensures AllStand(slots + Repeat(mark, k), entries + Nothing(k), w)
  {
  }

  // ---- the balance ----

  // What rounding lost.
  ghost function Residue(b: Book, w: Width): real
    requires |b.store.slots| == |b.entries|
  {
    b.count as real - Accounted(b.store.slots, b.entries, w) - b.gaps as real - b.turns as real
    - (b.count - b.base) as real
  }

  // Less than one unit for each second recorded.
  ghost predicate Slight(residue: real, seconds: real) {
    0.0 <= residue <= seconds && (residue == seconds ==> seconds == 0.0)
  }

  ghost predicate Balanced(b: Book, w: Width) {
    && b.base <= b.count && b.store.prevTotal == Total(b.base) && b.turns % M64 == 0
    && AllStand(b.store.slots, b.entries, w)
    && Slight(Residue(b, w), Seconds(b.entries))
  }

  lemma EnterBalances(b: Book, s: Sight, c: Setting)
    requires Enterable(b, s, c) && Balanced(b, c.def.width)
    ensures Balanced(Enter(b, s, c), c.def.width)
  {
    match Decide(b.last, s.ts, c)
    case Wait => assert Enter(b, s, c).store == b.store;
    case Prime => assert Enter(b, s, c).store.slots == b.store.slots;
    case Discard => GapBalances(b, Enter(b, s, c), GapSlots(Elapsed(b.last, s.ts), c.def.interval), c.def.width);
    case Store => StoreBalances(b, s, c);
  }

  lemma GapBalances(b: Book, b': Book, k: nat, w: Width)
    requires Balanced(b, w) && b'.base == b'.count >= b.base && b'.gaps == b.gaps + (b'.base - b.base)
    requires b'.turns == b.turns && b'.store == PassedOver(b.store, k, Total(b'.base), w)
    requires b'.entries == b.entries + Nothing(k)
    ensures Balanced(b', w)
  {
    var mark := if b.store.present then Top(w) else 0;
    AccountNothing(b.store.slots, b.entries, w, mark, k);
    StandNothing(b.store.slots, b.entries, w, mark, k);
  }

  lemma StoreBalances(b: Book, s: Sight, c: Setting)
    requires Enterable(b, s, c) && Balanced(b, c.def.width) && Decide(b.last, s.ts, c).Store?
    ensures Balanced(Enter(b, s, c), c.def.width)
  {
    var n, diff := b.count + s.growth, Elapsed(b.last, s.ts);
    var total, b' := Total(n), Enter(b, s, c);
    if total == UNKNOWN {
      UnknownBalances(b, b', diff, c.def.width);
    } else {
      var delta := Moved(b.store.prevTotal, total);
      KnownEnters(b, s, c, n, diff, delta);
      KnownBalances(b, b', Entry(Rated(delta, diff), Span(diff)), delta, c.def.width);
    }
  }

  // A rate and its seconds account for a difference, up to less than one unit for each second.
  ghost predicate Covers(e: Entry, delta: int) {
    Slight(delta as real - Measured(e), e.span) && e.span >= 0.0 && (e.rate > 0 ==> e.span > 0.0)
  }

  lemma RatedCovers(delta: nat, diff: real)
    requires delta > 0 ==> diff > 0.0
    ensures Covers(Entry(Rated(delta, diff), Span(diff)), delta)
  {
    var e := Entry(Rated(delta, diff), Span(diff));
    if delta == 0 {
      assert Measured(e) == 0.0;
    } else {
      assert Measured(e) == e.rate as real * diff;
    }
  }

  lemma KnownEnters(b: Book, s: Sight, c: Setting, n: nat, diff: real, delta: nat)
    requires Enterable(b, s, c) && Decide(b.last, s.ts, c).Store?
    requires n == b.count + s.growth && diff == Elapsed(b.last, s.ts) && Total(n) != UNKNOWN
    requires delta == Moved(b.store.prevTotal, Total(n))
    ensures delta <= n - b.base && (n - b.base - delta) % M64 == 0 && (delta > 0 ==> diff > 0.0)
    ensures
      var e := Entry(Rated(delta, diff), Span(diff));
      && Covers(e, delta)
      && Enter(b, s, c) == Book(StoreState(true, Total(n), b.store.slots + [Cell(e.rate, c.def.width)]), s.ts, n, n,
                                b.gaps, b.turns + (n - b.base - delta), b.entries + [e])
  {
    TotalsApart(n, b.base);
    RatedCovers(delta, diff);
  }

  lemma UnknownBalances(b: Book, b': Book, diff: real, w: Width)
    requires Balanced(b, w) && b.base <= b'.count
    requires b' == Book(Pushed(b.store, UNKNOWN, diff, w), b'.last, b'.count, b.base, b.gaps, b.turns,
                        b.entries + [Entry(0, 0.0)])
    ensures Balanced(b', w)
  {
    var mark := if b.store.present then Top(w) else 0;
    AccountOne(b.store.slots, b.entries, w, mark, Entry(0, 0.0));
    StandOne(b.store.slots, b.entries, w, mark, Entry(0, 0.0));
  }

  lemma KnownBalances(b: Book, b': Book, e: Entry, delta: nat, w: Width)
    requires Balanced(b, w) && Covers(e, delta)
    requires b'.base == b'.count >= b.base && b'.gaps == b.gaps && b'.store.prevTotal == Total(b'.base)
    requires delta <= b'.count - b.base && (b'.count - b.base - delta) % M64 == 0
    requires b'.turns == b.turns + (b'.count - b.base - delta)
    requires b'.store.slots == b.store.slots + [Cell(e.rate, w)] && b'.entries == b.entries + [e]
    ensures Balanced(b', w)
  {
    AccountOne(b.store.slots, b.entries, w, Cell(e.rate, w), e);
    StandOne(b.store.slots, b.entries, w, Cell(e.rate, w), e);
    WrapSum(b.turns, b'.count - b.base - delta);
    assert Residue(b', w) == Residue(b, w) + (delta as real - Measured(e));
  }

  // Over any run the counter's growth is what the slots record, plus what did not fit into them, plus the
  // traffic of the gaps, plus the pending amount between the accepted total and the current one, plus
  // what rounding lost, which is less than one unit for each second recorded, plus whole turns of the
  // 64-bit total between two accepted ones. An update that returns early loses nothing, and nothing is
  // lost to the width of the cells exactly if no rate reached their mark.
  lemma Conservation(sights: seq<Sight>, c: Setting)
    requires Regular(sights, c)
    ensures
      var b, w := Books(sights, c), c.def.width;
      && |b.store.slots| == |b.entries| && b.base <= b.count
      && Moved(b.store.prevTotal, Total(b.count)) == (b.count - b.base) % M64 && b.turns % M64 == 0
      && var truncated := Truncated(b.store.slots, b.entries, w);
      && truncated >= 0.0 && (truncated == 0.0 <==> Narrow(b.entries, w))
      && Slight(b.count as real - Recorded(b.store.slots, b.entries, w) - truncated - b.gaps as real
                - b.turns as real - (b.count - b.base) as real, Seconds(b.entries))
  {
    BooksBalance(sights, c);
    var b := Books(sights, c);
    TotalsApart(b.count, b.base);
    TruncatedIff(b.store.slots, b.entries, c.def.width);
  }

  lemma {:induction false} BooksBalance(sights: seq<Sight>, c: Setting)
    requires Regular(sights, c)
    ensures Balanced(Books(sights, c), c.def.width)
  {
    if sights != [] {
      BooksBalance(sights[..|sights| - 1], c);
      EnterBalances(Books(sights[..|sights| - 1], c), sights[|sights| - 1], c);
    }
  }

  // A turn is missed exactly by storing a difference of 2^64 or more.
  lemma TurnMissedIff(b: Book, s: Sight, c: Setting)
    requires Enterable(b, s, c)
    ensures
      var n := b.count + s.growth;
      Enter(b, s, c).turns != b.turns <==>
        Decide(b.last, s.ts, c) == Store && Total(n) != UNKNOWN && n - b.base >= M64
  {
    var n := b.count + s.growth;
    TotalsApart(n, b.base);
    WithinM64(n - b.base);
  }

  lemma WithinM64(n: nat)
    ensures n % M64 == n <==> n < M64
  {
  }

  // Runs in which no accepted total is that far behind miss none.
  lemma {:induction false} NoTurnMissed(sights: seq<Sight>, c: Setting)
    requires Regular(sights, c) && Books(sights, c).count < M64
    ensures Books(sights, c).turns == 0
  {
    if sights != [] {
      var before := sights[..|sights| - 1];
      NoTurnMissed(before, c);
      TurnMissedIff(Books(before, c), sights[|sights| - 1], c);
    }
  }

  // A rate that does not fit: 1000 units in one second leave 232 in a cell of 8 bits.
  lemma TruncationLoses(first: Sight, second: Sight, c: Setting)
    requires c == Setting(Def(1, Bits8, 1.0), 1.0, 0.1, true)
    requires first == Sight(0, Stamp(1, 0)) && second == Sight(1000, Stamp(2, 0))
    ensures Regular([first, second], c)
    ensures
      var b := Books([first, second], c);
      && b.store.slots == [232] && b.entries == [Entry(1000, 1.0)]
      && b.count == b.base == 1000 && b.gaps == b.turns == 0
      && Recorded(b.store.slots, b.entries, Bits8) == 232.0 && Truncated(b.store.slots, b.entries, Bits8) == 768.0
  {
    PrimesAtFirst(first, c);
    StoresThousand(Enter(EMPTY, first, c), second, c);
    TwoUpdates(first, second, c);
    ThousandTold();
  }

  lemma ThousandTold()
    ensures Recorded([232], [Entry(1000, 1.0)], Bits8) == 232.0
    ensures Truncated([232], [Entry(1000, 1.0)], Bits8) == 768.0
  {
    var slots: seq<nat>, entries: seq<Entry> := [], [];
    AccountOne(slots, entries, Bits8, 232, Entry(1000, 1.0));
    assert slots + [232] == [232] && entries + [Entry(1000, 1.0)] == [Entry(1000, 1.0)];
    assert Told(232, Bits8) == 232;
  }

  lemma TwoUpdates(first: Sight, second: Sight, c: Setting)
    requires Enterable(EMPTY, first, c) && Enterable(Enter(EMPTY, first, c), second, c)
    ensures Regular([first, second], c) && Books([first, second], c) == Enter(Enter(EMPTY, first, c), second, c)
  {
    assert [first][..0] == [] && [first, second][..1] == [first];
    assert Regular([], c) && Books([], c) == EMPTY;
    assert Regular([first], c) && Books([first], c) == Enter(EMPTY, first, c);
  }

  lemma OneSecond()
    ensures Total(0) == 0 && Total(1000) == 1000 != UNKNOWN && Moved(0, 1000) == 1000
    ensures Rated(1000, 1.0) == 1000 && Cell(1000, Bits8) == 232 && Told(232, Bits8) == 232
  {
    assert RoundsDown(Rated(1000, 1.0), 1000, 1.0);
  }

  lemma PrimesAtFirst(first: Sight, c: Setting)
    requires c == Setting(Def(1, Bits8, 1.0), 1.0, 0.1, true) && first == Sight(0, Stamp(1, 0))
    ensures Enterable(EMPTY, first, c)
    ensures Enter(EMPTY, first, c) == Book(StoreState(false, 0, []), Stamp(1, 0), 0, 0, 0, 0, [])
  {
    assert Decide(EMPTY.last, first.ts, c) == Prime && Total(0) == 0;
  }

  lemma StoresThousand(primed: Book, second: Sight, c: Setting)
    requires c == Setting(Def(1, Bits8, 1.0), 1.0, 0.1, true) && second == Sight(1000, Stamp(2, 0))
    requires primed == Book(StoreState(false, 0, []), Stamp(1, 0), 0, 0, 0, 0, [])
    ensures Enterable(primed, second, c)
    ensures Enter(primed, second, c) ==
            Book(StoreState(true, 1000, [232]), Stamp(2, 0), 1000, 1000, 0, 0, [Entry(1000, 1.0)])
  {
    OneSecond();
    assert Elapsed(primed.last, second.ts) == 1.0 && Decide(primed.last, second.ts, c) == Store;
    assert Pushed(primed.store, 1000, 1.0, Bits8) == StoreState(true, 1000, [232]);
  }

  // A gap shows as unknown once a first value allocated the store, and as zero before that.
  lemma GapReads(s: StoreState, k: nat, total: nat, w: Width, i: nat)
    requires i < k
    ensures Decode(Newest(PassedOver(s, k, total, w).slots, i), w) == if s.present then UNKNOWN else 0
  {
    var mark := if s.present then Top(w) else 0;
    var all := s.slots + Repeat(mark, k);
    assert all[|all| - 1 - i] == Repeat(mark, k)[k - 1 - i];
  }

  // A recorded rate is read back exactly if it is below the mark of the width, or is the mark.
  lemma RateReads(s: StoreState, total: nat, diff: real, w: Width)
    requires total != UNKNOWN && Divisible(s, total, diff)
    ensures var rated := Rated(Moved(s.prevTotal, total), diff);
      Decode(Newest(Pushed(s, total, diff, w).slots, 0), w) == rated <==> rated < Top(w) || rated == UNKNOWN
  {
    SurvivesIff(Rated(Moved(s.prevTotal, total), diff), w);
  }

  // ---- from readings to slots ----

  // A rate and one direction of a history, both fed by the same readings (attr_notify_update).
  datatype Feed = Feed(rate: RateState, store: StoreState, last: Stamp)

  // The readings of the source can be told apart.
  ghost predicate Feeds(sights: seq<Sight>, flags: Flags, c: Setting) {
    Regular(sights, c) && Close(Readings(sights), flags)
  }

  function Readings(sights: seq<Sight>): (r: seq<Event>)
    ensures |r| == |sights| && forall i :: 0 <= i < |r| ==> r[i] == Read(sights[i].growth, sights[i].ts)
  {
    seq(|sights|, i requires 0 <= i < |sights| => Read(sights[i].growth, sights[i].ts))
  }

  // One notification leads from f to g: the reading is accounted, and then its total goes to the history.
  ghost predicate Notifies(f: Feed, current: nat, flags: Flags, ts: Stamp, gap: real, c: Setting, g: Feed)
    requires gap > 0.0
  {
    && Sound(c) && g.rate == Calculated(f.rate.(current := current), flags, ts, gap)
    && Timely(f.store, f.last, g.rate.total, ts, c) && g.store == StoreUpdated(f.store, f.last, g.rate.total, ts, c)
    && g.last == if Decide(f.last, ts, c).Wait? then f.last else ts
  }

  // Whatever the width of the source counter, the history sees the totals of the ideal counter: one
  // notification with the reading modulo 2^32 or 2^64 takes the feed from one book to the next.
  lemma FeedFollowsBooks(sights: seq<Sight>, flags: Flags, gap: real, c: Setting)
    requires sights != [] && gap > 0.0 && Feeds(sights, flags, c)
    ensures
      var before, ts := sights[..|sights| - 1], sights[|sights| - 1].ts;
      var b, b' := Books(before, c), Books(sights, c);
      var r, r' := Runs(Readings(before), flags, gap).rate, Runs(Readings(sights), flags, gap).rate;
      && Notifies(Feed(r, b.store, b.last), b'.count % Modulus(flags), flags, ts, gap, c, Feed(r', b'.store, b'.last))
      && r'.total == Total(b'.count)
  {
    var before, s := sights[..|sights| - 1], sights[|sights| - 1];
    LastSight(sights, flags, gap, c);
    CountsAgree(before, flags, gap, c);
    CountsAgree(sights, flags, gap, c);
    var run, b := Runs(Readings(before), flags, gap), Books(before, c);
    assert Step(run, Read(s.growth, s.ts), flags, gap).rate.total == Total(Enter(b, s, c).count);
    OneNotifies(b, s, run, flags, gap, c);
  }

  lemma EnterCounts(b: Book, s: Sight, c: Setting)
    requires Enterable(b, s, c)
    ensures Enter(b, s, c).count == b.count + s.growth
  {
  }

  // The last step of a run, on the side of the readings and on the side of the books.
  lemma LastSight(sights: seq<Sight>, flags: Flags, gap: real, c: Setting)
    requires sights != [] && gap > 0.0 && Feeds(sights, flags, c)
    ensures var before, s := sights[..|sights| - 1], sights[|sights| - 1];
      && Feeds(before, flags, c) && Enterable(Books(before, c), s, c)
      && Books(sights, c) == Enter(Books(before, c), s, c)
      && Runs(Readings(sights), flags, gap) ==
         Step(Runs(Readings(before), flags, gap), Read(s.growth, s.ts), flags, gap)
  {
    assert Readings(sights)[..|sights| - 1] == Readings(sights[..|sights| - 1]);
    CloseBefore(Readings(sights), flags);
  }

  lemma OneNotifies(b: Book, s: Sight, run: Course, flags: Flags, gap: real, c: Setting)
    requires gap > 0.0 && Enterable(b, s, c) && run.source == run.count == b.count
    requires Step(run, Read(s.growth, s.ts), flags, gap).rate.total == Total(Enter(b, s, c).count)
    ensures
      var b', r' := Enter(b, s, c), Step(run, Read(s.growth, s.ts), flags, gap).rate;
      Notifies(Feed(run.rate, b.store, b.last), b'.count % Modulus(flags), flags, s.ts, gap, c,
               Feed(r', b'.store, b'.last))
  {
    EnterCounts(b, s, c);
  }

  lemma {:induction false} CountsAgree(sights: seq<Sight>, flags: Flags, gap: real, c: Setting)
    requires gap > 0.0 && Feeds(sights, flags, c)
    ensures var run := Runs(Readings(sights), flags, gap); run.source == run.count == Books(sights, c).count
    ensures Runs(Readings(sights), flags, gap).rate.total == Total(Books(sights, c).count)
  {
    TotalsAreTrue(Readings(sights), flags, gap);
    if sights != [] {
      LastSight(sights, flags, gap, c);
      CountsAgree(sights[..|sights| - 1], flags, gap, c);
    }
  }
}
