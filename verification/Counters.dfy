// Counter accumulation and rate estimation: src/attr.c.
module Counters {
  import opened Timing

  const M32 := 0x1_0000_0000
  const M64 := 0x1_0000_0000_0000_0000

  // The attribute flags that matter here.
  datatype Flags = Flags(ignoreOverflows: bool, true64: bool)

  // The modulus a source counter is taken to wrap at.
  function Modulus(flags: Flags): int {
    if flags.true64 then M64 else M32
  }

  // The value of a struct rate.
  datatype RateState = RateState(total: nat, current: nat, prev: nat, reset: nat, rate: real, lastCalc: Stamp)

  ghost predicate Fits(s: RateState) {
    s.total < M64 && s.current < M64 && s.prev < M64 && s.reset < M64
  }

  // What one reading adds, on 64-bit unsigned integers.
  ghost function Delta(prev: nat, current: nat, flags: Flags): nat {
    if current >= prev then current - prev
    else if flags.ignoreOverflows then current
    else (Modulus(flags) - 1 - prev + current + 1) % M64
  }

  ghost function NewTotal(s: RateState, flags: Flags): nat {
    (s.total + Delta(s.prev, s.current, flags)) % M64
  }

  ghost function Smoothed(sample: real, old_rate: real): real {
    if old_rate != 0.0 then (sample * 3.0 + old_rate) / 4.0 else sample
  }

  // A rate is estimated unless there is no earlier total or the last estimate is too recent.
  ghost predicate Estimates(s: RateState, ts: Stamp, gap: real) {
    s.total != 0 && Diff(s.lastCalc, ts) >= gap
  }

  // The unsmoothed estimate.
  ghost function Sample(s: RateState, flags: Flags, ts: Stamp): real
    requires Diff(s.lastCalc, ts) != 0.0
  {
    ((NewTotal(s, flags) - s.total) % M64) as real / Diff(s.lastCalc, ts)
  }

  // No estimate divides by a time difference of zero, as it is always when the gap is positive.
  ghost predicate Measurable(s: RateState, ts: Stamp, gap: real) {
    Estimates(s, ts, gap) ==> Diff(s.lastCalc, ts) != 0.0
  }

  ghost function Calculated(s: RateState, flags: Flags, ts: Stamp, gap: real): RateState
    requires Measurable(s, ts, gap)
  {
    var t := s.(total := NewTotal(s, flags), prev := s.current);
    if Estimates(s, ts, gap) then t.(rate := Smoothed(Sample(s, flags, ts), s.rate), lastCalc := ts)
    else if s.total == 0 then t.(lastCalc := ts)
    else t
  }

  // The total that is shown.
  ghost function Shown(s: RateState): nat {
    (s.total - s.reset) % M64
  }

  // A reading of an attribute that is a rate itself.
  ghost function Taken(s: RateState, ts: Stamp): RateState {
    RateState(s.current, s.current, s.current, s.reset, s.current as real, ts)
  }

  // ---- arithmetic modulo 2^64 ----

  lemma WrapSum(a: int, b: int)
    ensures (a % M64 + b) % M64 == (a + b) % M64
  {
  }

  lemma WrapDifference(a: nat, b: nat)
    requires a < M64 && b < M64
    ensures (a - b) % M64 == if a >= b then a - b else M64 - b + a
  {
  }

  lemma WrapCancel(x: int, a: nat, b: nat)
    requires a < M64 && b < M64
    ensures (x + a) % M64 == (x + b) % M64 <==> a == b
  {
  }

  lemma WrapApart(a: int, b: int)
    ensures (a % M64 - b % M64) % M64 == (a - b) % M64
  {
  }

  class Rate {
    var total: nat      // r_total
    var current: nat    // r_current
    var prev: nat       // r_prev
    var reset: nat      // r_reset
    var rate: real      // r_rate
    var lastCalc: Stamp // r_last_calc

    constructor ()
      ensures Value() == RateState(0, 0, 0, 0, 0.0, Stamp(0, 0))
    {
      total, current, prev, reset, rate, lastCalc := 0, 0, 0, 0, 0.0, Stamp(0, 0);
    }

    function Value(): RateState
      reads this
    {
      RateState(total, current, prev, reset, rate, lastCalc)
    }

    // The delta of the new reading, with overflows taken into account.
    method ReadingDelta(flags: Flags) returns (delta: nat)
      requires Fits(Value())
      ensures delta == Delta(prev, current, flags) < M64
    {
      if current < prev {
        if flags.ignoreOverflows {
          delta := current;
        } else {
          if flags.true64 {
            delta := 0xFFFF_FFFF_FFFF_FFFF - prev;
          } else {
            delta := (0xFFFF_FFFF - prev) % M64;
            WrapSum(0xFFFF_FFFF - prev, current + 1);
          }
          delta := (delta + current + 1) % M64;
        }
      } else {
        delta := current - prev;
      }
    }

    // calc_counter_rate; gap is the rate interval less its variance.
    method CalcCounterRate(flags: Flags, ts: Stamp, gap: real)
      requires Fits(Value()) && Measurable(Value(), ts, gap)
      modifies this
      ensures Fits(Value()) && Value() == Calculated(old(Value()), flags, ts, gap)
    {
      var delta := ReadingDelta(flags);
      var prevTotal := total;
      total := (total + delta) % M64;
      prev := current;
      if prevTotal == 0 {
        lastCalc := ts;
        return;
      }
      var diff := Diff(lastCalc, ts);
      if diff < gap {
        return;
      }
      var oldRate := rate;
      WrapDifference(total, prevTotal);
      if total < prevTotal {
        delta := 0xFFFF_FFFF_FFFF_FFFF - prevTotal;
        delta := delta + total + 1;
      } else {
        delta := total - prevTotal;
      }
      rate := delta as real / diff;
      if oldRate != 0.0 {
        rate := (rate * 3.0 + oldRate) / 4.0;
      }
      lastCalc := ts;
    }

    // rate_get_total
    function GetTotal(): (r: nat)
      reads this
      ensures r == Shown(Value())
    {
      (total - reset) % M64
    }

    // attr_reset_counter for one rate of a counter.
    method ResetCounter()
      modifies this`reset
      ensures Value() == old(Value()).(reset := total)
      ensures GetTotal() == 0
    {
      reset := total;
    }

    // calc_rate_total, for attributes that are rates themselves.
    method CalcRateTotal(ts: Stamp)
      modifies this
      ensures Value() == Taken(old(Value()), ts)
      ensures total == current == prev == old(current) && reset == old(reset) && rate == old(current) as real
    {
      total := current;
      rate := total as real;
      prev := current;
      lastCalc := ts;
    }
  }

  // ---- the ideal counter behind the readings ----

  // The delta of two readings of a counter is its growth, up to the modulus.
  lemma DeltaIsGrowth(count: nat, growth: nat, flags: Flags)
    requires !flags.ignoreOverflows
    ensures var m := if flags.true64 then 0x1_0000_0000_0000_0000 else 0x1_0000_0000;
      Delta(count % m, (count + growth) % m, flags) == growth % m
  {
    if flags.true64 { ModGrowth(count, growth, M64); } else { ModGrowth(count, growth, M32); }
  }

  lemma ModGrowth(count: nat, growth: nat, m: int)
    requires m == M32 || m == M64
    ensures var a, b := count % m, (count + growth) % m;
      growth % m == if b >= a then b - a else m - a + b
  {
    var a, b := count % m, (count + growth) % m;
    var k := (count + growth) / m - count / m;
    if m == M32 {
      assert growth == M32 * k + (b - a);
      Residue32(growth, if b >= a then k else k - 1, if b >= a then b - a else M32 - a + b);
    } else {
      assert growth == M64 * k + (b - a);
      Residue64(growth, if b >= a then k else k - 1, if b >= a then b - a else M64 - a + b);
    }
  }

  lemma Residue32(n: int, k: int, r: int)
    requires n == M32 * k + r && 0 <= r < M32
    ensures n % M32 == r
  {
  }

  lemma Residue64(n: int, k: int, r: int)
    requires n == M64 * k + r && 0 <= r < M64
    ensures n % M64 == r
  {
  }

  // The low 32 bits of a number are its value exactly if its low 64 bits are below 2^32.
  lemma LowBits(n: nat)
    ensures n % M32 <= n % M64
    ensures n % M32 == n % M64 <==> n % M64 < M32
  {
    assert n == n / M64 * M64 + n % M64;
    assert (n % M64) % M32 == n % M32;
  }

  // Where a reading is taken to start from: with overflows ignored, a value below the previous one is taken
  // for a restart at zero, so that the source must not wrap at all.
  ghost function Base(prev: nat, flags: Flags): nat {
    if flags.ignoreOverflows then prev else 0
  }

  // The accumulated total stays on the true count exactly if the growth between two readings is
  // below the modulus, or does not reach it from the previous reading if overflows are ignored; up to
  // multiples of 2^64 that no total can show.
  lemma TracksIff(s: RateState, source: nat, count: nat, growth: nat, flags: Flags)
    requires s.total == count % M64 && s.prev == source % Modulus(flags)
    requires s.current == (source + growth) % Modulus(flags)
    ensures NewTotal(s, flags) == (count + growth) % M64 <==> Base(s.prev, flags) + growth % M64 < Modulus(flags)
  {
    var d, g := Delta(s.prev, s.current, flags), growth % M64;
    WrapSum(count, d);
    WrapSum(growth, count);
    assert (count + growth) % M64 == (count + g) % M64;
    WrapCancel(count, d, g);
    DeltaTracks(s.prev, s.current, source, growth, flags);
  }

  lemma DeltaTracks(prev: nat, current: nat, source: nat, growth: nat, flags: Flags)
    requires prev == source % Modulus(flags) && current == (source + growth) % Modulus(flags)
    ensures Delta(prev, current, flags) < M64
    ensures Delta(prev, current, flags) == growth % M64 <==> Base(prev, flags) + growth % M64 < Modulus(flags)
  {
    var m := Modulus(flags);
    Low(growth, flags);
    ModGrowth(source, growth, m);
    if !flags.ignoreOverflows { DeltaIsGrowth(source, growth, flags); }
  }

  // The residue modulo the smaller modulus is not above the residue modulo 2^64.
  lemma Low(n: nat, flags: Flags)
    ensures n % Modulus(flags) <= n % M64
    ensures n % Modulus(flags) == n % M64 <==> n % M64 < Modulus(flags)
  {
    if !flags.true64 { LowBits(n); }
  }

  // A source that restarts at zero, with overflows ignored: the total stays true exactly if nothing was lost
  // after the last reading and the new value is below it, or the last reading was zero (up to 2^64 again).
  lemma RestartTracksIff(s: RateState, count: nat, lost: nat, since: nat, flags: Flags)
    requires flags.ignoreOverflows && Fits(s) && s.total == count % M64 && s.current == since
    ensures NewTotal(s, flags) == (count + lost + since) % M64 <==>
      (lost + if since < s.prev then 0 else s.prev) % M64 == 0
  {
    var d := Delta(s.prev, since, flags);
    WrapSum(count, d);
    var rest := lost + if since < s.prev then 0 else s.prev;
    assert count + lost + since == count + d + rest;
    WrapMore(count + d, rest);
  }

  lemma WrapMore(n: nat, rest: nat)
    ensures n % M64 == (n + rest) % M64 <==> rest % M64 == 0
  {
  }

  // The delta computed again from the two totals is the delta first computed from the readings.
  lemma RecomputedDelta(s: RateState, flags: Flags)
    requires Fits(s)
    ensures (NewTotal(s, flags) - s.total) % M64 == Delta(s.prev, s.current, flags)
  {
    var d := Delta(s.prev, s.current, flags);
    WrapSum(s.total + d, -(s.total as int));
    assert d < M64;
  }

  // ---- whole runs ----

  // The source grew, or restarted at zero and counted since; or the counter was reset on the screen.
  datatype Event = Read(growth: nat, ts: Stamp) | Restart(since: nat, ts: Stamp) | Reset

  function Grown(e: Event): nat {
    match e
    case Read(growth, _) => growth
    case Restart(since, _) => since
    case Reset => 0
  }

  // What the source has counted since it last was zero.
  function SourceAfter(source: nat, e: Event): nat {
    match e
    case Read(growth, _) => source + growth
    case Restart(since, _) => since
    case Reset => source
  }

  // A rate together with the ideal counter it reads: what the source stands at, and the true count now, at
  // the last estimate and at the last reset.
  datatype Course = Course(rate: RateState, source: nat, count: nat, seen: nat, zero: nat)

  const START := Course(RateState(0, 0, 0, 0, 0.0, Stamp(0, 0)), 0, 0, 0, 0)

  // The rate as a reading finds it: the source counter shows what it stands at up to its modulus.
  ghost function Reading(c: Course, e: Event, flags: Flags): RateState {
    c.rate.(current := SourceAfter(c.source, e) % Modulus(flags))
  }

  ghost function Step(c: Course, e: Event, flags: Flags, gap: real): Course
    requires gap > 0.0
  {
    if e.Reset? then c.(rate := c.rate.(reset := c.rate.total), zero := c.count)
    else
      var r, n := Reading(c, e, flags), c.count + Grown(e);
      var seen := if r.total == 0 || Estimates(r, e.ts, gap) then n else c.seen;
      Course(Calculated(r, flags, e.ts, gap), SourceAfter(c.source, e), n, seen, c.zero)
  }

  ghost function Runs(events: seq<Event>, flags: Flags, gap: real): Course
    requires gap > 0.0
  {
    if events == [] then START
    else Step(Runs(events[..|events| - 1], flags, gap), events[|events| - 1], flags, gap)
  }

  ghost function Growth(events: seq<Event>): nat {
    if events == [] then 0
    else Growth(events[..|events| - 1]) + Grown(events[|events| - 1])
  }

  ghost function Source(events: seq<Event>): nat {
    if events == [] then 0
    else SourceAfter(Source(events[..|events| - 1]), events[|events| - 1])
  }

  // What the counter grew by after the last reset.
  ghost function SinceReset(events: seq<Event>): nat {
    if events == [] || events[|events| - 1].Reset? then 0
    else SinceReset(events[..|events| - 1]) + Grown(events[|events| - 1])
  }

  // A reading that can be told from the one before it: it does not skip a whole turn of the source, or with
  // overflows ignored does not wrap. Restarts can be told only then, by a value below the last one.
  ghost predicate Told(source: nat, e: Event, flags: Flags) {
    var prev := source % Modulus(flags);
    match e
    case Read(growth, _) => Base(prev, flags) + growth < Modulus(flags)
    case Restart(since, _) => flags.ignoreOverflows && since < Modulus(flags) && (since < prev || prev == 0)
    case Reset => true
  }

  ghost predicate Close(events: seq<Event>, flags: Flags) {
    forall i :: 0 <= i < |events| ==> Told(Source(events[..i]), events[i], flags)
  }

  lemma CloseBefore(events: seq<Event>, flags: Flags)
    requires events != [] && Close(events, flags)
    ensures var before := events[..|events| - 1];
      Close(before, flags) && Told(Source(before), events[|events| - 1], flags)
  {
    var before := events[..|events| - 1];
    forall i | 0 <= i < |before|
      ensures Told(Source(before[..i]), before[i], flags)
    {
      assert before[..i] == events[..i];
    }
  }

  ghost predicate OnCourse(c: Course, flags: Flags) {
    && Fits(c.rate)
    && c.rate.total == c.count % M64 && c.rate.prev == c.source % Modulus(flags)
    && c.rate.reset == c.zero % M64 && c.zero <= c.count && c.seen <= c.count
  }

  // The delta of a reading that can be told is the growth of the source.
  lemma ToldDelta(source: nat, e: Event, flags: Flags)
    requires Told(source, e, flags) && !e.Reset?
    ensures Delta(source % Modulus(flags), SourceAfter(source, e) % Modulus(flags), flags) == Grown(e)
  {
    if e.Read? {
      if flags.true64 { ModGrowth(source, e.growth, M64); } else { ModGrowth(source, e.growth, M32); }
      WithinTurn(e.growth, flags);
    } else {
      WithinTurn(e.since, flags);
    }
  }

  lemma WithinTurn(growth: nat, flags: Flags)
    requires growth < Modulus(flags)
    ensures growth % Modulus(flags) == growth
  {
  }

  // What an estimate leaves of the integer fields.
  lemma CalculatedFields(s: RateState, flags: Flags, ts: Stamp, gap: real)
    requires Measurable(s, ts, gap)
    ensures var t := Calculated(s, flags, ts, gap);
      t.total == NewTotal(s, flags) && t.prev == t.current == s.current && t.reset == s.reset
  {
  }

  lemma StaysOnCourse(c: Course, e: Event, flags: Flags, gap: real)
    requires OnCourse(c, flags) && gap > 0.0 && Told(c.source, e, flags)
    ensures OnCourse(Step(c, e, flags, gap), flags)
  {
    if !e.Reset? {
      ToldDelta(c.source, e, flags);
      WrapSum(c.count, Grown(e));
      CalculatedFields(Reading(c, e, flags), flags, e.ts, gap);
    }
  }

  lemma {:induction false} CountsRun(events: seq<Event>, flags: Flags, gap: real)
    requires gap > 0.0
    ensures
      var c := Runs(events, flags, gap);
      c.source == Source(events) && c.zero <= c.count == Growth(events) && c.count - c.zero == SinceReset(events)
  {
    if events != [] {
      CountsRun(events[..|events| - 1], flags, gap);
    }
  }

  lemma {:induction false} RunsOnCourse(events: seq<Event>, flags: Flags, gap: real)
    requires gap > 0.0 && Close(events, flags)
    ensures OnCourse(Runs(events, flags, gap), flags)
  {
    if events != [] {
      var before := events[..|events| - 1];
      CloseBefore(events, flags);
      RunsOnCourse(before, flags, gap);
      CountsRun(before, flags, gap);
      StaysOnCourse(Runs(before, flags, gap), events[|events| - 1], flags, gap);
    }
  }

  // After any number of wraps, restarts and resets the accumulated total is the true count, and the total
  // shown is exactly the traffic since the last reset, both modulo 2^64.
  lemma TotalsAreTrue(events: seq<Event>, flags: Flags, gap: real)
    requires gap > 0.0 && Close(events, flags)
    ensures var c := Runs(events, flags, gap);
      && OnCourse(c, flags)
      && c.count == Growth(events) && c.count - c.zero == SinceReset(events)
      && c.rate.total == Growth(events) % M64
      && Shown(c.rate) == SinceReset(events) % 0x1_0000_0000_0000_0000
  {
    CountsRun(events, flags, gap);
    RunsOnCourse(events, flags, gap);
    TotalShown(Runs(events, flags, gap), flags);
  }

  lemma TotalShown(c: Course, flags: Flags)
    requires OnCourse(c, flags)
    ensures Shown(c.rate) == (c.count - c.zero) % M64
  {
    WrapApart(c.count, c.zero);
  }

  // ---- rate estimation over runs ----

  // When the rate was last looked at, and the true count then, told by the events alone: a reading is looked
  // at if there was no traffic before it (up to 2^64) or the gap has passed since the last look.
  datatype Look = Look(at: Stamp, count: nat)

  ghost function LastLook(events: seq<Event>, gap: real): (r: Look)
    ensures r.count <= Growth(events)
  {
    if events == [] then Look(Stamp(0, 0), 0)
    else
      var before, e := events[..|events| - 1], events[|events| - 1];
      var last := LastLook(before, gap);
      if !e.Reset? && (Growth(before) % 0x1_0000_0000_0000_0000 == 0 || Diff(last.at, e.ts) >= gap)
      then Look(e.ts, Growth(events))
      else last
  }

  lemma {:induction false} LooksRun(events: seq<Event>, flags: Flags, gap: real)
    requires gap > 0.0 && Close(events, flags)
    ensures var c := Runs(events, flags, gap); LastLook(events, gap) == Look(c.rate.lastCalc, c.seen)
  {
    if events != [] {
      var before := events[..|events| - 1];
      CloseBefore(events, flags);
      LooksRun(before, flags, gap);
      TotalsAreTrue(before, flags, gap);
      CountsRun(events, flags, gap);
      LookStep(Runs(before, flags, gap), events[|events| - 1], flags, gap);
    }
  }

  lemma LookStep(c: Course, e: Event, flags: Flags, gap: real)
    requires gap > 0.0
    ensures var d := Step(c, e, flags, gap);
      if !e.Reset? && (c.rate.total == 0 || Diff(c.rate.lastCalc, e.ts) >= gap)
      then d.rate.lastCalc == e.ts && d.seen == d.count
      else d.rate.lastCalc == c.rate.lastCalc && d.seen == c.seen
  {
  }

  // The estimate of a reading is its own growth over the time since the last look. It never exceeds the true
  // mean rate since then, and meets it exactly if the readings skipped since then had no growth.
  lemma SampleBelowMean(events: seq<Event>, e: Event, flags: Flags, gap: real)
    requires gap > 0.0 && Close(events, flags) && !e.Reset? && Told(Source(events), e, flags)
    requires Growth(events) % M64 != 0 && Diff(LastLook(events, gap).at, e.ts) >= gap
    ensures
      var c, last := Runs(events, flags, gap), LastLook(events, gap);
      var diff := Diff(last.at, e.ts);
      var mean := (Growth(events) + Grown(e) - last.count) as real / diff;
      && Estimates(c.rate, e.ts, gap)
      && var sample := Sample(Reading(c, e, flags), flags, e.ts);
         && sample == Grown(e) as real / diff
         && sample <= mean
         && (sample == mean <==> Growth(events) == last.count)
  {
    LooksRun(events, flags, gap);
    CountsRun(events, flags, gap);
    RunsOnCourse(events, flags, gap);
    var c := Runs(events, flags, gap);
    SampleOnCourse(c, e, flags, Diff(c.rate.lastCalc, e.ts));
  }

  lemma SampleOnCourse(c: Course, e: Event, flags: Flags, diff: real)
    requires OnCourse(c, flags) && !e.Reset? && Told(c.source, e, flags)
    requires diff == Diff(c.rate.lastCalc, e.ts) && diff > 0.0
    ensures
      var sample, mean := Sample(Reading(c, e, flags), flags, e.ts), (c.count + Grown(e) - c.seen) as real / diff;
      && sample == Grown(e) as real / diff
      && sample <= mean
      && (sample == mean <==> c.count - c.seen == 0)
  {
    SampleIsGrowth(c, e, flags);
    Quotients(Grown(e), c.count + Grown(e) - c.seen, diff);
  }

  lemma SampleIsGrowth(c: Course, e: Event, flags: Flags)
    requires OnCourse(c, flags) && !e.Reset? && Told(c.source, e, flags)
    ensures (NewTotal(Reading(c, e, flags), flags) - c.rate.total) % M64 == Grown(e)
  {
    RecomputedDelta(Reading(c, e, flags), flags);
    ToldDelta(c.source, e, flags);
  }

  lemma Quotients(a: int, b: int, d: real)
    requires a <= b && d > 0.0
    ensures a as real / d <= b as real / d
    ensures a as real / d == b as real / d <==> a == b
  {
    var x, y := a as real / d, b as real / d;
    assert x * d == a as real && y * d == b as real;
    assert (y - x) * d == (b - a) as real;
  }

  // The samples of a run, in order.
  ghost function Samples(events: seq<Event>, flags: Flags, gap: real): seq<real>
    requires gap > 0.0
  {
    if events == [] then []
    else
      var c, e := Runs(events[..|events| - 1], flags, gap), events[|events| - 1];
      var rest := Samples(events[..|events| - 1], flags, gap);
      if !e.Reset? && Estimates(c.rate, e.ts, gap)
      then rest + [Sample(Reading(c, e, flags), flags, e.ts)]
      else rest
  }

  ghost function SmoothAll(samples: seq<real>, old_rate: real): real {
    if samples == [] then old_rate
    else Smoothed(samples[|samples| - 1], SmoothAll(samples[..|samples| - 1], old_rate))
  }

  // The rate after a run is the smoothing of its samples, and of nothing else.
  lemma {:induction false} RateIsSmoothed(events: seq<Event>, flags: Flags, gap: real)
    requires gap > 0.0
    ensures Runs(events, flags, gap).rate.rate == SmoothAll(Samples(events, flags, gap), 0.0)
  {
    if events != [] {
      var before, e := events[..|events| - 1], events[|events| - 1];
      RateIsSmoothed(before, flags, gap);
      var c := Runs(before, flags, gap);
      if !e.Reset? && Estimates(c.rate, e.ts, gap) {
        var s := Sample(Reading(c, e, flags), flags, e.ts);
        assert (Samples(before, flags, gap) + [s])[..|Samples(before, flags, gap)|] == Samples(before, flags, gap);
      }
    }
  }

  // Smoothing never leaves the range of the samples seen so far.
  lemma {:induction false} SmoothStaysWithin(samples: seq<real>, lo: real, hi: real)
    requires forall i :: 0 <= i < |samples| ==> lo <= samples[i] <= hi
    ensures samples == [] ==> SmoothAll(samples, 0.0) == 0.0
    ensures samples != [] ==> lo <= SmoothAll(samples, 0.0) <= hi
  {
    if samples != [] {
      SmoothStaysWithin(samples[..|samples| - 1], lo, hi);
    }
  }

  // Readings with the same growth x, one second apart.
  ghost predicate Steady(events: seq<Event>, x: nat, first: Stamp) {
    forall i :: 0 <= i < |events| ==> events[i] == Read(x, Stamp(first.sec + i, first.usec))
  }

  // Under such readings every estimate is x, and so is the rate from the second reading on.
  lemma {:induction false} SteadyRate(events: seq<Event>, x: nat, first: Stamp, flags: Flags, gap: real)
    requires 0.0 < gap <= 1.0 && Steady(events, x, first) && Close(events, flags) && 0 < x < M64 && events != []
    ensures var c := Runs(events, flags, gap);
      && c.rate.lastCalc == Stamp(first.sec + |events| - 1, first.usec)
      && c.rate.rate == (if |events| >= 2 then x as real else 0.0)
    ensures forall s :: s in Samples(events, flags, gap) ==> s == x as real
  {
    var before, e := events[..|events| - 1], events[|events| - 1];
    CloseBefore(events, flags);
    if before != [] {
      SteadyRate(before, x, first, flags, gap);
      CountsRun(before, flags, gap);
      RunsOnCourse(before, flags, gap);
      var c := Runs(before, flags, gap);
      if |before| == 1 { OneGrowth(before, x); }
      SteadyStep(c, e, x, flags, gap);
    }
  }

  lemma OneGrowth(events: seq<Event>, x: nat)
    requires |events| == 1 && events[0].Read? && events[0].growth == x
    ensures Growth(events) == x
  {
    assert events[..0] == [];
    assert Growth(events[..0]) == 0;
  }

  lemma SteadyStep(c: Course, e: Event, x: nat, flags: Flags, gap: real)
    requires 0.0 < gap <= 1.0 && OnCourse(c, flags) && 0 < x < M64 && e.Read? && e.growth == x
    requires Told(c.source, e, flags) && e.ts == Stamp(c.rate.lastCalc.sec + 1, c.rate.lastCalc.usec)
    requires c.rate.rate == x as real || (c.rate.rate == 0.0 && c.count == x)
    ensures var d := Step(c, e, flags, gap); d.rate.lastCalc == e.ts && d.rate.rate == x as real
    ensures Estimates(c.rate, e.ts, gap) ==> Sample(Reading(c, e, flags), flags, e.ts) == x as real
  {
    assert Diff(c.rate.lastCalc, e.ts) == 1.0;
    SampleIsGrowth(c, e, flags);
  }

  ghost function Pow4(k: nat): real {
    if k == 0 then 1.0 else 4.0 * Pow4(k - 1)
  }

  // Under a constant sample, which may be none at all, the error shrinks by exactly 4 with each estimate.
  lemma {:induction false} SmoothConverges(samples: seq<real>, s: real, old_rate: real)
    requires s >= 0.0 && old_rate > 0.0
    requires forall i :: 0 <= i < |samples| ==> samples[i] == s
    ensures SmoothAll(samples, old_rate) > 0.0
    ensures (SmoothAll(samples, old_rate) - s) * Pow4(|samples|) == old_rate - s
  {
    if samples != [] {
      var before := samples[..|samples| - 1];
      SmoothConverges(before, s, old_rate);
      var x, p := SmoothAll(before, old_rate), Pow4(|before|);
      assert SmoothAll(samples, old_rate) - s == (x - s) / 4.0;
      assert (x - s) / 4.0 * (4.0 * p) == (x - s) * p;
    }
  }
}
