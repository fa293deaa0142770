// Timestamps (src/utils.c) and the read and sleep loop (src/bmon.c).
module Timing {

  const MILLION := 1000000

  // The value of a timestamp_t.
  datatype Stamp = Stamp(sec: int, usec: int)

  predicate Normal(t: Stamp) {
    0 <= t.usec < MILLION
  }

  function Micros(t: Stamp): int {
    t.sec * MILLION + t.usec
  }

  // timestamp_diff, in seconds.
  function Diff(t1: Stamp, t2: Stamp): real {
    (t2.sec - t1.sec) as real + (t2.usec as real - t1.usec as real) / 1000000.0
  }

  lemma DiffMicros(t1: Stamp, t2: Stamp)
    ensures Diff(t1, t2) * 1000000.0 == (Micros(t2) - Micros(t1)) as real
  {
    var s, u := t2.sec - t1.sec, t2.usec - t1.usec;
    assert Diff(t1, t2) == s as real + u as real / 1000000.0;
    assert (s as real + u as real / 1000000.0) * 1000000.0 == s as real * 1000000.0 + u as real;
    assert (s * MILLION) as real == s as real * 1000000.0;
  }

  class Timestamp {
    var sec: int
    var usec: int

    constructor (t: Stamp)
      ensures Value() == t
    {
      sec, usec := t.sec, t.usec;
    }

    function Value(): Stamp
      reads this
    {
      Stamp(sec, usec)
    }
  }

  // timestamp_add: exact for all operands, also when dst is one of them.
  method TimestampAdd(dst: Timestamp, src1: Timestamp, src2: Timestamp)
    modifies dst
    ensures Micros(dst.Value()) == old(Micros(src1.Value())) + old(Micros(src2.Value()))
    ensures old(Normal(src1.Value())) && old(Normal(src2.Value())) ==> Normal(dst.Value())
  {
    dst.sec := src1.sec + src2.sec;
    dst.usec := src1.usec + src2.usec;
    if dst.usec >= MILLION {
      dst.sec := dst.sec + 1;
      dst.usec := dst.usec - MILLION;
    }
  }

  // timestamp_sub
  method TimestampSub(dst: Timestamp, src1: Timestamp, src2: Timestamp)
    modifies dst
    ensures Micros(dst.Value()) == old(Micros(src1.Value())) - old(Micros(src2.Value()))
    ensures old(Normal(src1.Value())) && old(Normal(src2.Value())) ==> Normal(dst.Value())
  {
    dst.sec := src1.sec - src2.sec;
    dst.usec := src1.usec - src2.usec;
    if dst.usec < 0 {
      dst.sec := dst.sec - 1;
      dst.usec := dst.usec + MILLION;
    }
  }

  method CopyTimestamp(ts1: Timestamp, ts2: Timestamp)
    modifies ts1
    ensures ts1.Value() == old(ts2.Value())
  {
    ts1.sec := ts2.sec;
    ts1.usec := ts2.usec;
  }

  // timestamp_le
  method TimestampLe(a: Timestamp, b: Timestamp) returns (r: bool)
    ensures Normal(a.Value()) && Normal(b.Value()) ==> r == (Micros(a.Value()) <= Micros(b.Value()))
  {
    if a.sec > b.sec { return false; }
    if a.sec < b.sec || a.usec <= b.usec { return true; }
    return false;
  }

  // ---- the loop, in microseconds ----

  // What one turn of the loop does besides the bookkeeping.
  datatype Turn = Turn(at: int, read: bool, sleep: int)   // sleep is -1 for no sleep

  // The requested sleep when the next read is gap away: NO_SLEEP when it is overdue.
  const NO_SLEEP := -1

  function SleepFor(gap: int, sleepTime: nat): int {
    if gap < 0 then NO_SLEEP else if gap < MILLION && gap < sleepTime then gap else sleepTime
  }

  // The plan after a turn at time at, and that turn, when the next read is planned for nr.
  ghost function Plan(nr: int, at: int, ri: int): int {
    if nr <= at then nr + ri else nr
  }

  ghost function TurnOf(nr: int, at: int, ri: int, sleepTime: nat): Turn {
    Turn(at, nr <= at, SleepFor(Plan(nr, at, ri) - at, sleepTime))
  }

  // The turns for the clock readings es, when the next read is planned for nr.
  ghost function Turns(es: seq<int>, nr: int, ri: int, sleepTime: nat): seq<Turn> {
    if es == [] then []
    else [TurnOf(nr, es[0], ri, sleepTime)] + Turns(es[1..], Plan(nr, es[0], ri), ri, sleepTime)
  }

  // After j clock readings the turns done are the beginning of all turns, and the next read is planned for nr.
  ghost predicate Turning(es: seq<int>, j: nat, nr: int, ri: int, sleepTime: nat, done: seq<Turn>, all: seq<Turn>) {
    j <= |es| && done + Turns(es[j..], nr, ri, sleepTime) == all
  }

  lemma TurnsStep(es: seq<int>, j: nat, nr: int, ri: int, sleepTime: nat, done: seq<Turn>, all: seq<Turn>)
    requires j < |es| && Turning(es, j, nr, ri, sleepTime, done, all)
    ensures Turning(es, j + 1, Plan(nr, es[j], ri), ri, sleepTime, done + [TurnOf(nr, es[j], ri, sleepTime)], all)
  {
    assert es[j..][0] == es[j] && es[j..][1..] == es[j + 1..];
  }

  lemma TurnsStart(es: seq<int>, nr: int, ri: int, sleepTime: nat)
    ensures Turning(es, 0, nr, ri, sleepTime, [], Turns(es, nr, ri, sleepTime))
  {
    assert es[0..] == es;
  }

  lemma TurnsEnd(es: seq<int>, nr: int, ri: int, sleepTime: nat, done: seq<Turn>, all: seq<Turn>)
    requires Turning(es, |es|, nr, ri, sleepTime, done, all)
    ensures done == all
  {
  }

  ghost function Clock(clock: seq<Stamp>): seq<int> {
    seq(|clock|, i requires 0 <= i < |clock| => Micros(clock[i]))
  }

  // One turn of the loop at time e.
  method LoopTurn(next: Timestamp, last: Timestamp, e: Timestamp, ri: Timestamp, sleepTime: nat) returns (turn: Turn)
    requires next != e && next != ri && last != e && last != ri && last != next
    requires Normal(next.Value()) && Normal(e.Value()) && Normal(ri.Value())
    modifies next, last
    ensures Normal(next.Value())
    ensures var nr, at, interval := old(Micros(next.Value())), old(Micros(e.Value())), Micros(ri.Value());
      Micros(next.Value()) == Plan(nr, at, interval) && turn == TurnOf(nr, at, interval, sleepTime)
    ensures last.Value() == if turn.read then e.Value() else old(last.Value())
  {
    var due := TimestampLe(next, e);
    if due {
      var c := new Timestamp(Stamp(0, 0));
      TimestampSub(c, next, e);
      CopyTimestamp(last, e);
      TimestampAdd(next, e, ri);
      TimestampAdd(next, next, c);
    }
    var tmp := new Timestamp(Stamp(0, 0));
    TimestampSub(tmp, next, e);
    var sleep := NO_SLEEP;
    if tmp.sec >= 0 {
      sleep := sleepTime;
      if tmp.sec == 0 && tmp.usec < sleepTime {
        sleep := tmp.usec;
      }
    }
    turn := Turn(Micros(e.Value()), due, sleep);
  }

  // The same, with the clock reading taken.
  method TurnNow(next: Timestamp, last: Timestamp, now: Stamp, ri: Timestamp, sleepTime: nat) returns (turn: Turn)
    requires next != ri && last != ri && last != next
    requires Normal(next.Value()) && Normal(now) && Normal(ri.Value())
    modifies next, last
    ensures Normal(next.Value())
    ensures var nr, at, interval := old(Micros(next.Value())), Micros(now), Micros(ri.Value());
      Micros(next.Value()) == Plan(nr, at, interval) && turn == TurnOf(nr, at, interval, sleepTime)
  {
    var e := new Timestamp(now);
    turn := LoopTurn(next, last, e, ri, sleepTime);
  }

  // The loop of main for as long as the clock gives readings; the first one starts the plan.
  method MainLoop(interval: Stamp, sleepTime: nat, clock: seq<Stamp>) returns (turns: seq<Turn>)
    requires Normal(interval) && |clock| > 0
    requires forall i :: 0 <= i < |clock| ==> Normal(clock[i])
    ensures turns == Turns(Clock(clock[1..]), Micros(clock[0]), Micros(interval), sleepTime)
  {
    var ri := new Timestamp(interval);
    var next := new Timestamp(clock[0]);
    var last := new Timestamp(Stamp(0, 0));
    turns := [];
    ghost var es, planned := Clock(clock[1..]), Micros(clock[0]);
    ghost var gap := Micros(interval);
    ghost var all := Turns(es, planned, gap, sleepTime);
    TurnsStart(es, planned, gap, sleepTime);
    var i := 0;
    while i < |clock| - 1
      invariant 0 <= i <= |clock| - 1
      invariant fresh(ri) && fresh(next) && fresh(last) && next != ri && last != ri && last != next
      invariant ri.Value() == interval && Normal(next.Value()) && planned == Micros(next.Value())
      invariant Turning(es, i, planned, gap, sleepTime, turns, all)
    {
      TurnsStep(es, i, planned, gap, sleepTime, turns, all);
      var turn := TurnNow(next, last, clock[i + 1], ri, sleepTime);
      planned := Micros(next.Value());
      turns := turns + [turn];
      i := i + 1;
    }
    TurnsEnd(es, planned, gap, sleepTime, turns, all);
  }

  // ---- what the loop guarantees ----

  // The time the k-th read was planned for at the start.
  function Planned(start: int, ri: int, k: nat): int {
    start + k * ri
  }

  ghost function Reads(turns: seq<Turn>): nat {
    if turns == [] then 0 else (if turns[0].read then 1 else 0) + Reads(turns[1..])
  }

  lemma PlannedShift(start: int, ri: int, k: nat)
    ensures Planned(start + ri, ri, k) == Planned(start, ri, k + 1)
  {
    assert (k + 1) * ri == k * ri + ri;
  }

  // Every turn, after k reads: there is no drift, so the next read is planned k intervals after the
  // start; the turn reads exactly if that time has come; and it sleeps towards the read planned next.
  lemma {:induction false} TurnAt(es: seq<int>, nr: int, ri: int, sleepTime: nat, i: nat)
    requires i < |es|
    ensures |Turns(es, nr, ri, sleepTime)| == |es|
    ensures var turns := Turns(es, nr, ri, sleepTime);
      var t, k := turns[i], Reads(turns[..i]);
      && t.at == es[i]
      && (t.read <==> Planned(nr, ri, k) <= t.at)
      && t.sleep == SleepFor(Planned(nr, ri, if t.read then k + 1 else k) - t.at, sleepTime)
    decreases |es|
  {
    var turns := Turns(es, nr, ri, sleepTime);
    var nr' := Plan(nr, es[0], ri);
    var rest := Turns(es[1..], nr', ri, sleepTime);
    assert turns[1..] == rest;
    if |es| > 1 { TurnAt(es[1..], nr', ri, sleepTime, if i == 0 then 0 else i - 1); }
    PlannedShift(nr, ri, 0);
    if i > 0 {
      assert turns[..i][1..] == rest[..i - 1];
      PlannedShift(nr, ri, Reads(rest[..i - 1]));
      PlannedShift(nr, ri, Reads(rest[..i - 1]) + 1);
    }
  }

  // The requested sleep stays within the gap to the next read, whatever the gap, exactly if the
  // sleep time is at most one second.
  lemma SleepBound(sleepTime: nat)
    ensures sleepTime <= MILLION <==> forall gap: int :: SleepFor(gap, sleepTime) <= gap || gap < 0
  {
    if sleepTime > MILLION {
      assert !(SleepFor(MILLION, sleepTime) <= MILLION || MILLION < 0);
    }
  }

  // Up to a second before the next read the loop asks for exactly the time that is left, unless the sleep
  // time is shorter, and not at all if the read is overdue. It always asks for the shorter of the two exactly
  // if the sleep time is at most one second.
  lemma SleepIsMinIff(sleepTime: nat, gap: int)
    ensures gap < 0 ==> SleepFor(gap, sleepTime) == -1
    ensures 0 <= gap < 1000000 ==> SleepFor(gap, sleepTime) == if gap < sleepTime then gap else sleepTime
    ensures gap >= 1000000 ==> SleepFor(gap, sleepTime) == sleepTime
    ensures sleepTime <= 1000000 <==>
            forall g: int :: g >= 0 ==> SleepFor(g, sleepTime) == if g < sleepTime then g else sleepTime
  {
    if sleepTime > MILLION {
      assert SleepFor(MILLION, sleepTime) != MILLION < sleepTime;
    }
  }

  // Every clock reading comes after the sleep that the turn before it asked for, and nothing else takes time.
  ghost predicate Slept(es: seq<int>, turns: seq<Turn>) {
    && |turns| == |es|
    && forall i :: 0 < i < |es| ==>
         es[i] == es[i - 1] + if turns[i - 1].sleep == NO_SLEEP then 0 else turns[i - 1].sleep
  }

  // Then no read is ever late: each one happens exactly at the time it was planned for.
  lemma {:induction false} ReadsOnTime(es: seq<int>, nr: int, ri: int, sleepTime: nat, i: nat)
    requires i < |es| && 0 <= ri && sleepTime <= MILLION && es[0] <= nr
    requires Slept(es, Turns(es, nr, ri, sleepTime))
    ensures |Turns(es, nr, ri, sleepTime)| == |es|
    ensures var turns := Turns(es, nr, ri, sleepTime);
      var due := Planned(nr, ri, Reads(turns[..i]));
      es[i] <= due && (turns[i].read <==> es[i] == due)
  {
    TurnAt(es, nr, ri, sleepTime, i);
    var turns := Turns(es, nr, ri, sleepTime);
    if i > 0 {
      ReadsOnTime(es, nr, ri, sleepTime, i - 1);
      TurnAt(es, nr, ri, sleepTime, i - 1);
      ReadsSnoc(turns, i - 1);
      PlannedShift(nr, ri, Reads(turns[..i - 1]));
      PlannedNext(nr, ri, Reads(turns[..i - 1]));
      var gap := Planned(nr, ri, Reads(turns[..i])) - es[i - 1];
      SleepIsMinIff(sleepTime, gap);
    } else {
      assert turns[..0] == [];
    }
  }

  lemma PlannedNext(start: int, ri: int, k: nat)
    ensures Planned(start, ri, k + 1) == Planned(start, ri, k) + ri
    ensures Planned(start, ri, 0) == start
  {
    assert (k + 1) * ri == k * ri + ri;
  }

  // With a clock that does not run backwards: when the loop sleeps, it has done exactly the reads
  // that were due by then, so none is overdue and none was early.
  lemma KeepsPace(es: seq<int>, nr: int, ri: int, sleepTime: nat, i: nat)
    requires i < |es| && 0 <= ri
    requires forall a, b :: 0 <= a < b < |es| ==> es[a] <= es[b]
    ensures |Turns(es, nr, ri, sleepTime)| == |es|
    ensures var turns := Turns(es, nr, ri, sleepTime);
      var t, k := turns[i], Reads(turns[..i + 1]);
      && (t.sleep != NO_SLEEP <==> t.at <= Planned(nr, ri, k))
      && (k > 0 ==> Planned(nr, ri, k - 1) <= t.at)
  {
    TurnAt(es, nr, ri, sleepTime, i);
    var turns := Turns(es, nr, ri, sleepTime);
    ReadsSnoc(turns, i);
    if i > 0 && !turns[i].read {
      KeepsPace(es, nr, ri, sleepTime, i - 1);
      TurnAt(es, nr, ri, sleepTime, i - 1);
    }
  }

  lemma {:induction false} ReadsSnoc(turns: seq<Turn>, i: nat)
    requires i < |turns|
    ensures Reads(turns[..i + 1]) == Reads(turns[..i]) + if turns[i].read then 1 else 0
  {
    if i == 0 {
      assert turns[..1][1..] == [] && turns[..0] == [];
    } else {
      assert turns[..i + 1][1..] == turns[1..][..i] && turns[..i][1..] == turns[1..][..i - 1];
      ReadsSnoc(turns[1..], i - 1);
    }
  }
}
