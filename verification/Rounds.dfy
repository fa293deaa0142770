// The rounds of the monitor, each a number of lookups and lifesigns followed by free_unused_elements, are
// runs in the sense of the lifetimes: src/bmon.c, src/element.c, src/group.c. Groups may be created on the
// way; before its creation a group counts as empty.
module Rounds {
  import opened Forests
  import opened Lifetimes
  import opened Elements

  // The read each group goes through.
  type Reads = map<Group, Read<Element>>

  ghost function ReadAt(rs: Reads, g: Group): Read<Element> {
    if g in rs then rs[g] else Read(Nil, {})
  }

  // From b to n, group g went through the read r.
  ghost predicate OneRead(b: Snapshot, n: Snapshot, g: Group, r: Read<Element>, l: nat)
    requires Proper(b) && Proper(n)
  {
    && Grows(StateAt(b, g).f, r.grown) && r.signed <= Elems(r.grown)
    && StateAt(n, g) == AfterRead(StateAt(b, g), r, l)
  }

  // Every group, old or new, went through its read.
  ghost predicate ReadTo(b: Snapshot, n: Snapshot, rs: Reads, l: nat) {
    && Proper(b) && Proper(n) && b.forests.Keys <= n.forests.Keys == rs.Keys
    && forall g :: g in n.forests ==> OneRead(b, n, g, rs[g], l)
  }

  // The operations gs[i] with their effects rs[i] lead through the snapshots ss.
  ghost predicate Chain(ss: seq<Snapshot>, gs: seq<Group>, rs: seq<Read<Element>>, l: nat) {
    && |ss| == |gs| + 1 == |rs| + 1
    && (forall i :: 0 <= i < |ss| ==> Proper(ss[i]))
    && (forall i :: 0 <= i < |gs| ==> Moves(ss[i], ss[i + 1], gs[i], rs[i], l))
  }

  ghost function Idle(b: Snapshot): Reads {
    map g | g in b.forests :: Read(b.forests[g], {})
  }

  lemma IdleRead<T>(s: State<T>, l: nat)
    requires Good(s)
    ensures Grows(s.f, s.f) && AfterRead(s, Read(s.f, {}), l) == s
  {
    assert AfterRead(s, Read(s.f, {}), l).life == s.life;
  }

  lemma IdleReads(b: Snapshot, l: nat)
    requires Proper(b)
    ensures ReadTo(b, b, Idle(b), l)
  {
    forall g | g in b.forests
      ensures OneRead(b, b, g, Idle(b)[g], l)
    {
      IdleRead(StateOf(b, g), l);
    }
  }

  ghost function Extended(rs: Reads, g: Group, r: Read<Element>): Reads {
    rs[g := Read(r.grown, ReadAt(rs, g).signed + r.signed)]
  }

  // One more lookup or lifesign makes the read of its group larger.
  lemma ExtendedReads(b: Snapshot, m: Snapshot, n: Snapshot, rs: Reads, g: Group,
                      r: Read<Element>, l: nat)
    requires ReadTo(b, m, rs, l) && Proper(n) && Moves(m, n, g, r, l)
    ensures ReadTo(b, n, Extended(rs, g, r), l)
  {
    forall h | h in n.forests
      ensures OneRead(b, n, h, Extended(rs, g, r)[h], l)
    {
      if h == g {
        SameGroupReads(b, m, n, rs, g, r, l);
      } else {
        assert OneRead(b, m, h, rs[h], l);
        assert StateOf(n, h) == StateOf(m, h);
      }
    }
  }

  lemma SameGroupReads(b: Snapshot, m: Snapshot, n: Snapshot, rs: Reads, g: Group,
                       r: Read<Element>, l: nat)
    requires ReadTo(b, m, rs, l) && Proper(n) && Moves(m, n, g, r, l)
    ensures OneRead(b, n, g, Read(r.grown, ReadAt(rs, g).signed + r.signed), l)
  {
    if g in m.forests {
      assert OneRead(b, m, g, rs[g], l);
      ReadsJoin(StateAt(b, g), rs[g], r, l);
    } else {
      assert {} + r.signed == r.signed;
    }
  }

  // The lookups and lifesigns of one round add up to one read of every group.
  lemma {:induction false} ChainReads(ss: seq<Snapshot>, gs: seq<Group>, rs: seq<Read<Element>>, l: nat)
    returns (all: Reads)
    requires Chain(ss, gs, rs, l)
    ensures ReadTo(ss[0], ss[|ss| - 1], all, l)
    decreases |gs|
  {
    var n := |gs|;
    if n == 0 {
      IdleReads(ss[0], l);
      all := Idle(ss[0]);
    } else {
      var before := ChainReads(ss[..n], gs[..n - 1], rs[..n - 1], l);
      ExtendedReads(ss[0], ss[n - 1], ss[n], before, gs[n - 1], rs[n - 1], l);
      all := Extended(before, gs[n - 1], rs[n - 1]);
    }
  }

  // Each round takes the snapshot before it through its reads to mids[i], and from there through one pass
  // over all groups.
  ghost predicate InRounds(snaps: seq<Snapshot>, mids: seq<Snapshot>, given: seq<Reads>, l: nat) {
    && |snaps| == |given| + 1 && |mids| == |given|
    && (forall i :: 0 <= i < |given| ==> ReadTo(snaps[i], mids[i], given[i], l))
    && (forall i :: 0 <= i < |given| ==> Passed(mids[i], snaps[i + 1], mids[i].forests.Keys))
    && (forall i :: 0 <= i < |snaps| ==> Proper(snaps[i]))
  }

  // In one round a group goes through its read and one pass; a group that does not exist stays empty.
  lemma RoundOf(b: Snapshot, m: Snapshot, n: Snapshot, rs: Reads, g: Group, l: nat)
    requires ReadTo(b, m, rs, l) && Passed(m, n, m.forests.Keys)
    ensures OneRead(b, m, g, ReadAt(rs, g), l)
    ensures StateAt(n, g) == Pass(AfterRead(StateAt(b, g), ReadAt(rs, g), l))
  {
    if g in m.forests {
      assert OneRead(b, m, g, rs[g], l);
      assert StateOf(n, g) == Pass(StateOf(m, g));
    } else {
      var none: State<Element> := State(Nil, map[]);
      IdleRead(none, l);
      assert StateAt(b, g) == StateAt(m, g) == StateAt(n, g) == none;
      assert Pass(none).life == map[];
    }
  }

  // So each group of the monitor goes through a run of reads and passes, whenever it is created.
  lemma RoundsFormRun(snaps: seq<Snapshot>, mids: seq<Snapshot>, given: seq<Reads>, l: nat,
                      g: Group, states: seq<State<Element>>, rounds: seq<Read<Element>>)
    requires InRounds(snaps, mids, given, l) && |states| == |snaps| && |rounds| == |given|
    requires forall i :: 0 <= i < |snaps| ==> states[i] == StateAt(snaps[i], g)
    requires forall i :: 0 <= i < |given| ==> rounds[i] == ReadAt(given[i], g)
    ensures Run(states, rounds, l)
  {
    forall i | 0 <= i < |rounds|
      ensures Grows(states[i].f, rounds[i].grown) && states[i + 1] == Pass(AfterRead(states[i], rounds[i], l))
    {
      assert ReadTo(snaps[i], mids[i], given[i], l) && Passed(mids[i], snaps[i + 1], mids[i].forests.Keys);
      RoundOf(snaps[i], mids[i], snaps[i + 1], given[i], g, l);
    }
  }
}
