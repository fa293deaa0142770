// Element lifetimes over whole runs: reads sign elements, each read is followed by one pass of
// free_unused_elements.
module Lifetimes {
  import opened Forests

  const UINT_MAX := 0xFFFF_FFFF

  // --e_lifecycles on an unsigned int.
  function Tick(n: nat): nat {
    if n == 0 then UINT_MAX else n - 1
  }

  // One group: its elements and their e_lifecycles.
  datatype State<T> = State(f: Forest<T>, life: map<T, nat>)

  ghost predicate Good<T>(s: State<T>) {
    Distinct(s.f) && s.life.Keys == Elems(s.f)
  }

  // The elements whose counter reaches zero in the next pass.
  ghost function Doomed<T>(xs: set<T>, life: map<T, nat>): set<T>
    requires xs <= life.Keys
  {
    set x | x in xs && Tick(life[x]) == 0
  }

  // free_unused_elements: the doomed go with everything below them, the others lose one cycle.
  ghost function Pass<T>(s: State<T>): State<T>
    requires Good(s)
  {
    var f := Cut(s.f, Doomed(Elems(s.f), s.life));
    CutElems(s.f, Doomed(Elems(s.f), s.life));
    State(f, map x | x in Elems(f) :: Tick(s.life[x]))
  }

  // The ancestors of x.
  ghost function Above<T>(f: Forest<T>, x: T): set<T>
    requires x in Elems(f)
  {
    if f.e == x then {}
    else if x in Elems(f.kids) then {f.e} + Above(f.kids, x)
    else Above(f.sibs, x)
  }

  // An element outlives a cut exactly if neither it nor one of its ancestors is cut.
  lemma {:induction false} CutSurvivors<T>(f: Forest<T>, d: set<T>, x: T)
    requires Distinct(f) && x in Elems(f)
    ensures x in Elems(Cut(f, d)) <==> Above(f, x) + {x} !! d
    ensures x in Elems(Cut(f, d)) ==> Above(Cut(f, d), x) == Above(f, x)
  {
    CutElems(f.kids, d);
    CutElems(f.sibs, d);
    if f.e == x {
    } else if x in Elems(f.kids) {
      CutSurvivors(f.kids, d, x);
    } else {
      CutSurvivors(f.sibs, d, x);
    }
  }

  // What a read does: it may add elements, which start with l cycles, and it gives the signed
  // elements l cycles again.
  datatype Read<T> = Read(grown: Forest<T>, signed: set<T>)

  ghost predicate Grows<T>(f: Forest<T>, g: Forest<T>) {
    && Distinct(g) && Elems(f) <= Elems(g)
    && forall x :: x in Elems(f) ==> Above(g, x) == Above(f, x)
  }

  ghost function AfterRead<T>(s: State<T>, r: Read<T>, l: nat): State<T>
    requires Good(s)
  {
    State(r.grown, map x | x in Elems(r.grown) :: if x in r.signed || x !in Elems(s.f) then l else s.life[x])
  }

  // states[i] is the group after i rounds of one read and one pass.
  ghost predicate Run<T>(states: seq<State<T>>, rounds: seq<Read<T>>, l: nat) {
    && |states| == |rounds| + 1
    && (forall i :: 0 <= i < |states| ==> Good(states[i]))
    && (forall i :: 0 <= i < |rounds| ==>
          Grows(states[i].f, rounds[i].grown) && states[i + 1] == Pass(AfterRead(states[i], rounds[i], l)))
  }

  // The element and all its ancestors.
  ghost function Line<T>(s: State<T>, x: T): set<T>
    requires x in Elems(s.f)
  {
    Above(s.f, x) + {x}
  }

  // The elements that have a full lifetime after a read: those it signed and those it added.
  ghost function Full<T>(s: State<T>, r: Read<T>): set<T> {
    r.signed + (Elems(r.grown) - Elems(s.f))
  }

  // One read and one pass, for any element that is there after the read, old or new.
  lemma Round<T>(s: State<T>, r: Read<T>, l: nat, x: T)
    requires Good(s) && Grows(s.f, r.grown) && x in Elems(r.grown)
    ensures Good(AfterRead(s, r, l))
    ensures var a := AfterRead(s, r, l); var t := Pass(a);
      && (x in Elems(s.f) ==> Line(a, x) == Line(s, x))
      && (x in Elems(t.f) <==> Line(a, x) !! Doomed(Elems(r.grown), a.life))
      && (x in Elems(t.f) ==>
            Line(t, x) == Line(a, x) && t.life[x] == Tick(if x in Full(s, r) then l else s.life[x]))
  {
    var a := AfterRead(s, r, l);
    CutSurvivors(a.f, Doomed(Elems(a.f), a.life), x);
  }

  // An element that has a full lifetime, together with its ancestors, after every read from the one that
  // finds or creates it, is never freed, for every lifetime but one cycle (a lifetime of none wraps around
  // to the largest count).
  lemma {:induction false} SignedLives<T>(states: seq<State<T>>, rounds: seq<Read<T>>, l: nat, x: T, n: nat)
    requires Run(states, rounds, l) && 1 <= n <= |rounds| && l != 1
    requires x in Elems(rounds[0].grown)
    requires forall i :: 0 <= i < n ==> Line(AfterRead(states[0], rounds[0], l), x) <= Full(states[i], rounds[i])
    ensures x in Elems(states[n].f) && Line(states[n], x) == Line(AfterRead(states[0], rounds[0], l), x)
  {
    if n > 1 {
      SignedLives(states, rounds, l, x, n - 1);
    }
    var s, r := states[n - 1], rounds[n - 1];
    Round(s, r, l, x);
    var a := AfterRead(s, r, l);
    LineWithin(r.grown, x);
    assert forall y :: y in Line(a, x) ==> a.life[y] == l && Tick(l) != 0;
  }

  // With a lifetime of one cycle the lifesign is no help: the first pass frees every element, signed or new.
  lemma SingleCycleFrees<T>(states: seq<State<T>>, rounds: seq<Read<T>>, x: T)
    requires Run(states, rounds, 1) && |rounds| > 0
    requires x in Elems(rounds[0].grown) && x in Full(states[0], rounds[0])
    ensures x !in Elems(states[1].f)
  {
    Round(states[0], rounds[0], 1, x);
    var a := AfterRead(states[0], rounds[0], 1);
    assert x in Doomed(Elems(rounds[0].grown), a.life);
  }

  lemma {:induction false} LineWithin<T>(f: Forest<T>, x: T)
    requires x in Elems(f)
    ensures Above(f, x) <= Elems(f)
  {
    if f.e != x {
      if x in Elems(f.kids) { LineWithin(f.kids, x); } else { LineWithin(f.sibs, x); }
    }
  }

  // An element signed or created in the first read and never signed again, whose ancestors do not expire
  // before it, is freed by exactly the l-th pass.
  lemma {:induction false} UnsignedDies<T>(states: seq<State<T>>, rounds: seq<Read<T>>, l: nat, x: T, n: nat)
    requires Run(states, rounds, l) && 1 <= n <= |rounds| && n <= l
    requires x in Elems(rounds[0].grown) && x in Full(states[0], rounds[0])
    requires forall i :: 0 < i < n ==> x !in rounds[i].signed
    requires forall i :: 0 <= i < n ==>
               Above(rounds[0].grown, x) !! Doomed(Elems(rounds[i].grown), AfterRead(states[i], rounds[i], l).life)
    ensures x in Elems(states[n].f) <==> n < l
    ensures n < l ==> Above(states[n].f, x) == Above(rounds[0].grown, x) && states[n].life[x] == l - n
  {
    if n > 1 { UnsignedDies(states, rounds, l, x, n - 1); }
    var s, r := states[n - 1], rounds[n - 1];
    Round(s, r, l, x);
    LineWithin(r.grown, x);
    AboveApart(r.grown, x);
    AboveApart(rounds[0].grown, x);
    if n < l { AboveApart(states[n].f, x); }
  }

  lemma {:induction false} AboveApart<T>(f: Forest<T>, x: T)
    requires Distinct(f) && x in Elems(f)
    ensures x !in Above(f, x)
  {
    if f.e != x {
      if x in Elems(f.kids) { AboveApart(f.kids, x); } else { AboveApart(f.sibs, x); }
    }
  }

  // ---- what the operations of a read do to one group ----

  lemma {:induction false} AddLastGrows<T>(f: Forest<T>, x: T)
    requires Distinct(f) && x !in Elems(f)
    ensures Grows(f, AddLast(f, x)) && Elems(AddLast(f, x)) == Elems(f) + {x}
    ensures Size(AddLast(f, x)) == Size(f) + 1 && Roots(AddLast(f, x)) == Roots(f) + [x]
    ensures KidsOf(AddLast(f, x), x) == Nil
    ensures forall y :: y in Elems(f) ==> KidsOf(AddLast(f, x), y) == KidsOf(f, y)
  {
    if f.Node? { AddLastGrows(f.sibs, x); }
  }

  lemma {:induction false} AddChildAbsent<T>(f: Forest<T>, p: T, x: T)
    requires p !in Elems(f)
    ensures AddChild(f, p, x) == f
  {
    if f.Node? {
      AddChildAbsent(f.kids, p, x);
      AddChildAbsent(f.sibs, p, x);
    }
  }

  lemma {:induction false} AddChildElems<T>(f: Forest<T>, p: T, x: T)
    requires Distinct(f) && p in Elems(f) && x !in Elems(f)
    ensures Distinct(AddChild(f, p, x)) && Elems(AddChild(f, p, x)) == Elems(f) + {x}
    ensures Size(AddChild(f, p, x)) == Size(f) + 1
  {
    if f.e == p {
      AddLastGrows(f.kids, x);
    } else if p in Elems(f.kids) {
      AddChildElems(f.kids, p, x);
      AddChildAbsent(f.sibs, p, x);
    } else {
      AddChildElems(f.sibs, p, x);
      AddChildAbsent(f.kids, p, x);
    }
  }

  lemma {:induction false} AddChildGrows<T>(f: Forest<T>, p: T, x: T)
    requires Distinct(f) && p in Elems(f) && x !in Elems(f)
    ensures Grows(f, AddChild(f, p, x)) && Elems(AddChild(f, p, x)) == Elems(f) + {x}
    ensures Size(AddChild(f, p, x)) == Size(f) + 1
  {
    AddChildElems(f, p, x);
    var a := AddChild(f, p, x);
    forall y | y in Elems(f)
      ensures Above(a, y) == Above(f, y)
    {
      if f.e == p {
        AddLastGrows(f.kids, x);
      } else if p in Elems(f.kids) {
        AddChildGrows(f.kids, p, x);
        AddChildAbsent(f.sibs, p, x);
      } else {
        AddChildGrows(f.sibs, p, x);
        AddChildAbsent(f.kids, p, x);
      }
    }
  }

  lemma {:induction false} AddChildRoots<T>(f: Forest<T>, p: T, x: T)
    requires Distinct(f) && p in Elems(f) && x !in Elems(f)
    ensures Elems(AddChild(f, p, x)) == Elems(f) + {x} && Roots(AddChild(f, p, x)) == Roots(f)
    ensures KidsOf(AddChild(f, p, x), x) == Nil
    ensures forall y :: y in Elems(f) ==>
      Roots(KidsOf(AddChild(f, p, x), y)) == if y == p then Roots(KidsOf(f, y)) + [x] else Roots(KidsOf(f, y))
  {
    if f.e == p {
      AddLastGrows(f.kids, x);
    } else if p in Elems(f.kids) {
      AddChildRoots(f.kids, p, x);
      AddChildAbsent(f.sibs, p, x);
    } else {
      AddChildRoots(f.sibs, p, x);
      AddChildAbsent(f.kids, p, x);
    }
  }

  // Two reads in a row without a pass between them are one read.
  lemma ReadsJoin<T>(s: State<T>, r: Read<T>, q: Read<T>, l: nat)
    requires Good(s) && Grows(s.f, r.grown) && Grows(r.grown, q.grown) && r.signed <= Elems(r.grown)
    ensures Good(AfterRead(s, r, l)) && Grows(s.f, q.grown)
    ensures AfterRead(AfterRead(s, r, l), q, l) == AfterRead(s, Read(q.grown, r.signed + q.signed), l)
  {
    var a, b := AfterRead(AfterRead(s, r, l), q, l), AfterRead(s, Read(q.grown, r.signed + q.signed), l);
    assert a.life.Keys == b.life.Keys;
    assert forall x :: x in a.life.Keys ==> a.life[x] == b.life[x];
  }
}
