// What a lifetime pass does to the selection: it frees subtrees one after the other, each bottom up.
module Passes {
  import opened Options
  import opened Sequences
  import opened Forests
  import opened Selection

  // The elements that a pass over f frees, in its order, if it frees the trees whose roots are in d.
  ghost function Gone<T>(f: Forest<T>, d: set<T>): seq<T> {
    if f.Nil? then []
    else (if f.e in d then Postorder(f.kids) + [f.e] else Gone(f.kids, d)) + Gone(f.sibs, d)
  }

  lemma {:induction false} GoneAgree<T>(f: Forest<T>, d: set<T>, c: set<T>)
    requires Elems(f) * d == Elems(f) * c
    ensures Gone(f, d) == Gone(f, c)
  {
    if f.Node? {
      assert f.e in d <==> f.e in Elems(f) * d;
      assert Elems(f.kids) * d == Elems(f.kids) * (Elems(f) * d);
      assert Elems(f.kids) * c == Elems(f.kids) * (Elems(f) * c);
      assert Elems(f.sibs) * d == Elems(f.sibs) * (Elems(f) * d);
      assert Elems(f.sibs) * c == Elems(f.sibs) * (Elems(f) * c);
      GoneAgree(f.kids, d, c);
      GoneAgree(f.sibs, d, c);
    }
  }

  // Of a single tree, everything goes with its root, or else what goes below it.
  lemma GoneTree<T>(e: T, k: Forest<T>, d: set<T>)
    ensures Gone(Node(e, k, Nil), d) == if e in d then Postorder(Node(e, k, Nil)) else Gone(k, d)
  {
    assert Postorder(Node(e, k, Nil)) == Postorder(k) + [e] + [];
  }

  lemma GoneHead<T>(f: Forest<T>, d: set<T>)
    requires f.Node?
    ensures Gone(f, d) == Gone(Node(f.e, f.kids, Nil), d) + Gone(f.sibs, d)
  {
    GoneTree(f.e, f.kids, d);
    assert Postorder(Node(f.e, f.kids, Nil)) == Postorder(f.kids) + [f.e] + [] == Postorder(f.kids) + [f.e];
  }

  // A pass over the trees k of group i started at v; at w it has rest ahead.
  ghost predicate Heading<T>(v: View<T>, w: View<T>, i: nat, k: Forest<T>, rest: Forest<T>, d: set<T>) {
    && Sized(v) && Sized(w) && i < |v.orders| && i < |w.orders|
    && UnlinkAll(w, i, Gone(rest, d)) == UnlinkAll(v, i, Gone(k, d))
  }

  lemma HeadingOn<T>(v: View<T>, w: View<T>, z: View<T>, i: nat, k: Forest<T>, rest: Forest<T>, d: set<T>)
    requires Heading(v, w, i, k, rest, d) && rest.Node?
    requires z == UnlinkAll(w, i, Gone(Node(rest.e, rest.kids, Nil), d))
    ensures Heading(v, z, i, k, rest.sibs, d)
  {
    GoneHead(rest, d);
    UnlinkAllConcat(w, i, Gone(Node(rest.e, rest.kids, Nil), d), Gone(rest.sibs, d));
  }

  // The elements that go are those that the cut takes away.
  lemma {:induction false} GoneElems<T>(f: Forest<T>, d: set<T>, x: T)
    requires Distinct(f)
    ensures x in Gone(f, d) <==> x in Elems(f) && x !in Elems(Cut(f, d))
  {
    if f.Node? {
      GoneElems(f.kids, d, x);
      GoneElems(f.sibs, d, x);
      CutElems(f.kids, d);
      CutElems(f.sibs, d);
      PostorderPreorder(f.kids);
      var tree := if f.e in d then Postorder(f.kids) + [f.e] else Gone(f.kids, d);
      assert Gone(f, d) == tree + Gone(f.sibs, d);
      assert f.e in d ==> (x in tree <==> x in Elems(f.kids) || x == f.e);
    }
  }

  // The last element of s that is alive.
  ghost function LastIn<T>(s: seq<T>, alive: set<T>): Option<T> {
    if s == [] then None
    else if s[|s| - 1] in alive then Some(s[|s| - 1])
    else LastIn(s[..|s| - 1], alive)
  }

  ghost function OrElse<T>(p: Option<T>, q: Option<T>): Option<T> {
    if p.Some? then p else q
  }

  lemma {:induction false} LastInConcat<T>(s: seq<T>, t: seq<T>, alive: set<T>)
    ensures LastIn(s + t, alive) == OrElse(LastIn(t, alive), LastIn(s, alive))
    decreases |t|
  {
    if t == [] {
      assert s + t == s;
    } else {
      assert (s + t)[..|s + t| - 1] == s + t[..|t| - 1];
      LastInConcat(s, t[..|t| - 1], alive);
    }
  }

  // Only what occurs in s matters.
  lemma {:induction false} LastInAgree<T>(s: seq<T>, alive: set<T>, others: set<T>)
    requires forall x :: x in s ==> (x in alive <==> x in others)
    ensures LastIn(s, alive) == LastIn(s, others)
    ensures LastIn(s, alive).Some? ==> LastIn(s, alive).value in s
  {
    if s != [] { LastInAgree(s[..|s| - 1], alive, others); }
  }

  // The elements up to y in the walk over f.
  ghost function Upto<T>(f: Forest<T>, y: T): seq<T>
    requires y in Elems(f)
  {
    PreorderIndex(f, y);
    Preorder(f)[..Index(f, y) + 1]
  }

  // The nearest element at or in front of y that survives the pass.
  ghost function Nearest<T>(f: Forest<T>, d: set<T>, y: T): Option<T>
    requires y in Elems(f)
  {
    LastIn(Upto(f, y), Elems(Cut(f, d)))
  }

  lemma UptoParts<T>(f: Forest<T>, y: T)
    requires Distinct(f) && y in Elems(f)
    ensures f.e == y ==> Upto(f, y) == [f.e]
    ensures y in Elems(f.kids) ==> Upto(f, y) == [f.e] + Upto(f.kids, y)
    ensures y in Elems(f.sibs) ==> Upto(f, y) == [f.e] + Preorder(f.kids) + Upto(f.sibs, y)
  {
    PreorderElems(f.kids);
    if y in Elems(f.kids) {
      PreorderIndex(f.kids, y);
    } else if y in Elems(f.sibs) {
      PreorderIndex(f.sibs, y);
    }
  }

  ghost predicate Within<T>(s: seq<T>, xs: set<T>) {
    forall x :: x in s ==> x in xs
  }

  lemma PrefixWithin<T>(s: seq<T>, n: nat, xs: set<T>)
    requires n <= |s| && Within(s, xs)
    ensures Within(s[..n], xs)
  {
  }

  lemma PreorderWithin<T>(f: Forest<T>)
    ensures Within(Preorder(f), Elems(f))
  {
    PreorderElems(f);
  }

  lemma UptoWithin<T>(f: Forest<T>, y: T)
    requires y in Elems(f)
    ensures Within(Upto(f, y), Elems(f))
  {
    PreorderWithin(f);
    PreorderIndex(f, y);
    PrefixWithin(Preorder(f), Index(f, y) + 1, Elems(f));
  }

  lemma RootWithin<T>(e: T, s: seq<T>, xs: set<T>)
    requires Within(s, xs)
    ensures Within([e] + s, {e} + xs)
  {
  }

  // Of a whole walk the last survivor is the last element that remains.
  lemma {:induction false} LastSurvivor<T>(f: Forest<T>, d: set<T>)
    requires Distinct(f)
    ensures LastIn(Preorder(f), Elems(Cut(f, d))) == Last(Preorder(Cut(f, d)))
  {
    if f.Node? {
      var alive, pk, ps := Elems(Cut(f, d)), Preorder(f.kids), Preorder(f.sibs);
      LastSurvivor(f.kids, d);
      LastSurvivor(f.sibs, d);
      LastInConcat([f.e] + pk, ps, alive);
      PreorderWithin(f.kids);
      PreorderWithin(f.sibs);
      SibsAlive(f, d, ps);
      if f.e in d {
        RootWithin(f.e, pk, Elems(f.kids));
        TreeGone(f, d, [f.e] + pk);
      } else {
        TreeLeft(f, d, pk);
        LastOf([f.e], Preorder(Cut(f.kids, d)));
        LastOf([f.e] + Preorder(Cut(f.kids, d)), Preorder(Cut(f.sibs, d)));
      }
    }
  }

  // Among the sibling trees a cut of f takes what a cut of those trees takes.
  lemma SibsAlive<T>(f: Forest<T>, d: set<T>, s: seq<T>)
    requires Distinct(f) && f.Node? && Within(s, Elems(f.sibs))
    ensures LastIn(s, Elems(Cut(f, d))) == LastIn(s, Elems(Cut(f.sibs, d)))
  {
    CutElems(f.kids, d);
    LastInAgree(s, Elems(Cut(f, d)), Elems(Cut(f.sibs, d)));
  }

  // Nothing of a cut tree survives.
  lemma TreeGone<T>(f: Forest<T>, d: set<T>, s: seq<T>)
    requires Distinct(f) && f.Node? && f.e in d && Within(s, {f.e} + Elems(f.kids))
    ensures LastIn(s, Elems(Cut(f, d))) == None
  {
    CutElems(f.sibs, d);
    LastInAgree(s, Elems(Cut(f, d)), {});
    NoneIn(s);
  }

  lemma {:induction false} NoneIn<T>(s: seq<T>)
    ensures LastIn(s, {}) == None
  {
    if s != [] { NoneIn(s[..|s| - 1]); }
  }

  // The root of a tree that is not cut survives, and below it the survivors are those of its children.
  lemma TreeLeft<T>(f: Forest<T>, d: set<T>, s: seq<T>)
    requires Distinct(f) && f.Node? && f.e !in d && Within(s, Elems(f.kids))
    ensures LastIn([f.e] + s, Elems(Cut(f, d))) == OrElse(LastIn(s, Elems(Cut(f.kids, d))), Some(f.e))
  {
    var alive := Elems(Cut(f, d));
    CutElems(f.sibs, d);
    LastInConcat([f.e], s, alive);
    LastInAgree(s, alive, Elems(Cut(f.kids, d)));
  }

  // The nearest survivor, tree by tree.
  lemma NearestInSibs<T>(f: Forest<T>, d: set<T>, y: T)
    requires Distinct(f) && f.Node? && y in Elems(f.sibs)
    ensures Nearest(f, d, y) == OrElse(Nearest(f.sibs, d, y),
                                       if f.e in d then None else Last([f.e] + Preorder(Cut(f.kids, d))))
  {
    var s := [f.e] + Preorder(f.kids);
    UptoParts(f, y);
    UptoWithin(f.sibs, y);
    LastInConcat(s, Upto(f.sibs, y), Elems(Cut(f, d)));
    SibsAlive(f, d, Upto(f.sibs, y));
    PreorderWithin(f.kids);
    if f.e in d {
      RootWithin(f.e, Preorder(f.kids), Elems(f.kids));
      TreeGone(f, d, s);
    } else {
      TreeLeft(f, d, Preorder(f.kids));
      LastSurvivor(f.kids, d);
      LastOf([f.e], Preorder(Cut(f.kids, d)));
    }
  }

  lemma NearestInTree<T>(f: Forest<T>, d: set<T>, y: T)
    requires Distinct(f) && f.Node? && (y == f.e || y in Elems(f.kids))
    ensures f.e in d ==> Nearest(f, d, y) == None
    ensures f.e !in d && y == f.e ==> Nearest(f, d, y) == Some(f.e)
    ensures f.e !in d && y != f.e ==> Nearest(f, d, y) == OrElse(Nearest(f.kids, d, y), Some(f.e))
  {
    UptoParts(f, y);
    var s := if y == f.e then [] else Upto(f.kids, y);
    if y != f.e { UptoWithin(f.kids, y); }
    assert Upto(f, y) == [f.e] + s;
    if f.e in d {
      RootWithin(f.e, s, Elems(f.kids));
      TreeGone(f, d, [f.e] + s);
    } else {
      TreeLeft(f, d, s);
    }
  }

  // ---- the selection of the current group ----

  // What a pass over f leaves selected if it stood at y and the elements a are in front of f.
  ghost function Settled<T>(a: seq<T>, f: Forest<T>, d: set<T>, y: T): Option<T>
    requires y in Elems(f)
  {
    OrElse(Nearest(f, d, y), Last(a))
  }

  // w is v after a pass over the trees f between a and b of the current group g.
  ghost predicate Pruned<T>(v: View<T>, w: View<T>, g: nat, a: seq<T>, f: Forest<T>, b: seq<T>, d: set<T>)
    requires g < |v.orders| == |v.picks|
  {
    && w.orders == v.orders[g := a + Preorder(Cut(f, d)) + b]
    && Current(w) == Some(g)
    && w.picks == if PickedIn(v, g, Elems(f)) then v.picks[g := Settled(a, f, d, v.picks[g].value)] else v.picks
  }

  // No tree is cut while nothing is left in front of it.
  ghost predicate Covered<T>(a: seq<T>, f: Forest<T>, d: set<T>) {
    a != [] || f.Nil? || f.e !in d
  }

  lemma GoneSplit<T>(v: View<T>, g: nat, f: Forest<T>, d: set<T>)
    requires Sized(v) && g < |v.orders| && f.Node?
    ensures var tree := if f.e in d then Postorder(Node(f.e, f.kids, Nil)) else Gone(f.kids, d);
      UnlinkAll(v, g, Gone(f, d)) == UnlinkAll(UnlinkAll(v, g, tree), g, Gone(f.sibs, d))
  {
    var tree := if f.e in d then Postorder(Node(f.e, f.kids, Nil)) else Gone(f.kids, d);
    assert Postorder(Node(f.e, f.kids, Nil)) == Postorder(f.kids) + [f.e] + [] == Postorder(f.kids) + [f.e];
    UnlinkAllConcat(v, g, tree, Gone(f.sibs, d));
  }

  lemma {:induction false} PassPrunes<T>(v: View<T>, g: nat, a: seq<T>, f: Forest<T>, b: seq<T>, d: set<T>)
    requires Live(v) && g < |v.orders| && Current(v) == Some(g) && Covered(a, f, d)
    requires Distinct(f) && v.orders[g] == a + Preorder(f) + b
    ensures Pruned(v, UnlinkAll(v, g, Gone(f, d)), g, a, f, b, d)
    decreases f, 1
  {
    if f.Nil? {
      assert v.orders[g := a + [] + b] == v.orders;
    } else {
      GoneSplit(v, g, f, d);
      if f.e in d { PrunesTree(v, g, a, f, b, d); } else { PrunesKids(v, g, a, f, b, d); }
    }
  }

  lemma {:induction false} PrunesTree<T>(v: View<T>, g: nat, a: seq<T>, f: Forest<T>, b: seq<T>, d: set<T>)
    requires Live(v) && g < |v.orders| && Current(v) == Some(g) && a != [] && f.Node? && f.e in d
    requires Distinct(f) && v.orders[g] == a + Preorder(f) + b
    ensures Pruned(v, UnlinkAll(UnlinkAll(v, g, Postorder(Node(f.e, f.kids, Nil))), g, Gone(f.sibs, d)), g, a, f, b, d)
    decreases f, 0
  {
    var rest, t := Preorder(f.sibs) + b, Node(f.e, f.kids, Nil);
    Parts(a, f, b);
    FreeKids(v, g, a, t, rest);
    UnlinkAllLive(v, g, Postorder(t));
    var w := UnlinkAll(v, g, Postorder(t));
    Associate(a, Preorder(f.sibs), b);
    PassPrunes(w, g, a, f.sibs, b, d);
    TreePruned(v, w, UnlinkAll(w, g, Gone(f.sibs, d)), g, a, f, b, d);
  }

  lemma {:induction false} PrunesKids<T>(v: View<T>, g: nat, a: seq<T>, f: Forest<T>, b: seq<T>, d: set<T>)
    requires Live(v) && g < |v.orders| && Current(v) == Some(g) && f.Node? && f.e !in d
    requires Distinct(f) && v.orders[g] == a + Preorder(f) + b
    ensures Pruned(v, UnlinkAll(UnlinkAll(v, g, Gone(f.kids, d)), g, Gone(f.sibs, d)), g, a, f, b, d)
    decreases f, 0
  {
    var rest := Preorder(f.sibs) + b;
    Parts(a, f, b);
    PassPrunes(v, g, a + [f.e], f.kids, rest, d);
    UnlinkAllLive(v, g, Gone(f.kids, d));
    var w, front := UnlinkAll(v, g, Gone(f.kids, d)), a + [f.e] + Preorder(Cut(f.kids, d));
    Associate(front, Preorder(f.sibs), b);
    PassPrunes(w, g, front, f.sibs, b, d);
    KidsPruned(v, w, UnlinkAll(w, g, Gone(f.sibs, d)), g, a, f, b, d);
  }

  lemma Parts<T>(a: seq<T>, f: Forest<T>, b: seq<T>)
    requires f.Node?
    ensures a + Preorder(f) + b == a + Preorder(Node(f.e, f.kids, Nil)) + (Preorder(f.sibs) + b)
    ensures a + Preorder(f) + b == a + [f.e] + Preorder(f.kids) + (Preorder(f.sibs) + b)
  {
    assert Preorder(Node(f.e, f.kids, Nil)) == [f.e] + Preorder(f.kids) + [] == [f.e] + Preorder(f.kids);
    Brackets(a, [f.e], Preorder(f.kids), Preorder(f.sibs), b);
  }

  lemma Brackets<T>(a: seq<T>, e: seq<T>, k: seq<T>, s: seq<T>, b: seq<T>)
    ensures a + (e + k + s) + b == a + (e + k) + (s + b) == a + e + k + (s + b) == a + e + k + s + b
  {
  }

  // The elements in front of a list of trees are not in it.
  lemma FrontApart<T>(front: seq<T>, f: Forest<T>, b: seq<T>, p: Option<T>)
    requires Unique(front + Preorder(f) + b) && (p.Some? ==> p.value in front)
    ensures p.Some? ==> p.value !in Elems(f)
  {
    UniqueConcat(front + Preorder(f), b);
    UniqueConcat(front, Preorder(f));
    PreorderElems(f);
  }

  // What remains selected, tree by tree.
  lemma SettledInSibs<T>(a: seq<T>, f: Forest<T>, d: set<T>, y: T)
    requires Distinct(f) && f.Node? && y in Elems(f.sibs)
    ensures Settled(a, f, d, y) ==
      Settled(if f.e in d then a else a + [f.e] + Preorder(Cut(f.kids, d)), f.sibs, d, y)
  {
    NearestInSibs(f, d, y);
    LastBehind(a, f.e, Preorder(Cut(f.kids, d)));
  }

  lemma LastBehind<T>(a: seq<T>, e: T, s: seq<T>)
    ensures Last(a + [e] + s) == Last([e] + s) && Last([e] + s).Some?
  {
  }

  lemma SettledInTree<T>(a: seq<T>, f: Forest<T>, d: set<T>, y: T)
    requires Distinct(f) && f.Node? && (y == f.e || y in Elems(f.kids))
    ensures Settled(a, f, d, y) ==
      if f.e in d then Last(a) else if y == f.e then Some(y) else Settled(a + [f.e], f.kids, d, y)
  {
    NearestInTree(f, d, y);
  }

  // The first tree was freed, then its siblings were passed over.
  lemma TreePruned<T>(v: View<T>, w: View<T>, z: View<T>, g: nat, a: seq<T>, f: Forest<T>, b: seq<T>, d: set<T>)
    requires Live(w) && g < |v.orders| == |v.picks| == |w.orders| && f.Node? && f.e in d && Distinct(f) && a != []
    requires SteppedBack(v, w, g, a, Preorder(f.sibs) + b, PickedIn(v, g, Elems(Node(f.e, f.kids, Nil))))
    requires Pruned(w, z, g, a, f.sibs, b, d)
    ensures Pruned(v, z, g, a, f, b, d)
  {
    Overwrite(v.orders, g, a + (Preorder(f.sibs) + b), a + Preorder(Cut(f.sibs, d)) + b);
    assert w.orders[g] == a + Preorder(f.sibs) + b;
    FrontApart(a, f.sibs, b, Last(a));
    assert Elems(Node(f.e, f.kids, Nil)) == {f.e} + Elems(f.kids);
    if PickedIn(v, g, Elems(f)) {
      var y := v.picks[g].value;
      if y in Elems(f.sibs) {
        SettledInSibs(a, f, d, y);
      } else {
        SettledInTree(a, f, d, y);
        assert !PickedIn(w, g, Elems(f.sibs));
      }
    }
  }

  // The trees below the first root were passed over, then its siblings.
  lemma KidsPruned<T>(v: View<T>, w: View<T>, z: View<T>, g: nat, a: seq<T>, f: Forest<T>, b: seq<T>, d: set<T>)
    requires Live(w) && g < |v.orders| == |v.picks| == |w.orders| && f.Node? && f.e !in d && Distinct(f)
    requires Pruned(v, w, g, a + [f.e], f.kids, Preorder(f.sibs) + b, d)
    requires Pruned(w, z, g, a + [f.e] + Preorder(Cut(f.kids, d)), f.sibs, b, d)
    ensures Pruned(v, z, g, a, f, b, d)
  {
    var front, s := a + [f.e] + Preorder(Cut(f.kids, d)), Preorder(Cut(f.sibs, d));
    Brackets(a, [f.e], Preorder(Cut(f.kids, d)), s, b);
    Overwrite(v.orders, g, front + (Preorder(f.sibs) + b), front + s + b);
    KidsPicks(v, w, g, a, f, b, d);
  }

  // The selection after the trees below the first root were passed over.
  lemma KidsPicks<T>(v: View<T>, w: View<T>, g: nat, a: seq<T>, f: Forest<T>, b: seq<T>, d: set<T>)
    requires Live(w) && g < |v.orders| == |v.picks| == |w.orders| && f.Node? && f.e !in d && Distinct(f)
    requires Pruned(v, w, g, a + [f.e], f.kids, Preorder(f.sibs) + b, d)
    ensures var front := a + [f.e] + Preorder(Cut(f.kids, d));
      (if PickedIn(w, g, Elems(f.sibs)) then w.picks[g := Settled(front, f.sibs, d, w.picks[g].value)] else w.picks) ==
      (if PickedIn(v, g, Elems(f)) then v.picks[g := Settled(a, f, d, v.picks[g].value)] else v.picks)
  {
    if PickedIn(v, g, Elems(f)) {
      var y := v.picks[g].value;
      if y in Elems(f.sibs) {
        SettledInSibs(a, f, d, y);
      } else {
        SettledInTree(a, f, d, y);
        InFront(w, g, a, f, b, d, y);
      }
    }
  }

  lemma InFront<T>(w: View<T>, g: nat, a: seq<T>, f: Forest<T>, b: seq<T>, d: set<T>, y: T)
    requires Live(w) && g < |w.orders| && f.Node? && Distinct(f) && (y == f.e || y in Elems(f.kids))
    requires w.orders[g] == a + [f.e] + Preorder(Cut(f.kids, d)) + (Preorder(f.sibs) + b)
    requires w.picks[g] == if y == f.e then Some(y) else Settled(a + [f.e], f.kids, d, y)
    ensures !PickedIn(w, g, Elems(f.sibs))
  {
    if y != f.e {
      var front := a + [f.e] + Preorder(Cut(f.kids, d));
      SettledInFront(a + [f.e], f.kids, d, y);
      assert w.orders[g] == front + Preorder(f.sibs) + b;
      FrontApart(front, f.sibs, b, w.picks[g]);
    }
  }

  // What remains selected is one of the elements in front or one that survives.
  lemma SettledInFront<T>(a: seq<T>, f: Forest<T>, d: set<T>, y: T)
    requires y in Elems(f) && a != []
    ensures Settled(a, f, d, y).Some? && Settled(a, f, d, y).value in a + Preorder(Cut(f, d))
  {
    LastInAlive(Upto(f, y), Elems(Cut(f, d)));
    PreorderElems(Cut(f, d));
    assert a[|a| - 1] in a;
  }

  lemma {:induction false} LastInAlive<T>(s: seq<T>, alive: set<T>)
    ensures LastIn(s, alive).Some? ==> LastIn(s, alive).value in alive
  {
    if s != [] { LastInAlive(s[..|s| - 1], alive); }
  }

  // ---- any selection ----

  // Whatever is selected, a pass takes out of the preorder what the cut takes out of the forest.
  lemma {:induction false} PassTakes<T>(v: View<T>, g: nat, a: seq<T>, f: Forest<T>, b: seq<T>, d: set<T>)
    requires Live(v) && g < |v.orders| && v.orders[g] == a + Preorder(f) + b
    ensures UnlinkAll(v, g, Gone(f, d)).orders == v.orders[g := a + Preorder(Cut(f, d)) + b]
    decreases f
  {
    if f.Nil? {
      assert v.orders[g := a + [] + b] == v.orders;
    } else {
      var rest, s := Preorder(f.sibs) + b, Preorder(Cut(f.sibs, d));
      GoneSplit(v, g, f, d);
      Parts(a, f, b);
      if f.e in d {
        var t := Node(f.e, f.kids, Nil);
        TreesTaken(v, g, a, t, rest);
        UnlinkAllLive(v, g, Postorder(t));
        Associate(a, Preorder(f.sibs), b);
        PassTakes(UnlinkAll(v, g, Postorder(t)), g, a, f.sibs, b, d);
        Overwrite(v.orders, g, a + rest, a + s + b);
      } else {
        var front := a + [f.e] + Preorder(Cut(f.kids, d));
        PassTakes(v, g, a + [f.e], f.kids, rest, d);
        UnlinkAllLive(v, g, Gone(f.kids, d));
        Associate(front, Preorder(f.sibs), b);
        PassTakes(UnlinkAll(v, g, Gone(f.kids, d)), g, front, f.sibs, b, d);
        Overwrite(v.orders, g, front + rest, front + s + b);
        Brackets(a, [f.e], Preorder(Cut(f.kids, d)), s, b);
      }
    }
  }

  // A pass that frees no selected element of its group leaves all selections alone.
  lemma PassUnselected<T>(v: View<T>, g: nat, f: Forest<T>, d: set<T>)
    requires Live(v) && g < |v.orders| && v.orders[g] == Preorder(f) && Distinct(f)
    requires v.picks[g].Some? ==> v.picks[g].value in Elems(Cut(f, d))
    ensures UnlinkAll(v, g, Gone(f, d)) == v.(orders := v.orders[g := Preorder(Cut(f, d))])
  {
    assert [] + Preorder(f) + [] == Preorder(f) && [] + Preorder(Cut(f, d)) + [] == Preorder(Cut(f, d));
    PassTakes(v, g, [], f, [], d);
    if v.picks[g].Some? { GoneElems(f, d, v.picks[g].value); }
    UnlinkUnselected(v, g, Gone(f, d));
  }

  // w is v after a pass over all trees f of the current group g, which selected y: the selection ends at
  // the nearest survivor at or in front of y. Without one it wraps to the last element of the previous group
  // and g selects nothing; if g is the only group, to the last element that g keeps.
  ghost predicate PassedOver<T>(v: View<T>, w: View<T>, g: nat, f: Forest<T>, d: set<T>, y: T)
    requires g < |v.orders| == |v.picks| && y in Elems(f)
  {
    var h, near := GroupBefore(|v.orders|, g), Nearest(f, d, y);
    && w.orders == v.orders[g := Preorder(Cut(f, d))]
    && if near.Some? || h == g then
         && Current(w) == Some(g)
         && w.picks == v.picks[g := OrElse(near, Last(Preorder(Cut(f, d))))]
       else
         && Current(w) == Some(h)
         && w.picks == v.picks[g := None][h := Last(v.orders[h])]
  }

  lemma {:induction false} PassSettles<T>(v: View<T>, g: nat, f: Forest<T>, d: set<T>, y: T)
    requires Live(v) && g < |v.orders| && Current(v) == Some(g) && v.picks[g] == Some(y)
    requires Distinct(f) && v.orders[g] == Preorder(f) && y in Elems(f)
    ensures PassedOver(v, UnlinkAll(v, g, Gone(f, d)), g, f, d, y)
    decreases f, 1
  {
    if f.e !in d {
      FirstStays(v, g, f, d, y);
    } else {
      GoneSplit(v, g, f, d);
      var t := Node(f.e, f.kids, Nil);
      UnlinkAllLive(v, g, Postorder(t));
      if y in Elems(f.sibs) {
        TreeTaken(v, g, f);
        PassSettles(UnlinkAll(v, g, Postorder(t)), g, f.sibs, d, y);
        NearestInSibs(f, d, y);
        Overwrite(v.orders, g, Preorder(f.sibs), Preorder(Cut(f.sibs, d)));
      } else {
        TreeWraps(v, g, f, y);
        NearestInTree(f, d, y);
        FirstGone(v, UnlinkAll(v, g, Postorder(t)), g, f, d, y);
      }
    }
  }

  lemma FirstStays<T>(v: View<T>, g: nat, f: Forest<T>, d: set<T>, y: T)
    requires Live(v) && g < |v.orders| && Current(v) == Some(g) && v.picks[g] == Some(y)
    requires Distinct(f) && v.orders[g] == Preorder(f) && y in Elems(f) && f.e !in d
    ensures PassedOver(v, UnlinkAll(v, g, Gone(f, d)), g, f, d, y)
  {
    assert [] + Preorder(f) + [] == Preorder(f) && [] + Preorder(Cut(f, d)) + [] == Preorder(Cut(f, d));
    PassPrunes(v, g, [], f, [], d);
    FirstSurvives(f, d, y);
  }

  lemma TreeTaken<T>(v: View<T>, g: nat, f: Forest<T>)
    requires Live(v) && g < |v.orders| && f.Node? && Distinct(f) && v.orders[g] == Preorder(f)
    requires PickedIn(v, g, Elems(f.sibs))
    ensures UnlinkAll(v, g, Postorder(Node(f.e, f.kids, Nil))) == v.(orders := v.orders[g := Preorder(f.sibs)])
  {
    var t, s, p := Node(f.e, f.kids, Nil), Preorder(f.sibs), [f.e] + Preorder(f.kids);
    assert Preorder(t) == p + [] == p && [] + p == p && [] + s == s;
    assert Elems(t) == {f.e} + Elems(f.kids);
    FreeUnselected(v, g, [], t, s);
  }

  lemma TreeWraps<T>(v: View<T>, g: nat, f: Forest<T>, y: T)
    requires Live(v) && g < |v.orders| && Current(v) == Some(g) && v.picks[g] == Some(y)
    requires f.Node? && Distinct(f) && v.orders[g] == Preorder(f) && (y == f.e || y in Elems(f.kids))
    ensures Wrapped(v, UnlinkAll(v, g, Postorder(Node(f.e, f.kids, Nil))), g, Preorder(f.sibs))
  {
    var p, s := [f.e] + Preorder(f.kids), Preorder(f.sibs);
    assert [] + p == p;
    assert Elems(Node(f.e, f.kids, Nil)) == {f.e} + Elems(f.kids) && Distinct(Node(f.e, f.kids, Nil));
    FreeSelected(v, g, [], f.e, f.kids, s);
  }

  lemma FirstSurvives<T>(f: Forest<T>, d: set<T>, y: T)
    requires Distinct(f) && y in Elems(f) && f.e !in d
    ensures Nearest(f, d, y).Some?
  {
    if y in Elems(f.sibs) { NearestInSibs(f, d, y); } else { NearestInTree(f, d, y); }
  }

  // The first tree held the selection and was freed, then its siblings are passed over.
  lemma {:induction false} FirstGone<T>(v: View<T>, w: View<T>, g: nat, f: Forest<T>, d: set<T>, y: T)
    requires f.Node? && Live(w) && g < |v.orders| == |v.picks| == |w.orders| && Wrapped(v, w, g, Preorder(f.sibs))
    requires f.e in d && Distinct(f) && y in Elems(f) && Nearest(f, d, y) == None
    ensures PassedOver(v, UnlinkAll(w, g, Gone(f.sibs, d)), g, f, d, y)
    decreases f, 0
  {
    var s, c := Preorder(f.sibs), Preorder(Cut(f.sibs, d));
    Overwrite(v.orders, g, s, c);
    if GroupBefore(|v.orders|, g) != g {
      PassUnselected(w, g, f.sibs, d);
    } else if s == [] {
      PreorderElems(f.sibs);
      assert f.sibs.Nil?;
    } else {
      var y' := Last(s).value;
      PreorderElems(f.sibs);
      PassSettles(w, g, f.sibs, d, y');
      LastIsNearest(f.sibs, d);
      Overwrite(v.picks, g, Last(s), Last(c));
    }
  }

  lemma LastIsNearest<T>(f: Forest<T>, d: set<T>)
    requires Distinct(f) && f.Node?
    ensures var y := Last(Preorder(f)).value;
      y in Elems(f) && Nearest(f, d, y) == Last(Preorder(Cut(f, d)))
  {
    PreorderElems(f);
    PreorderUnique(f, |Preorder(f)| - 1);
    LastSurvivor(f, d);
    assert Upto(f, Last(Preorder(f)).value) == Preorder(f);
  }

  // ---- a pass over all groups ----

  // free_unused_elements passes over the forests one after the other.
  ghost function Sweep<T>(v: View<T>, fs: seq<Forest<T>>, ds: seq<set<T>>): (w: View<T>)
    requires Sized(v) && |fs| == |ds| <= |v.orders|
    ensures Sized(w) && |w.orders| == |v.orders|
    decreases |fs|
  {
    if fs == [] then v
    else
      var n := |fs| - 1;
      UnlinkAll(Sweep(v, fs[..n], ds[..n]), n, Gone(fs[n], ds[n]))
  }

  lemma SweepMore<T>(v: View<T>, fs: seq<Forest<T>>, ds: seq<set<T>>, n: nat)
    requires Sized(v) && n < |fs| == |ds| <= |v.orders|
    ensures Sweep(v, fs[..n + 1], ds[..n + 1]) == UnlinkAll(Sweep(v, fs[..n], ds[..n]), n, Gone(fs[n], ds[n]))
  {
    assert fs[..n + 1][..n] == fs[..n] && ds[..n + 1][..n] == ds[..n];
  }

  // The orders of the groups are the walks over their forests.
  ghost predicate Holding<T>(v: View<T>, fs: seq<Forest<T>>) {
    && |fs| == |v.orders| == |v.picks|
    && forall i :: 0 <= i < |fs| ==> v.orders[i] == Preorder(fs[i]) && Distinct(fs[i])
  }

  // No selection but that of group c is freed.
  ghost predicate Spared<T>(v: View<T>, fs: seq<Forest<T>>, ds: seq<set<T>>, c: nat) {
    && |fs| == |ds| && Holding(v, fs)
    && (forall i :: 0 <= i < |fs| && i != c && v.picks[i].Some? ==> v.picks[i].value in Elems(Cut(fs[i], ds[i])))
  }

  // While the pass has done the first n groups.
  ghost predicate Swept<T>(v: View<T>, w: View<T>, fs: seq<Forest<T>>, ds: seq<set<T>>, n: nat) {
    && |fs| == |ds| == |v.orders| == |w.orders|
    && forall i :: 0 <= i < |fs| ==> w.orders[i] == if i < n then Preorder(Cut(fs[i], ds[i])) else v.orders[i]
  }

  lemma {:induction false} SweepSettles<T>(v: View<T>, fs: seq<Forest<T>>, ds: seq<set<T>>, c: nat, y: T, n: nat)
    requires Live(v) && Spared(v, fs, ds, c) && n <= |fs| && c < |fs|
    requires Current(v) == Some(c) && v.picks[c] == Some(y) && y in Elems(fs[c])
    requires Nearest(fs[c], ds[c], y).Some?
    ensures var w := Sweep(v, fs[..n], ds[..n]);
      && Live(w) && Swept(v, w, fs, ds, n) && Current(w) == Some(c)
      && w.picks == if c < n then v.picks[c := Nearest(fs[c], ds[c], y)] else v.picks
  {
    if n > 0 {
      var m := n - 1;
      SweepSettles(v, fs, ds, c, y, m);
      SweepMore(v, fs, ds, m);
      var w := Sweep(v, fs[..m], ds[..m]);
      UnlinkAllLive(w, m, Gone(fs[m], ds[m]));
      if m == c {
        PassSettles(w, c, fs[c], ds[c], y);
      } else {
        PassUnselected(w, m, fs[m], ds[m]);
      }
    }
  }

  // A sweep that frees no selected element leaves all selections alone.
  lemma {:induction false} SweepUnselected<T>(v: View<T>, fs: seq<Forest<T>>, ds: seq<set<T>>, n: nat)
    requires Live(v) && |fs| == |ds| && Holding(v, fs) && n <= |fs|
    requires forall i :: 0 <= i < |fs| && v.picks[i].Some? ==> v.picks[i].value in Elems(Cut(fs[i], ds[i]))
    ensures var w := Sweep(v, fs[..n], ds[..n]);
      Live(w) && Swept(v, w, fs, ds, n) && w.picks == v.picks && w.cur == v.cur
  {
    if n > 0 {
      var m := n - 1;
      SweepUnselected(v, fs, ds, m);
      SweepMore(v, fs, ds, m);
      var w := Sweep(v, fs[..m], ds[..m]);
      UnlinkAllLive(w, m, Gone(fs[m], ds[m]));
      PassUnselected(w, m, fs[m], ds[m]);
    }
  }
}
