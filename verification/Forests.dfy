// Ordered forests in left-child / right-sibling form, and the preorder walk over them.
// The forest is the abstract value behind the e_childs and g_elements lists.

module Forests {

  // A list of sibling trees: the first tree is e with its children kids, the others are sibs.
  datatype Forest<T> = Nil | Node(e: T, kids: Forest<T>, sibs: Forest<T>)

  ghost function Preorder<T>(f: Forest<T>): seq<T> {
    if f.Nil? then [] else [f.e] + Preorder(f.kids) + Preorder(f.sibs)
  }

  ghost function Postorder<T>(f: Forest<T>): seq<T> {
    if f.Nil? then [] else Postorder(f.kids) + [f.e] + Postorder(f.sibs)
  }

  ghost function Roots<T>(f: Forest<T>): seq<T> {
    if f.Nil? then [] else [f.e] + Roots(f.sibs)
  }

  ghost function Elems<T>(f: Forest<T>): set<T> {
    if f.Nil? then {} else {f.e} + Elems(f.kids) + Elems(f.sibs)
  }

  // No value occurs twice.
  ghost predicate Distinct<T>(f: Forest<T>) {
    f.Node? ==>
      && f.e !in Elems(f.kids) && f.e !in Elems(f.sibs)
      && Elems(f.kids) !! Elems(f.sibs)
      && Distinct(f.kids) && Distinct(f.sibs)
  }

  ghost function Size<T>(f: Forest<T>): nat {
    if f.Nil? then 0 else 1 + Size(f.kids) + Size(f.sibs)
  }

  // The children of x.
  ghost function KidsOf<T>(f: Forest<T>, x: T): Forest<T> {
    if f.Nil? then Nil
    else if f.e == x then f.kids
    else if x in Elems(f.kids) then KidsOf(f.kids, x)
    else KidsOf(f.sibs, x)
  }

  // x and everything below it.
  ghost function Subtree<T>(f: Forest<T>, x: T): set<T> {
    {x} + Elems(KidsOf(f, x))
  }

  // The forest without the subtrees whose root is in d.
  ghost function Cut<T>(f: Forest<T>, d: set<T>): Forest<T> {
    if f.Nil? then Nil
    else if f.e in d then Cut(f.sibs, d)
    else Node(f.e, Cut(f.kids, d), Cut(f.sibs, d))
  }

  // The forest with the leaf x as its new last tree.
  ghost function AddLast<T>(f: Forest<T>, x: T): Forest<T> {
    if f.Nil? then Node(x, Nil, Nil) else Node(f.e, f.kids, AddLast(f.sibs, x))
  }

  // The forest with the leaf x as the new last child of p.
  ghost function AddChild<T>(f: Forest<T>, p: T, x: T): Forest<T> {
    if f.Nil? then Nil
    else if f.e == p then Node(f.e, AddLast(f.kids, x), f.sibs)
    else Node(f.e, AddChild(f.kids, p, x), AddChild(f.sibs, p, x))
  }

  // Preorder number of x, and the number of the first element behind the subtree of x.
  ghost function Index<T>(f: Forest<T>, x: T): nat
    requires x in Elems(f)
  {
    if f.e == x then 0
    else if x in Elems(f.kids) then 1 + Index(f.kids, x)
    else 1 + Size(f.kids) + Index(f.sibs, x)
  }

  ghost function End<T>(f: Forest<T>, x: T): nat
    requires x in Elems(f)
  {
    Index(f, x) + 1 + Size(KidsOf(f, x))
  }

  // s is what remains of the sibling list f after dropping some leading trees.
  ghost predicate Suffix<T>(s: Forest<T>, f: Forest<T>) {
    s == f || (f.Node? && Suffix(s, f.sibs))
  }

  // ---- preorder ----

  lemma {:induction false} PreorderElems<T>(f: Forest<T>)
    ensures |Preorder(f)| == Size(f)
    ensures forall x :: x in Preorder(f) <==> x in Elems(f)
  {
    if f.Node? {
      PreorderElems(f.kids);
      PreorderElems(f.sibs);
    }
  }

  lemma {:induction false} PreorderIndex<T>(f: Forest<T>, x: T)
    requires x in Elems(f)
    ensures Index(f, x) < |Preorder(f)| == Size(f)
    ensures Preorder(f)[Index(f, x)] == x
  {
    PreorderElems(f);
    PreorderElems(f.kids);
    if f.e == x {
    } else if x in Elems(f.kids) {
      PreorderIndex(f.kids, x);
    } else {
      PreorderIndex(f.sibs, x);
    }
  }

  // In a forest without duplicates the preorder has none, and Index is the only position.
  lemma {:induction false} PreorderUnique<T>(f: Forest<T>, i: nat)
    requires Distinct(f) && i < |Preorder(f)|
    ensures Preorder(f)[i] in Elems(f) && Index(f, Preorder(f)[i]) == i
  {
    PreorderElems(f);
    PreorderElems(f.kids);
    PreorderElems(f.sibs);
    var n := Size(f.kids);
    if i == 0 {
    } else if i <= n {
      PreorderUnique(f.kids, i - 1);
      assert Preorder(f)[i] == Preorder(f.kids)[i - 1];
    } else {
      PreorderUnique(f.sibs, i - 1 - n);
      assert Preorder(f)[i] == Preorder(f.sibs)[i - 1 - n];
    }
  }

  lemma {:induction false} RootsIn<T>(f: Forest<T>)
    ensures forall x :: x in Roots(f) ==> x in Elems(f)
    ensures Roots(f) == [] <==> f.Nil?
  {
    if f.Node? { RootsIn(f.sibs); }
  }

  // The subtree below p occupies the preorder slots right behind p.
  lemma {:induction false} KidsWithin<T>(f: Forest<T>, p: T, x: T)
    requires Distinct(f) && p in Elems(f)
    requires x in Elems(KidsOf(f, p))
    ensures x in Elems(f) && x != p
    ensures KidsOf(f, x) == KidsOf(KidsOf(f, p), x)
    ensures Index(f, x) == Index(f, p) + 1 + Index(KidsOf(f, p), x)
  {
    if f.e == p {
    } else if p in Elems(f.kids) {
      KidsWithin(f.kids, p, x);
    } else {
      KidsWithin(f.sibs, p, x);
    }
  }

  lemma {:induction false} KidsDistinct<T>(f: Forest<T>, p: T)
    requires Distinct(f)
    ensures Distinct(KidsOf(f, p))
    ensures Elems(KidsOf(f, p)) <= Elems(f)
    ensures p !in Elems(KidsOf(f, p))
  {
    if f.Node? && f.e != p {
      if p in Elems(f.kids) { KidsDistinct(f.kids, p); } else { KidsDistinct(f.sibs, p); }
    }
  }

  // ---- sibling lists ----

  // The first tree starts at 0, each tree starts where the one before it ends, the last ends the walk.
  lemma {:induction false} RootsIndex<T>(f: Forest<T>, j: nat)
    requires Distinct(f) && j < |Roots(f)|
    ensures Roots(f)[j] in Elems(f)
    ensures Index(f, Roots(f)[j]) == if j == 0 then 0 else (RootsIn(f); End(f, Roots(f)[j - 1]))
    ensures j == |Roots(f)| - 1 ==> End(f, Roots(f)[j]) == Size(f)
  {
    RootsIn(f);
    RootsIn(f.sibs);
    if j > 0 {
      RootsIndex(f.sibs, j - 1);
      var y := Roots(f)[j];
      assert y == Roots(f.sibs)[j - 1];
      if j > 1 {
        assert Roots(f)[j - 1] == Roots(f.sibs)[j - 2];
      }
    } else if |Roots(f)| == 1 {
      assert f.sibs.Nil?;
    }
  }

  lemma {:induction false} RootsUnique<T>(f: Forest<T>, i: nat, j: nat)
    requires Distinct(f) && i < j < |Roots(f)|
    ensures Roots(f)[i] != Roots(f)[j]
  {
    RootsIn(f.sibs);
    if i > 0 { RootsUnique(f.sibs, i - 1, j - 1); }
  }

  // ---- removing subtrees ----

  lemma {:induction false} CutElems<T>(f: Forest<T>, d: set<T>)
    ensures Elems(Cut(f, d)) <= Elems(f) - d
    ensures Distinct(f) ==> Distinct(Cut(f, d))
    ensures Size(Cut(f, d)) <= Size(f)
  {
    if f.Node? {
      CutElems(f.kids, d);
      CutElems(f.sibs, d);
    }
  }

  lemma {:induction false} CutNothing<T>(f: Forest<T>, d: set<T>)
    requires Elems(f) !! d
    ensures Cut(f, d) == f
  {
    if f.Node? {
      CutNothing(f.kids, d);
      CutNothing(f.sibs, d);
    }
  }

  lemma {:induction false} CutTwice<T>(f: Forest<T>, c: set<T>, d: set<T>)
    ensures Cut(Cut(f, c), d) == Cut(f, c + d)
  {
    if f.Node? {
      CutTwice(f.kids, c, d);
      CutTwice(f.sibs, c, d);
    }
  }

  // Roots below x add nothing to a cut at x.
  lemma {:induction false} CutAbsorb<T>(f: Forest<T>, x: T, d: set<T>)
    requires Distinct(f) && x in Elems(f) && d <= Elems(KidsOf(f, x))
    ensures Cut(f, d + {x}) == Cut(f, {x})
  {
    KidsDistinct(f, x);
    if f.e == x {
      CutNothing(f.sibs, d + {x});
      CutNothing(f.sibs, {x});
    } else if x in Elems(f.kids) {
      KidsDistinct(f.kids, x);
      CutAbsorb(f.kids, x, d);
      CutNothing(f.sibs, d + {x});
      CutNothing(f.sibs, {x});
    } else {
      KidsDistinct(f.sibs, x);
      CutAbsorb(f.sibs, x, d);
      CutNothing(f.kids, d + {x});
      CutNothing(f.kids, {x});
    }
  }

  lemma {:induction false} CutKids<T>(f: Forest<T>, d: set<T>, x: T)
    requires Distinct(f) && x in Elems(Cut(f, d))
    ensures KidsOf(Cut(f, d), x) == Cut(KidsOf(f, x), d)
  {
    CutElems(f.kids, d);
    CutElems(f.sibs, d);
    if f.e in d {
      CutKids(f.sibs, d, x);
    } else if f.e != x {
      if x in Elems(Cut(f.kids, d)) { CutKids(f.kids, d, x); } else { CutKids(f.sibs, d, x); }
    }
  }

  // Removing one subtree takes exactly its stretch out of the preorder.
  lemma {:induction false} CutPreorder<T>(f: Forest<T>, x: T) returns (a: seq<T>, b: seq<T>)
    requires Distinct(f) && x in Elems(f)
    ensures |a| == Index(f, x)
    ensures Preorder(f) == a + ([x] + Preorder(KidsOf(f, x))) + b
    ensures Preorder(Cut(f, {x})) == a + b
  {
    PreorderElems(f.kids);
    if f.e == x {
      CutNothing(f.sibs, {x});
      a, b := [], Preorder(f.sibs);
      assert Preorder(f) == a + ([x] + Preorder(f.kids)) + b;
    } else if x in Elems(f.kids) {
      CutNothing(f.sibs, {x});
      var a', b' := CutPreorder(f.kids, x);
      a, b := [f.e] + a', b' + Preorder(f.sibs);
      Regroup([f.e], a', [x] + Preorder(KidsOf(f, x)), b', Preorder(f.sibs));
    } else {
      CutNothing(f.kids, {x});
      var a', b' := CutPreorder(f.sibs, x);
      a, b := [f.e] + Preorder(f.kids) + a', b';
      Regroup([f.e] + Preorder(f.kids), a', [x] + Preorder(KidsOf(f, x)), b', []);
      assert a + b == [f.e] + Preorder(f.kids) + (a' + b');
    }
  }

  lemma Regroup<T>(p: seq<T>, a: seq<T>, m: seq<T>, b: seq<T>, q: seq<T>)
    ensures p + (a + m + b) + q == (p + a) + m + (b + q)
    ensures p + (a + b) + q == (p + a) + (b + q)
    ensures q == [] ==> b + q == b && p + (a + m + b) + q == p + (a + m + b)
  {
  }

  // The freed subtree is gone and nothing else.
  lemma {:induction false} CutOne<T>(f: Forest<T>, x: T)
    requires Distinct(f) && x in Elems(f)
    ensures Elems(Cut(f, {x})) == Elems(f) - {x} - Elems(KidsOf(f, x))
    ensures Size(Cut(f, {x})) == Size(f) - 1 - Size(KidsOf(f, x))
  {
    if f.e == x {
      CutNothing(f.sibs, {x});
      assert Elems(f.sibs) == Elems(f) - {x} - Elems(f.kids);
    } else if x in Elems(f.kids) {
      CutOne(f.kids, x);
      KidsDistinct(f.kids, x);
      CutNothing(f.sibs, {x});
      CutOneSets(f.e, Elems(f.kids), Elems(f.sibs), x, Elems(KidsOf(f.kids, x)));
    } else {
      CutOne(f.sibs, x);
      KidsDistinct(f.sibs, x);
      CutNothing(f.kids, {x});
      CutOneSets(f.e, Elems(f.sibs), Elems(f.kids), x, Elems(KidsOf(f.sibs, x)));
    }
  }

  lemma CutOneSets<T>(e: T, a: set<T>, b: set<T>, x: T, k: set<T>)
    requires x in a && k <= a && a !! b && e !in a && e !in b
    ensures {e} + (a - {x} - k) + b == {e} + a + b - {x} - k
    ensures {e} + b + (a - {x} - k) == {e} + b + a - {x} - k
  {
  }

  lemma {:induction false} CutRoots<T>(f: Forest<T>, x: T)
    requires Distinct(f)
    ensures Roots(Cut(f, {x})) == Drop(Roots(f), x)
  {
    RootsIn(f);
    if f.Node? {
      CutRoots(f.sibs, x);
      if f.e == x {
        RootsIn(f.sibs);
        DropAbsent(Roots(f.sibs), x);
      }
    }
  }

  // The sequence without the value x.
  function Drop<T(==)>(s: seq<T>, x: T): seq<T> {
    if s == [] then [] else if s[0] == x then Drop(s[1..], x) else [s[0]] + Drop(s[1..], x)
  }

  lemma {:induction false} DropAbsent<T>(s: seq<T>, x: T)
    requires x !in s
    ensures Drop(s, x) == s
  {
    if s != [] { DropAbsent(s[1..], x); }
  }

  lemma {:induction false} DropAt<T>(s: seq<T>, i: nat)
    requires i < |s| && forall j, k :: 0 <= j < k < |s| ==> s[j] != s[k]
    ensures Drop(s, s[i]) == s[..i] + s[i + 1..]
  {
    if i == 0 {
      DropAbsent(s[1..], s[0]);
    } else {
      DropAt(s[1..], i - 1);
      assert s[1..][..i - 1] == s[1..i];
      assert s[..i] == [s[0]] + s[1..i];
    }
  }

  // ---- suffixes of a sibling list ----

  lemma {:induction false} SuffixFacts<T>(s: Forest<T>, f: Forest<T>)
    requires Suffix(s, f)
    ensures Elems(s) <= Elems(f) && Size(s) <= Size(f)
    ensures Distinct(f) ==> Distinct(s)
    ensures s.Node? ==> Suffix(s.sibs, f)
    ensures s.Node? && Distinct(f) ==> KidsOf(f, s.e) == s.kids
  {
    if s != f { SuffixFacts(s, f.sibs); }
    if s.Node? && s == f { assert Suffix(s.sibs, f.sibs); }
  }

  // Cutting among the trees in front of s leaves the roots of s at the end of the list.
  lemma {:induction false} SuffixRoots<T>(s: Forest<T>, f: Forest<T>, d: set<T>)
    requires Suffix(s, f) && Distinct(f) && Elems(s) !! d
    ensures |Roots(s)| <= |Roots(Cut(f, d))|
    ensures Roots(Cut(f, d))[|Roots(Cut(f, d))| - |Roots(s)|..] == Roots(s)
  {
    if s == f {
      CutNothing(s, d);
    } else {
      SuffixRoots(s, f.sibs, d);
    }
  }
}
