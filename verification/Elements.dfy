// Elements, groups and the selection: src/element.c and src/group.c.
// The intrusive lists g_elements, e_childs and group_list are fields of type seq; Lists.dfy shows
// that the linked lists behind them refine such sequences.
module Elements {
  import opened Options
  import opened Forests
  import opened Selection
  import opened Lifetimes
  import opened Passes
  import Wildcard

  // The list neighbours of x; None stands for the list head.
  function After<T(==)>(list: seq<T>, x: T): Option<T> {
    if |list| <= 1 then None else if list[0] == x then Some(list[1]) else After(list[1..], x)
  }

  function Preceding<T(==)>(list: seq<T>, x: T): Option<T> {
    if |list| <= 1 then None else if list[1] == x then Some(list[0]) else Preceding(list[1..], x)
  }

  lemma {:induction false} Neighbours<T>(list: seq<T>, j: nat)
    requires Unique(list) && j < |list|
    ensures After(list, list[j]) == if j + 1 < |list| then Some(list[j + 1]) else None
    ensures Preceding(list, list[j]) == if j > 0 then Some(list[j - 1]) else None
  {
    var t := list[1..];
    assert forall i, k :: 0 <= i < k < |t| ==> t[i] == list[i + 1] && t[k] == list[k + 1];
    if j > 0 {
      Neighbours(t, j - 1);
    } else if |list| > 1 {
      PrecedingAbsent(t, list[0]);
    }
  }

  lemma {:induction false} PrecedingAbsent<T>(list: seq<T>, x: T)
    requires x !in list
    ensures Preceding(list, x) == None
  {
    if |list| > 1 { PrecedingAbsent(list[1..], x); }
  }

  class Element {
    const name: string
    const id: nat
    const parent: Element?
    const group: Group
    var lifecycles: nat
    var childs: seq<Element>

    constructor (name: string, id: nat, parent: Element?, group: Group, lifecycles: nat)
      ensures this.name == name && this.id == id && this.parent == parent && this.group == group
      ensures this.lifecycles == lifecycles && childs == []
    {
      this.name, this.id, this.parent, this.group := name, id, parent, group;
      this.lifecycles := lifecycles;
      childs := [];
    }
  }

  class Group {
    const name: string
    var elements: seq<Element>
    var nelements: nat
    var current: Element?
    ghost var forest: Forest<Element>   // the elements below g_elements

    constructor (name: string)
      ensures this.name == name && elements == [] && nelements == 0 && current == null && forest == Nil
    {
      this.name := name;
      elements, nelements, current, forest := [], 0, null, Nil;
    }
  }

  // Parent and group pointers follow the forest.
  ghost predicate Tree(f: Forest<Element>, p: Element?, g: Group) {
    f.Node? ==> f.e.parent == p && f.e.group == g && Tree(f.kids, f.e, g) && Tree(f.sibs, p, g)
  }

  // Child lists follow the forest.
  ghost predicate Childs(f: Forest<Element>)
    reads Elems(f)`childs
  {
    forall e: Element {:trigger KidsOf(f, e)} :: e in Elems(f) ==> e.childs == Roots(KidsOf(f, e))
  }

  ghost predicate GroupOk(g: Group)
    reads g`elements, g`nelements, g`forest, Elems(g.forest)`childs
  {
    && Distinct(g.forest) && Tree(g.forest, null, g) && Childs(g.forest)
    && g.elements == Roots(g.forest)
    && g.nelements == Size(g.forest)
  }

  ghost predicate PickOk(g: Group)
    reads g`current, g`forest
  {
    g.current != null ==> g.current in Elems(g.forest)
  }

  // ---- where an element stands in the preorder ----

  // The list that x is linked into.
  ghost function Siblings(f: Forest<Element>, x: Element): seq<Element> {
    if x.parent == null then Roots(f) else Roots(KidsOf(f, x.parent))
  }

  lemma {:induction false} TreeMember(f: Forest<Element>, p: Element?, g: Group, x: Element)
    requires Tree(f, p, g) && Distinct(f) && x in Elems(f) && p !in Elems(f)
    ensures x.group == g
    ensures x.parent == p ==> x in Roots(f)
    ensures x.parent != p ==> x.parent != null && x.parent in Elems(f) && x in Roots(KidsOf(f, x.parent))
  {
    if f.e != x {
      if x in Elems(f.kids) { TreeMember(f.kids, f.e, g, x); } else { TreeMember(f.sibs, p, g, x); }
    }
  }

  lemma UniqueRoots(f: Forest<Element>)
    requires Distinct(f)
    ensures Unique(Roots(f))
  {
    forall i, j | 0 <= i < j < |Roots(f)| ensures Roots(f)[i] != Roots(f)[j] { RootsUnique(f, i, j); }
  }

  lemma RootPlaces(k: Forest<Element>, x: Element)
    requires Distinct(k) && x in Roots(k)
    ensures x in Elems(k)
    ensures match After(Roots(k), x)
      case Some(y) => y in Elems(k) && Index(k, y) == End(k, x)
      case None => End(k, x) == Size(k)
    ensures match Preceding(Roots(k), x)
      case Some(y) => y in Elems(k) && End(k, y) == Index(k, x)
      case None => Index(k, x) == 0
  {
    UniqueRoots(k);
    var list := Roots(k);
    var j :| 0 <= j < |list| && list[j] == x;
    Neighbours(list, j);
    RootsIndex(k, j);
    if j > 0 { RootsIndex(k, j - 1); }
    if j + 1 < |list| { RootsIndex(k, j + 1); }
  }

  // The neighbours in the sibling list are the neighbouring subtrees of the preorder.
  lemma SiblingPlaces(f: Forest<Element>, g: Group, x: Element)
    requires Tree(f, null, g) && Distinct(f) && x in Elems(f)
    ensures x.parent != null ==> x.parent in Elems(f)
    ensures match After(Siblings(f, x), x)
      case Some(y) => y in Elems(f) && Index(f, y) == End(f, x)
      case None =>
        if x.parent == null then End(f, x) == Size(f)
        else End(f, x) == End(f, x.parent) && Index(f, x.parent) < Index(f, x)
    ensures match Preceding(Siblings(f, x), x)
      case Some(y) => y in Elems(f) && End(f, y) == Index(f, x)
      case None => Index(f, x) == if x.parent == null then 0 else Index(f, x.parent) + 1
  {
    TreeMember(f, null, g, x);
    if x.parent == null {
      RootPlaces(f, x);
    } else {
      var p, k := x.parent, KidsOf(f, x.parent);
      KidsDistinct(f, p);
      RootPlaces(k, x);
      KidsWithin(f, p, x);
      var n, q := After(Roots(k), x), Preceding(Roots(k), x);
      if n.Some? { KidsWithin(f, p, n.value); }
      if q.Some? { KidsWithin(f, p, q.value); }
    }
  }

  // The first child comes right behind x, the last child ends where x ends.
  lemma ChildPlaces(f: Forest<Element>, x: Element)
    requires Distinct(f) && x in Elems(f) && KidsOf(f, x).Node?
    ensures var list := Roots(KidsOf(f, x));
      && |list| > 0
      && list[0] in Elems(f) && Index(f, list[0]) == Index(f, x) + 1
      && list[|list| - 1] in Elems(f) && End(f, list[|list| - 1]) == End(f, x)
      && Index(f, list[|list| - 1]) > Index(f, x)
  {
    var k := KidsOf(f, x);
    KidsDistinct(f, x);
    RootsIn(k);
    var list := Roots(k);
    RootsIndex(k, 0);
    RootsIndex(k, |list| - 1);
    KidsWithin(f, x, list[0]);
    KidsWithin(f, x, list[|list| - 1]);
  }

  lemma Places(f: Forest<Element>, x: Element)
    requires Distinct(f) && x in Elems(f)
    ensures x in Preorder(f) && IndexOf(Preorder(f), x) == Index(f, x) < |Preorder(f)| == Size(f)
    ensures End(f, x) <= Size(f)
    ensures Unique(Preorder(f))
  {
    PreorderElems(f);
    PreorderIndex(f, x);
    UniquePreorder(f);
    IndexUnique(Preorder(f), Index(f, x));
    CutOne(f, x);
    var a, b := CutPreorder(f, x);
    PreorderElems(KidsOf(f, x));
  }

  lemma UniquePreorder(f: Forest<Element>)
    requires Distinct(f)
    ensures Unique(Preorder(f))
  {
    forall i, j | 0 <= i < j < |Preorder(f)| ensures Preorder(f)[i] != Preorder(f)[j] {
      PreorderUnique(f, i);
      PreorderUnique(f, j);
    }
  }

  ghost function AsOption(e: Element?): Option<Element> {
    if e == null then None else Some(e)
  }

  // ---- the walk inside one group ----

  // Down to the last child as long as there is one.
  method LastBelow(g: Group, top: Element) returns (e: Element)
    requires GroupOk(g) && top in Elems(g.forest)
    ensures e in Elems(g.forest) && Index(g.forest, e) + 1 == End(g.forest, top)
  {
    ghost var f := g.forest;
    assert allocated(Elems(f));
    e := top;
    while e.childs != []
      invariant e in Elems(f) && End(f, e) == End(f, top)
      decreases Size(f) - Index(f, e)
    {
      RootsIn(KidsOf(f, e));
      ChildPlaces(f, e);
      Places(f, e.childs[|e.childs| - 1]);
      e := e.childs[|e.childs| - 1];
    }
    RootsIn(KidsOf(f, e));
  }

  method LastElement(g: Group) returns (e: Element)
    requires GroupOk(g) && g.elements != []
    ensures e in Elems(g.forest) && Last(Preorder(g.forest)) == Some(e)
  {
    RootsIndex(g.forest, |g.elements| - 1);
    e := LastBelow(g, g.elements[|g.elements| - 1]);
    Places(g.forest, e);
    PreorderIndex(g.forest, e);
  }

  // Down to the first child, else up to the nearest ancestor that has a next sibling and on to
  // that sibling; null behind the last element.
  method Successor(g: Group, from: Element) returns (r: Element?)
    requires GroupOk(g) && from in Elems(g.forest)
    ensures from in Preorder(g.forest)
    ensures r != null ==> r in Elems(g.forest)
    ensures var order, i := Preorder(g.forest), IndexOf(Preorder(g.forest), from);
      AsOption(r) == if i + 1 < |order| then Some(order[i + 1]) else None
  {
    Places(g.forest, from);
    ghost var f := g.forest;
    assert allocated(Elems(f));
    var e: Element := from;
    RootsIn(KidsOf(f, e));
    if e.childs != [] {
      ChildPlaces(f, e);
      PreorderIndex(f, e.childs[0]);
      return e.childs[0];
    }
    SiblingPlaces(f, g, e);
    while e.parent != null && After(e.parent.childs, e) == None
      invariant e in Elems(f) && End(f, e) == Index(f, from) + 1
      invariant e.parent != null ==> e.parent in Elems(f)
      decreases Index(f, e)
    {
      SiblingPlaces(f, g, e);
      e := e.parent;
      SiblingPlaces(f, g, e);
    }
    SiblingPlaces(f, g, e);
    var n := After(if e.parent == null then g.elements else e.parent.childs, e);
    if n == None { return null; }
    PreorderIndex(f, n.value);
    return n.value;
  }

  // Back to the last element below the previous sibling, else up to the parent; null in front of
  // the first element.
  method Predecessor(g: Group, from: Element) returns (r: Element?)
    requires GroupOk(g) && from in Elems(g.forest)
    ensures from in Preorder(g.forest)
    ensures r != null ==> r in Elems(g.forest)
    ensures var order, i := Preorder(g.forest), IndexOf(Preorder(g.forest), from);
      AsOption(r) == if i > 0 then Some(order[i - 1]) else None
  {
    ghost var f := g.forest;
    Places(f, from);
    SiblingPlaces(f, g, from);
    assert from.parent != null ==> from.parent.childs == Siblings(f, from);
    var p := Preceding(if from.parent == null then g.elements else from.parent.childs, from);
    if p == None {
      r := from.parent;
    } else {
      r := LastBelow(g, p.value);
    }
    if r != null {
      var q: Element := r;
      assert Index(f, q) + 1 == Index(f, from);
      PreorderIndex(f, q);
    }
  }

  // Freeing the first child of e leaves the other children, and the cut at e is still to come.
  lemma FirstChildCut(f: Forest<Element>, e: Element)
    requires Distinct(f) && e in Elems(f) && KidsOf(f, e).Node?
    ensures var k := KidsOf(f, e);
      && k.e in Elems(f) && k.e != e && KidsOf(f, k.e) == k.kids
      && e in Elems(Cut(f, {k.e}))
      && KidsOf(Cut(f, {k.e}), e) == k.sibs
      && Cut(Cut(f, {k.e}), {e}) == Cut(f, {e})
      && Size(k.kids) < Size(k)
  {
    var k := KidsOf(f, e);
    KidsDistinct(f, e);
    KidsWithin(f, e, k.e);
    CutOne(f, k.e);
    CutKids(f, {k.e}, e);
    CutNothing(k.sibs, {k.e});
    CutTwice(f, {k.e}, {e});
    CutAbsorb(f, e, {k.e});
  }

  lemma FreeFirstChild(v: View<Element>, i: nat, k: Forest<Element>)
    requires Sized(v) && i < |v.orders| && k.Node?
    ensures UnlinkAll(v, i, Postorder(k)) ==
      UnlinkAll(UnlinkAll(v, i, Postorder(Node(k.e, k.kids, Nil))), i, Postorder(k.sibs))
  {
    var t := Node(k.e, k.kids, Nil);
    assert Postorder(t) == Postorder(k.kids) + [k.e];
    UnlinkAllConcat(v, i, Postorder(t), Postorder(k.sibs));
  }

  // While the children k of e are freed, the elements and the selection stay on their way to the state
  // in which all of k is gone, and the cut at e is still to come.
  datatype Freeing = Freeing(k: Forest<Element>, live: set<Element>, view: View<Element>, cut: Forest<Element>)

  ghost predicate Underway(a: Freeing, b: Freeing, i: nat)
    requires Sized(a.view) && Sized(b.view) && i < |a.view.orders| && i < |b.view.orders|
  {
    && Size(b.k) <= Size(a.k)
    && b.live <= a.live && b.live - Elems(b.k) == a.live - Elems(a.k)
    && UnlinkAll(b.view, i, Postorder(b.k)) == UnlinkAll(a.view, i, Postorder(a.k))
    && b.cut == a.cut
  }

  lemma NextRoot(f: Forest<Element>)
    requires f.Node?
    ensures After(Roots(f), f.e) == if f.sibs.Nil? then None else Some(f.sibs.e)
  {
    RootsIn(f.sibs);
  }

  lemma AllGone(a: Freeing, b: Freeing, i: nat)
    requires Sized(a.view) && Sized(b.view) && i < |a.view.orders| && i < |b.view.orders|
    requires Underway(a, b, i) && b.k.Nil?
    ensures b.live == a.live - Elems(a.k) && b.view == UnlinkAll(a.view, i, Postorder(a.k)) && b.cut == a.cut
  {
    assert b.live - {} == b.live;
  }

  lemma FirstChildGone(a: Freeing, b: Freeing, i: nat)
    requires Sized(a.view) && Sized(b.view) && i < |a.view.orders| && i < |b.view.orders|
    requires a.k.Node? && b.k == a.k.sibs && b.live == a.live - {a.k.e} - Elems(a.k.kids) && b.cut == a.cut
    requires b.view == UnlinkAll(a.view, i, Postorder(Node(a.k.e, a.k.kids, Nil)))
    ensures Underway(a, b, i)
  {
    FreeFirstChild(a.view, i, a.k);
    assert b.live - Elems(b.k) == a.live - Elems(a.k);
  }

  // ---- taking a childless element out of a group ----

  lemma {:induction false} TreeCut(f: Forest<Element>, p: Element?, g: Group, d: set<Element>)
    requires Tree(f, p, g)
    ensures Tree(Cut(f, d), p, g)
  {
    if f.Node? {
      TreeCut(f.kids, f.e, g, d);
      TreeCut(f.sibs, p, g, d);
    }
  }

  lemma {:induction false} RootsParent(f: Forest<Element>, p: Element?, g: Group, x: Element)
    requires Tree(f, p, g) && x in Roots(f)
    ensures x.parent == p
  {
    if f.e != x { RootsParent(f.sibs, p, g, x); }
  }

  lemma {:induction false} KidsTree(f: Forest<Element>, p: Element?, g: Group, x: Element)
    requires Tree(f, p, g) && x in Elems(f)
    ensures Tree(KidsOf(f, x), x, g)
  {
    if f.e != x {
      if x in Elems(f.kids) { KidsTree(f.kids, f.e, g, x); } else { KidsTree(f.sibs, p, g, x); }
    }
  }

  lemma {:induction false} TreeGroup(f: Forest<Element>, p: Element?, g: Group)
    requires Tree(f, p, g)
    ensures forall x :: x in Elems(f) ==> x.group == g
  {
    if f.Node? {
      TreeGroup(f.kids, f.e, g);
      TreeGroup(f.sibs, p, g);
    }
  }

  // Only the list that e is linked into changes.
  lemma LeafLists(f: Forest<Element>, g: Group, e: Element, x: Element)
    requires Distinct(f) && Tree(f, null, g) && x in Elems(Cut(f, {e}))
    ensures Roots(KidsOf(Cut(f, {e}), x)) ==
      if e.parent == x then Drop(Roots(KidsOf(f, x)), e) else Roots(KidsOf(f, x))
  {
    CutElems(f, {e});
    CutKids(f, {e}, x);
    KidsDistinct(f, x);
    KidsTree(f, null, g, x);
    CutRoots(KidsOf(f, x), e);
    if e.parent != x {
      if e in Roots(KidsOf(f, x)) { RootsParent(KidsOf(f, x), x, g, e); }
      DropAbsent(Roots(KidsOf(f, x)), e);
    }
  }

  lemma LeafCut(f: Forest<Element>, g: Group, e: Element)
    requires Distinct(f) && Tree(f, null, g) && e in Elems(f) && KidsOf(f, e) == Nil
    ensures var c := Cut(f, {e});
      && Distinct(c) && Tree(c, null, g)
      && Elems(c) == Elems(f) - {e} && Size(c) == Size(f) - 1
      && Roots(c) == (if e.parent == null then Drop(Roots(f), e) else Roots(f))
      && Preorder(c) == Drop(Preorder(f), e)
  {
    CutElems(f, {e});
    TreeCut(f, null, g, {e});
    CutOne(f, e);
    CutRoots(f, e);
    if e.parent != null {
      if e in Roots(f) { RootsParent(f, null, g, e); }
      DropAbsent(Roots(f), e);
    }
    UniquePreorder(f);
    var a, b := CutPreorder(f, e);
    assert [e] + Preorder<Element>(Nil) == [e];
    DropMiddle(a, e, b);
  }

  lemma SizeOfMember(f: Forest<Element>, e: Element)
    requires e in Elems(f)
    ensures Size(f) > 0
  {
  }

  // ---- a new element at the end of a list ----

  // The forest with x as the last element of the list that hangs off owner.
  ghost function Adding(f: Forest<Element>, owner: Element?, x: Element): Forest<Element> {
    if owner == null then AddLast(f, x) else AddChild(f, owner, x)
  }

  lemma {:induction false} TreeAddLast(f: Forest<Element>, p: Element?, g: Group, x: Element)
    requires Tree(f, p, g) && x.parent == p && x.group == g
    ensures Tree(AddLast(f, x), p, g)
  {
    if f.Node? { TreeAddLast(f.sibs, p, g, x); }
  }

  lemma {:induction false} TreeAddChild(f: Forest<Element>, p: Element?, g: Group, q: Element, x: Element)
    requires Tree(f, p, g) && x.parent == q && x.group == g
    ensures Tree(AddChild(f, q, x), p, g)
  {
    if f.Node? {
      if f.e == q {
        TreeAddLast(f.kids, q, g, x);
      } else {
        TreeAddChild(f.kids, f.e, g, q, x);
        TreeAddChild(f.sibs, p, g, q, x);
      }
    }
  }

  lemma AddingFacts(f: Forest<Element>, g: Group, x: Element)
    requires Distinct(f) && Tree(f, null, g) && x !in Elems(f) && x.group == g
    requires x.parent != null ==> x.parent in Elems(f)
    ensures var a := Adding(f, x.parent, x);
      && Grows(f, a) && Tree(a, null, g)
      && Elems(a) == Elems(f) + {x} && Size(a) == Size(f) + 1
      && Roots(a) == (if x.parent == null then Roots(f) + [x] else Roots(f))
      && KidsOf(a, x) == Nil
      && forall y :: y in Elems(f) ==>
           Roots(KidsOf(a, y)) == if y == x.parent then Roots(KidsOf(f, y)) + [x] else Roots(KidsOf(f, y))
  {
    if x.parent == null {
      AddLastGrows(f, x);
      TreeAddLast(f, null, g, x);
    } else {
      AddChildGrows(f, x.parent, x);
      AddChildRoots(f, x.parent, x);
      TreeAddChild(f, null, g, x.parent, x);
    }
  }

  // The first element of a list with this name and id.
  function Find(list: seq<Element>, name: string, id: nat): Option<Element> {
    if list == [] then None
    else if list[0].name == name && list[0].id == id then Some(list[0])
    else Find(list[1..], name, id)
  }

  function FindGroup(list: seq<Group>, name: string): Option<Group> {
    if list == [] then None else if list[0].name == name then Some(list[0]) else FindGroup(list[1..], name)
  }

  // No two elements of a list have both the same name and the same id.
  ghost predicate Keyed(list: seq<Element>) {
    forall i, j :: 0 <= i < j < |list| ==> !(list[i].name == list[j].name && list[i].id == list[j].id)
  }

  // Finding gives the first element that has both the name and the id, if there is one.
  lemma {:induction false} FindFirst(list: seq<Element>, name: string, id: nat) returns (i: nat)
    ensures i <= |list| && forall j :: 0 <= j < i ==> !(list[j].name == name && list[j].id == id)
    ensures i < |list| ==> list[i].name == name && list[i].id == id
    ensures Find(list, name, id) == if i < |list| then Some(list[i]) else None
  {
    if list == [] || (list[0].name == name && list[0].id == id) {
      i := 0;
    } else {
      var k := FindFirst(list[1..], name, id);
      assert forall j :: 0 <= j < k ==> list[1..][j] == list[j + 1];
      i := k + 1;
    }
  }

  // So an element is created only if there is none of that name and id, and each list keeps at most one.
  lemma LookupKeepsKeyed(list: seq<Element>, e: Element)
    requires Keyed(list) && Find(list, e.name, e.id) == None
    ensures Keyed(list + [e]) && Find(list + [e], e.name, e.id) == Some(e)
  {
    var _ := FindFirst(list, e.name, e.id);
    var _ := FindFirst(list + [e], e.name, e.id);
    assert (list + [e])[|list|] == e;
  }

  // Groups are told apart by their names in the same way.
  lemma {:induction false} FindGroupIff(list: seq<Group>, name: string)
    ensures FindGroup(list, name) == None <==> forall i :: 0 <= i < |list| ==> list[i].name != name
    ensures FindGroup(list, name).Some? ==>
      var g := FindGroup(list, name).value; g in list && g.name == name
  {
    if list != [] {
      FindGroupIff(list[1..], name);
      assert forall i :: 0 <= i < |list[1..]| ==> list[1..][i] == list[i + 1];
    }
  }

  // A new group comes last; it has no elements and no selection.
  ghost function WithGroup(v: View<Element>): View<Element> {
    View(v.orders + [[]], v.picks + [None], v.cur)
  }

  // ---- one list of the lifetime pass ----

  lemma {:induction false} AfterSuffix(list: seq<Element>, tail: seq<Element>)
    requires Unique(list) && 0 < |tail| <= |list| && list[|list| - |tail|..] == tail
    ensures After(list, tail[0]) == if |tail| > 1 then Some(tail[1]) else None
  {
    var j := |list| - |tail|;
    assert list[j] == list[j..][0] && (|tail| > 1 ==> list[j + 1] == list[j..][1]);
    Neighbours(list, j);
  }

  // The trees below owner, or all trees.
  ghost function Below(f: Forest<Element>, owner: Element?): Forest<Element> {
    if owner == null then f else KidsOf(f, owner)
  }

  lemma BelowCut(f: Forest<Element>, owner: Element?, d: set<Element>)
    requires Distinct(f) && (owner != null ==> owner in Elems(Cut(f, d)))
    ensures Below(Cut(f, d), owner) == Cut(Below(f, owner), d)
    ensures Distinct(Below(f, owner)) && Elems(Below(f, owner)) <= Elems(f)
    ensures owner != null ==> owner !in Elems(Below(f, owner))
  {
    if owner != null {
      CutKids(f, d, owner);
      KidsDistinct(f, owner);
    }
  }

  // In the list that is left of k, the first tree of rest still has the same next neighbour.
  lemma PassNext(k: Forest<Element>, rest: Forest<Element>, d: set<Element>)
    requires Distinct(k) && Suffix(rest, k) && rest.Node? && d !! Elems(rest)
    ensures rest.e in Elems(Cut(k, d))
    ensures After(Roots(Cut(k, d)), rest.e) == if rest.sibs.Nil? then None else Some(rest.sibs.e)
  {
    CutElems(k, d);
    SuffixRoots(rest, k, d);
    UniqueRoots(Cut(k, d));
    AfterSuffix(Roots(Cut(k, d)), Roots(rest));
    RootsIn(rest.sibs);
    AtSuffix(Cut(k, d), rest);
  }

  lemma AtSuffix(c: Forest<Element>, rest: Forest<Element>)
    requires rest.Node? && |Roots(rest)| <= |Roots(c)| && Roots(c)[|Roots(c)| - |Roots(rest)|..] == Roots(rest)
    ensures rest.e in Elems(c)
  {
    RootsIn(c);
    assert Roots(c)[|Roots(c)| - |Roots(rest)|..][0] == rest.e;
    assert rest.e in Roots(c);
  }

  lemma PassKids(f: Forest<Element>, owner: Element?, rest: Forest<Element>)
    requires Distinct(f) && (owner != null ==> owner in Elems(f))
    requires Suffix(rest, Below(f, owner)) && rest.Node?
    ensures KidsOf(f, rest.e) == rest.kids && rest.e in Elems(f)
  {
    SuffixFacts(rest, Below(f, owner));
    if owner != null {
      KidsDistinct(f, owner);
      KidsWithin(f, owner, rest.e);
    }
  }

  // While the pass stands at the first tree of rest, with d cut so far, that tree is untouched.
  lemma PassPosition(f: Forest<Element>, owner: Element?, rest: Forest<Element>, d: set<Element>)
    requires Distinct(f) && (owner != null ==> owner in Elems(f) && owner in Elems(Cut(f, d)))
    requires Suffix(rest, Below(f, owner)) && rest.Node? && d !! Elems(rest)
    ensures var c := Cut(f, d);
      && rest.e in Elems(c) && rest.e in Elems(Below(c, owner))
      && KidsOf(c, rest.e) == rest.kids
      && After(Roots(Below(c, owner)), rest.e) == (if rest.sibs.Nil? then None else Some(rest.sibs.e))
  {
    BelowCut(f, owner, d);
    PassNext(Below(f, owner), rest, d);
    PassKids(f, owner, rest);
    CutElems(f, d);
    BelowIn(Cut(f, d), owner, rest.e);
    CutKids(f, d, rest.e);
    CutNothing(rest.kids, d);
  }

  lemma BelowIn(f: Forest<Element>, owner: Element?, x: Element)
    requires Distinct(f) && (owner != null ==> owner in Elems(f)) && x in Elems(Below(f, owner))
    ensures x in Elems(f)
  {
    if owner != null {
      KidsDistinct(f, owner);
      KidsWithin(f, owner, x);
    }
  }

  ghost function OrdersOf(gs: seq<Group>): (r: seq<seq<Element>>)
    reads gs`forest
    ensures |r| == |gs| && forall i :: 0 <= i < |gs| ==> r[i] == Preorder(gs[i].forest)
  {
    if gs == [] then [] else OrdersOf(gs[..|gs| - 1]) + [Preorder(gs[|gs| - 1].forest)]
  }

  ghost function PicksOf(gs: seq<Group>): (r: seq<Option<Element>>)
    reads gs`current
    ensures |r| == |gs| && forall i :: 0 <= i < |gs| ==> r[i] == AsOption(gs[i].current)
  {
    if gs == [] then [] else PicksOf(gs[..|gs| - 1]) + [AsOption(gs[|gs| - 1].current)]
  }

  // One group changed its selection, or its forest.
  lemma PicksSet(gs: seq<Group>, g: Group, before: seq<Option<Element>>)
    requires Unique(gs) && g in gs && |before| == |gs|
    requires forall i :: 0 <= i < |gs| && gs[i] != g ==> before[i] == AsOption(gs[i].current)
    ensures PicksOf(gs) == before[IndexOf(gs, g) := AsOption(g.current)]
  {
  }

  lemma OrdersSet(gs: seq<Group>, g: Group, before: seq<seq<Element>>)
    requires Unique(gs) && g in gs && |before| == |gs|
    requires forall i :: 0 <= i < |gs| && gs[i] != g ==> before[i] == Preorder(gs[i].forest)
    ensures OrdersOf(gs) == before[IndexOf(gs, g) := Preorder(g.forest)]
  {
  }

  // A cut below x that includes x itself is the cut at x.
  lemma CutTree(f: Forest<Element>, x: Element, d: set<Element>)
    requires Distinct(f) && x in Elems(f) && d <= {x} + Elems(KidsOf(f, x))
    ensures x in d ==> Cut(f, d) == Cut(f, {x})
    ensures x !in Elems(KidsOf(f, x))
  {
    KidsDistinct(f, x);
    if x in d {
      CutAbsorb(f, x, d - {x});
      assert d - {x} + {x} == d;
    }
  }

  lemma SuffixNext(k: Forest<Element>, rest: Forest<Element>)
    requires Distinct(k) && Suffix(rest, k) && rest.Node?
    ensures Suffix(rest.sibs, k) && Size(rest.sibs) < Size(rest) <= Size(k) && Size(rest.kids) < Size(k)
  {
    SuffixFacts(rest, k);
  }

  // The share t of the first tree of rest in what the pass over k has done and cut.
  lemma SuffixAdvance(k: Forest<Element>, rest: Forest<Element>, t: set<Element>, life: map<Element, nat>)
    requires Distinct(k) && Suffix(rest, k) && rest.Node? && t == {rest.e} + Elems(rest.kids)
    requires Elems(k) <= life.Keys
    ensures Suffix(rest.sibs, k) && Size(rest) <= Size(k)
    ensures t <= Elems(k) && t !! Elems(k) - Elems(rest)
    ensures Elems(k) - Elems(rest) + t == Elems(k) - Elems(rest.sibs)
    ensures Doomed(Elems(k), life) - Elems(rest) + Doomed(t, life) == Doomed(Elems(k), life) - Elems(rest.sibs)
  {
    SuffixFacts(rest, k);
  }

  ghost predicate SameSelection(v: View<Element>, w: View<Element>) {
    v.picks == w.picks && v.cur == w.cur
  }

  // The whole state as a value: selection, elements, their counters, and the forests of the groups.
  datatype Snapshot = Snapshot(view: View<Element>, live: set<Element>, life: map<Element, nat>,
                               forests: map<Group, Forest<Element>>)

  // From b to n, the elements done of group g were ticked and the subtrees with their roots in cut
  // were freed; all other forests and counters are as they were.
  ghost predicate Ticked(b: Snapshot, n: Snapshot, g: Group, done: set<Element>, cut: set<Element>) {
    && g in b.forests && n.forests == b.forests[g := Cut(b.forests[g], cut)]
    && n.live <= b.live && b.live - done <= n.live
    && (forall x :: x in n.live ==>
          x in b.life && x in n.life && n.life[x] == if x in done then Tick(b.life[x]) else b.life[x])
  }

  lemma TickedTwice(b: Snapshot, m: Snapshot, n: Snapshot, g: Group, done: set<Element>, cut: set<Element>,
                    done': set<Element>, cut': set<Element>)
    requires Ticked(b, m, g, done, cut) && Ticked(m, n, g, done', cut') && done * done' * n.live == {}
    ensures Ticked(b, n, g, done + done', cut + cut')
  {
    CutTwice(b.forests[g], cut, cut');
    assert forall x :: x in n.live ==> x !in done * done' * n.live;
  }

  lemma TickedNone(b: Snapshot, g: Group)
    requires g in b.forests && b.live <= b.life.Keys
    ensures Ticked(b, b, g, {}, {})
  {
    CutNothing(b.forests[g], {});
    assert b.forests[g := b.forests[g]] == b.forests;
  }

  lemma LoneTick(k: Forest<Element>, e: Element, life: map<Element, nat>)
    requires Roots(k) == [] && e in life && Tick(life[e]) != 0
    ensures k == Nil && {e} + Elems(k) == {e} && Doomed({e}, life) == {}
  {
    RootsIn(k);
  }

  // The pass over the trees below owner, before its first and after its last tree.
  lemma PassStart(b: Snapshot, g: Group, owner: Element?)
    requires g in b.forests && b.live <= b.life.Keys && Distinct(b.forests[g])
    requires owner != null ==> owner in Elems(b.forests[g])
    requires Elems(Below(b.forests[g], owner)) <= b.life.Keys
    ensures var k := Below(b.forests[g], owner);
      && Distinct(k) && Suffix(k, k)
      && Ticked(b, b, g, Elems(k) - Elems(k), Doomed(Elems(k), b.life) - Elems(k))
      && Elems(k) - Elems<Element>(Nil) == Elems(k)
      && Doomed(Elems(k), b.life) - Elems<Element>(Nil) == Doomed(Elems(k), b.life)
  {
    var k := Below(b.forests[g], owner);
    CutNothing(b.forests[g], {});
    BelowCut(b.forests[g], owner, {});
    TickedNone(b, g);
    assert Elems(k) - Elems(k) == {} == Doomed(Elems(k), b.life) - Elems(k);
  }

  lemma TickOnly(b: Snapshot, n: Snapshot, g: Group, e: Element)
    requires g in b.forests && e in b.live && b.live <= b.life.Keys
    requires n == b.(life := b.life[e := Tick(b.life[e])])
    ensures Ticked(b, n, g, {e}, {})
  {
    TickedNone(b, g);
  }

  // Freeing e with the trees k below it.
  lemma FreedTicks(b: Snapshot, n: Snapshot, g: Group, e: Element, k: Forest<Element>)
    requires g in b.forests && e in Elems(b.forests[g]) && k == KidsOf(b.forests[g], e)
    requires n.forests == b.forests[g := Cut(b.forests[g], {e})]
    requires n.live == b.live - {e} - Elems(k)
    requires forall x :: x in n.live ==> x in b.life && x in n.life && n.life[x] == b.life[x]
    ensures Subtree(b.forests[g], e) !! n.live
    ensures Ticked(b, n, g, Subtree(b.forests[g], e), {e})
  {
  }

  // The tick of e before the subtree t of e is freed leaves no trace.
  lemma TickedFreed(b: Snapshot, m: Snapshot, n: Snapshot, g: Group, e: Element, t: set<Element>)
    requires Ticked(b, m, g, {e}, {}) && Ticked(m, n, g, t, {e}) && e in t && t !! n.live
    ensures Ticked(b, n, g, t, {e})
  {
    TickedTwice(b, m, n, g, {e}, {}, t, {e});
    assert {e} + t == t && {} + {e} == {e};
  }

  // The tick of e before the trees k below it are passed.
  lemma TickedTree(b: Snapshot, m: Snapshot, n: Snapshot, g: Group, e: Element, k: set<Element>)
    requires Ticked(b, m, g, {e}, {}) && e !in k && k <= m.life.Keys && Ticked(m, n, g, k, Doomed(k, m.life))
    requires {e} + k <= b.life.Keys && k <= m.live && Tick(b.life[e]) != 0
    ensures Ticked(b, n, g, {e} + k, Doomed({e} + k, b.life))
  {
    StillDoomed(b, m, g, {e}, {}, k);
    assert {} + Doomed(k, m.life) == Doomed({e} + k, b.life);
    TickedTwice(b, m, n, g, {e}, {}, k, Doomed(k, m.life));
  }

  // The pass over the trees below owner has rest ahead: what is in front of rest was ticked, and of it the
  // doomed trees were freed.
  ghost predicate PassAt(b: Snapshot, n: Snapshot, g: Group, owner: Element?, rest: Forest<Element>)
    requires g in b.forests && Elems(Below(b.forests[g], owner)) <= b.life.Keys
  {
    var k := Below(b.forests[g], owner);
    Ticked(b, n, g, Elems(k) - Elems(rest), Doomed(Elems(k), b.life) - Elems(rest))
  }

  // The pass finds the first tree of rest as it was at the start.
  lemma AtTree(b: Snapshot, m: Snapshot, g: Group, owner: Element?, rest: Forest<Element>)
    requires g in b.forests && g in m.forests && Distinct(b.forests[g]) && Distinct(m.forests[g])
    requires owner != null ==> owner in Elems(b.forests[g]) && owner in Elems(m.forests[g])
    requires Elems(Below(b.forests[g], owner)) <= b.life.Keys && Elems(m.forests[g]) <= m.live
    requires Suffix(rest, Below(b.forests[g], owner)) && rest.Node? && PassAt(b, m, g, owner, rest)
    ensures rest.e in Elems(m.forests[g]) && KidsOf(m.forests[g], rest.e) == rest.kids
    ensures Subtree(m.forests[g], rest.e) <= m.live
    ensures After(Roots(Below(m.forests[g], owner)), rest.e) == if rest.sibs.Nil? then None else Some(rest.sibs.e)
  {
    var f := b.forests[g];
    var d := Doomed(Elems(Below(f, owner)), b.life) - Elems(rest);
    BelowCut(f, owner, d);
    PassPosition(f, owner, rest, d);
    KidsDistinct(m.forests[g], rest.e);
  }

  // After that tree the pass stands at the next one.
  lemma TreeDone(b: Snapshot, m: Snapshot, n: Snapshot, g: Group, owner: Element?, rest: Forest<Element>, i: nat)
    requires g in b.forests && Distinct(b.forests[g]) && (owner != null ==> owner in Elems(b.forests[g]))
    requires Elems(Below(b.forests[g], owner)) <= b.life.Keys && m.live <= m.life.Keys
    requires Suffix(rest, Below(b.forests[g], owner)) && rest.Node? && PassAt(b, m, g, owner, rest)
    requires {rest.e} + Elems(rest.kids) <= m.live
    requires var t := {rest.e} + Elems(rest.kids);
      && Ticked(m, n, g, t, Doomed(t, m.life))
      && Sized(m.view) && i < |m.view.orders|
      && n.view == UnlinkAll(m.view, i, Gone(Node(rest.e, rest.kids, Nil), Doomed(t, m.life)))
    requires var k := Below(b.forests[g], owner); Heading(b.view, m.view, i, k, rest, Doomed(Elems(k), b.life))
    ensures PassAt(b, n, g, owner, rest.sibs) && (owner != null && owner in m.live ==> owner in n.live)
    ensures var k := Below(b.forests[g], owner); Heading(b.view, n.view, i, k, rest.sibs, Doomed(Elems(k), b.life))
  {
    var k, t := Below(b.forests[g], owner), {rest.e} + Elems(rest.kids);
    var done, d := Elems(k) - Elems(rest), Doomed(Elems(k), b.life) - Elems(rest);
    CutNothing(b.forests[g], {});
    BelowCut(b.forests[g], owner, {});
    SuffixAdvance(k, rest, t, b.life);
    StillDoomed(b, m, g, done, d, t);
    TickedTwice(b, m, n, g, done, d, t, Doomed(t, m.life));
    GoneAgree(Node(rest.e, rest.kids, Nil), Doomed(t, m.life), Doomed(Elems(k), b.life));
    HeadingOn(b.view, m.view, n.view, i, k, rest, Doomed(Elems(k), b.life));
  }

  // And the trees that go below it are those that would have gone at the start.
  lemma GoneBelow(b: Snapshot, m: Snapshot, g: Group, e: Element, k: Forest<Element>)
    requires Ticked(b, m, g, {e}, {}) && e !in Elems(k) && Elems(k) <= m.life.Keys
    requires {e} + Elems(k) <= b.life.Keys && Elems(k) <= m.live
    ensures Gone(k, Doomed(Elems(k), m.life)) == Gone(k, Doomed({e} + Elems(k), b.life))
  {
    StillDoomed(b, m, g, {e}, {}, Elems(k));
    GoneAgree(k, Doomed(Elems(k), m.life), Doomed({e} + Elems(k), b.life));
  }

  // Elements that are still to be ticked expire as they would have at the start.
  lemma StillDoomed(b: Snapshot, n: Snapshot, g: Group, done: set<Element>, cut: set<Element>, xs: set<Element>)
    requires Ticked(b, n, g, done, cut) && xs <= n.live && xs !! done
    ensures xs <= n.life.Keys && xs <= b.life.Keys && Doomed(xs, n.life) == Doomed(xs, b.life)
  {
  }

  // The elements of the groups are allocated, have counters, and no group shares elements.
  ghost predicate Proper(s: Snapshot) {
    && s.life.Keys == s.live
    && (forall g :: g in s.forests ==> Distinct(s.forests[g]) && Elems(s.forests[g]) <= s.live)
    && (forall g, h :: g in s.forests && h in s.forests && g != h ==> Elems(s.forests[g]) !! Elems(s.forests[h]))
  }

  // What one group contributes to the lifetime runs.
  ghost function StateOf(s: Snapshot, g: Group): (r: State<Element>)
    requires Proper(s) && g in s.forests
    ensures Good(r)
  {
    State(s.forests[g], map x | x in Elems(s.forests[g]) :: s.life[x])
  }

  // From b to n the groups in done went through one lifetime pass each, the others did not change.
  ghost predicate Passed(b: Snapshot, n: Snapshot, done: set<Group>) {
    && Proper(b) && Proper(n)
    && n.forests.Keys == b.forests.Keys
    && (forall g :: g in b.forests ==> StateOf(n, g) == if g in done then Pass(StateOf(b, g)) else StateOf(b, g))
    && n.live <= b.live
  }

  lemma PassedOne(m: Snapshot, n: Snapshot, g: Group)
    requires Proper(m) && Proper(n) && g in m.forests
    requires Ticked(m, n, g, Elems(m.forests[g]), Doomed(Elems(m.forests[g]), m.life))
    ensures Passed(m, n, {g})
  {
    var s := StateOf(m, g);
    assert Doomed(Elems(s.f), s.life) == Doomed(Elems(m.forests[g]), m.life);
    CutElems(s.f, Doomed(Elems(s.f), s.life));
    assert StateOf(n, g).life == Pass(s).life;
    forall h | h in m.forests && h != g ensures StateOf(n, h) == StateOf(m, h) {
      assert StateOf(n, h).life == StateOf(m, h).life;
    }
  }

  lemma PassedNone(b: Snapshot)
    requires Proper(b)
    ensures Passed(b, b, {})
  {
  }

  // The same for a group that may not exist yet: it is empty then.
  ghost function StateAt(s: Snapshot, g: Group): (r: State<Element>)
    requires Proper(s)
    ensures Good(r)
  {
    if g in s.forests then StateOf(s, g) else State(Nil, map[])
  }

  // Only group g moved from one state of its lifetime run to the next; it may have been created.
  ghost predicate Moves(b: Snapshot, n: Snapshot, g: Group, r: Read<Element>, l: nat)
    requires Proper(b) && Proper(n)
  {
    && n.forests.Keys == b.forests.Keys + {g}
    && Grows(StateAt(b, g).f, r.grown) && r.signed <= Elems(r.grown)
    && StateAt(n, g) == AfterRead(StateAt(b, g), r, l)
    && forall h :: h in b.forests && h != g ==> StateOf(n, h) == StateOf(b, h)
  }

  // What group_lookup does to a snapshot when it creates g is a read of an empty group that adds nothing.
  lemma GroupLookupIsRead(b: Snapshot, n: Snapshot, g: Group, l: nat)
    requires Proper(b) && Proper(n) && g !in b.forests
    requires n.forests == b.forests[g := Nil] && n.life == b.life
    ensures Moves(b, n, g, Read(Nil, {}), l)
  {
    assert StateOf(n, g).life == map[] == AfterRead(StateAt(b, g), Read(Nil, {}), l).life;
  }

  // What element_lookup does when it creates x is a read that adds x.
  lemma LookupIsRead(b: Snapshot, n: Snapshot, g: Group, x: Element, l: nat)
    requires Proper(b) && Proper(n) && g in b.forests && x !in b.live && x.group == g
    requires Tree(b.forests[g], null, g) && (x.parent != null ==> x.parent in Elems(b.forests[g]))
    requires n.forests == b.forests[g := Adding(b.forests[g], x.parent, x)] && n.life == b.life[x := l]
    ensures Moves(b, n, g, Read(n.forests[g], {}), l)
  {
    var f := b.forests[g];
    AddingFacts(f, g, x);
    assert StateOf(n, g).life == AfterRead(StateOf(b, g), Read(n.forests[g], {}), l).life;
    forall h | h in b.forests && h != g ensures StateOf(n, h) == StateOf(b, h) {
      assert StateOf(n, h).life == StateOf(b, h).life;
    }
  }

  // What element_lifesign with one lifetime does is a read that signs e.
  lemma LifesignIsRead(b: Snapshot, n: Snapshot, g: Group, e: Element, l: nat)
    requires Proper(b) && Proper(n) && g in b.forests && e in Elems(b.forests[g]) && l <= UINT_MAX
    requires n == b.(life := b.life[e := (1 * l) % (UINT_MAX + 1)])
    ensures Moves(b, n, g, Read(b.forests[g], {e}), l)
  {
    assert StateOf(n, g).life == AfterRead(StateOf(b, g), Read(b.forests[g], {e}), l).life;
    forall h | h in b.forests && h != g ensures StateOf(n, h) == StateOf(b, h) {
      assert StateOf(n, h).life == StateOf(b, h).life;
    }
  }

  ghost function Members(gs: seq<Group>): set<Group> {
    set g | g in gs
  }

  // The first i groups.
  ghost function Leading(gs: seq<Group>, i: nat): set<Group>
    requires i <= |gs|
  {
    if i == 0 then {} else Leading(gs, i - 1) + {gs[i - 1]}
  }

  lemma {:induction false} LeadingAre(gs: seq<Group>, i: nat)
    requires i <= |gs|
    ensures forall g :: g in Leading(gs, i) <==> g in gs[..i]
  {
    if i > 0 {
      LeadingAre(gs, i - 1);
      assert gs[..i] == gs[..i - 1] + [gs[i - 1]];
    }
  }

  lemma NotLeading(gs: seq<Group>, i: nat)
    requires Unique(gs) && i < |gs|
    ensures gs[i] !in Leading(gs, i)
  {
    LeadingAre(gs, i);
  }

  // The elements of group g that expire in the next pass.
  ghost function DoomedIn(s: Snapshot, g: Group): set<Element>
    requires Proper(s) && g in s.forests
  {
    Doomed(Elems(s.forests[g]), s.life)
  }

  // A group that had no pass yet is as it was.
  lemma StillDue(b: Snapshot, m: Snapshot, done: set<Group>, g: Group)
    requires Passed(b, m, done) && g in m.forests && g !in done
    ensures m.forests[g] == b.forests[g] && DoomedIn(m, g) == DoomedIn(b, g)
  {
    var s, t := StateOf(b, g), StateOf(m, g);
    assert s == t;
    assert forall x :: x in Elems(s.f) ==> b.life[x] == s.life[x] && m.life[x] == t.life[x];
  }

  // The forests of the groups gs, and what expires in them.
  ghost function ForestsOf(s: Snapshot, gs: seq<Group>): (r: seq<Forest<Element>>)
    requires forall g :: g in gs ==> g in s.forests
    ensures |r| == |gs| && forall i :: 0 <= i < |gs| ==> r[i] == s.forests[gs[i]]
  {
    seq(|gs|, i requires 0 <= i < |gs| => s.forests[gs[i]])
  }

  ghost function DyingOf(s: Snapshot, gs: seq<Group>): (r: seq<set<Element>>)
    requires Proper(s) && forall g :: g in gs ==> g in s.forests
    ensures |r| == |gs| && forall i :: 0 <= i < |gs| ==> r[i] == DoomedIn(s, gs[i])
  {
    seq(|gs|, i requires 0 <= i < |gs| => DoomedIn(s, gs[i]))
  }

  // The groups gs are those of the snapshot.
  ghost predicate Lists(b: Snapshot, gs: seq<Group>) {
    Proper(b) && Sized(b.view) && |gs| == |b.view.orders| && forall g :: g in gs ==> g in b.forests
  }

  // The first i groups had their pass.
  ghost predicate Midway(b: Snapshot, n: Snapshot, gs: seq<Group>, i: nat)
    requires Lists(b, gs) && i <= |gs|
  {
    Passed(b, n, Leading(gs, i)) && n.view == SweptTo(b, gs, i)
  }

  // The view after their passes.
  ghost function SweptTo(b: Snapshot, gs: seq<Group>, i: nat): (v: View<Element>)
    requires Lists(b, gs) && i <= |gs|
    ensures Sized(v) && |v.orders| == |gs|
  {
    if i == 0 then b.view
    else UnlinkAll(SweptTo(b, gs, i - 1), i - 1, Gone(b.forests[gs[i - 1]], DoomedIn(b, gs[i - 1])))
  }

  lemma {:induction false} SweptToIs(b: Snapshot, gs: seq<Group>, i: nat)
    requires Lists(b, gs) && i <= |gs|
    ensures SweptTo(b, gs, i) == Sweep(b.view, ForestsOf(b, gs)[..i], DyingOf(b, gs)[..i])
  {
    if i > 0 {
      SweptToIs(b, gs, i - 1);
      SweepMore(b.view, ForestsOf(b, gs), DyingOf(b, gs), i - 1);
    }
  }

  lemma MidwayStart(b: Snapshot, gs: seq<Group>)
    requires Lists(b, gs)
    ensures Midway(b, b, gs, 0)
  {
    PassedNone(b);
  }

  lemma MidwayStep(b: Snapshot, m: Snapshot, n: Snapshot, gs: seq<Group>, i: nat)
    requires Lists(b, gs) && i < |gs| && Midway(b, m, gs, i)
    requires Passed(b, n, Leading(gs, i) + {gs[i]})
    requires n.view == UnlinkAll(m.view, i, Gone(b.forests[gs[i]], DoomedIn(b, gs[i])))
    ensures Midway(b, n, gs, i + 1)
  {
  }

  lemma MidwayEnd(b: Snapshot, n: Snapshot, gs: seq<Group>)
    requires Lists(b, gs) && Midway(b, n, gs, |gs|)
    ensures Passed(b, n, Members(gs)) && n.view == Sweep(b.view, ForestsOf(b, gs), DyingOf(b, gs))
  {
    var fs, ds := ForestsOf(b, gs), DyingOf(b, gs);
    assert gs[..|gs|] == gs && fs[..|gs|] == fs && ds[..|gs|] == ds;
    LeadingAre(gs, |gs|);
    assert forall g :: g in Leading(gs, |gs|) <==> g in Members(gs);
    SweptToIs(b, gs, |gs|);
  }

  lemma PassedMore(b: Snapshot, m: Snapshot, n: Snapshot, done: set<Group>, g: Group)
    requires Passed(b, m, done) && Passed(m, n, {g}) && g !in done
    ensures Passed(b, n, done + {g})
  {
  }

  // The file-scope state of group.c: group_list and current_group.
  class Monitor {
    var groups: seq<Group>
    var current: Group?
    ghost var live: set<Element>   // all allocated elements

    ghost predicate Owned(e: Element)
      reads this`groups, groups`forest
    {
      e.group in groups && e in Elems(e.group.forest)
    }

    // The lists, counts and pointers of all groups agree with their forests.
    ghost predicate Shape()
      reads this`groups, this`live, groups`elements, groups`nelements, groups`forest, live`childs
    {
      && Unique(groups)
      && (forall g: Group {:trigger GroupOk(g)} :: g in groups ==> Elems(g.forest) <= live && GroupOk(g))
      && (forall e: Element {:trigger Owned(e)} :: e in live ==> Owned(e))
    }

    // Every selection points to nothing or to an element of its own group.
    ghost predicate Valid()
      reads this, groups, live`childs
    {
      && Shape()
      && (current != null ==> current in groups)
      && (forall g: Group {:trigger PickOk(g)} :: g in groups ==> PickOk(g))
    }

    // The number of a group in group_list.
    ghost function At(g: Group): (i: nat)
      reads this`groups
      ensures g in groups ==> i < |groups| && groups[i] == g
    {
      IndexOf(groups, g)
    }

    // The selection state without the tree structure.
    ghost function Flattened(): (v: View<Element>)
      reads this`groups, this`current, groups`forest, groups`current
      ensures Sized(v) && |v.orders| == |groups|
    {
      View(OrdersOf(groups), PicksOf(groups),
           if current == null || current !in groups then None else Some(At(current)))
    }

    lemma FlattenedLive()
      requires Valid()
      ensures Live(Flattened())
    {
      var v := Flattened();
      forall i | 0 <= i < |groups|
        ensures Unique(v.orders[i])
        ensures v.picks[i].Some? ==> v.picks[i].value in v.orders[i]
      {
        assert GroupOk(groups[i]) && PickOk(groups[i]);
        UniquePreorder(groups[i].forest);
        PreorderElems(groups[i].forest);
      }
    }

    constructor ()
      ensures Valid() && groups == [] && current == null && live == {}
    {
      groups, current, live := [], null, {};
    }

    // Nothing was changed.
    twostate lemma Same()
      requires old(Valid()) && unchanged(this) && unchanged(live) && unchanged(groups)
      ensures Valid() && Flattened() == old(Flattened())
    {
    }

    // Only current_group was changed.
    twostate lemma Moved()
      requires old(Valid()) && groups == old(groups) && live == old(live)
      requires unchanged(live) && unchanged(groups)
      requires current != null ==> current in groups
      ensures Valid()
      ensures Flattened() == old(Flattened()).(cur := if current == null then None else Some(At(current)))
    {
    }

    method GroupSelectFirst() returns (r: Group?)
      requires Valid()
      modifies this`current
      ensures Valid() && r == current && (current == null <==> groups == [])
      ensures Flattened() == GroupFirst(old(Flattened()))
    {
      if groups == [] { current := null; } else { current := groups[0]; }
      Moved();
      return current;
    }

    method GroupSelectLast() returns (r: Group?)
      requires Valid()
      modifies this`current
      ensures Valid() && r == current && (current == null <==> groups == [])
      ensures Flattened() == GroupLast(old(Flattened()))
    {
      if groups == [] {
        current := null;
      } else {
        current := groups[|groups| - 1];
        IndexUnique(groups, |groups| - 1);
      }
      Moved();
      return current;
    }

    method GroupSelectNext() returns (r: Group?)
      requires Valid()
      modifies this`current
      ensures Valid() && r == current && (current == null <==> groups == [])
      ensures Flattened() == GroupNext(old(Flattened()))
    {
      if current == null { r := GroupSelectFirst(); return; }
      var c: Group := current;
      Neighbours(groups, At(c));
      var n := After(groups, c);
      if n == None { r := GroupSelectFirst(); return; }
      current := n.value;
      IndexUnique(groups, At(c) + 1);
      Moved();
      return current;
    }

    method GroupSelectPrev() returns (r: Group?)
      requires Valid()
      modifies this`current
      ensures Valid() && r == current && (current == null <==> groups == [])
      ensures Flattened() == GroupPrev(old(Flattened()))
    {
      if current == null { r := GroupSelectLast(); return; }
      var c: Group := current;
      Neighbours(groups, At(c));
      var p := Preceding(groups, c);
      if p == None { r := GroupSelectLast(); return; }
      current := p.value;
      IndexUnique(groups, At(c) - 1);
      Moved();
      return current;
    }

    method GroupCurrent() returns (r: Group?)
      requires Valid()
      modifies this`current
      ensures Valid() && r == current && (current == null <==> groups == [])
      ensures Flattened() == old(Flattened()).(cur := Current(old(Flattened())))
      ensures old(current) != null ==> current == old(current)
    {
      if current == null { current := GroupSelectFirst(); }
      Moved();
      return current;
    }

    // What the flat view shows of one group.
    lemma Shown(g: Group)
      requires Valid() && g in groups
      ensures Flattened().orders[At(g)] == Preorder(g.forest)
      ensures Flattened().picks[At(g)] == AsOption(g.current)
      ensures (Preorder(g.forest) == []) == (g.elements == [])
      ensures g.elements != [] ==> Preorder(g.forest)[0] == g.elements[0] && g.elements[0] in Elems(g.forest)
    {
      assert GroupOk(g);
      RootsIn(g.forest);
      PreorderElems(g.forest);
    }

    // g_current of group g is set.
    method Assign(g: Group, x: Element?)
      requires Unique(groups) && g in groups
      modifies g`current
      ensures g.current == x
      ensures Flattened() == Picking(old(Flattened()), At(g), AsOption(x))
    {
      g.current := x;
      PicksSet(groups, g, old(PicksOf(groups)));
    }

    method SetPick(g: Group, x: Element?)
      requires Valid() && g in groups && (x != null ==> x in Elems(g.forest))
      modifies g`current
      ensures Valid() && g.current == x
      ensures Flattened() == Picking(old(Flattened()), At(g), AsOption(x))
    {
      Assign(g, x);
    }

    method ElementSelectFirst() returns (r: Element?)
      requires Valid()
      modifies this`current, groups`current
      ensures Valid()
      ensures Flattened() == SelectFirst(old(Flattened()))
      ensures r == if current == null then null else current.current
    {
      var g := GroupCurrent();
      if g == null { return null; }
      assert GroupOk(g) && PickOk(g);
      Shown(g);
      if g.elements == [] { SetPick(g, null); } else { SetPick(g, g.elements[0]); }
      return g.current;
    }

    method ElementSelectLast() returns (r: Element?)
      requires Valid()
      modifies this`current, groups`current
      ensures Valid()
      ensures Flattened() == SelectLast(old(Flattened()))
      ensures r == if current == null then null else current.current
    {
      var g := GroupCurrent();
      if g == null { return null; }
      assert GroupOk(g) && PickOk(g);
      Shown(g);
      ghost var v, i := Flattened(), At(g);
      if g.elements == [] {
        SetPick(g, null);
        return null;
      }
      label found:
      r := LastElement(g);
      Same@found();
      SetPick(g, r);
      assert Flattened() == Pick(v, i, Last(v.orders[i]));
    }

    // What comes behind or in front of the selected element in its group.
    method NextInGroup(g: Group, from: Element) returns (r: Element?)
      requires Valid() && g in groups && g.current == from
      ensures Valid() && Flattened() == old(Flattened()) && (r != null ==> r in Elems(g.forest))
      ensures var order := Flattened().orders[At(g)]; var i := IndexOf(order, from);
        AsOption(r) == if i + 1 < |order| then Some(order[i + 1]) else None
    {
      assert GroupOk(g) && PickOk(g);
      Shown(g);
      r := Successor(g, from);
      Same();
    }

    method PrevInGroup(g: Group, from: Element) returns (r: Element?)
      requires Valid() && g in groups && g.current == from
      ensures Valid() && Flattened() == old(Flattened()) && (r != null ==> r in Elems(g.forest))
      ensures var order := Flattened().orders[At(g)]; var i := IndexOf(order, from);
        i <= |order| && AsOption(r) == if i > 0 then Some(order[i - 1]) else None
    {
      assert GroupOk(g) && PickOk(g);
      Shown(g);
      r := Predecessor(g, from);
      Same();
    }

    // element_select_next with an element selected in the current group.
    method SelectBehind(g: Group, from: Element) returns (r: Element?)
      requires Valid() && current == g && g.current == from
      modifies this`current, groups`current
      ensures Valid() && current != null && r == current.current
      ensures Flattened() == SelectNext(old(Flattened()))
    {
      ghost var v, i := Flattened(), At(g);
      assert v.cur == Some(i) && v.picks[i] == Some(from);
      r := NextInGroup(g, from);
      if r == null {
        var _ := GroupSelectNext();
        r := ElementSelectFirst();
      } else {
        SetPick(g, r);
      }
    }

    // element_select_prev likewise.
    method SelectInFront(g: Group, from: Element) returns (r: Element?)
      requires Valid() && current == g && g.current == from
      modifies this`current, groups`current
      ensures Valid() && current != null && r == current.current
      ensures Flattened() == SelectPrev(old(Flattened()))
    {
      ghost var v, i := Flattened(), At(g);
      assert v.cur == Some(i) && v.picks[i] == Some(from);
      r := PrevInGroup(g, from);
      if r == null {
        var _ := GroupSelectPrev();
        r := ElementSelectLast();
      } else {
        SetPick(g, r);
      }
    }

    method ElementSelectNext() returns (r: Element?)
      requires Valid()
      modifies this`current, groups`current
      ensures Valid()
      ensures Flattened() == SelectNext(old(Flattened()))
      ensures r == if current == null then null else current.current
    {
      ghost var v := Flattened();
      var g := GroupCurrent();
      if g == null { return null; }
      SelectFromCurrent(v);
      Shown(g);
      if g.current == null { r := ElementSelectFirst(); } else { r := SelectBehind(g, g.current); }
    }

    method ElementSelectPrev() returns (r: Element?)
      requires Valid()
      modifies this`current, groups`current
      ensures Valid()
      ensures Flattened() == SelectPrev(old(Flattened()))
      ensures r == if current == null then null else current.current
    {
      ghost var v := Flattened();
      var g := GroupCurrent();
      if g == null { return null; }
      SelectFromCurrent(v);
      Shown(g);
      if g.current == null { r := ElementSelectLast(); } else { r := SelectInFront(g, g.current); }
    }

    // The selection repair of element_free.
    method MoveOff(e: Element)
      requires Valid() && Owned(e)
      modifies this`current, groups`current
      ensures Valid() && Owned(e) && e.group.current != e
      ensures Flattened() == StepOff(old(Flattened()), At(e.group), e)
    {
      var g := e.group;
      Shown(g);
      if g.current != e { return; }
      var _ := ElementSelectPrev();
      assert Owned(e);
      ClearPick(e);
    }

    // If e is still selected, then nothing is.
    method ClearPick(e: Element)
      requires Valid() && Owned(e)
      modifies groups`current
      ensures Valid() && e.group.current != e
      ensures var w, i := old(Flattened()), At(e.group);
        Flattened() == if w.picks[i] == Some(e) then Picking(w, i, None) else w
    {
      Shown(e.group);
      if e.group.current == e { SetPick(e.group, null); }
    }

    // Only e has left the lists: its own list lost it, all other lists are as before.
    twostate predicate OnlyLost(e: Element)
      reads e, e.group, groups, this, live
    {
      && groups == old(groups) && live == old(live) - {e}
      && e.group.forest == Cut(old(e.group.forest), {e})
      && e.group.nelements == old(e.group.nelements) - 1
      && e.group.elements == (if e.parent == null then Drop(old(e.group.elements), e) else old(e.group.elements))
      && (forall x: Element :: x in live + {e} ==>
            x.childs == if e.parent == x then Drop(old(x.childs), e) else old(x.childs))
      && (forall h: Group :: h in groups && h != e.group ==> unchanged(h))
    }

    twostate lemma UnhookedGroup(e: Element)
      requires old(Shape()) && old(Owned(e))
      requires KidsOf(old(e.group.forest), e) == Nil
      requires OnlyLost(e)
      ensures GroupOk(e.group) && Elems(e.group.forest) == old(Elems(e.group.forest)) - {e}
      ensures Preorder(e.group.forest) == Drop(old(Preorder(e.group.forest)), e)
    {
      var g := e.group;
      var f := old(g.forest);
      assert old(GroupOk(g));
      LeafCut(f, g, e);
      forall x: Element | x in Elems(g.forest) ensures x.childs == Roots(KidsOf(g.forest, x)) {
        assert old(x.childs) == Roots(KidsOf(f, x));
        LeafLists(f, g, e, x);
      }
    }

    twostate lemma Unhooked(e: Element)
      requires old(Shape()) && old(Owned(e))
      requires KidsOf(old(e.group.forest), e) == Nil
      requires OnlyLost(e)
      ensures Shape()
      ensures Preorder(e.group.forest) == Drop(old(Preorder(e.group.forest)), e)
      ensures Elems(e.group.forest) == old(Elems(e.group.forest)) - {e}
    {
      UnhookedGroup(e);
      UnhookedOthers(e);
      forall x: Element | x in live ensures Owned(x) {
        assert old(Owned(x));
        assert x.group != e.group ==> x.group.forest == old(x.group.forest);
      }
      forall h: Group | h in groups ensures GroupOk(h) && Elems(h.forest) <= live {
        assert old(GroupOk(h));
      }
    }

    twostate lemma UnhookedOthers(e: Element)
      requires old(Shape()) && old(Owned(e))
      requires OnlyLost(e)
      ensures forall h: Group {:trigger GroupOk(h)} :: h in groups && h != e.group ==>
                GroupOk(h) && Elems(h.forest) <= live
    {
      assert old(GroupOk(e.group));
      TreeMember(old(e.group.forest), null, e.group, e);
      if e.parent != null { TreeMember(old(e.group.forest), null, e.group, e.parent); }
      forall h: Group | h in groups && h != e.group ensures GroupOk(h) && Elems(h.forest) <= live {
        assert old(GroupOk(h));
        TreeGroup(h.forest, null, h);
        assert forall x: Element :: x in Elems(h.forest) ==> x.childs == old(x.childs);
      }
    }

    // No selection is lost with e.
    twostate lemma UnhookedPicks(e: Element)
      requires old(Valid()) && Shape() && OnlyLost(e) && current == old(current)
      requires Elems(e.group.forest) == old(Elems(e.group.forest)) - {e}
      requires e.group.current == old(e.group.current) != e
      ensures Valid()
    {
      forall h: Group | h in groups ensures PickOk(h) {
        assert old(PickOk(h));
      }
    }

    twostate lemma UnhookedView(e: Element)
      requires Unique(groups) && groups == old(groups) && e.group in groups && current == old(current)
      requires PicksOf(groups) == old(PicksOf(groups))
      requires forall h: Group :: h in groups && h != e.group ==> h.forest == old(h.forest)
      requires Preorder(e.group.forest) == Drop(old(Preorder(e.group.forest)), e)
      ensures Flattened() == Removed(old(Flattened()), At(e.group), e)
    {
      OrdersSet(groups, e.group, old(OrdersOf(groups)));
      assert old(OrdersOf(groups))[At(e.group)] == old(Preorder(e.group.forest));
    }

    // list_del and the count.
    method Detach(e: Element)
      requires e.group.nelements > 0 && (e.parent != null ==> e.parent in live)
      modifies this`live, e.group`elements, e.group`nelements, e.group`forest, live`childs
      ensures OnlyLost(e) && PicksOf(groups) == old(PicksOf(groups))
    {
      var g := e.group;
      if e.parent == null {
        g.elements := Drop(g.elements, e);
      } else {
        e.parent.childs := Drop(e.parent.childs, e);
      }
      g.nelements := g.nelements - 1;
      g.forest := Cut(g.forest, {e});
      live := live - {e};
    }

    // The rest of element_free for a childless element that is not selected.
    method Unhook(e: Element)
      requires Valid() && Owned(e) && e.childs == [] && e.group.current != e
      modifies this`live, e.group`elements, e.group`nelements, e.group`forest, live`childs
      ensures Valid() && groups == old(groups) && live == old(live) - {e} && e.childs == []
      ensures e.group.forest == Cut(old(e.group.forest), {e})
      ensures Flattened() == Removed(old(Flattened()), At(e.group), e)
    {
      var g := e.group;
      assert GroupOk(g);
      RootsIn(KidsOf(g.forest, e));
      TreeMember(g.forest, null, g, e);
      SizeOfMember(g.forest, e);
      assert e.parent != null ==> e.parent in live;
      Detach(e);
      Unhooked(e);
      UnhookedPicks(e);
      UnhookedView(e);
    }

    // Where the freeing of the children k of e stands.
    ghost function Stage(e: Element, k: Forest<Element>): Freeing
      reads this, groups, e.group
    {
      Freeing(k, live, Flattened(), Cut(e.group.forest, {e}))
    }

    twostate predicate OthersKept(g: Group)
      reads this, groups
    {
      groups == old(groups) && forall h: Group :: h in groups && h != g ==> h.forest == old(h.forest)
    }

    // One turn of the loop in element_free over the children k of e: c is the first child that is left.
    method FreeChild(e: Element, c: Element, ghost k: Forest<Element>)
      requires Valid() && Owned(e)
      requires k == KidsOf(e.group.forest, e) && k.Node? && c == k.e
      modifies this, groups, live`childs
      ensures Valid() && groups == old(groups) && Owned(e)
      ensures KidsOf(e.group.forest, e) == k.sibs
      ensures Underway(old(Stage(e, k)), Stage(e, k.sibs), At(e.group))
      ensures OthersKept(e.group)
      decreases Size(k), 0
    {
      var g := e.group;
      assert GroupOk(g);
      ghost var a := Stage(e, k);
      FirstChildCut(g.forest, e);
      TreeGroup(g.forest, null, g);
      assert Owned(c);
      ElementFree(c);
      FirstChildGone(a, Stage(e, k.sibs), At(g));
    }

    // The loop of element_free over the children k of e.
    method FreeChildren(e: Element, ghost k: Forest<Element>)
      requires Valid() && Owned(e) && k == KidsOf(e.group.forest, e)
      modifies this, groups, live`childs
      ensures Valid() && groups == old(groups) && Owned(e) && e.childs == []
      ensures KidsOf(e.group.forest, e) == Nil
      ensures Underway(old(Stage(e, k)), Stage(e, Nil), At(e.group))
      ensures OthersKept(e.group)
      decreases Size(k), 1
    {
      var g := e.group;
      assert GroupOk(g);
      ghost var a, i, rest := Stage(e, k), At(g), k;
      RootsIn(k);
      var c: Element? := if e.childs == [] then null else e.childs[0];
      while c != null
        invariant Valid() && groups == old(groups) && Owned(e) && rest == KidsOf(g.forest, e)
        invariant AsOption(c) == if rest.Nil? then None else Some(rest.e)
        invariant Underway(a, Stage(e, rest), i)
        invariant OthersKept(g)
        decreases Size(rest)
      {
        assert GroupOk(g);
        NextRoot(rest);
        assert e.childs == Roots(rest);
        var n := After(e.childs, c);
        FreeChild(e, c, rest);
        rest := rest.sibs;
        c := if n == None then null else n.value;
      }
      assert GroupOk(g);
      RootsIn(KidsOf(g.forest, e));
    }

    // Frees e and everything below it: the children first, then e itself.
    method ElementFree(e: Element)
      requires Valid() && Owned(e)
      modifies this, groups, live`childs
      ensures Valid() && groups == old(groups)
      ensures live == old(live) - {e} - Elems(KidsOf(old(e.group.forest), e))
      ensures e.group.forest == Cut(old(e.group.forest), {e})
      ensures OthersKept(e.group) && e.childs == []
      ensures Flattened() == UnlinkAll(old(Flattened()), At(e.group),
        Postorder(Node(e, KidsOf(old(e.group.forest), e), Nil)))
      decreases Size(KidsOf(e.group.forest, e)), 2
    {
      ghost var k := KidsOf(e.group.forest, e);
      ghost var a := Stage(e, k);
      FreeSplit(Flattened(), At(e.group), Node(e, k, Nil));
      FreeChildren(e, k);
      AllGone(a, Stage(e, Nil), At(e.group));
      FreeBare(e);
    }

    // The rest of element_free, when e has no children left.
    method FreeBare(e: Element)
      requires Valid() && Owned(e) && e.childs == []
      modifies this, groups, live`childs
      ensures Valid() && groups == old(groups) && live == old(live) - {e}
      ensures e.group.forest == Cut(old(e.group.forest), {e})
      ensures OthersKept(e.group) && e.childs == []
      ensures Flattened() == Unlink(old(Flattened()), At(e.group), e)
    {
      ghost var v, i := Flattened(), At(e.group);
      MoveOff(e);
      ghost var w := Flattened();
      assert w == StepOff(v, i, e);
      Unhook(e);
      assert At(e.group) == i && Flattened() == Removed(w, i, e);
    }

    ghost function Now(): Snapshot
      reads this, groups, live
    {
      Snapshot(Flattened(), live, map x | x in live :: x.lifecycles, map h: Group | h in groups :: h.forest)
    }

    // Only the forest of g was changed, and no counter.
    twostate lemma ForestSet(g: Group)
      requires groups == old(groups) && g in groups && OthersKept(g) && live <= old(live)
      requires unchanged(live`lifecycles)
      ensures Now().forests == old(Now()).forests[g := g.forest]
      ensures forall x: Element :: x in live ==>
                x in Now().life && x in old(Now()).life && Now().life[x] == old(Now()).life[x]
    {
    }

    // element_free once more, as a step between snapshots.
    method FreeWhole(e: Element)
      requires Valid() && Owned(e)
      modifies this, groups, live`childs
      ensures Valid() && groups == old(groups) && e.childs == []
      ensures Subtree(old(e.group.forest), e) !! live
      ensures Ticked(old(Now()), Now(), e.group, Subtree(old(e.group.forest), e), {e})
      ensures Flattened() == UnlinkAll(old(Flattened()), At(e.group),
        Postorder(Node(e, KidsOf(old(e.group.forest), e), Nil)))
    {
      ghost var b, k := Now(), KidsOf(e.group.forest, e);
      assert GroupOk(e.group);
      ElementFree(e);
      assert live <= old(live) && e.group in groups;
      ForestSet(e.group);
      FreedTicks(b, Now(), e.group, e, k);
    }

    // --e_lifecycles
    method TickOne(e: Element)
      requires Valid() && Owned(e) && e in live
      modifies e`lifecycles
      ensures Valid() && Owned(e) && e.lifecycles == Tick(old(e.lifecycles))
      ensures Ticked(old(Now()), Now(), e.group, {e}, {}) && Flattened() == old(Flattened())
    {
      ghost var b := Now();
      e.lifecycles := Tick(e.lifecycles);
      Ticking(e);
      TickOnly(b, Now(), e.group, e);
    }

    // Only the counter of e was changed.
    twostate lemma Ticking(e: Element)
      requires old(Valid()) && old(Owned(e)) && e in old(live) && e.lifecycles == Tick(old(e.lifecycles))
      requires unchanged(this) && unchanged(groups) && unchanged(live`childs)
      requires forall x: Element :: x in live && x != e ==> x.lifecycles == old(x.lifecycles)
      ensures Valid() && Owned(e)
      ensures Now() == old(Now()).(life := old(Now()).life[e := e.lifecycles])
    {
    }

    // element_check_if_dead
    method CheckIfDead(e: Element)
      requires Valid() && Owned(e) && e in live
      modifies this, groups, live
      ensures Valid() && groups == old(groups)
      ensures if Tick(old(e.lifecycles)) == 0
        then Ticked(old(Now()), Now(), e.group, Subtree(old(e.group.forest), e), {e}) && e.childs == []
        else Ticked(old(Now()), Now(), e.group, {e}, {}) && e.childs == old(e.childs) &&
             e.group.forest == old(e.group.forest) && live == old(live)
      ensures Flattened() == if Tick(old(e.lifecycles)) != 0 then old(Flattened()) else
        UnlinkAll(old(Flattened()), At(e.group), Postorder(Node(e, KidsOf(old(e.group.forest), e), Nil)))
    {
      ghost var b, f := Now(), e.group.forest;
      TickOne(e);
      if e.lifecycles <= 0 {
        ghost var m := Now();
        FreeWhole(e);
        TickedFreed(b, m, Now(), e.group, e, Subtree(f, e));
      }
    }

    // The list that hangs off owner, or g_elements.
    function ListOf(g: Group, owner: Element?): seq<Element>
      reads g, owner
    {
      if owner == null then g.elements else owner.childs
    }

    // One turn of __group_foreach_element with element_check_if_dead: the callback on e, then the
    // list below e. The callback may have freed e; its child list is empty then.
    method CheckTree(e: Element)
      requires Valid() && Owned(e) && Subtree(e.group.forest, e) <= live
      modifies this, groups, live
      ensures Valid() && groups == old(groups)
      ensures var t := Subtree(old(e.group.forest), e);
        && Ticked(old(Now()), Now(), e.group, t, Doomed(t, old(Now()).life))
        && Flattened() == UnlinkAll(old(Flattened()), At(e.group),
             Gone(Node(e, KidsOf(old(e.group.forest), e), Nil), Doomed(t, old(Now()).life)))
      decreases Size(KidsOf(e.group.forest, e)), 1
    {
      var g := e.group;
      assert GroupOk(g);
      ghost var b, f, k, t := Now(), g.forest, KidsOf(g.forest, e), Subtree(g.forest, e);
      ghost var d := Doomed(t, b.life);
      RootsIn(k);
      CutTree(f, e, d);
      CutNothing(f, {});
      GoneTree(e, k, d);
      CheckIfDead(e);
      ghost var m := Now();
      if e.childs != [] {
        assert g.forest == f && Owned(e);
        CheckList(g, e);
        TickedTree(b, m, Now(), g, e, Elems(k));
        GoneBelow(b, m, g, e, k);
      } else if Tick(b.life[e]) != 0 {
        LoneTick(k, e, b.life);
      }
    }

    // The first tree of rest, while the pass over the trees below owner has done those before it:
    // what is next in the list is remembered first, then the tree is checked.
    method CheckNext(g: Group, owner: Element?, c: Element, ghost b: Snapshot, ghost rest: Forest<Element>)
      returns (n: Option<Element>)
      requires Valid() && g in groups && g in b.forests
      requires owner != null ==> Owned(owner) && owner.group == g && owner in Elems(b.forests[g])
      requires Distinct(b.forests[g]) && Suffix(rest, Below(b.forests[g], owner)) && rest.Node? && c == rest.e
      requires Elems(Below(b.forests[g], owner)) <= b.life.Keys
      requires PassAt(b, Now(), g, owner, rest)
      requires var k := Below(b.forests[g], owner);
        Heading(b.view, Flattened(), At(g), k, rest, Doomed(Elems(k), b.life))
      modifies this, groups, live
      ensures Valid() && groups == old(groups) && (owner != null ==> Owned(owner))
      ensures n == if rest.sibs.Nil? then None else Some(rest.sibs.e)
      ensures PassAt(b, Now(), g, owner, rest.sibs)
      ensures var k := Below(b.forests[g], owner);
        Heading(b.view, Flattened(), At(g), k, rest.sibs, Doomed(Elems(k), b.life))
      decreases Size(rest.kids), 2
    {
      assert GroupOk(g);
      ghost var m := Now();
      AtTree(b, m, g, owner, rest);
      assert c in Elems(m.forests[g]) && m.forests[g] == g.forest;
      TreeMember(g.forest, null, g, c);
      assert c.group == g;
      assert Owned(c);
      n := After(ListOf(g, owner), c);
      CheckTree(c);
      TreeDone(b, m, Now(), g, owner, rest, At(g));
      if owner != null {
        assert owner in live;
        assert Owned(owner);
      }
    }

    // The pass over the list that hangs off owner and everything below it.
    method CheckList(g: Group, owner: Element?)
      requires Valid() && g in groups && (owner != null ==> Owned(owner) && owner.group == g)
      requires Elems(Below(g.forest, owner)) <= live
      modifies this, groups, live
      ensures Valid() && groups == old(groups)
      ensures var k := Elems(Below(old(g.forest), owner));
        && Ticked(old(Now()), Now(), g, k, Doomed(k, old(Now()).life))
        && Flattened() ==
           UnlinkAll(old(Flattened()), At(g), Gone(Below(old(g.forest), owner), Doomed(k, old(Now()).life)))
      decreases Size(Below(g.forest, owner)), 0
    {
      assert GroupOk(g);
      ghost var b, k, rest := Now(), Below(g.forest, owner), Below(g.forest, owner);
      ghost var dying := Doomed(Elems(k), b.life);
      RootsIn(k);
      PassStart(b, g, owner);
      var list := ListOf(g, owner);
      var e: Element? := if list == [] then null else list[0];
      while e != null
        invariant Valid() && groups == old(groups) && (owner != null ==> Owned(owner))
        invariant Suffix(rest, k) && AsOption(e) == if rest.Nil? then None else Some(rest.e)
        invariant PassAt(b, Now(), g, owner, rest)
        invariant Heading(b.view, Flattened(), At(g), k, rest, dying)
        decreases Size(rest)
      {
        SuffixNext(k, rest);
        var n := CheckNext(g, owner, e, b, rest);
        rest := rest.sibs;
        e := if n == None then null else n.value;
      }
    }

    lemma NowProper()
      requires Valid()
      ensures Proper(Now())
    {
      var s := Now();
      forall g | g in s.forests ensures Distinct(s.forests[g]) && Elems(s.forests[g]) <= s.live {
        assert GroupOk(g);
      }
      forall g, h | g in s.forests && h in s.forests && g != h
        ensures Elems(s.forests[g]) !! Elems(s.forests[h])
      {
        assert GroupOk(g) && GroupOk(h);
        TreeGroup(s.forests[g], null, g);
        TreeGroup(s.forests[h], null, h);
      }
    }

    // free_unused_elements for one group, when those in done have had their pass since b.
    method CheckGroup(g: Group, ghost b: Snapshot, ghost done: set<Group>)
      requires Valid() && g in groups && g !in done && Passed(b, Now(), done)
      modifies this, groups, live
      ensures Valid() && groups == old(groups) && live <= old(live)
      ensures Passed(b, Now(), done + {g}) && g in b.forests
      ensures Flattened() == UnlinkAll(old(Flattened()), At(g), Gone(b.forests[g], DoomedIn(b, g)))
    {
      ghost var m := Now();
      NowProper();
      assert GroupOk(g);
      StillDue(b, m, done, g);
      CheckList(g, null);
      NowProper();
      PassedOne(m, Now(), g);
      PassedMore(b, m, Now(), done, g);
    }

    // The same for the group with number i, when the groups before it had their pass since b. What is next
    // in the list is remembered first.
    method CheckNumber(g: Group, ghost gs: seq<Group>, ghost i: nat, ghost b: Snapshot)
      returns (n: Group?, ghost j: nat)
      requires Valid() && groups == gs && Lists(b, gs)
      requires i < |gs| && g == gs[i] && Midway(b, Now(), gs, i)
      modifies this, groups, live
      ensures Valid() && groups == gs && live <= old(live)
      ensures i < j <= |gs| && n == if j < |gs| then gs[j] else null
      ensures Midway(b, Now(), gs, j)
    {
      ghost var m := Now();
      Neighbours(groups, i);
      IndexUnique(groups, i);
      NotLeading(gs, i);
      var next := After(groups, g);
      CheckGroup(g, b, Leading(gs, i));
      MidwayStep(b, m, Now(), gs, i);
      n := if next == None then null else next.value;
      j := i + 1;
    }

    // The flat view of a snapshot shows its forests.
    lemma NowHolds()
      requires Valid()
      ensures Proper(Now()) && Live(Flattened()) && Holding(Flattened(), ForestsOf(Now(), groups))
    {
      NowProper();
      FlattenedLive();
    }

    // free_unused_elements: every group goes through exactly one lifetime pass, and the selection through
    // the sweep over the trees that go.
    method FreeUnusedElements()
      requires Valid()
      modifies this, groups, live
      ensures Valid() && groups == old(groups)
      ensures Members(groups) == old(Now()).forests.Keys && Passed(old(Now()), Now(), Members(groups))
      ensures Flattened() == Sweep(old(Flattened()), ForestsOf(old(Now()), groups), DyingOf(old(Now()), groups))
    {
      ghost var b, gs, i := Now(), groups, 0;
      NowProper();
      MidwayStart(b, gs);
      var g: Group? := if groups == [] then null else groups[0];
      while g != null
        invariant Valid() && groups == gs && live <= old(live) && i <= |gs|
        invariant g == if i < |gs| then gs[i] else null
        invariant Midway(b, Now(), gs, i)
        decreases |gs| - i
      {
        g, i := CheckNumber(g, gs, i, b);
      }
      MidwayEnd(b, Now(), gs);
    }

    // group_lookup; titled tells whether there is a title for a group of this name.
    method GroupLookup(name: string, create: bool, titled: bool) returns (r: Group?)
      requires Valid()
      modifies this`groups
      ensures Valid()
      ensures var found := FindGroup(old(groups), name);
        if found.Some? || !create || !titled then
          groups == old(groups) && (if found.Some? then r == found.value else r == null)
        else
          && r != null && fresh(r) && r.name == name && groups == old(groups) + [r]
          && Now().forests == old(Now()).forests[r := Nil] && Now().life == old(Now()).life
          && Flattened() == WithGroup(old(Flattened()))
    {
      var i := 0;
      while i < |groups|
        invariant i <= |groups| && FindGroup(groups, name) == FindGroup(groups[i..], name)
      {
        if groups[i].name == name { return groups[i]; }
        i := i + 1;
      }
      if !create || !titled { return null; }
      var g := new Group(name);
      groups := groups + [g];
      GroupAdded(g);
      GroupShown(g);
      GroupRecorded(g);
      GroupUncounted(g);
      r := g;
    }

    // Only the empty group g was appended.
    twostate predicate OnlyGroup(new g: Group)
      reads this, g, groups, live
    {
      && groups == old(groups) + [g] && g !in old(groups)
      && g.elements == [] && g.nelements == 0 && g.current == null && g.forest == Nil
      && live == old(live) && current == old(current)
      && (forall h: Group :: h in old(groups) && h in groups ==> unchanged(h))
      && (forall x: Element :: x in live ==> unchanged(x))
    }

    twostate lemma GroupAdded(new g: Group)
      requires old(Valid()) && OnlyGroup(g)
      ensures Valid()
    {
      assert forall h: Group :: h in groups ==> h == g || h in old(groups);
      forall h: Group | h in groups ensures GroupOk(h) && Elems(h.forest) <= live {
        if h != g { assert old(GroupOk(h)); }
      }
      forall h: Group | h in groups ensures PickOk(h) {
        if h != g { assert old(PickOk(h)); }
      }
      forall x: Element | x in live ensures Owned(x) {
        assert old(Owned(x));
        assert x.group in old(groups);
      }
    }

    twostate lemma GroupShown(new g: Group)
      requires old(Valid()) && OnlyGroup(g)
      ensures Flattened() == WithGroup(old(Flattened()))
    {
      var n := |old(groups)|;
      assert groups[..n] == old(groups) && groups[n] == g;
      var orders, picks := old(OrdersOf(groups)), old(PicksOf(groups));
      forall i | 0 <= i < n
        ensures OrdersOf(groups)[i] == orders[i] && PicksOf(groups)[i] == picks[i]
      {
        assert groups[i] == old(groups)[i] && groups[i] in old(groups);
        assert groups[i].forest == old(groups[i].forest) && groups[i].current == old(groups[i].current);
      }
      assert OrdersOf(groups) == orders + [[]] && PicksOf(groups) == picks + [None];
      if current != null {
        var c: Group := current;
        IndexUnique(groups, old(At(c)));
      }
    }

    twostate lemma GroupRecorded(new g: Group)
      requires OnlyGroup(g)
      ensures Now().forests == old(Now()).forests[g := Nil]
    {
    }

    twostate lemma GroupUncounted(new g: Group)
      requires OnlyGroup(g)
      ensures Now().life == old(Now()).life
    {
    }

    // __lookup_element
    method LookupIn(list: seq<Element>, name: string, id: nat) returns (r: Element?)
      ensures AsOption(r) == Find(list, name, id)
    {
      var i := 0;
      while i < |list|
        invariant i <= |list| && Find(list, name, id) == Find(list[i..], name, id)
      {
        if list[i].name == name && list[i].id == id { return list[i]; }
        i := i + 1;
      }
      return null;
    }

    // e has joined the end of its list in group g, everything else is as before.
    twostate predicate OnlyGained(g: Group, new e: Element)
      reads e, g, groups, this, live
    {
      && e.group == g && e.childs == []
      && groups == old(groups) && e !in old(live) && live == old(live) + {e}
      && g in groups && (e.parent != null ==> e.parent in old(live))
      && g.forest == Adding(old(g.forest), e.parent, e)
      && g.nelements == old(g.nelements) + 1
      && g.elements == old(g.elements) + (if e.parent == null then [e] else [])
      && (forall x: Element :: x in old(live) ==>
            x.childs == if e.parent == x then old(x.childs) + [e] else old(x.childs))
      && (forall h: Group :: h in groups && h != g ==> unchanged(h))
    }

    twostate lemma Gained(g: Group, new e: Element)
      requires old(Shape()) && OnlyGained(g, e)
      requires e.parent != null ==> e.parent in old(Elems(g.forest))
      ensures Shape()
      ensures Elems(g.forest) == old(Elems(g.forest)) + {e}
    {
      var f := old(g.forest);
      assert old(GroupOk(g));
      AddingFacts(f, g, e);
      TreeGroup(f, null, g);
      forall x: Element | x in Elems(g.forest) ensures x.childs == Roots(KidsOf(g.forest, x)) {
        if x != e { assert old(x.childs) == Roots(KidsOf(f, x)); }
      }
      forall h: Group | h in groups && h != g ensures GroupOk(h) && Elems(h.forest) <= live {
        assert old(GroupOk(h));
        TreeGroup(h.forest, null, h);
        assert forall x: Element :: x in Elems(h.forest) ==> x.childs == old(x.childs);
      }
      forall x: Element | x in live ensures Owned(x) {
        if x != e { assert old(Owned(x)); }
      }
    }

    // The selection does not notice a new element.
    twostate lemma GainedSelection(g: Group, new e: Element)
      requires old(Valid()) && OnlyGained(g, e) && Shape()
      requires Elems(g.forest) == old(Elems(g.forest)) + {e}
      requires current == old(current) && g.current == old(g.current)
      ensures Valid() && SameSelection(old(Flattened()), Flattened())
    {
      forall h: Group | h in groups ensures PickOk(h) && h.current == old(h.current) {
        assert old(PickOk(h));
      }
      assert PicksOf(groups) == old(PicksOf(groups));
    }

    twostate lemma GainedSnapshot(g: Group, new e: Element)
      requires OnlyGained(g, e)
      requires forall x: Element :: x in old(live) ==> x.lifecycles == old(x.lifecycles)
      ensures Now().forests == old(Now()).forests[g := g.forest]
      ensures Now().life == old(Now()).life[e := e.lifecycles]
    {
    }

    // list_add_tail and the count.
    method Attach(g: Group, e: Element)
      requires e.group == g && e.childs == [] && e !in live
      requires g in groups && (e.parent != null ==> e.parent in live)
      modifies this`live, g`elements, g`nelements, g`forest, live`childs
      ensures OnlyGained(g, e)
    {
      if e.parent == null {
        g.elements := g.elements + [e];
      } else {
        e.parent.childs := e.parent.childs + [e];
      }
      g.nelements := g.nelements + 1;
      g.forest := Adding(g.forest, e.parent, e);
      live := live + {e};
    }

    // element_lookup; setting is what the configuration of the element says, if there is one.
    method ElementLookup(g: Group, name: string, id: nat, parent: Element?, create: bool,
                         setting: Wildcard.Setting, policy: Wildcard.Policy, lifecycles: nat)
      returns (r: Element?)
      requires Wildcard.NoNul(name) && Wildcard.Readable(policy)
      requires Valid() && g in groups && (parent != null ==> Owned(parent) && parent in live && parent.group == g)
      modifies this`live, g`elements, g`nelements, g`forest, live`childs
      ensures Valid()
      ensures var found := Find(old(ListOf(g, parent)), name, id);
        if found.Some? || !create || !Wildcard.Permitted(name, setting, policy) then
          AsOption(r) == found && Now() == old(Now())
        else
          && r != null && fresh(r)
          && r.name == name && r.id == id && r.parent == parent && r.group == g && r.childs == []
          && Now().forests == old(Now()).forests[g := Adding(old(g.forest), parent, r)]
          && Now().life == old(Now()).life[r := lifecycles]
          && SameSelection(old(Flattened()), Flattened())
    {
      label start:
      r := LookupIn(ListOf(g, parent), name, id);
      Same@start();
      if r != null || !create { return; }
      var allowed := Wildcard.ElementAllowed(name, setting, policy);
      Same@start();
      if !allowed { return; }
      var e := new Element(name, id, parent, g, lifecycles);
      Attach(g, e);
      Gained(g, e);
      GainedSelection(g, e);
      GainedSnapshot(g, e);
      r := e;
    }

    // element_lifesign: n lifetimes, on an unsigned int.
    method ElementLifesign(e: Element, n: int, lifecycles: nat)
      requires Valid() && Owned(e) && e in live
      modifies e`lifecycles
      ensures Valid()
      ensures Now() == old(Now()).(life := old(Now()).life[e := (n * lifecycles) % (UINT_MAX + 1)])
    {
      e.lifecycles := (n * lifecycles) % (UINT_MAX + 1);
    }
  }
}
