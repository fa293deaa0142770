// The selection state of all groups, seen flat: every group is just the preorder of its elements.
// SelectNext and SelectPrev below are the simple form of the tree walk in element.c.
module Selection {
  import opened Options
  import opened Forests

  // orders[g]: the elements of group g in preorder; picks[g]: its g_current; cur: current_group.
  datatype View<T> = View(orders: seq<seq<T>>, picks: seq<Option<T>>, cur: Option<nat>)

  ghost predicate Unique<T>(s: seq<T>) {
    forall i, j :: 0 <= i < j < |s| ==> s[i] != s[j]
  }

  ghost predicate Sized<T>(v: View<T>) {
    |v.orders| == |v.picks| && (v.cur.Some? ==> v.cur.value < |v.orders|)
  }

  // Every selection is empty or an element of its own group.
  ghost predicate Live<T>(v: View<T>) {
    && Sized(v)
    && (forall g :: 0 <= g < |v.orders| ==> Unique(v.orders[g]))
    && (forall g :: 0 <= g < |v.orders| && v.picks[g].Some? ==> v.picks[g].value in v.orders[g])
  }

  // group_current: the first group stands in for an unset one.
  ghost function Current<T>(v: View<T>): Option<nat> {
    if v.cur.Some? then v.cur else if |v.orders| > 0 then Some(0) else None
  }

  ghost function First<T>(s: seq<T>): Option<T> {
    if s == [] then None else Some(s[0])
  }

  ghost function Last<T>(s: seq<T>): Option<T> {
    if s == [] then None else Some(s[|s| - 1])
  }

  // The first place of x, or |s|.
  ghost function IndexOf<T>(s: seq<T>, x: T): (i: nat)
    ensures i <= |s|
    ensures x in s ==> i < |s| && s[i] == x
  {
    if s == [] || s[0] == x then 0 else 1 + IndexOf(s[1..], x)
  }

  ghost function Picking<T>(v: View<T>, g: nat, p: Option<T>): View<T>
    requires g < |v.picks|
  {
    v.(picks := v.picks[g := p])
  }

  // Group g is current and selects p.
  ghost function Pick<T>(v: View<T>, g: nat, p: Option<T>): View<T>
    requires g < |v.picks|
  {
    View(v.orders, v.picks[g := p], Some(g))
  }

  ghost function SelectFirst<T>(v: View<T>): View<T>
    requires Sized(v)
  {
    match Current(v)
    case None => v
    case Some(g) => Pick(v, g, First(v.orders[g]))
  }

  ghost function SelectLast<T>(v: View<T>): View<T>
    requires Sized(v)
  {
    match Current(v)
    case None => v
    case Some(g) => Pick(v, g, Last(v.orders[g]))
  }

  // The neighbours of group g in the ring of n groups.
  function GroupAfter(n: nat, g: nat): nat {
    if g + 1 < n then g + 1 else 0
  }

  function GroupBefore(n: nat, g: nat): int {
    if g > 0 then g - 1 else n - 1
  }

  // group_select_first, last, next and prev.
  ghost function GroupFirst<T>(v: View<T>): View<T> {
    v.(cur := if |v.orders| == 0 then None else Some(0))
  }

  ghost function GroupLast<T>(v: View<T>): View<T> {
    v.(cur := if |v.orders| == 0 then None else Some(|v.orders| - 1))
  }

  ghost function GroupNext<T>(v: View<T>): View<T>
    requires Sized(v)
  {
    if v.cur == None then GroupFirst(v) else v.(cur := Some(GroupAfter(|v.orders|, v.cur.value)))
  }

  ghost function GroupPrev<T>(v: View<T>): View<T>
    requires Sized(v)
  {
    if v.cur == None then GroupLast(v) else v.(cur := Some(GroupBefore(|v.orders|, v.cur.value)))
  }

  ghost function SelectNext<T>(v: View<T>): View<T>
    requires Sized(v)
  {
    match Current(v)
    case None => v
    case Some(g) =>
      if v.picks[g].None? then SelectFirst(v)
      else
        var i := IndexOf(v.orders[g], v.picks[g].value);
        if i + 1 < |v.orders[g]| then Pick(v, g, Some(v.orders[g][i + 1]))
        else SelectFirst(v.(cur := Some(GroupAfter(|v.orders|, g))))
  }

  ghost function SelectPrev<T>(v: View<T>): View<T>
    requires Sized(v)
  {
    match Current(v)
    case None => v
    case Some(g) =>
      if v.picks[g].None? then SelectLast(v)
      else
        var i := IndexOf(v.orders[g], v.picks[g].value);
        if i > 0 then Pick(v, g, Some(v.orders[g][i - 1]))
        else SelectLast(v.(cur := Some(GroupBefore(|v.orders|, g))))
  }

  // A move starts from the current group, whether it is set or taken to be the first.
  lemma SelectFromCurrent<T>(v: View<T>)
    requires Sized(v) && Current(v).Some?
    ensures var w := v.(cur := Current(v)); var g := Current(v).value;
      && (SelectNext(v) == if v.picks[g].None? then SelectFirst(w) else SelectNext(w))
      && (SelectPrev(v) == if v.picks[g].None? then SelectLast(w) else SelectPrev(w))
  {
  }

  lemma IndexUnique<T>(s: seq<T>, i: nat)
    requires Unique(s) && i < |s|
    ensures IndexOf(s, s[i]) == i
  {
  }

  // Moving the selection keeps every selection live and no element appears or disappears.
  lemma SelectLive<T>(v: View<T>)
    requires Live(v)
    ensures Live(SelectFirst(v)) && SelectFirst(v).orders == v.orders
    ensures Live(SelectLast(v)) && SelectLast(v).orders == v.orders
    ensures Live(SelectNext(v)) && SelectNext(v).orders == v.orders
    ensures Live(SelectPrev(v)) && SelectPrev(v).orders == v.orders
  {
    EndsLive(v);
    NextLive(v);
    PrevLive(v);
  }

  lemma EndsLive<T>(v: View<T>)
    requires Live(v)
    ensures Live(SelectFirst(v)) && SelectFirst(v).orders == v.orders
    ensures Live(SelectLast(v)) && SelectLast(v).orders == v.orders
  {
  }

  lemma NextLive<T>(v: View<T>)
    requires Live(v)
    ensures Live(SelectNext(v)) && SelectNext(v).orders == v.orders
  {
  }

  lemma PrevLive<T>(v: View<T>)
    requires Live(v)
    ensures Live(SelectPrev(v)) && SelectPrev(v).orders == v.orders
  {
  }

  // ---- the cycle through all groups ----

  // All groups are inhabited and something is selected in the current group.
  ghost predicate Walking<T>(v: View<T>) {
    && Live(v)
    && v.cur.Some? && v.picks[v.cur.value].Some?
    && (forall g :: 0 <= g < |v.orders| ==> v.orders[g] != [])
  }

  // Elements in the first n groups.
  ghost function Before<T>(orders: seq<seq<T>>, n: nat): nat
    requires n <= |orders|
  {
    if n == 0 then 0 else Before(orders, n - 1) + |orders[n - 1]|
  }

  ghost function Total<T>(v: View<T>): nat {
    Before(v.orders, |v.orders|)
  }

  // Number of the selected element in the concatenation of all preorders.
  ghost function Flat<T>(v: View<T>): nat
    requires Walking(v)
  {
    var g := v.cur.value;
    Before(v.orders, g) + IndexOf(v.orders[g], v.picks[g].value)
  }

  lemma {:induction false} BeforeMonotone<T>(orders: seq<seq<T>>, m: nat, n: nat)
    requires m <= n <= |orders|
    ensures Before(orders, m) <= Before(orders, n)
  {
    if m < n { BeforeMonotone(orders, m, n - 1); }
  }

  lemma FlatBound<T>(v: View<T>)
    requires Walking(v)
    ensures Flat(v) < Total(v)
  {
    BeforeMonotone(v.orders, v.cur.value + 1, |v.orders|);
  }

  // The number pins down the group and the element.
  lemma FlatInjective<T>(v: View<T>, w: View<T>)
    requires Walking(v) && Walking(w) && v.orders == w.orders && Flat(v) == Flat(w)
    ensures v.cur == w.cur && v.picks[v.cur.value] == w.picks[w.cur.value]
  {
    if v.cur.value < w.cur.value {
      BeforeMonotone(v.orders, v.cur.value + 1, w.cur.value);
    } else if w.cur.value < v.cur.value {
      BeforeMonotone(v.orders, w.cur.value + 1, v.cur.value);
    }
  }

  lemma NextIsSuccessor<T>(v: View<T>)
    requires Walking(v)
    ensures Walking(SelectNext(v)) && SelectNext(v).orders == v.orders
    ensures Flat(SelectNext(v)) == if Flat(v) + 1 == Total(v) then 0 else Flat(v) + 1
  {
    SelectLive(v);
    FlatBound(v);
    var g := v.cur.value;
    var i := IndexOf(v.orders[g], v.picks[g].value);
    if i + 1 < |v.orders[g]| {
      IndexUnique(v.orders[g], i + 1);
      BeforeMonotone(v.orders, g + 1, |v.orders|);
    } else {
      IndexUnique(v.orders[GroupAfter(|v.orders|, g)], 0);
      assert Before(v.orders, g + 1) == Flat(v) + 1;
      if g + 1 < |v.orders| {
        BeforeMonotone(v.orders, g + 2, |v.orders|);
      }
    }
  }

  lemma PrevIsPredecessor<T>(v: View<T>)
    requires Walking(v)
    ensures Walking(SelectPrev(v)) && SelectPrev(v).orders == v.orders
    ensures Flat(SelectPrev(v)) == if Flat(v) == 0 then Total(v) - 1 else Flat(v) - 1
  {
    SelectLive(v);
    FlatBound(v);
    var g := v.cur.value;
    var i := IndexOf(v.orders[g], v.picks[g].value);
    if i > 0 {
      IndexUnique(v.orders[g], i - 1);
    } else {
      var h := GroupBefore(|v.orders|, g);
      IndexUnique(v.orders[h], |v.orders[h]| - 1);
      assert Before(v.orders, h + 1) == Before(v.orders, h) + |v.orders[h]|;
      if g > 0 {
        BeforeMonotone(v.orders, 1, g);
      }
    }
  }

  // Previous undoes next and next undoes previous: same group, same element.
  lemma NextPrevInverse<T>(v: View<T>)
    requires Walking(v)
    ensures var w := SelectPrev(SelectNext(v));
      w.orders == v.orders && w.cur == v.cur && w.picks[w.cur.value] == v.picks[v.cur.value]
    ensures var w := SelectNext(SelectPrev(v));
      w.orders == v.orders && w.cur == v.cur && w.picks[w.cur.value] == v.picks[v.cur.value]
  {
    FlatBound(v);
    NextIsSuccessor(v);
    PrevIsPredecessor(SelectNext(v));
    FlatInjective(SelectPrev(SelectNext(v)), v);
    PrevIsPredecessor(v);
    NextIsSuccessor(SelectPrev(v));
    FlatInjective(SelectNext(SelectPrev(v)), v);
  }

  ghost function Walk<T>(v: View<T>, n: nat): (w: View<T>)
    requires Walking(v)
    ensures Walking(w) && w.orders == v.orders
    decreases n
  {
    if n == 0 then v else
      NextIsSuccessor(v);
      Walk(SelectNext(v), n - 1)
  }

  lemma {:induction false} WalkFlat<T>(v: View<T>, n: nat)
    requires Walking(v) && n <= Total(v)
    ensures Flat(Walk(v, n)) == if Flat(v) + n < Total(v) then Flat(v) + n else Flat(v) + n - Total(v)
    decreases n
  {
    FlatBound(v);
    if n > 0 {
      NextIsSuccessor(v);
      WalkFlat(SelectNext(v), n - 1);
    }
  }

  // One step per element comes back to the start.
  lemma CycleReturns<T>(v: View<T>)
    requires Walking(v)
    ensures var w := Walk(v, Total(v)); w.cur == v.cur && w.picks[w.cur.value] == v.picks[v.cur.value]
  {
    FlatBound(v);
    WalkFlat(v, Total(v));
    FlatInjective(Walk(v, Total(v)), v);
  }

  // On the way every element of every group is shown ...
  lemma CycleReaches<T>(v: View<T>, g: nat, i: nat) returns (n: nat)
    requires Walking(v) && g < |v.orders| && i < |v.orders[g]|
    ensures n < Total(v) && Shows(Walk(v, n), g, v.orders[g][i])
  {
    var target := Pick(v, g, Some(v.orders[g][i]));
    IndexUnique(v.orders[g], i);
    FlatBound(v);
    FlatBound(target);
    n := if Flat(target) >= Flat(v) then Flat(target) - Flat(v) else Flat(target) + Total(v) - Flat(v);
    WalkFlat(v, n);
    FlatInjective(Walk(v, n), target);
  }

  // ... and none is shown twice.
  lemma CycleOnce<T>(v: View<T>, m: nat, n: nat, g: nat, x: T)
    requires Walking(v) && m < n < Total(v) && Shows(Walk(v, m), g, x)
    ensures !Shows(Walk(v, n), g, x)
  {
    WalkFlat(v, m);
    WalkFlat(v, n);
    FlatBound(v);
  }

  ghost predicate Shows<T>(v: View<T>, g: nat, x: T) {
    v.cur == Some(g) && g < |v.picks| && v.picks[g] == Some(x)
  }

  // ---- where the walk starts ----

  // As long as no group is set, all moves are those from the first group.
  lemma UnsetIsFirst<T>(v: View<T>)
    requires Sized(v) && v.cur == None && |v.orders| > 0
    ensures var w := v.(cur := Some(0));
      && SelectFirst(v) == SelectFirst(w) && SelectLast(v) == SelectLast(w)
      && SelectNext(v) == SelectNext(w) && SelectPrev(v) == SelectPrev(w)
  {
  }

  // Without a selection in the current group, which is the first one as long as none is set, next starts
  // at the front of that group and previous at its end.
  lemma StartsInGroup<T>(v: View<T>, c: nat)
    requires Live(v) && c == (if v.cur.Some? then v.cur.value else 0) && c < |v.orders|
    requires v.picks[c] == None && v.orders[c] != []
    ensures SelectNext(v) == View(v.orders, v.picks[c := Some(v.orders[c][0])], Some(c))
    ensures SelectPrev(v) == View(v.orders, v.picks[c := Some(v.orders[c][|v.orders[c]| - 1])], Some(c))
  {
  }

  // From a state in which no group is set and the first one selects nothing, next starts with the first
  // element of all and goes through the elements of all groups in order.
  lemma WalkFromStart<T>(v: View<T>, g: nat, i: nat)
    requires Live(v) && v.cur == None && v.picks != [] && v.picks[0] == None
    requires forall h :: 0 <= h < |v.orders| ==> v.orders[h] != []
    requires g < |v.orders| && i < |v.orders[g]|
    ensures Walking(SelectNext(v)) && Flat(SelectNext(v)) == 0
    ensures Shows(SelectPrev(v), 0, v.orders[0][|v.orders[0]| - 1])
    ensures Shows(Steps(v, Before(v.orders, g) + i + 1), g, v.orders[g][i])
  {
    StartsInGroup(v, 0);
    SelectLive(v);
    var w := SelectNext(v);
    IndexUnique(w.orders[0], 0);
    assert Before(w.orders, 0) == 0;
    NthStep(w, g, i, Before(w.orders, g) + i);
  }

  lemma NthStep<T>(w: View<T>, g: nat, i: nat, n: nat)
    requires Walking(w) && Flat(w) == 0 && g < |w.orders| && i < |w.orders[g]| && n == Before(w.orders, g) + i
    ensures Shows(Steps(w, n), g, w.orders[g][i])
  {
    var target, x := Pick(w, g, Some(w.orders[g][i])), w.orders[g][i];
    IndexUnique(w.orders[g], i);
    FlatBound(target);
    assert Flat(target) == n;
    WalkTo(w, target, n, g, x);
  }

  // From the first element the walk reaches a place after as many steps as its number.
  lemma WalkTo<T>(w: View<T>, target: View<T>, n: nat, g: nat, x: T)
    requires Walking(w) && Flat(w) == 0 && Walking(target) && target.orders == w.orders
    requires Flat(target) == n < Total(w) && Shows(target, g, x)
    ensures Shows(Steps(w, n), g, x)
  {
    WalkFlat(w, n);
    StepsWalk(w, n);
    FlatInjective(Walk(w, n), target);
  }

  // The moves between groups go around one ring: both ends are where they should be, and next and
  // previous undo each other.
  lemma GroupRing<T>(v: View<T>)
    requires Sized(v) && |v.orders| > 0
    ensures GroupFirst(v) == v.(cur := Some(0)) && GroupLast(v) == v.(cur := Some(|v.orders| - 1))
    ensures v.cur == None ==> GroupNext(v) == GroupFirst(v) && GroupPrev(v) == GroupLast(v)
    ensures GroupNext(GroupLast(v)) == GroupFirst(v) && GroupPrev(GroupFirst(v)) == GroupLast(v)
    ensures v.cur.Some? ==> GroupPrev(GroupNext(v)) == v == GroupNext(GroupPrev(v))
    ensures v.cur.Some? && v.cur.value + 1 < |v.orders| ==> GroupNext(v).cur == Some(v.cur.value + 1)
  {
  }

  // ---- empty groups ----

  // n next steps from any live state.
  ghost function Steps<T>(v: View<T>, n: nat): (w: View<T>)
    requires Live(v)
    ensures Live(w) && w.orders == v.orders
    decreases n
  {
    if n == 0 then v else
      SelectLive(v);
      Steps(SelectNext(v), n - 1)
  }

  lemma {:induction false} StepsWalk<T>(v: View<T>, n: nat)
    requires Walking(v)
    ensures Steps(v, n) == Walk(v, n)
    decreases n
  {
    if n > 0 {
      NextIsSuccessor(v);
      StepsWalk(SelectNext(v), n - 1);
    }
  }

  // The number of groups from c on to h.
  function Ahead(c: nat, h: nat, n: nat): int {
    if c <= h then h - c else h - c + n
  }

  ghost predicate AtPlace<T>(w: View<T>, g: nat, i: nat) {
    w.cur == Some(g) && g < |w.orders| == |w.picks| && i < |w.orders[g]| && w.picks[g] == Some(w.orders[g][i])
  }

  // On the way from element i of group g to the empty group h, past the start or in an empty group.
  ghost predicate Beyond<T>(w: View<T>, g: nat, i: nat, h: nat)
    requires Sized(w)
  {
    w.cur.Some? && var c := w.cur.value;
    w.orders[c] == [] ||
    (w.picks[c].Some? &&
     (Ahead(c, h, |w.orders|) < Ahead(g, h, |w.orders|) ||
      (c == g && IndexOf(w.orders[c], w.picks[c].value) > i)))
  }

  lemma StepBeyond<T>(w: View<T>, g: nat, i: nat, h: nat)
    requires Live(w) && h < |w.orders| && g < |w.orders| && w.orders[h] == []
    requires AtPlace(w, g, i) || Beyond(w, g, i, h)
    ensures Live(SelectNext(w)) && Beyond(SelectNext(w), g, i, h) && SelectNext(w).orders == w.orders
  {
    SelectLive(w);
    var c := w.cur.value;
    if AtPlace(w, g, i) {
      IndexUnique(w.orders[g], i);
    }
    if w.orders[c] != [] {
      var j := IndexOf(w.orders[c], w.picks[c].value);
      if j + 1 < |w.orders[c]| {
        IndexUnique(w.orders[c], j + 1);
      } else {
        var d := GroupAfter(|w.orders|, c);
        assert SelectNext(w) == Pick(w, d, First(w.orders[d]));
        assert Ahead(d, h, |w.orders|) == Ahead(c, h, |w.orders|) - 1;
      }
    }
  }

  lemma {:induction false} StaysBeyond<T>(w: View<T>, g: nat, i: nat, h: nat, n: nat)
    requires Live(w) && h < |w.orders| && g < |w.orders| && w.orders[h] == [] && Beyond(w, g, i, h)
    ensures Beyond(Steps(w, n), g, i, h)
    decreases n
  {
    if n > 0 {
      StepBeyond(w, g, i, h);
      StaysBeyond(SelectNext(w), g, i, h, n - 1);
    }
  }

  lemma NeverReturns<T>(v: View<T>, g: nat, x: T, h: nat, n: nat)
    requires Live(v) && Shows(v, g, x) && h < |v.orders| && v.orders[h] == [] && n > 0
    ensures !Shows(Steps(v, n), g, x)
  {
    var i := IndexOf(v.orders[g], x);
    StepBeyond(v, g, i, h);
    StaysBeyond(SelectNext(v), g, i, h, n - 1);
  }

  // Next steps come back to the selected element if and only if no group is empty: in an empty group
  // they get stuck.
  lemma ReturnsIff<T>(v: View<T>, g: nat, x: T)
    requires Live(v) && Shows(v, g, x)
    ensures (exists n :: n > 0 && Shows(Steps(v, n), g, x)) <==> (forall h :: 0 <= h < |v.orders| ==> v.orders[h] != [])
  {
    if h :| 0 <= h < |v.orders| && v.orders[h] == [] {
      forall n | n > 0
        ensures !Shows(Steps(v, n), g, x)
      {
        NeverReturns(v, g, x, h, n);
      }
    } else {
      CycleReturns(v);
      StepsWalk(v, Total(v));
      FlatBound(v);
      assert Total(v) > 0 && Shows(Steps(v, Total(v)), g, x);
    }
  }

  // ---- removing elements ----

  // element_free moves the selection of group g off x: it steps back when x is selected, and is
  // cleared when it could not leave x.
  ghost function StepOff<T>(v: View<T>, g: nat, x: T): (r: View<T>)
    requires Sized(v) && g < |v.orders|
    ensures Sized(r) && |r.orders| == |v.orders|
  {
    var w := if v.picks[g] == Some(x) then SelectPrev(v) else v;
    if w.picks[g] == Some(x) then Picking(w, g, None) else w
  }

  ghost function Removed<T>(v: View<T>, g: nat, x: T): View<T>
    requires Sized(v) && g < |v.orders|
  {
    v.(orders := v.orders[g := Drop(v.orders[g], x)])
  }

  // element_free for one childless element x of group g.
  ghost function Unlink<T>(v: View<T>, g: nat, x: T): (r: View<T>)
    requires Sized(v) && g < |v.orders|
    ensures Sized(r) && |r.orders| == |v.orders|
  {
    Removed(StepOff(v, g, x), g, x)
  }

  lemma {:induction false} DropFacts<T>(s: seq<T>, x: T)
    requires Unique(s)
    ensures Unique(Drop(s, x))
    ensures forall y :: y in Drop(s, x) <==> y in s && y != x
  {
    if s != [] {
      var t := s[1..];
      assert forall i, j :: 0 <= i < j < |t| ==> t[i] == s[i + 1] && t[j] == s[j + 1];
      DropFacts(t, x);
      assert forall y :: y in s <==> y == s[0] || y in t;
      assert s[0] !in t;
    }
  }

  lemma UnlinkLive<T>(v: View<T>, g: nat, x: T)
    requires Live(v) && g < |v.orders|
    ensures Live(Unlink(v, g, x))
  {
    SelectLive(v);
    DropFacts(v.orders[g], x);
  }

  // element_free for the elements xs of group g, one after the other.
  ghost function UnlinkAll<T>(v: View<T>, g: nat, xs: seq<T>): (w: View<T>)
    requires Sized(v) && g < |v.orders|
    ensures Sized(w) && |w.orders| == |v.orders|
    decreases |xs|
  {
    if xs == [] then v else UnlinkAll(Unlink(v, g, xs[0]), g, xs[1..])
  }

  // Freeing elements never leaves a dangling selection, in whatever group it happens.
  lemma {:induction false} UnlinkAllLive<T>(v: View<T>, g: nat, xs: seq<T>)
    requires Live(v) && g < |v.orders|
    ensures Live(UnlinkAll(v, g, xs))
    decreases |xs|
  {
    if xs != [] {
      UnlinkLive(v, g, xs[0]);
      UnlinkAllLive(Unlink(v, g, xs[0]), g, xs[1..]);
    }
  }

  lemma {:induction false} UnlinkAllConcat<T>(v: View<T>, g: nat, xs: seq<T>, ys: seq<T>)
    requires Sized(v) && g < |v.orders|
    ensures UnlinkAll(v, g, xs + ys) == UnlinkAll(UnlinkAll(v, g, xs), g, ys)
    decreases |xs|
  {
    if xs == [] {
      assert xs + ys == ys;
    } else {
      assert (xs + ys)[1..] == xs[1..] + ys && (xs + ys)[0] == xs[0];
      var u := Unlink(v, g, xs[0]);
      UnlinkAllConcat(u, g, xs[1..], ys);
      assert UnlinkAll(v, g, xs) == UnlinkAll(u, g, xs[1..]);
    }
  }

  // Freed elements that are not selected in their group leave every selection alone.
  lemma {:induction false} UnlinkUnselected<T>(v: View<T>, g: nat, xs: seq<T>)
    requires Sized(v) && g < |v.orders|
    requires v.picks[g].Some? ==> v.picks[g].value !in xs
    ensures UnlinkAll(v, g, xs).picks == v.picks && UnlinkAll(v, g, xs).cur == v.cur
    ensures forall h :: 0 <= h < |v.orders| && h != g ==> UnlinkAll(v, g, xs).orders[h] == v.orders[h]
    decreases |xs|
  {
    if xs != [] {
      UnlinkUnselected(Unlink(v, g, xs[0]), g, xs[1..]);
    }
  }

  lemma DropMiddle<T>(a: seq<T>, x: T, b: seq<T>)
    requires Unique(a + [x] + b)
    ensures Drop(a + [x] + b, x) == a + b
    ensures IndexOf(a + [x] + b, x) == |a|
  {
    var s := a + [x] + b;
    DropAt(s, |a|);
    IndexUnique(s, |a|);
    assert s[|a|] == x;
    assert s[..|a|] == a && s[|a| + 1..] == b;
  }

  lemma PostorderPreorder<T>(f: Forest<T>)
    ensures forall x :: x in Postorder(f) <==> x in Elems(f)
  {
  }

  // w is v after elements between a and b of the current group g are freed: a selection that was
  // one of them is now the element right before them, all other selections are unchanged.
  ghost predicate SteppedBack<T>(v: View<T>, w: View<T>, g: nat, a: seq<T>, b: seq<T>, selected: bool)
    requires a != [] && g < |v.orders| && g < |v.picks|
  {
    && w.orders == v.orders[g := a + b]
    && Current(w) == Some(g)
    && w.picks == if selected then v.picks[g := Last(a)] else v.picks
  }

  ghost predicate PickedIn<T>(v: View<T>, g: nat, xs: set<T>)
    requires g < |v.picks|
  {
    v.picks[g].Some? && v.picks[g].value in xs
  }

  lemma UnlinkStep<T>(v: View<T>, g: nat, a: seq<T>, x: T, b: seq<T>)
    requires Live(v) && g < |v.orders| && Current(v) == Some(g)
    requires a != [] && v.orders[g] == a + [x] + b
    ensures SteppedBack(v, Unlink(v, g, x), g, a, b, PickedIn(v, g, {x}))
  {
    DropMiddle(a, x, b);
    SelectLive(v);
    var s := v.orders[g];
    assert s[|a| - 1] == a[|a| - 1] && s[|a|] == x;
    assert s[|a| - 1] != s[|a|];
    if v.picks[g] == Some(x) {
      assert IndexOf(s, x) == |a|;
      assert SelectPrev(v) == Pick(v, g, Last(a));
    }
  }

  // Freeing the sibling trees k, which follow a in the preorder of the current group.
  lemma {:induction false} FreeKids<T>(v: View<T>, g: nat, a: seq<T>, k: Forest<T>, b: seq<T>)
    requires Live(v) && g < |v.orders| && Current(v) == Some(g)
    requires a != [] && Distinct(k) && v.orders[g] == a + Preorder(k) + b
    ensures SteppedBack(v, UnlinkAll(v, g, Postorder(k)), g, a, b, PickedIn(v, g, Elems(k)))
    decreases k
  {
    if k.Nil? {
      assert a + [] + b == a + b;
      assert v.orders[g := a + b] == v.orders;
    } else {
      var pk, ps := Preorder(k.kids), Preorder(k.sibs);
      assert v.orders[g] == (a + [k.e]) + pk + (ps + b);
      FreeKids(v, g, a + [k.e], k.kids, ps + b);
      var w := UnlinkAll(v, g, Postorder(k.kids));
      UnlinkAllLive(v, g, Postorder(k.kids));
      UnlinkStep(w, g, a, k.e, ps + b);
      UnlinkLive(w, g, k.e);
      var u := Unlink(w, g, k.e);
      assert a + (ps + b) == a + ps + b;
      FreeKids(u, g, a, k.sibs, b);
      FreeApart(v.orders[g], a, k, b);
      FreeSplit(v, g, k);
      FreeJoin(v, w, u, UnlinkAll(u, g, Postorder(k.sibs)), g, a, k, b);
    }
  }

  lemma FreeJoin<T>(v: View<T>, w: View<T>, u: View<T>, z: View<T>, g: nat, a: seq<T>, k: Forest<T>, b: seq<T>)
    requires a != [] && g < |v.orders| == |v.picks| && k.Node? && Distinct(k)
    requires a[|a| - 1] !in Elems(k)
    requires SteppedBack(v, w, g, a + [k.e], Preorder(k.sibs) + b, PickedIn(v, g, Elems(k.kids)))
    requires SteppedBack(w, u, g, a, Preorder(k.sibs) + b, PickedIn(w, g, {k.e}))
    requires SteppedBack(u, z, g, a, b, PickedIn(u, g, Elems(k.sibs)))
    ensures SteppedBack(v, z, g, a, b, PickedIn(v, g, Elems(k)))
  {
    assert z.orders == v.orders[g := a + b];
  }

  lemma FreeSplit<T>(v: View<T>, g: nat, k: Forest<T>)
    requires Sized(v) && g < |v.orders| && k.Node?
    ensures var w := UnlinkAll(v, g, Postorder(k.kids));
      UnlinkAll(v, g, Postorder(k)) == UnlinkAll(Unlink(w, g, k.e), g, Postorder(k.sibs))
  {
    var w := UnlinkAll(v, g, Postorder(k.kids));
    UnlinkAllConcat(v, g, Postorder(k.kids), [k.e]);
    UnlinkAllConcat(v, g, Postorder(k.kids) + [k.e], Postorder(k.sibs));
    assert UnlinkAll(w, g, [k.e]) == Unlink(w, g, k.e);
  }

  lemma UniqueConcat<T>(a: seq<T>, b: seq<T>)
    requires Unique(a + b)
    ensures Unique(a) && Unique(b) && forall x :: x in a ==> x !in b
  {
    var s := a + b;
    assert forall i :: 0 <= i < |a| ==> a[i] == s[i];
    assert forall i :: 0 <= i < |b| ==> b[i] == s[|a| + i];
  }

  lemma FreeApart<T>(s: seq<T>, a: seq<T>, k: Forest<T>, b: seq<T>)
    requires Unique(s) && s == a + Preorder(k) + b && a != []
    ensures a[|a| - 1] !in Elems(k)
  {
    UniqueConcat(a + Preorder(k), b);
    UniqueConcat(a, Preorder(k));
    PreorderElems(k);
  }

  // w is v after the first tree of the current group g, which held its selection, is freed: the
  // selection wraps to the last element of the previous group h and g keeps none, unless g is the
  // only group and selects its last remaining element.
  ghost predicate Wrapped<T>(v: View<T>, w: View<T>, g: nat, b: seq<T>)
    requires g < |v.orders| == |v.picks|
  {
    var h := GroupBefore(|v.orders|, g);
    && w.orders == v.orders[g := b]
    && w.cur == Some(h)
    && w.picks == if h == g then v.picks[g := Last(b)] else v.picks[g := None][h := Last(v.orders[h])]
  }

  lemma PrevWraps<T>(v: View<T>, g: nat, x: T)
    requires Live(v) && g < |v.orders| && Current(v) == Some(g)
    requires v.picks[g] == Some(x) && v.orders[g][0] == x
    ensures var h := GroupBefore(|v.orders|, g); SelectPrev(v) == Pick(v, h, Last(v.orders[h]))
  {
  }

  // Stepping off the only remaining element ends with no selection.
  lemma StepOffFirst<T>(v: View<T>, g: nat, x: T, b: seq<T>)
    requires Live(v) && g < |v.orders| && Current(v) == Some(g)
    requires v.orders[g] == [x] + b && v.picks[g] == Some(x)
    ensures
      var h := GroupBefore(|v.orders|, g);
      StepOff(v, g, x) == if h == g then Pick(v, g, Last(b))
                          else View(v.orders, v.picks[h := Last(v.orders[h])][g := None], Some(h))
  {
    PrevWraps(v, g, x);
    var h := GroupBefore(|v.orders|, g);
    LastOf([x], b);
    if h == g {
      if b != [] { LastApart([x], b); } else { assert [x] + b == [x]; }
      Overwrite(v.picks, g, Some(x), None);
    }
  }

  lemma UnlinkFirst<T>(v: View<T>, g: nat, x: T, b: seq<T>)
    requires Live(v) && g < |v.orders| && Current(v) == Some(g)
    requires v.orders[g] == [x] + b && v.picks[g] == Some(x)
    ensures Wrapped(v, Unlink(v, g, x), g, b)
  {
    assert [] + [x] + b == [x] + b && [] + b == b;
    DropMiddle([], x, b);
    StepOffFirst(v, g, x, b);
    var h := GroupBefore(|v.orders|, g);
    if h != g { Exchanged(v.picks, g, h, None, Last(v.orders[h])); }
  }

  lemma Exchanged<T>(s: seq<T>, i: nat, j: nat, x: T, y: T)
    requires i < |s| && j < |s| && i != j
    ensures s[i := x][j := y] == s[j := y][i := x]
  {
  }

  // Freeing the subtree of x, which lies between a and b in the preorder of the current group g
  // and holds its selection: the selection moves to the element before x, or wraps if x is first.
  lemma FreeSelected<T>(v: View<T>, g: nat, a: seq<T>, x: T, k: Forest<T>, b: seq<T>)
    requires Live(v) && g < |v.orders| && Current(v) == Some(g)
    requires Distinct(Node(x, k, Nil)) && v.orders[g] == a + ([x] + Preorder(k)) + b
    requires PickedIn(v, g, Elems(Node(x, k, Nil)))
    ensures var w := UnlinkAll(v, g, Postorder(Node(x, k, Nil)));
      if a != [] then SteppedBack(v, w, g, a, b, true) else Wrapped(v, w, g, b)
  {
    var t := Node(x, k, Nil);
    assert Preorder(t) == [x] + Preorder(k);
    if a != [] {
      FreeKids(v, g, a, t, b);
    } else {
      assert v.orders[g] == [x] + Preorder(k) + b;
      FreeKids(v, g, [x], k, b);
      var w := UnlinkAll(v, g, Postorder(k));
      UnlinkAllLive(v, g, Postorder(k));
      assert PickedIn(v, g, Elems(k)) || v.picks[g] == Some(x);
      UnlinkFirst(w, g, x, b);
      WrapJoin(v, w, Unlink(w, g, x), g, x, b, PickedIn(v, g, Elems(k)));
      FreeSplit(v, g, t);
    }
  }

  lemma WrapJoin<T>(v: View<T>, w: View<T>, z: View<T>, g: nat, x: T, b: seq<T>, inKids: bool)
    requires g < |v.orders| == |v.picks|
    requires SteppedBack(v, w, g, [x], b, inKids) && (inKids || v.picks[g] == Some(x))
    requires Wrapped(w, z, g, b)
    ensures Wrapped(v, z, g, b)
  {
    assert z.orders == v.orders[g := b];
  }

  // ---- freeing in a group that is not the current one ----

  // Whatever happens to the selections, the trees k are taken out of the preorder of group g.
  lemma {:induction false} TreesTaken<T>(v: View<T>, g: nat, a: seq<T>, k: Forest<T>, b: seq<T>)
    requires Live(v) && g < |v.orders| && v.orders[g] == a + Preorder(k) + b
    ensures UnlinkAll(v, g, Postorder(k)).orders == v.orders[g := a + b]
    decreases k
  {
    if k.Nil? {
      assert a + [] + b == a + b;
      assert v.orders[g := a + b] == v.orders;
    } else {
      var pk, ps := Preorder(k.kids), Preorder(k.sibs);
      assert v.orders[g] == (a + [k.e]) + pk + (ps + b);
      TreesTaken(v, g, a + [k.e], k.kids, ps + b);
      var w := UnlinkAll(v, g, Postorder(k.kids));
      UnlinkAllLive(v, g, Postorder(k.kids));
      TakeOne(w, g, a, k.e, ps + b);
      UnlinkLive(w, g, k.e);
      var u := Unlink(w, g, k.e);
      assert a + (ps + b) == a + ps + b;
      TreesTaken(u, g, a, k.sibs, b);
      FreeSplit(v, g, k);
    }
  }

  lemma TakeOne<T>(v: View<T>, g: nat, a: seq<T>, x: T, b: seq<T>)
    requires Live(v) && g < |v.orders| && v.orders[g] == a + [x] + b
    ensures Unlink(v, g, x).orders == v.orders[g := a + b]
  {
    SelectLive(v);
    DropMiddle(a, x, b);
  }

  // The selection of the current group would step back into group g.
  ghost predicate EntersFrom<T>(v: View<T>, g: nat, c: nat)
    requires Sized(v) && c < |v.orders|
  {
    && v.picks[c].Some? && v.orders[c] != [] && v.orders[c][0] == v.picks[c].value
    && GroupBefore(|v.orders|, c) == g
  }

  // Elements are freed in group g, one of them selected there, while another group c is current and its
  // selection does not step back into g: that selection moves as if prev was asked for, and g selects
  // nothing.
  lemma {:induction false} UnlinkElsewhere<T>(v: View<T>, g: nat, c: nat, xs: seq<T>)
    requires Live(v) && g < |v.orders| && Current(v) == Some(c) && c != g && !EntersFrom(v, g, c)
    requires v.picks[g].Some? && v.picks[g].value in xs
    ensures var w, p := UnlinkAll(v, g, xs), SelectPrev(v); w.cur == p.cur && w.picks == p.picks[g := None]
    decreases |xs|
  {
    var u := Unlink(v, g, xs[0]);
    UnlinkLive(v, g, xs[0]);
    if v.picks[g] == Some(xs[0]) {
      PrevElsewhere(v, g, c, v.orders[g]);
      UnlinkUnselected(u, g, xs[1..]);
    } else {
      assert v.picks[g].value in xs[1..];
      PrevElsewhere(v, g, c, u.orders[g]);
      assert u == v.(orders := v.orders[g := u.orders[g]]);
      UnlinkElsewhere(u, g, c, xs[1..]);
    }
  }

  // Then prev neither reads nor writes anything of group g.
  lemma PrevElsewhere<T>(v: View<T>, g: nat, c: nat, order: seq<T>)
    requires Live(v) && g < |v.orders| && Current(v) == Some(c) && c != g && !EntersFrom(v, g, c)
    ensures var u := v.(orders := v.orders[g := order]);
      && SelectPrev(v).picks[g] == v.picks[g]
      && SelectPrev(u).picks == SelectPrev(v).picks && SelectPrev(u).cur == SelectPrev(v).cur
      && !EntersFrom(u, g, c)
  {
    var u := v.(orders := v.orders[g := order]);
    assert u.orders[c] == v.orders[c];
    if v.picks[c].Some? {
      var i := IndexOf(v.orders[c], v.picks[c].value);
      assert i == 0 ==> v.orders[c][0] == v.picks[c].value;
    }
  }

  // What prev does to the current group c, spelled out.
  ghost predicate MovedBack<T>(v: View<T>, w: View<T>, g: nat, c: nat)
    requires Sized(v) && g < |v.orders| && c < |v.orders|
  {
    var h := GroupBefore(|v.orders|, c);
    var picks := v.picks[g := None];
    match v.picks[c]
    case None => w.cur == Some(c) && w.picks == picks[c := Last(v.orders[c])]
    case Some(y) =>
      var i := IndexOf(v.orders[c], y);
      if i > 0 then i <= |v.orders[c]| && w.cur == Some(c) && w.picks == picks[c := Some(v.orders[c][i - 1])]
      else w.cur == Some(h) && w.picks == picks[h := Last(v.orders[h])]
  }

  // Freeing the subtree of x in group g, which holds the selection of g, while another group c is
  // current: although nothing of c is freed, its selection moves to the previous element, or the
  // previous group becomes current; g selects nothing.
  lemma FreeElsewhere<T>(v: View<T>, g: nat, c: nat, a: seq<T>, x: T, k: Forest<T>, b: seq<T>)
    requires Live(v) && g < |v.orders| && Current(v) == Some(c) && c != g && !EntersFrom(v, g, c)
    requires v.orders[g] == a + ([x] + Preorder(k)) + b && PickedIn(v, g, Elems(Node(x, k, Nil)))
    ensures var w := UnlinkAll(v, g, Postorder(Node(x, k, Nil)));
      w.orders == v.orders[g := a + b] && MovedBack(v, w, g, c)
  {
    var t := Node(x, k, Nil);
    assert Preorder(t) == [x] + Preorder(k);
    PostorderPreorder(t);
    TreesTaken(v, g, a, t, b);
    UnlinkElsewhere(v, g, c, Postorder(t));
    PrevMovesBack(v, UnlinkAll(v, g, Postorder(t)), g, c);
  }

  lemma PrevMovesBack<T>(v: View<T>, w: View<T>, g: nat, c: nat)
    requires Live(v) && g < |v.orders| && Current(v) == Some(c) && c != g && !EntersFrom(v, g, c)
    requires w.cur == SelectPrev(v).cur && w.picks == SelectPrev(v).picks[g := None]
    ensures MovedBack(v, w, g, c)
  {
    var h, picks := GroupBefore(|v.orders|, c), v.picks[g := None];
    if v.picks[c].None? {
      assert w.picks == picks[c := Last(v.orders[c])];
    } else {
      var i := IndexOf(v.orders[c], v.picks[c].value);
      if i > 0 {
        assert w.picks == picks[c := Some(v.orders[c][i - 1])];
      } else {
        assert w.picks == picks[h := Last(v.orders[h])];
      }
    }
  }

  // x is the last tree of k, or the last tree below that, and so on.
  ghost predicate OnEdge<T>(k: Forest<T>, x: T) {
    k.Node? && if k.sibs.Nil? then k.e == x || OnEdge(k.kids, x) else OnEdge(k.sibs, x)
  }

  lemma {:induction false} EdgeIn<T>(k: Forest<T>, x: T)
    requires OnEdge(k, x)
    ensures x in Elems(k)
  {
    if !k.sibs.Nil? {
      EdgeIn(k.sibs, x);
    } else if k.e != x {
      EdgeIn(k.kids, x);
    }
  }

  // w is v after elements of group g were freed, with rest left of it, and the selection has come back to g.
  ghost predicate Returned<T>(v: View<T>, w: View<T>, g: nat, rest: seq<T>, pick: Option<T>)
    requires g < |v.orders| == |v.picks|
  {
    w.orders == v.orders[g := rest] && w.cur == Some(g) && w.picks == v.picks[g := pick]
  }

  lemma EnterStep<T>(v: View<T>, g: nat, c: nat, a: seq<T>, x: T, b: seq<T>)
    requires Live(v) && g < |v.orders| && Current(v) == Some(c) && c != g && EntersFrom(v, g, c)
    requires v.orders[g] == a + [x] + b && v.picks[g] == Some(x)
    ensures Returned(v, Unlink(v, g, x), g, a + b, Last(b))
  {
    TakeOne(v, g, a, x, b);
    var s := v.orders[g];
    assert SelectPrev(v) == Pick(v, g, Last(s));
    if b != [] {
      assert s[|s| - 1] == b[|b| - 1] && s[|a|] == x && |a| < |s| - 1;
    } else {
      assert s[|s| - 1] == x;
    }
  }

  // Freeing trees that hold no selection.
  lemma FreeUnselected<T>(v: View<T>, g: nat, a: seq<T>, k: Forest<T>, b: seq<T>)
    requires Live(v) && g < |v.orders| && v.orders[g] == a + Preorder(k) + b && !PickedIn(v, g, Elems(k))
    ensures UnlinkAll(v, g, Postorder(k)) == v.(orders := v.orders[g := a + b])
  {
    PostorderPreorder(k);
    TreesTaken(v, g, a, k, b);
    UnlinkUnselected(v, g, Postorder(k));
  }

  // What group g selects after the trees k between a and b are freed: the last element behind them, or
  // without one the element in front of them, unless the selected one was on the edge of k.
  ghost function Remaining<T>(a: seq<T>, k: Forest<T>, b: seq<T>, y: T): Option<T> {
    if b != [] then Last(b) else if OnEdge(k, y) then None else Last(a)
  }

  lemma {:induction false} FreeReturning<T>(v: View<T>, g: nat, c: nat, a: seq<T>, k: Forest<T>, b: seq<T>)
    requires Live(v) && g < |v.orders| && Current(v) == Some(c) && c != g && EntersFrom(v, g, c)
    requires a != [] && Distinct(k) && v.orders[g] == a + Preorder(k) + b && PickedIn(v, g, Elems(k))
    ensures Returned(v, UnlinkAll(v, g, Postorder(k)), g, a + b, Remaining(a, k, b, v.picks[g].value))
    decreases k
  {
    var y, rest := v.picks[g].value, Preorder(k.sibs) + b;
    assert v.orders[g] == (a + [k.e]) + Preorder(k.kids) + rest;
    FreeSplit(v, g, k);
    if y in Elems(k.kids) {
      FreeReturning(v, g, c, a + [k.e], k.kids, rest);
      UnlinkAllLive(v, g, Postorder(k.kids));
      BackInKids(v, UnlinkAll(v, g, Postorder(k.kids)), g, a, k, b, y);
    } else if y == k.e {
      RootSelected(v, g, c, a, k.e, k.kids, rest);
      BackInSibs(v, Unlink(UnlinkAll(v, g, Postorder(k.kids)), g, k.e), g, a, k, b, k.e);
    } else {
      SkipFirst(v, g, a, k.e, k.kids, rest);
      assert a + rest == a + Preorder(k.sibs) + b;
      var u := v.(orders := v.orders[g := a + rest]);
      FreeReturning(u, g, c, a, k.sibs, b);
      ReturnedAgain(v, u, UnlinkAll(u, g, Postorder(k.sibs)), g, a + rest, a + b, Remaining(a, k.sibs, b, y));
    }
  }

  lemma ReturnedAgain<T>(v: View<T>, u: View<T>, z: View<T>, g: nat, before: seq<T>, rest: seq<T>, pick: Option<T>)
    requires g < |v.orders| == |v.picks| && u == v.(orders := v.orders[g := before])
    requires Returned(u, z, g, rest, pick)
    ensures Returned(v, z, g, rest, pick)
  {
    Overwrite(v.orders, g, before, rest);
  }

  lemma ReturnedOn<T>(v: View<T>, w: View<T>, z: View<T>, g: nat, before: seq<T>, rest: seq<T>, pick: Option<T>)
    requires g < |v.orders| == |v.picks| && |w.orders| == |v.orders|
    requires Returned(v, w, g, before, pick) && z == w.(orders := w.orders[g := rest])
    ensures Returned(v, z, g, rest, pick)
  {
    Overwrite(v.orders, g, before, rest);
  }

  // The first tree, with root x and the trees k below it, holds no selection.
  lemma SkipFirst<T>(v: View<T>, g: nat, a: seq<T>, x: T, k: Forest<T>, b: seq<T>)
    requires Live(v) && g < |v.orders| && v.orders[g] == (a + [x]) + Preorder(k) + b
    requires !PickedIn(v, g, Elems(k)) && v.picks[g] != Some(x)
    ensures var u := v.(orders := v.orders[g := a + b]);
      Live(u) && Unlink(UnlinkAll(v, g, Postorder(k)), g, x) == u
  {
    FreeUnselected(v, g, a + [x], k, b);
    var w := UnlinkAll(v, g, Postorder(k));
    UnlinkAllLive(v, g, Postorder(k));
    UnlinkPlain(w, g, a, x, b);
    UnlinkLive(w, g, x);
    Overwrite(v.orders, g, a + [x] + b, a + b);
  }

  lemma Overwrite<T>(s: seq<T>, i: nat, x: T, y: T)
    requires i < |s|
    ensures s[i := x][i := y] == s[i := y]
  {
  }

  lemma UnlinkPlain<T>(v: View<T>, g: nat, a: seq<T>, x: T, b: seq<T>)
    requires Live(v) && g < |v.orders| && v.orders[g] == a + [x] + b && v.picks[g] != Some(x)
    ensures Unlink(v, g, x) == v.(orders := v.orders[g := a + b])
  {
    DropMiddle(a, x, b);
  }

  // The selected element is the root of the first tree.
  lemma RootSelected<T>(v: View<T>, g: nat, c: nat, a: seq<T>, x: T, k: Forest<T>, b: seq<T>)
    requires Live(v) && g < |v.orders| && Current(v) == Some(c) && c != g && EntersFrom(v, g, c)
    requires Distinct(Node(x, k, Nil)) && v.orders[g] == (a + [x]) + Preorder(k) + b && v.picks[g] == Some(x)
    ensures var u := Unlink(UnlinkAll(v, g, Postorder(k)), g, x); Live(u) && Returned(v, u, g, a + b, Last(b))
  {
    FreeUnselected(v, g, a + [x], k, b);
    var w := UnlinkAll(v, g, Postorder(k));
    UnlinkAllLive(v, g, Postorder(k));
    EnterStep(w, g, c, a, x, b);
    UnlinkLive(w, g, x);
    Overwrite(v.orders, g, a + [x] + b, a + b);
  }

  lemma LastOf<T>(a: seq<T>, b: seq<T>)
    ensures b != [] ==> Last(a + b) == Last(b)
    ensures b == [] ==> Last(a + b) == Last(a)
  {
    assert b == [] ==> a + b == a;
  }

  lemma LastApart<T>(a: seq<T>, b: seq<T>)
    requires Unique(a + b) && b != []
    ensures Last(b).value !in a
  {
    var s := a + b;
    assert forall i :: 0 <= i < |a| ==> s[i] == a[i];
    assert s[|s| - 1] == b[|b| - 1];
  }

  // Freeing the trees k while g is current and selects the last element behind the place a.
  lemma LastFreed<T>(u: View<T>, g: nat, a: seq<T>, k: Forest<T>, b: seq<T>)
    requires Live(u) && g < |u.orders| && u.cur == Some(g) && a != [] && Distinct(k)
    requires u.orders[g] == a + Preorder(k) + b && u.picks[g] == Last(Preorder(k) + b)
    ensures Returned(u, UnlinkAll(u, g, Postorder(k)), g, a + b,
                     if b != [] then Last(b) else if k.Nil? then None else Last(a))
  {
    FreeKids(u, g, a, k, b);
    CurrentStays(u, g, Postorder(k));
    PreorderElems(k);
    LastOf(Preorder(k), b);
    if b != [] {
      LastApart(a + Preorder(k), b);
      assert Last(b).value !in Preorder(k) by {
        assert forall x :: x in Preorder(k) ==> x in a + Preorder(k);
      }
      assert u.picks[g := Last(b)] == u.picks;
    } else if !k.Nil? {
      assert Last(Preorder(k)).value in Preorder(k);
    } else {
      assert u.picks[g := None] == u.picks;
    }
  }

  lemma {:induction false} CurrentStays<T>(v: View<T>, g: nat, xs: seq<T>)
    requires Sized(v) && g < |v.orders| && v.cur.Some?
    ensures UnlinkAll(v, g, xs).cur.Some?
    decreases |xs|
  {
    if xs != [] {
      CurrentStays(Unlink(v, g, xs[0]), g, xs[1..]);
    }
  }

  // The selection came back to g with the last element behind the root of the first tree; its siblings
  // follow.
  lemma BackInSibs<T>(v: View<T>, u: View<T>, g: nat, a: seq<T>, k: Forest<T>, b: seq<T>, y: T)
    requires Live(v) && Live(u) && g < |v.orders| && a != [] && Distinct(k) && k.Node?
    requires y !in Elems(k.sibs)
    requires Returned(v, u, g, a + (Preorder(k.sibs) + b), Last(Preorder(k.sibs) + b))
    requires k.sibs.Nil? && b == [] ==> OnEdge(k, y)
    ensures Returned(v, UnlinkAll(u, g, Postorder(k.sibs)), g, a + b, Remaining(a, k, b, y))
  {
    assert a + (Preorder(k.sibs) + b) == a + Preorder(k.sibs) + b;
    LastFreed(u, g, a, k.sibs, b);
    if !k.sibs.Nil? && OnEdge(k, y) { EdgeIn(k.sibs, y); }
  }

  // The selection came back to g while the children of the first root were freed.
  lemma BackInKids<T>(v: View<T>, w: View<T>, g: nat, a: seq<T>, k: Forest<T>, b: seq<T>, y: T)
    requires Live(v) && Live(w) && g < |v.orders| && a != [] && Distinct(k) && k.Node? && y in Elems(k.kids)
    requires v.orders[g] == a + Preorder(k) + b
    requires Returned(v, w, g, a + [k.e] + (Preorder(k.sibs) + b),
                      Remaining(a + [k.e], k.kids, Preorder(k.sibs) + b, y))
    ensures Returned(v, UnlinkAll(Unlink(w, g, k.e), g, Postorder(k.sibs)), g, a + b, Remaining(a, k, b, y))
  {
    var rest := Preorder(k.sibs) + b;
    UnlinkStep(w, g, a, k.e, rest);
    UnlinkLive(w, g, k.e);
    var u := Unlink(w, g, k.e);
    if rest != [] {
      BehindApart(v.orders[g], a, k, b);
      assert w.picks[g] == Last(rest) != Some(k.e);
      BackInSibs(v, u, g, a, k, b, y);
    } else {
      assert k.sibs.Nil? by { PreorderElems(k.sibs); }
      assert UnlinkAll(u, g, Postorder(k.sibs)) == u;
      assert a + rest == a + b;
    }
  }

  lemma BehindApart<T>(s: seq<T>, a: seq<T>, k: Forest<T>, b: seq<T>)
    requires Unique(s) && k.Node? && s == a + Preorder(k) + b && Preorder(k.sibs) + b != []
    ensures Last(Preorder(k.sibs) + b) != Some(k.e)
  {
    var front, rest := a + [k.e] + Preorder(k.kids), Preorder(k.sibs) + b;
    assert s == front + rest;
    LastApart(front, rest);
    assert front[|a|] == k.e;
  }

  // Freeing the subtree of x in group g, which holds the selection of g, when the selection of the current
  // group c steps back into g: then g becomes current. It selects its last element if there is one behind
  // the subtree; if not, the element in front of the subtree, or one more step back if there is none,
  // unless the selected element was on the edge of the subtree, which leaves g with no selection.
  lemma FreeReturns<T>(v: View<T>, g: nat, c: nat, a: seq<T>, x: T, k: Forest<T>, b: seq<T>)
    requires Live(v) && g < |v.orders| && Current(v) == Some(c) && c != g && EntersFrom(v, g, c)
    requires Distinct(Node(x, k, Nil)) && v.orders[g] == a + ([x] + Preorder(k)) + b
    requires PickedIn(v, g, Elems(Node(x, k, Nil)))
    ensures
      var t, y := Node(x, k, Nil), v.picks[g].value;
      var w := UnlinkAll(v, g, Postorder(t));
      if a != [] || b != [] || OnEdge(t, y) then Returned(v, w, g, a + b, Remaining(a, t, b, y))
      else Wrapped(v, w, g, b)
  {
    var t := Node(x, k, Nil);
    assert Preorder(t) == [x] + Preorder(k) + [] == [x] + Preorder(k);
    if a != [] {
      FreeReturning(v, g, c, a, t, b);
    } else {
      assert v.orders[g] == [x] + Preorder(k) + b && [] + b == b;
      FreeFirstReturns(v, g, c, x, k, b);
    }
  }

  lemma FreeFirstReturns<T>(v: View<T>, g: nat, c: nat, x: T, k: Forest<T>, b: seq<T>)
    requires Live(v) && g < |v.orders| && Current(v) == Some(c) && c != g && EntersFrom(v, g, c)
    requires Distinct(Node(x, k, Nil)) && v.orders[g] == [x] + Preorder(k) + b
    requires PickedIn(v, g, Elems(Node(x, k, Nil)))
    ensures
      var t, y := Node(x, k, Nil), v.picks[g].value;
      var w := UnlinkAll(v, g, Postorder(t));
      if b != [] || OnEdge(t, y) then Returned(v, w, g, b, Remaining([], t, b, y)) else Wrapped(v, w, g, b)
  {
    var y := v.picks[g].value;
    FreeSplit(v, g, Node(x, k, Nil));
    if y in Elems(k) {
      UnlinkAllLive(v, g, Postorder(k));
      FreeReturning(v, g, c, [x], k, b);
      FirstReturns(v, UnlinkAll(v, g, Postorder(k)), g, x, k, b, y);
    } else {
      assert [] + [x] == [x] && [] + b == b;
      RootSelected(v, g, c, [], x, k, b);
    }
  }

  lemma FirstReturns<T>(v: View<T>, w: View<T>, g: nat, x: T, k: Forest<T>, b: seq<T>, y: T)
    requires Live(v) && Live(w) && g < |v.orders| && Distinct(Node(x, k, Nil)) && y in Elems(k)
    requires v.orders[g] == [x] + Preorder(k) + b
    requires Returned(v, w, g, [x] + b, Remaining([x], k, b, y))
    ensures
      var t, z := Node(x, k, Nil), Unlink(w, g, x);
      if b != [] || OnEdge(t, y) then Returned(v, z, g, b, Remaining([], t, b, y)) else Wrapped(v, z, g, b)
  {
    assert [] + [x] + b == [x] + b && [] + b == b;
    assert w.orders[g] == [x] + b;
    var t, z := Node(x, k, Nil), Unlink(w, g, x);
    assert OnEdge(t, y) <==> OnEdge(k, y);
    if b != [] {
      LastApart([x], b);
      UnlinkPlain(w, g, [], x, b);
      ReturnedOn(v, w, z, g, [x] + b, b, Last(b));
      assert Remaining([], t, b, y) == Last(b);
    } else if OnEdge(k, y) {
      UnlinkPlain(w, g, [], x, b);
      ReturnedOn(v, w, z, g, [x] + b, b, None);
      assert Remaining([], t, b, y) == None;
    } else {
      FirstWraps(v, w, g, x, b);
    }
  }

  lemma FirstWraps<T>(v: View<T>, w: View<T>, g: nat, x: T, b: seq<T>)
    requires Live(w) && g < |v.orders| == |v.picks| == |w.orders| && Returned(v, w, g, [x] + b, Some(x))
    ensures Wrapped(v, Unlink(w, g, x), g, b)
  {
    UnlinkFirst(w, g, x, b);
    WrappedAgain(v, w, Unlink(w, g, x), g, [x] + b, b, Some(x));
  }

  lemma WrappedAgain<T>(v: View<T>, w: View<T>, z: View<T>, g: nat, rest: seq<T>, b: seq<T>, p: Option<T>)
    requires g < |v.orders| == |v.picks| && w.orders == v.orders[g := rest]
    requires w.picks == v.picks[g := p] && Wrapped(w, z, g, b)
    ensures Wrapped(v, z, g, b)
  {
    Overwrite(v.orders, g, rest, b);
  }

  // ---- where freeing does what it is meant to ----

  // Freeing a selected subtree is meant to select the element in front of it and to change nothing else
  // of the selection. It does if and only if the group of the subtree is the current one.
  lemma FreeAsMeantIff<T>(v: View<T>, g: nat, c: nat, a: seq<T>, x: T, k: Forest<T>, b: seq<T>)
    requires Live(v) && g < |v.orders| && Current(v) == Some(c)
    requires Distinct(Node(x, k, Nil)) && v.orders[g] == a + ([x] + Preorder(k)) + b && a != []
    requires PickedIn(v, g, Elems(Node(x, k, Nil)))
    ensures
      var w := UnlinkAll(v, g, Postorder(Node(x, k, Nil)));
      w.picks == v.picks[g := Last(a)] && Current(w) == Current(v) <==> c == g
  {
    if c == g {
      FreeSelected(v, g, a, x, k, b);
    } else if EntersFrom(v, g, c) {
      FreeReturns(v, g, c, a, x, k, b);
    } else {
      FreeElsewhere(v, g, c, a, x, k, b);
      NotFront(v, UnlinkAll(v, g, Postorder(Node(x, k, Nil))), g, c, Last(a));
    }
  }

  lemma NotFront<T>(v: View<T>, w: View<T>, g: nat, c: nat, p: Option<T>)
    requires Live(v) && g < |v.orders| && Current(v) == Some(c) && c != g && !EntersFrom(v, g, c)
    requires MovedBack(v, w, g, c) && p.Some?
    ensures w.picks != v.picks[g := p]
  {
    assert v.picks[g := p][g] == p;
    var h := GroupBefore(|v.orders|, c);
    assert v.picks[c].Some? ==> v.picks[c].value == v.orders[c][IndexOf(v.orders[c], v.picks[c].value)];
  }

  // An instance: b is the selected element of the first group, but the second group is current. Its
  // selection moves from d to c, and the first group selects nothing instead of a.
  lemma FreeCanLoseSelection(v: View<string>)
    requires v == View([["a", "b"], ["c", "d"]], [Some("b"), Some("d")], Some(1))
    ensures Live(v)
    ensures Unlink(v, 0, "b") == View([["a"], ["c", "d"]], [None, Some("c")], Some(1))
  {
    assert "a" != "b" && "c" != "d" by { assert "a"[0] != "b"[0] && "c"[0] != "d"[0]; }
    assert IndexOf(v.orders[1], "d") == 1;
    DropAt(v.orders[0], 1);
    assert v.orders[0][..1] + v.orders[0][2..] == ["a"];
    assert SelectPrev(v) == View(v.orders, [Some("b"), Some("c")], Some(1));
  }
}
