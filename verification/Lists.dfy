// The intrusive doubly linked ring of include/bmon/list.h.
// A ring is a head with the abstract list of the nodes behind it; all operations are proved to
// refine operations on that list, which is what the seq fields of the other modules stand for.
module Lists {

  class ListHead {
    var next: ListHead
    var prev: ListHead

    // init_list_head
    constructor ()
      ensures next == this && prev == this
    {
      next, prev := this, this;
    }
  }

  // The node at place i of the ring, where the head stands on both ends of s.
  ghost function At(head: ListHead, s: seq<ListHead>, i: int): ListHead {
    if 0 <= i < |s| then s[i] else head
  }

  // s is linked into head: next and prev lead around in both directions and no node occurs twice.
  ghost predicate IsRing(head: ListHead, s: seq<ListHead>)
    reads head, s
  {
    && head !in s
    && (forall i, j :: 0 <= i < j < |s| ==> s[i] != s[j])
    && (forall i {:trigger At(head, s, i).next} :: -1 <= i < |s| ==> At(head, s, i).next == At(head, s, i + 1))
    && (forall i {:trigger At(head, s, i).prev} :: 0 <= i <= |s| ==> At(head, s, i).prev == At(head, s, i - 1))
  }

  ghost function Reverse<T>(s: seq<T>): seq<T> {
    if s == [] then [] else Reverse(s[1..]) + [s[0]]
  }

  // The links determine the list: a head cannot be linked to two different lists at once.
  lemma {:induction false} RingUnique(head: ListHead, s: seq<ListHead>, t: seq<ListHead>, n: nat)
    requires IsRing(head, s) && IsRing(head, t) && |s| <= |t| && n <= |s|
    ensures s[..n] == t[..n]
    ensures n == |s| ==> s == t
  {
    if n > 0 {
      RingUnique(head, s, t, n - 1);
      assert At(head, s, n - 2).next == s[n - 1] && At(head, t, n - 2).next == t[n - 1];
      assert s[..n] == s[..n - 1] + [s[n - 1]];
      assert t[..n] == t[..n - 1] + [t[n - 1]];
    }
    if n == |s| {
      assert At(head, s, n - 1).next == head;
      assert At(head, s, n - 1) == At(head, t, n - 1);
      assert At(head, t, n - 1).next == At(head, t, n);
    }
  }

  // __list_add between two neighbours of a ring: obj becomes the node at place i.
  method ListAdd(obj: ListHead, prev: ListHead, next: ListHead, ghost head: ListHead, ghost s: seq<ListHead>,
                 ghost i: nat)
    requires IsRing(head, s) && obj != head && obj !in s && i <= |s|
    requires prev == At(head, s, i - 1) && next == At(head, s, i)
    modifies obj, prev, next
    ensures IsRing(head, s[..i] + [obj] + s[i..])
  {
    prev.next := obj;
    obj.prev := prev;
    next.prev := obj;
    obj.next := next;
    ghost var t := s[..i] + [obj] + s[i..];
    forall j | -1 <= j < |t| ensures At(head, t, j).next == At(head, t, j + 1) {
      assert j != i ==> old(At(head, s, if j < i then j else j - 1).next) == At(head, s, if j < i then j + 1 else j);
    }
    forall j | 0 <= j <= |t| ensures At(head, t, j).prev == At(head, t, j - 1) {
      assert j != i ==>
          old(At(head, s, if j < i then j else j - 1).prev) == At(head, s, if j < i then j - 1 else j - 2);
    }
  }

  // list_add_tail in front of pos: the end of the list if pos is the head, else the place of pos.
  method ListAddTail(obj: ListHead, pos: ListHead, ghost head: ListHead, ghost s: seq<ListHead>, ghost i: nat)
    requires IsRing(head, s) && obj != head && obj !in s && i <= |s| && pos == At(head, s, i)
    modifies obj, pos, pos.prev
    ensures IsRing(head, s[..i] + [obj] + s[i..])
    ensures pos == head && i == |s| ==> IsRing(head, s + [obj])
  {
    assert At(head, s, i).prev == At(head, s, i - 1);
    ListAdd(obj, pos.prev, pos, head, s, i);
    if i == |s| { assert s[..i] + [obj] + s[i..] == s + [obj]; }
  }

  method ListAddHead(obj: ListHead, head: ListHead, ghost s: seq<ListHead>)
    requires IsRing(head, s) && obj != head && obj !in s
    modifies obj, head, head.next
    ensures IsRing(head, [obj] + s)
  {
    assert At(head, s, -1).next == At(head, s, 0);
    ListAdd(obj, head, head.next, head, s, 0);
    assert s[..0] + [obj] + s[0..] == [obj] + s;
  }

  // list_del: the node at place i leaves the ring and keeps its own links.
  method ListDel(obj: ListHead, ghost head: ListHead, ghost s: seq<ListHead>, ghost i: nat)
    requires IsRing(head, s) && i < |s| && obj == s[i]
    modifies obj.next`prev, obj.prev`next
    ensures IsRing(head, s[..i] + s[i + 1..])
    ensures obj.next == old(obj.next) && obj.prev == old(obj.prev)
  {
    assert At(head, s, i).next == At(head, s, i + 1) && At(head, s, i).prev == At(head, s, i - 1);
    obj.next.prev := obj.prev;
    obj.prev.next := obj.next;
    ghost var t := s[..i] + s[i + 1..];
    forall j | -1 <= j < |t| ensures At(head, t, j).next == At(head, t, j + 1) {
      assert j != i - 1 ==>
          old(At(head, s, if j < i then j else j + 1).next) == At(head, s, if j < i then j + 1 else j + 2);
    }
    forall j | 0 <= j <= |t| ensures At(head, t, j).prev == At(head, t, j - 1) {
      assert j != i ==> old(At(head, s, if j < i then j else j + 1).prev) == At(head, s, if j < i then j - 1 else j);
    }
  }

  method ListEmpty(head: ListHead, ghost s: seq<ListHead>) returns (r: bool)
    requires IsRing(head, s)
    ensures r == (s == [])
  {
    assert At(head, s, -1).next == At(head, s, 0);
    r := head.next == head;
  }

  // list_for_each_entry
  method Forward(head: ListHead, ghost s: seq<ListHead>) returns (seen: seq<ListHead>)
    requires IsRing(head, s)
    ensures seen == s
  {
    seen := [];
    assert At(head, s, -1).next == At(head, s, 0);
    var pos := head.next;
    while pos != head
      invariant |seen| <= |s| && seen == s[..|seen|] && pos == At(head, s, |seen|)
      decreases |s| - |seen|
    {
      assert At(head, s, |seen|).next == At(head, s, |seen| + 1);
      seen := seen + [pos];
      pos := pos.next;
    }
  }

  // list_for_each_entry_reverse
  method Backward(head: ListHead, ghost s: seq<ListHead>) returns (seen: seq<ListHead>)
    requires IsRing(head, s)
    ensures seen == Reverse(s)
  {
    seen := [];
    assert At(head, s, |s|).prev == At(head, s, |s| - 1);
    var pos := head.prev;
    ghost var i := |s|;
    assert s[i..] == [];
    while pos != head
      invariant 0 <= i <= |s| && pos == At(head, s, i - 1) && seen == Reverse(s[i..])
      decreases i
    {
      assert At(head, s, i - 1).prev == At(head, s, i - 2);
      ReverseStep(s, i - 1);
      seen := seen + [pos];
      pos := pos.prev;
      i := i - 1;
    }
    assert s[0..] == s;
  }

  lemma ReverseStep<T>(s: seq<T>, i: nat)
    requires i < |s|
    ensures Reverse(s[i..]) == Reverse(s[i + 1..]) + [s[i]]
  {
    assert s[i..][1..] == s[i + 1..];
  }

  ghost function Keep(s: seq<ListHead>, drop: set<ListHead>): seq<ListHead> {
    if s == [] then [] else (if s[0] in drop then [] else [s[0]]) + Keep(s[1..], drop)
  }

  // The node behind place i of a ring.
  lemma NextInRing(head: ListHead, s: seq<ListHead>, i: int)
    requires IsRing(head, s) && -1 <= i < |s|
    ensures At(head, s, i).next == At(head, s, i + 1)
  {
  }

  // Where a walk stands that has the nodes rest before it.
  lemma Standing(head: ListHead, kept: seq<ListHead>, rest: seq<ListHead>)
    requires IsRing(head, kept + rest)
    ensures rest != [] ==> rest[0] != head && rest[0].next == At(head, rest, 1)
  {
    if rest != [] {
      assert rest[0] == (kept + rest)[|kept|];
      NextInRing(head, kept + rest, |kept|);
    }
  }

  // The body of the loop below at the node behind kept.
  method DropOrKeep(pos: ListHead, drop: set<ListHead>, ghost head: ListHead, ghost kept: seq<ListHead>,
                    ghost rest: seq<ListHead>, ghost all: set<ListHead>) returns (ghost kept': seq<ListHead>)
    requires IsRing(head, kept + rest) && rest != [] && pos == rest[0]
    requires head in all && forall x :: x in kept || x in rest ==> x in all
    modifies all
    ensures kept' == if pos in drop then kept else kept + [pos]
    ensures IsRing(head, kept' + rest[1..])
  {
    ghost var ring, m := kept + rest, |kept|;
    if pos in drop {
      NextInRing(head, ring, m);
      assert At(head, ring, m).prev == At(head, ring, m - 1);
      ListDel(pos, head, ring, m);
      assert ring[..m] + ring[m + 1..] == kept + rest[1..];
      kept' := kept;
    } else {
      kept' := kept + [pos];
      assert kept' + rest[1..] == ring;
    }
  }

  lemma MoveOne<T>(s: seq<T>, t: seq<T>)
    requires t != []
    ensures s + t == s + [t[0]] + t[1..]
  {
  }

  lemma KeepOne(kept: seq<ListHead>, rest: seq<ListHead>, drop: set<ListHead>)
    requires rest != []
    ensures kept + Keep(rest, drop) == (if rest[0] in drop then kept else kept + [rest[0]]) + Keep(rest[1..], drop)
  {
    var k := Keep(rest[1..], drop);
    if rest[0] in drop {
      assert [] + k == k;
    } else {
      assert kept + ([rest[0]] + k) == kept + [rest[0]] + k;
    }
  }

  // list_for_each_entry_safe with a body that deletes the nodes in drop: every node is visited,
  // in order, and exactly the nodes outside drop stay in the ring.
  method DeleteSafely(head: ListHead, drop: set<ListHead>, ghost s: seq<ListHead>) returns (seen: seq<ListHead>)
    requires IsRing(head, s)
    modifies head, s
    ensures seen == s
    ensures IsRing(head, Keep(s, drop))
  {
    seen := [];
    ghost var kept: seq<ListHead>, rest, all := [], s, {head} + set x | x in s;
    assert kept + rest == s;
    NextInRing(head, s, -1);
    Standing(head, kept, rest);
    var pos := head.next;
    var n := pos.next;
    while pos != head
      invariant s == seen + rest
      invariant IsRing(head, kept + rest)
      invariant rest == [] ==> pos == head
      invariant rest != [] ==> pos == rest[0] != head && n == At(head, rest, 1)
      invariant Keep(s, drop) == kept + Keep(rest, drop)
      invariant forall x :: x in kept || x in rest ==> x in all
      decreases |rest|
    {
      MoveOne(seen, rest);
      KeepOne(kept, rest, drop);
      kept := DropOrKeep(pos, drop, head, kept, rest, all);
      seen, rest := seen + [pos], rest[1..];
      Standing(head, kept, rest);
      pos := n;
      n := n.next;
    }
    assert kept + rest == kept;
  }
}
