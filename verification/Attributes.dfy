// The attributes of an element: definitions, hash, sorted list. src/attr.c
module Attributes {
  import opened Options
  import opened Sequences
  import opened Counters
  import opened Wildcard

  datatype Kind = COUNTER | RATE | PERCENT

  // struct attr_def; definitions are told apart by their id.
  datatype AttrDef = AttrDef(id: nat, name: string, description: string, kind: Kind, forceHistory: bool, flags: Flags)

  // e_key_attr
  datatype Keys = Keys(major: Option<AttrDef>, minor: Option<AttrDef>)

  // ---- strcasecmp ----

  function CaseCmp(a: string, b: string): int {
    if a == "" then (if b == "" then 0 else -1)
    else if b == "" then 1
    else if Fold(a[0]) != Fold(b[0]) then (if Fold(a[0]) < Fold(b[0]) then -1 else 1)
    else CaseCmp(a[1..], b[1..])
  }

  // a and b agree before place i, up to case, and at i a ends or has the smaller letter.
  ghost predicate LessAt(a: string, b: string, i: nat) {
    && i <= |a| && i < |b| && SameButCase(a[..i], b[..i])
    && (i < |a| ==> Fold(a[i]) < Fold(b[i]))
  }

  // The comparison is that of a dictionary which ignores case, down to the last character.
  lemma {:induction false} CaseCmpIff(a: string, b: string)
    ensures CaseCmp(a, b) == 0 <==> SameButCase(a, b)
    ensures CaseCmp(a, b) < 0 <==> exists i: nat :: LessAt(a, b, i)
    ensures -1 <= CaseCmp(a, b) <= 1
  {
    if a == "" {
      if b != "" { assert LessAt(a, b, 0); }
    } else if b != "" {
      FoldSame(a[0], b[0]);
      SameParts(a, b);
      if Fold(a[0]) == Fold(b[0]) {
        CaseCmpIff(a[1..], b[1..]);
        LessBehind(a, b);
      } else {
        LessInFront(a, b);
      }
    }
  }

  lemma LessBehind(a: string, b: string)
    requires a != "" && b != "" && Fold(a[0]) == Fold(b[0])
    ensures (exists i: nat :: LessAt(a, b, i)) <==> (exists i: nat :: LessAt(a[1..], b[1..], i))
  {
    FoldSame(a[0], b[0]);
    if i: nat :| LessAt(a, b, i) {
      assert i > 0;
      SameParts(a[..i], b[..i]);
      assert a[..i][1..] == a[1..][..i - 1] && b[..i][1..] == b[1..][..i - 1];
      assert LessAt(a[1..], b[1..], i - 1);
    }
    if j: nat :| LessAt(a[1..], b[1..], j) {
      SameParts(a[..j + 1], b[..j + 1]);
      assert a[..j + 1][1..] == a[1..][..j] && b[..j + 1][1..] == b[1..][..j];
      assert LessAt(a, b, j + 1);
    }
  }

  lemma LessInFront(a: string, b: string)
    requires a != "" && b != "" && Fold(a[0]) != Fold(b[0])
    ensures (exists i: nat :: LessAt(a, b, i)) <==> Fold(a[0]) < Fold(b[0])
  {
    if Fold(a[0]) < Fold(b[0]) { assert LessAt(a, b, 0); }
    if i: nat :| LessAt(a, b, i) {
      if i > 0 {
        FoldSame(a[0], b[0]);
        SameParts(a[..i], b[..i]);
      }
    }
  }

  lemma {:induction false} CaseSwap(a: string, b: string)
    ensures CaseCmp(a, b) == -CaseCmp(b, a)
  {
    if a != "" && b != "" {
      CaseSwap(a[1..], b[1..]);
    }
  }

  lemma {:induction false} CaseTransitive(a: string, b: string, c: string)
    requires CaseCmp(a, b) <= 0 && CaseCmp(b, c) <= 0
    ensures CaseCmp(a, c) <= 0
    ensures CaseCmp(a, c) == 0 <==> CaseCmp(a, b) == 0 && CaseCmp(b, c) == 0
  {
    if a != "" && b != "" && c != "" && Fold(a[0]) == Fold(b[0]) == Fold(c[0]) {
      CaseTransitive(a[1..], b[1..], c[1..]);
    }
  }

  // ---- the order of the sorted list ----

  // attrcmp
  function AttrCmp(k: Keys, a: AttrDef, b: AttrDef): int {
    if k.major == Some(b) then 1
    else if k.minor == Some(b) then (if k.major == Some(a) then -1 else 1)
    else CaseCmp(a.description, b.description)
  }

  // Where the loop of attr_update stops: before the first attribute that compares greater.
  function Place(k: Keys, s: seq<AttrDef>, a: AttrDef): (p: nat)
    ensures p <= |s|
    ensures p < |s| ==> AttrCmp(k, a, s[p]) < 0
    ensures forall i :: 0 <= i < p ==> AttrCmp(k, a, s[i]) >= 0
  {
    if s == [] || AttrCmp(k, a, s[0]) < 0 then 0 else 1 + Place(k, s[1..], a)
  }

  function Insert(k: Keys, s: seq<AttrDef>, a: AttrDef): seq<AttrDef> {
    s[..Place(k, s, a)] + [a] + s[Place(k, s, a)..]
  }

  // The sorted list after the attributes were tracked in this order.
  function Order(k: Keys, tracked: seq<AttrDef>): seq<AttrDef> {
    if tracked == [] then []
    else Insert(k, Order(k, tracked[..|tracked| - 1]), tracked[|tracked| - 1])
  }

  ghost predicate Alphabetical(s: seq<AttrDef>) {
    forall i, j :: 0 <= i < j < |s| ==> CaseCmp(s[i].description, s[j].description) <= 0
  }

  // The members of a list whose descriptions equal d up to case, in order.
  ghost function Alike(s: seq<AttrDef>, d: string): seq<AttrDef> {
    if s == [] then []
    else (if CaseCmp(s[0].description, d) == 0 then [s[0]] else []) + Alike(s[1..], d)
  }

  lemma {:induction false} AlikeJoin(s: seq<AttrDef>, t: seq<AttrDef>, d: string)
    ensures Alike(s + t, d) == Alike(s, d) + Alike(t, d)
  {
    if s == [] {
      assert s + t == t;
    } else {
      var head := if CaseCmp(s[0].description, d) == 0 then [s[0]] else [];
      assert (s + t)[1..] == s[1..] + t && (s + t)[0] == s[0];
      AlikeJoin(s[1..], t, d);
      Associate(head, Alike(s[1..], d), Alike(t, d));
    }
  }

  lemma {:induction false} AlikeNone(s: seq<AttrDef>, d: string)
    requires forall i :: 0 <= i < |s| ==> CaseCmp(s[i].description, d) != 0
    ensures Alike(s, d) == []
  {
    if s != [] {
      AlikeNone(s[1..], d);
    }
  }

  ghost predicate Plain(k: Keys, s: seq<AttrDef>) {
    forall i :: 0 <= i < |s| ==> k.major != Some(s[i]) && k.minor != Some(s[i])
  }

  // The ties of every description are those of s, followed by a if it is one.
  ghost predicate AddsTie(s: seq<AttrDef>, a: AttrDef, t: seq<AttrDef>) {
    forall d :: Alike(t, d) == Alike(s, d) + Alike([a], d)
  }

  // Into an alphabetical list without keys, insertion keeps the order and puts ties last.
  lemma InsertStable(k: Keys, s: seq<AttrDef>, a: AttrDef)
    requires Plain(k, s) && Alphabetical(s)
    ensures Alphabetical(Insert(k, s, a)) && AddsTie(s, a, Insert(k, s, a))
  {
    var p := Place(k, s, a);
    Surrounded(k, s, a);
    InsertAlphabetical(s, a, p);
    assert s[..p] + s[p..] == s;
    forall d
      ensures Alike(Insert(k, s, a), d) == Alike(s, d) + Alike([a], d)
    {
      InsertAlike(s[..p], a, s[p..], d);
    }
  }

  lemma Surrounded(k: Keys, s: seq<AttrDef>, a: AttrDef)
    requires Plain(k, s) && Alphabetical(s)
    ensures forall i :: 0 <= i < Place(k, s, a) ==> CaseCmp(s[i].description, a.description) <= 0
    ensures forall i :: Place(k, s, a) <= i < |s| ==> CaseCmp(a.description, s[i].description) < 0
  {
    var p := Place(k, s, a);
    forall i | 0 <= i < p
      ensures CaseCmp(s[i].description, a.description) <= 0
    {
      CaseSwap(a.description, s[i].description);
    }
    forall i | p <= i < |s|
      ensures CaseCmp(a.description, s[i].description) < 0
    {
      if i > p {
        CaseTransitive(a.description, s[p].description, s[i].description);
      }
    }
  }

  lemma InsertAlphabetical(s: seq<AttrDef>, a: AttrDef, p: nat)
    requires Alphabetical(s) && p <= |s|
    requires forall i :: 0 <= i < p ==> CaseCmp(s[i].description, a.description) <= 0
    requires forall i :: p <= i < |s| ==> CaseCmp(a.description, s[i].description) < 0
    ensures Alphabetical(s[..p] + [a] + s[p..])
  {
  }

  lemma InsertAlike(s: seq<AttrDef>, a: AttrDef, t: seq<AttrDef>, d: string)
    requires forall i :: 0 <= i < |t| ==> CaseCmp(a.description, t[i].description) < 0
    ensures Alike(s + [a] + t, d) == Alike(s + t, d) + Alike([a], d)
  {
    AlikeSplit(s, a, t, d);
    AlikeJoin(s, t, d);
    if CaseCmp(a.description, d) == 0 {
      NoTies(t, a, d);
    } else {
      AlikeNone([a], d);
    }
    Exchange(Alike(s, d), Alike([a], d), Alike(t, d));
  }

  lemma Exchange<T>(x: seq<T>, y: seq<T>, z: seq<T>)
    requires y == [] || z == []
    ensures x + y + z == x + z + y
  {
  }

  lemma AlikeSplit(s: seq<AttrDef>, a: AttrDef, t: seq<AttrDef>, d: string)
    ensures Alike(s + [a] + t, d) == Alike(s, d) + Alike([a], d) + Alike(t, d)
  {
    AlikeJoin(s + [a], t, d);
    AlikeJoin(s, [a], d);
  }

  lemma NoTies(s: seq<AttrDef>, a: AttrDef, d: string)
    requires CaseCmp(a.description, d) == 0
    requires forall i :: 0 <= i < |s| ==> CaseCmp(a.description, s[i].description) < 0
    ensures Alike(s, d) == []
  {
    forall i | 0 <= i < |s|
      ensures CaseCmp(s[i].description, d) != 0
    {
      CaseSwap(s[i].description, d);
      if CaseCmp(d, s[i].description) == 0 {
        CaseTransitive(a.description, d, s[i].description);
      }
    }
    AlikeNone(s, d);
  }

  // The major key is first and the minor key second.
  ghost predicate Leads(k: Keys, s: seq<AttrDef>) {
    |s| >= 2 && k.major == Some(s[0]) && k.minor == Some(s[1])
  }

  // A list that starts with the two keys, followed by the others in alphabetical order.
  ghost predicate KeysLead(k: Keys, s: seq<AttrDef>) {
    Leads(k, s) && Plain(k, s[2..]) && Alphabetical(s[2..])
  }

  ghost predicate SameTies(s: seq<AttrDef>, t: seq<AttrDef>) {
    forall d :: Alike(s, d) == Alike(t, d)
  }

  // If the two keys are the first two attributes tracked, in either order, then after any number of
  // later attributes the major key is first, the minor key second, and the others are in
  // alphabetical order regardless of case, ties in the order they were tracked.
  lemma {:induction false} KeysStayInFront(k: Keys, tracked: seq<AttrDef>)
    requires |tracked| >= 2 && k.major.Some? && k.minor.Some? && k.major != k.minor
    requires {k.major.value, k.minor.value} == {tracked[0], tracked[1]}
    requires Plain(k, tracked[2..])
    ensures KeysLead(k, Order(k, tracked)) && SameTies(Order(k, tracked)[2..], tracked[2..])
  {
    var n := |tracked| - 1;
    var before, a := tracked[..n], tracked[n];
    if |tracked| == 2 {
      KeysFirst(k, tracked);
    } else {
      var others := tracked[2..];
      assert others[n - 2] == a && before[2..] == others[..n - 2];
      KeysStayInFront(k, before);
      InsertBehindKeys(k, Order(k, before), a);
      AddTies(Order(k, before)[2..], before[2..], a, Order(k, tracked)[2..]);
      assert others == before[2..] + [a];
    }
  }

  lemma KeysFirst(k: Keys, tracked: seq<AttrDef>)
    requires |tracked| == 2 && k.major.Some? && k.minor.Some? && k.major != k.minor
    requires {k.major.value, k.minor.value} == {tracked[0], tracked[1]}
    ensures Order(k, tracked) == [k.major.value, k.minor.value]
  {
    assert k.major.value in {tracked[0], tracked[1]} && k.minor.value in {tracked[0], tracked[1]};
    var one := tracked[..1];
    assert one[..0] == [] && one[0] == tracked[0];
    assert Order(k, one) == [tracked[0]];
  }

  lemma InsertBehindKeys(k: Keys, s: seq<AttrDef>, a: AttrDef)
    requires KeysLead(k, s) && k.major != Some(a) && k.minor != Some(a)
    ensures KeysLead(k, Insert(k, s, a)) && AddsTie(s[2..], a, Insert(k, s, a)[2..])
  {
    PlaceBehindKeys(k, s, a);
    InsertStable(k, s[2..], a);
    InsertPlain(k, s[2..], a);
  }

  lemma PlaceBehindKeys(k: Keys, s: seq<AttrDef>, a: AttrDef)
    requires |s| >= 2 && k.major == Some(s[0]) && k.minor == Some(s[1]) && k.major != Some(a)
    ensures Insert(k, s, a) == s[..2] + Insert(k, s[2..], a)
  {
    assert s[1..][1..] == s[2..] && s[1..][0] == s[1];
    assert Place(k, s, a) == 2 + Place(k, s[2..], a);
  }

  lemma InsertPlain(k: Keys, s: seq<AttrDef>, a: AttrDef)
    requires Plain(k, s) && k.major != Some(a) && k.minor != Some(a)
    ensures Plain(k, Insert(k, s, a))
  {
  }

  lemma AddTies(s: seq<AttrDef>, others: seq<AttrDef>, a: AttrDef, t: seq<AttrDef>)
    requires SameTies(s, others) && AddsTie(s, a, t)
    ensures SameTies(t, others + [a])
  {
    forall d
      ensures Alike(t, d) == Alike(others + [a], d)
    {
      AlikeJoin(others, [a], d);
    }
  }

  // ---- how far the promise of the comparison holds ----

  // The major key comes first exactly if it is tracked into an empty list, before the minor key, or
  // before an alphabetically greater head.
  lemma MajorFirstIff(k: Keys, s: seq<AttrDef>, a: AttrDef)
    requires k.major == Some(a) && a !in s
    ensures Insert(k, s, a)[0] == a <==>
            s == [] || k.minor == Some(s[0]) || CaseCmp(a.description, s[0].description) < 0
  {
    assert s != [] ==> s[0] in s;
  }

  // Once first, it stays first; once behind another attribute, it stays behind.
  lemma MajorStays(k: Keys, s: seq<AttrDef>, a: AttrDef)
    requires s != [] && k.major.Some? && k.major.value in s && k.major != Some(a)
    ensures k.major == Some(Insert(k, s, a)[0]) <==> k.major == Some(s[0])
  {
  }

  // The minor key comes second, behind a leading major key, exactly if no attribute it does not
  // precede in the alphabet is there yet.
  lemma MinorSecondIff(k: Keys, s: seq<AttrDef>, a: AttrDef)
    requires s != [] && k.major == Some(s[0]) && k.minor == Some(a) && k.major != k.minor
    requires a !in s && s[0] !in s[1..]
    ensures Insert(k, s, a)[1] == a <==> |s| == 1 || CaseCmp(a.description, s[1].description) < 0
  {
    assert |s| > 1 ==> s[1..][0] == s[1] && s[1] in s && s[1] in s[1..];
  }

  // A major key that comes after the minor one leads, with the minor key behind it, exactly if the minor
  // key led before.
  lemma MajorLaterIff(k: Keys, s: seq<AttrDef>, a: AttrDef)
    requires k.major == Some(a) && k.minor.Some? && k.minor.value in s && k.major != k.minor && a !in s
    ensures Leads(k, Insert(k, s, a)) <==> k.minor == Some(s[0])
  {
  }

  // Behind a leading major key, a later attribute neither moves a second minor key nor lets one become
  // second that was not.
  lemma MinorStays(k: Keys, s: seq<AttrDef>, a: AttrDef)
    requires s != [] && k.major == Some(s[0]) && k.minor.Some? && k.minor.value in s[1..]
    requires k.major != Some(a) && k.minor != Some(a)
    ensures k.minor == Some(Insert(k, s, a)[1]) <==> k.minor == Some(s[1])
  {
    assert AttrCmp(k, a, s[0]) == 1;
  }

  // ---- the keys over whole runs ----

  ghost predicate Unrepeated(s: seq<AttrDef>) {
    forall i, j :: 0 <= i < j < |s| ==> s[i] != s[j]
  }

  // The last of the two keys arrives in a list in which they take the lead.
  ghost predicate Arrives(k: Keys, s: seq<AttrDef>, a: AttrDef) {
    s != [] &&
    if k.major == Some(a) then k.minor == Some(s[0])
    else k.major == Some(s[0]) && (|s| == 1 || CaseCmp(a.description, s[1].description) < 0)
  }

  lemma InsertMembers(k: Keys, s: seq<AttrDef>, a: AttrDef)
    ensures forall x :: x in Insert(k, s, a) <==> x == a || x in s
  {
    var p := Place(k, s, a);
    assert s == s[..p] + s[p..];
    assert Insert(k, s, a)[p] == a;
  }

  lemma InsertUnrepeated(s: seq<AttrDef>, a: AttrDef, p: nat)
    requires Unrepeated(s) && a !in s && p <= |s|
    ensures Unrepeated(s[..p] + [a] + s[p..])
  {
  }

  // The last of a list without repetition.
  lemma LastApart(s: seq<AttrDef>)
    requires s != [] && Unrepeated(s)
    ensures var n := |s| - 1; Unrepeated(s[..n]) && s[n] !in s[..n]
    ensures forall x :: x in s <==> x == s[|s| - 1] || x in s[..|s| - 1]
  {
    assert s == s[..|s| - 1] + [s[|s| - 1]];
  }

  lemma {:induction false} OrderMembers(k: Keys, tracked: seq<AttrDef>)
    requires Unrepeated(tracked)
    ensures forall x :: x in Order(k, tracked) <==> x in tracked
    ensures Unrepeated(Order(k, tracked))
  {
    if tracked != [] {
      var n := |tracked| - 1;
      var s := Order(k, tracked[..n]);
      LastApart(tracked);
      OrderMembers(k, tracked[..n]);
      InsertMembers(k, s, tracked[n]);
      InsertUnrepeated(s, tracked[n], Place(k, s, tracked[n]));
    }
  }

  lemma LastKeyLeads(k: Keys, s: seq<AttrDef>, a: AttrDef)
    requires k.major.Some? && k.minor.Some? && k.major != k.minor && Unrepeated(s) && a !in s
    requires (k.major == Some(a) && k.minor.value in s) || (k.minor == Some(a) && k.major.value in s)
    ensures Leads(k, Insert(k, s, a)) <==> Arrives(k, s, a)
  {
    if k.major == Some(a) {
      MajorLaterIff(k, s, a);
    } else if k.major == Some(s[0]) {
      assert s[0] !in s[1..];
      MinorSecondIff(k, s, a);
    } else {
      MajorStays(k, s, a);
    }
  }

  lemma LeadStays(k: Keys, s: seq<AttrDef>, a: AttrDef)
    requires k.major.Some? && k.minor.Some? && k.major != k.minor && k.major.value in s && k.minor.value in s
    requires k.major != Some(a) && k.minor != Some(a)
    ensures Leads(k, Insert(k, s, a)) <==> Leads(k, s)
  {
    MajorStays(k, s, a);
    if k.major == Some(s[0]) {
      assert k.minor.value in s[1..];
      MinorStays(k, s, a);
    }
  }

  // Both keys are tracked, the last of them at place j.
  ghost predicate LastKeyAt(k: Keys, tracked: seq<AttrDef>, j: nat) {
    && k.major.Some? && k.minor.Some? && k.major != k.minor && Unrepeated(tracked) && j < |tracked|
    && ((k.major == Some(tracked[j]) && k.minor.value in tracked[..j]) ||
        (k.minor == Some(tracked[j]) && k.major.value in tracked[..j]))
  }

  // Over any run, the major key ends up first and the minor key second exactly if they took the lead when
  // the last of the two was tracked, which the list before that call decides.
  lemma {:induction false} KeysLeadIff(k: Keys, tracked: seq<AttrDef>, j: nat)
    requires LastKeyAt(k, tracked, j)
    ensures Leads(k, Order(k, tracked)) <==> Arrives(k, Order(k, tracked[..j]), tracked[j])
    decreases |tracked|
  {
    var n := |tracked| - 1;
    var before := tracked[..n];
    LastApart(tracked);
    OrderMembers(k, before);
    if j == n {
      LastKeyLeads(k, Order(k, before), tracked[n]);
    } else {
      LastKeyBefore(k, tracked, j);
      KeysLeadIff(k, before, j);
      KeysTracked(k, before, j);
      LeadStays(k, Order(k, before), tracked[n]);
    }
  }

  lemma LastKeyBefore(k: Keys, tracked: seq<AttrDef>, j: nat)
    requires LastKeyAt(k, tracked, j) && j < |tracked| - 1
    ensures
      var n := |tracked| - 1;
      && LastKeyAt(k, tracked[..n], j) && tracked[..n][..j] == tracked[..j] && tracked[..n][j] == tracked[j]
      && k.major != Some(tracked[n]) && k.minor != Some(tracked[n])
  {
    var n := |tracked| - 1;
    LastApart(tracked);
    assert tracked[..n][..j] == tracked[..j];
    assert forall x :: x in tracked[..j] ==> x in tracked[..n];
  }

  lemma KeysTracked(k: Keys, tracked: seq<AttrDef>, j: nat)
    requires LastKeyAt(k, tracked, j)
    ensures k.major.value in tracked && k.minor.value in tracked
  {
  }

  // The same for the major key alone.
  lemma {:induction false} MajorLeadsIff(k: Keys, tracked: seq<AttrDef>, j: nat)
    requires Unrepeated(tracked) && j < |tracked| && k.major == Some(tracked[j])
    ensures Order(k, tracked) != []
    ensures
      var s := Order(k, tracked[..j]);
      k.major == Some(Order(k, tracked)[0]) <==>
        s == [] || k.minor == Some(s[0]) || CaseCmp(tracked[j].description, s[0].description) < 0
    decreases |tracked|
  {
    var n := |tracked| - 1;
    var before := tracked[..n];
    OrderMembers(k, before);
    if j == n {
      MajorFirstIff(k, Order(k, before), tracked[n]);
    } else {
      assert before[..j] == tracked[..j] && tracked[j] == before[j];
      MajorLeadsIff(k, before, j);
      MajorStays(k, Order(k, before), tracked[n]);
    }
  }

  // ---- instances ----

  lemma InsertAtEnd(k: Keys, s: seq<AttrDef>, a: AttrDef)
    requires forall i :: 0 <= i < |s| ==> AttrCmp(k, a, s[i]) >= 0
    ensures Insert(k, s, a) == s + [a]
  {
    var p := Place(k, s, a);
    assert p == |s|;
  }

  lemma OrderOne(k: Keys, a: AttrDef)
    ensures Order(k, [a]) == [a]
  {
    assert [a][..0] == [];
  }

  // The major key is not always first.
  lemma MajorCanComeLast(a: AttrDef, b: AttrDef)
    requires a.description == "Bytes" && b.description == "Packets"
    ensures Order(Keys(Some(b), None), [a, b]) == [a, b]
  {
    var k := Keys(Some(b), None);
    assert CaseCmp(b.description, a.description) == 1;
    assert [a, b][..1] == [a];
    OrderOne(k, a);
    assert Place(k, [a], b) == 1;
  }

  // Nor is the minor key always second behind a first major key: here it is third, if it was tracked
  // before the major key ...
  lemma MinorCanComeThird(major: AttrDef, other: AttrDef, minor: AttrDef)
    requires major.description == "A" && other.description == "B" && minor.description == "C"
    ensures Order(Keys(Some(major), Some(minor)), [other, minor, major]) == [major, other, minor]
  {
    var k := Keys(Some(major), Some(minor));
    assert CaseCmp("B", "C") == CaseCmp("A", "B") == -1 && CaseCmp("C", "B") == 1;
    OrderOne(k, other);
    assert [other, minor][..1] == [other] && [other, minor, major][..2] == [other, minor];
    assert Place(k, [other], minor) == 1 && Order(k, [other, minor]) == [other, minor];
    assert Place(k, [other, minor], major) == 0;
  }

  // ... and here, if it was tracked after it.
  lemma MinorCanComeThirdLater(major: AttrDef, other: AttrDef, minor: AttrDef)
    requires major.description == "A" && other.description == "B" && minor.description == "C"
    ensures Order(Keys(Some(major), Some(minor)), [major, other, minor]) == [major, other, minor]
  {
    var k := Keys(Some(major), Some(minor));
    assert CaseCmp("C", "B") == 1;
    OrderOne(k, major);
    InsertAtEnd(k, [major], other);
    InsertAtEnd(k, [major, other], minor);
    assert [major, other][..1] == [major] && [major, other, minor][..2] == [major, other];
    assert [major] + [other] == [major, other] && [major, other] + [minor] == [major, other, minor];
  }
}
