// The attributes tracked by an element, in a hash and in a sorted list. src/attr.c
module AttrIndex {
  import opened Options
  import opened Timing
  import opened Counters
  import opened History
  import opened Attributes

  const HASH_SIZE := 32

  function Hash(id: nat): nat {
    id % HASH_SIZE
  }

  // What attr_update writes of an attribute.
  datatype AttrState = AttrState(rx: RateState, tx: RateState, rxEnabled: bool, txEnabled: bool, updated: Stamp)

  const BLANK := AttrState(START.rate, START.rate, false, false, Stamp(0, 0))

  // struct attr
  class Attr {
    const def: AttrDef
    const rx: Rate
    const tx: Rate
    const histories: seq<Ring>  // a_history_list; empty unless history is collected
    var rxEnabled: bool
    var txEnabled: bool
    var updated: Stamp

    constructor (def: AttrDef, histories: seq<Ring>)
      ensures this.def == def && this.histories == histories && fresh(rx) && fresh(tx) && rx != tx
      ensures Value() == BLANK
    {
      this.def, this.histories, rxEnabled, txEnabled, updated := def, histories, false, false, Stamp(0, 0);
      rx := new Rate();
      tx := new Rate();
    }

    function Value(): AttrState
      reads this, rx, tx
    {
      AttrState(rx.Value(), tx.Value(), rxEnabled, txEnabled, updated)
    }

    // The end of attr_update: the readings that came are entered.
    method Enter(rxNow: Option<nat>, txNow: Option<nat>, now: Stamp)
      requires rx != tx
      modifies this, rx, tx
      ensures Entered(this, old(Value()), rxNow, txNow, now)
    {
      if rxNow.Some? {
        rx.current, rxEnabled, updated := rxNow.value, true, now;
      }
      if txNow.Some? {
        tx.current, txEnabled, updated := txNow.value, true, now;
      }
    }
  }

  // An attribute after the readings that came were entered; nothing else of it changed.
  ghost predicate Entered(a: Attr, before: AttrState, rx: Option<nat>, tx: Option<nat>, now: Stamp)
    reads a, a.rx, a.tx
  {
    && a.rx.Value() == (if rx.Some? then before.rx.(current := rx.value) else before.rx)
    && a.tx.Value() == (if tx.Some? then before.tx.(current := tx.value) else before.tx)
    && (a.rxEnabled <==> before.rxEnabled || rx.Some?) && (a.txEnabled <==> before.txEnabled || tx.Some?)
    && a.updated == if rx.Some? || tx.Some? then now else before.updated
  }

  ghost function Parts(a: Attr?): set<object> {
    if a == null then {} else {a, a.rx, a.tx}
  }

  // collect_history
  predicate Collects(k: Keys, def: AttrDef) {
    def.forceHistory || k.major == Some(def) || k.minor == Some(def)
  }

  // History is kept of the two keys, whatever they are, and of what the configuration asks for; of no more.
  lemma CollectsIff(major: AttrDef, minor: AttrDef, def: AttrDef)
    ensures Collects(Keys(Some(major), Some(minor)), major) && Collects(Keys(Some(major), Some(minor)), minor)
    ensures def.forceHistory ==> Collects(Keys(None, None), def)
    ensures !def.forceHistory && def != major && def != minor ==> !Collects(Keys(Some(major), Some(minor)), def)
    ensures !def.forceHistory ==> !Collects(Keys(None, None), def)
  {
  }

  // A new attribute starts at zero in both directions and shows nothing before its first reading.
  lemma StartsBlank(a: Attr, rx: Option<nat>, tx: Option<nat>, now: Stamp)
    requires Entered(a, BLANK, rx, tx, now)
    ensures a.rx.total == a.rx.prev == a.rx.reset == 0 && a.tx.total == a.tx.prev == a.tx.reset == 0
    ensures a.rx.current == (if rx.Some? then rx.value else 0) && a.tx.current == (if tx.Some? then tx.value else 0)
    ensures (a.rxEnabled <==> rx.Some?) && (a.txEnabled <==> tx.Some?)
  {
  }

  // A reading goes to its own direction and shows it; without one that direction stays as it was.
  lemma EnteredReadings(a: Attr, before: AttrState, rx: Option<nat>, tx: Option<nat>, now: Stamp)
    requires Entered(a, before, rx, tx, now)
    ensures rx.Some? ==> a.rx.current == rx.value && a.rxEnabled && a.updated == now
    ensures tx.Some? ==> a.tx.current == tx.value && a.txEnabled && a.updated == now
    ensures rx.None? ==> a.rx.Value() == before.rx && a.rxEnabled == before.rxEnabled
    ensures tx.None? ==> a.tx.Value() == before.tx && a.txEnabled == before.txEnabled
    ensures a.rx.total == before.rx.total && a.tx.total == before.tx.total
  {
  }

  ghost function Defs(s: seq<Attr>): (r: seq<AttrDef>)
    ensures |r| == |s|
  {
    seq(|s|, i requires 0 <= i < |s| => s[i].def)
  }

  // A linear search.
  ghost function Find(s: seq<Attr>, id: nat): (r: Attr?)
    ensures r != null ==> r in s && r.def.id == id
    ensures r == null ==> forall i :: 0 <= i < |s| ==> s[i].def.id != id
  {
    if s == [] then null else if s[0].def.id == id then s[0] else Find(s[1..], id)
  }

  // attr_def_lookup_id
  method DefLookup(defs: seq<AttrDef>, id: nat) returns (r: Option<AttrDef>)
    ensures r.Some? ==> r.value in defs && r.value.id == id
    ensures r.None? ==> forall d :: d in defs ==> d.id != id
  {
    for i := 0 to |defs|
      invariant forall j :: 0 <= j < i ==> defs[j].id != id
    {
      if defs[i].id == id {
        return Some(defs[i]);
      }
    }
    r := None;
  }

  // ---- the two structures agree ----

  ghost predicate Distinct(s: seq<Attr>) {
    forall i, j :: 0 <= i < j < |s| ==> s[i].def.id != s[j].def.id
  }

  // The content of one bucket: attributes of the list with its hash, each once.
  ghost predicate Filed(bucket: seq<Attr>, b: nat, sorted: seq<Attr>) {
    && Distinct(bucket)
    && forall i :: 0 <= i < |bucket| ==> bucket[i] in sorted && Hash(bucket[i].def.id) == b
  }

  ghost predicate AllFiled(hash: seq<seq<Attr>>, sorted: seq<Attr>) {
    forall b :: 0 <= b < |hash| ==> Filed(hash[b], b, sorted)
  }

  ghost predicate Listed(hash: seq<seq<Attr>>, sorted: seq<Attr>)
    requires |hash| == HASH_SIZE
  {
    forall i :: 0 <= i < |sorted| ==> sorted[i] in hash[Hash(sorted[i].def.id)]
  }

  // The buckets hold the attributes of the list, each once and in the bucket of its id.
  ghost predicate Indexed(hash: seq<seq<Attr>>, sorted: seq<Attr>) {
    |hash| == HASH_SIZE && Distinct(sorted) && AllFiled(hash, sorted) && Listed(hash, sorted)
  }

  lemma {:induction false} FindIs(s: seq<Attr>, a: Attr)
    requires Distinct(s) && a in s
    ensures Find(s, a.def.id) == a
  {
    if s[0] != a {
      assert a in s[1..];
      FindIs(s[1..], a);
    }
  }

  // The bucket alone is enough to find what a search of the whole list finds.
  lemma BucketFinds(hash: seq<seq<Attr>>, sorted: seq<Attr>, id: nat)
    requires Indexed(hash, sorted)
    ensures Find(hash[Hash(id)], id) == Find(sorted, id)
  {
    var h := Hash(id);
    assert Filed(hash[h], h, sorted);
    var t := Find(sorted, id);
    if t != null {
      var a: Attr := t;
      FindIs(hash[h], a);
    }
  }

  ghost function Flatten(hash: seq<seq<Attr>>): seq<Attr> {
    if hash == [] then [] else Flatten(hash[..|hash| - 1]) + hash[|hash| - 1]
  }

  lemma {:induction false} CountDistinct(s: seq<Attr>, a: Attr)
    requires Distinct(s)
    ensures multiset(s)[a] == if a in s then 1 else 0
  {
    if s != [] {
      var n := |s| - 1;
      assert s == s[..n] + [s[n]];
      assert Distinct(s[..n]);
      CountDistinct(s[..n], a);
    }
  }

  // A walk through all buckets meets every attribute of the list exactly once, and no other.
  lemma BucketsHoldEachOnce(hash: seq<seq<Attr>>, sorted: seq<Attr>)
    requires Indexed(hash, sorted)
    ensures forall a: Attr :: multiset(Flatten(hash))[a] == if a in sorted then 1 else 0
  {
    forall a: Attr
      ensures multiset(Flatten(hash))[a] == if a in sorted then 1 else 0
    {
      CountUpTo(hash, sorted, HASH_SIZE, a);
      assert hash[..HASH_SIZE] == hash;
    }
  }

  lemma {:induction false} CountUpTo(hash: seq<seq<Attr>>, sorted: seq<Attr>, n: nat, a: Attr)
    requires Indexed(hash, sorted) && n <= HASH_SIZE
    ensures multiset(Flatten(hash[..n]))[a] == if a in sorted && Hash(a.def.id) < n then 1 else 0
  {
    if n > 0 {
      assert hash[..n][..n - 1] == hash[..n - 1];
      InBucket(hash, sorted, a, n - 1);
      CountUpTo(hash, sorted, n - 1, a);
      CountDistinct(hash[n - 1], a);
    }
  }

  lemma InBucket(hash: seq<seq<Attr>>, sorted: seq<Attr>, a: Attr, b: nat)
    requires Indexed(hash, sorted) && b < HASH_SIZE
    ensures Distinct(hash[b]) && (a in hash[b] <==> a in sorted && Hash(a.def.id) == b)
  {
    assert Filed(hash[b], b, sorted);
  }

  // A new attribute at the end of its bucket and anywhere in the list.
  lemma IndexedAdd(hash: seq<seq<Attr>>, sorted: seq<Attr>, a: Attr, p: nat)
    requires Indexed(hash, sorted) && p <= |sorted| && Find(sorted, a.def.id) == null
    ensures Indexed(AddTo(hash, a), With(sorted, a, p))
  {
    WithMembers(sorted, a, p);
    DistinctAdd(sorted, a, p);
    AllFiledAdd(hash, sorted, a, With(sorted, a, p));
    ListedAdd(hash, sorted, a, With(sorted, a, p));
  }

  lemma AllFiledAdd(hash: seq<seq<Attr>>, sorted: seq<Attr>, a: Attr, sorted': seq<Attr>)
    requires |hash| == HASH_SIZE && AllFiled(hash, sorted) && Find(sorted, a.def.id) == null
    requires forall x: Attr :: x in sorted' <==> x == a || x in sorted
    ensures AllFiled(AddTo(hash, a), sorted')
  {
    forall b | 0 <= b < HASH_SIZE
      ensures Filed(AddTo(hash, a)[b], b, sorted')
    {
      assert Filed(hash[b], b, sorted);
      if b == Hash(a.def.id) { FiledAdd(hash[b], b, sorted, a, sorted'); }
    }
  }

  lemma ListedAdd(hash: seq<seq<Attr>>, sorted: seq<Attr>, a: Attr, sorted': seq<Attr>)
    requires |hash| == HASH_SIZE && Listed(hash, sorted)
    requires forall x: Attr :: x in sorted' <==> x == a || x in sorted
    ensures Listed(AddTo(hash, a), sorted')
  {
    forall i | 0 <= i < |sorted'|
      ensures sorted'[i] in AddTo(hash, a)[Hash(sorted'[i].def.id)]
    {
      if sorted'[i] != a { assert sorted'[i] in sorted; }
    }
  }

  lemma FiledAdd(bucket: seq<Attr>, b: nat, sorted: seq<Attr>, a: Attr, sorted': seq<Attr>)
    requires Filed(bucket, b, sorted) && Find(sorted, a.def.id) == null && Hash(a.def.id) == b
    requires forall x: Attr :: x in sorted' <==> x == a || x in sorted
    ensures Filed(bucket + [a], b, sorted')
  {
    forall i | 0 <= i < |bucket|
      ensures bucket[i].def.id != a.def.id
    {
      assert bucket[i] in sorted;
    }
  }

  ghost function AddTo(hash: seq<seq<Attr>>, a: Attr): seq<seq<Attr>>
    requires |hash| == HASH_SIZE
  {
    hash[Hash(a.def.id) := hash[Hash(a.def.id)] + [a]]
  }

  ghost function With(s: seq<Attr>, a: Attr, p: nat): seq<Attr>
    requires p <= |s|
  {
    s[..p] + [a] + s[p..]
  }

  // The definitions of the list follow the order of insertion.
  lemma DefsInsert(k: Keys, s: seq<Attr>, a: Attr)
    ensures Defs(With(s, a, Place(k, Defs(s), a.def))) == Insert(k, Defs(s), a.def)
  {
  }

  lemma WithMembers(s: seq<Attr>, a: Attr, p: nat)
    requires p <= |s|
    ensures forall b: Attr :: b in With(s, a, p) <==> b == a || b in s
  {
    assert s == s[..p] + s[p..];
    assert With(s, a, p)[p] == a;
  }

  // No attribute uses one rate for both directions.
  ghost predicate Apart(s: seq<Attr>) {
    forall i :: 0 <= i < |s| ==> s[i].rx != s[i].tx
  }

  lemma DistinctAdd(s: seq<Attr>, a: Attr, p: nat)
    requires Distinct(s) && p <= |s| && forall i :: 0 <= i < |s| ==> s[i].def.id != a.def.id
    ensures Distinct(With(s, a, p))
    ensures Apart(s) && a.rx != a.tx ==> Apart(With(s, a, p))
  {
  }

  // ---- the element's part of struct element ----

  class AttrTable {
    var hash: seq<seq<Attr>>  // e_attrhash
    var sorted: seq<Attr>     // e_attr_sorted
    var nattrs: nat           // e_nattrs
    const keys: Keys          // e_key_attr, set before any attribute is tracked
    ghost var tracked: seq<AttrDef>  // the definitions in the order they were tracked

    ghost predicate Valid()
      reads this
    {
      && Indexed(hash, sorted) && nattrs == |sorted|
      && Apart(sorted) && Defs(sorted) == Order(keys, tracked)
    }

    constructor (keys: Keys)
      ensures Valid() && sorted == [] && this.keys == keys && tracked == []
    {
      hash, sorted, nattrs, this.keys, tracked := seq(HASH_SIZE, _ => []), [], 0, keys, [];
    }

    // attr_lookup searches one bucket only.
    method AttrLookup(id: nat) returns (r: Attr?)
      requires Valid()
      ensures r == Find(sorted, id)
    {
      BucketFinds(hash, sorted, id);
      ghost var all := Find(sorted, id);
      var bucket := hash[Hash(id)];
      for i := 0 to |bucket|
        invariant Find(bucket[i..], id) == all
      {
        assert bucket[i..][0] == bucket[i] && bucket[i..][1..] == bucket[i + 1..];
        if bucket[i].def.id == id {
          return bucket[i];
        }
      }
      r := null;
    }

    // A new attribute enters both structures.
    method Track(a: Attr)
      requires Valid() && Find(sorted, a.def.id) == null && a.rx != a.tx
      modifies this`hash, this`sorted, this`nattrs, this`tracked
      ensures Valid() && sorted == With(old(sorted), a, Place(keys, old(Defs(sorted)), a.def))
      ensures tracked == old(tracked) + [a.def]
    {
      var p := PlaceOf(a.def);
      DefsInsert(keys, sorted, a);
      assert (tracked + [a.def])[..|tracked|] == tracked;
      IndexedAdd(hash, sorted, a, p);
      DistinctAdd(sorted, a, p);
      var h := Hash(a.def.id);
      hash := hash[h := hash[h] + [a]];
      nattrs := nattrs + 1;
      sorted := sorted[..p] + [a] + sorted[p..];
      tracked := tracked + [a.def];
    }

    // The loop that looks for the place of a new attribute.
    method PlaceOf(def: AttrDef) returns (p: nat)
      ensures p <= |sorted| && p == Place(keys, Defs(sorted), def)
    {
      ghost var defs := Defs(sorted);
      p := 0;
      while p < |sorted| && AttrCmp(keys, def, sorted[p].def) >= 0
        invariant p <= |sorted| && p + Place(keys, defs[p..], def) == Place(keys, defs, def)
      {
        assert defs[p..][0] == sorted[p].def && defs[p..][1..] == defs[p + 1..];
        p := p + 1;
      }
      assert p < |sorted| ==> defs[p..][0] == sorted[p].def;
    }

    // attr_update; rings are the histories a new attribute gets if it collects any.
    method AttrUpdate(defs: seq<AttrDef>, id: nat, rx: Option<nat>, tx: Option<nat>, now: Stamp, rings: seq<Ring>)
      returns (a: Attr?)
      requires Valid()
      modifies this`hash, this`sorted, this`nattrs, this`tracked, Parts(Find(sorted, id))
      ensures Valid() && a == Find(sorted, id)
      ensures a == null <==> old(Find(sorted, id)) == null && forall d :: d in defs ==> d.id != id
      // an unknown definition changes nothing, a known attribute stays where it is
      ensures a == old(Find(sorted, id)) <==> hash == old(hash) && sorted == old(sorted) && tracked == old(tracked)
      ensures a != null && a == old(Find(sorted, id)) ==> Entered(a, old(a.Value()), rx, tx, now)
      // a new attribute is inserted in order
      ensures a != null && old(Find(sorted, id)) == null ==>
                && fresh(a) && a.def in defs && a.def.id == id && Entered(a, BLANK, rx, tx, now)
                && a.histories == (if Collects(keys, a.def) then rings else [])
                && tracked == old(tracked) + [a.def]
                && sorted == With(old(sorted), a, Place(keys, old(Defs(sorted)), a.def))
    {
      a := AttrLookup(id);
      if a == null {
        var def := DefLookup(defs, id);
        if def.None? {
          return;
        }
        var b: Attr := new Attr(def.value, if Collects(keys, def.value) then rings else []);
        ghost var p := Place(keys, Defs(sorted), def.value);
        WithMembers(sorted, b, p);
        Track(b);
        FindIs(sorted, b);
        a := b;
      }
      a.Enter(rx, tx, now);
    }
  }
}
