/** Whole uses of a table: iteration that deletes, and runs of operations against a finite map. */
module HashClient {
  import opened HashEntries
  import opened Sequences
  import opened HashTable

  // ---------- HASH_ITER with deletion ----------

  /** The entries of `s` that are left when the loop deletes at the visits `choice` says. */
  ghost function Kept(s: seq<Entry>, choice: nat -> bool): seq<Entry> {
    if s == [] then [] else
      var n := |s| - 1;
      if choice(n) then Kept(s[..n], choice) else Kept(s[..n], choice) + [s[n]]
  }

  lemma KeptOneMore(s: seq<Entry>, i: nat, choice: nat -> bool)
    requires i < |s|
    ensures Kept(s[..i + 1], choice) == Kept(s[..i], choice) + if choice(i) then [] else [s[i]]
  {
    assert s[..i + 1][..i] == s[..i];
  }

  /** `kept` is the entries at `places`, ascending, and these are the places whose visit does not delete. */
  ghost predicate ArePlaces(s: seq<Entry>, choice: nat -> bool, kept: seq<Entry>, places: seq<nat>) {
    && |places| == |kept|
    && (forall x :: 0 <= x < |places| ==> places[x] < |s| && !choice(places[x]) && kept[x] == s[places[x]])
    && (forall x, y :: 0 <= x < y < |places| ==> places[x] < places[y])
    && forall i: nat :: i < |s| && !choice(i) ==> i in places
  }

  lemma PlacesOneMore(s: seq<Entry>, e: Entry, choice: nat -> bool, kept: seq<Entry>, places: seq<nat>)
    requires ArePlaces(s, choice, kept, places)
    ensures choice(|s|) ==> ArePlaces(s + [e], choice, kept, places)
    ensures !choice(|s|) ==> ArePlaces(s + [e], choice, kept + [e], places + [|s|])
  {
    var more := places + [|s|];
    assert more[|places|] == |s| && forall i :: i in places ==> i in more;
  }

  /** What is left is exactly the entries whose visit does not delete, in their order. */
  lemma {:induction false} KeptPlaces(s: seq<Entry>, choice: nat -> bool) returns (places: seq<nat>)
    ensures ArePlaces(s, choice, Kept(s, choice), places)
  {
    if s == [] {
      places := [];
    } else {
      hide ArePlaces;
      var n := |s| - 1;
      var before := KeptPlaces(s[..n], choice);
      PlacesOneMore(s[..n], s[n], choice, Kept(s[..n], choice), before);
      assert s == s[..n] + [s[n]];
      places := if choice(n) then before else before + [n];
    }
  }

  /** In `front + rest`, the head of `rest` sits behind `front`; taking it out leaves the others. */
  lemma WithoutMiddle(front: seq<Entry>, rest: seq<Entry>, k: nat)
    requires rest != [] && Unique(front + rest) && k < |front + rest| && (front + rest)[k] == rest[0]
    ensures k == |front| && Without(front + rest, k) == front + rest[1..]
  {
    assert (front + rest)[|front|] == rest[0];
  }

  lemma NextInList(t: Table, front: seq<Entry>, rest: seq<Entry>)
    requires t.Valid() && t.app == front + rest && rest != []
    ensures rest[0].next == At(rest, 1) && Unique(t.app)
  {
    assert t.app[|front|] == rest[0];
    assert rest[0].next == At(t.app, |front| + 1);
  }

  /** The table holds the survivors of the entries before `i` and all entries from `i` on. */
  ghost predicate Midway(t: Table, choice: nat -> bool, was: seq<Entry>, i: nat)
    reads t, t.buckets, t.app, t.bloom, if t.bloom == null then {} else {t.bloom.bv}
  {
    t.Valid() && i <= |was| && t.app == Kept(was[..i], choice) + was[i..]
  }

  /** The body of the loop. */
  method VisitOne(t: Table, delete: bool, ghost choice: nat -> bool, el: Entry, ghost was: seq<Entry>, ghost i: nat)
    requires Midway(t, choice, was, i) && i < |was| && el == was[i] && delete == choice(i)
    modifies t, t.buckets
    modifies Elems(t.app)`prev, Elems(t.app)`next, Elems(t.app)`hh_prev, Elems(t.app)`hh_next
    ensures Midway(t, choice, was, i + 1) && t.buckets == old(t.buckets) && Elems(t.app) <= Elems(old(t.app))
  {
    hide Table.Valid, Kept, Unique;
    ghost var front, rest := Kept(was[..i], choice), was[i..];
    NextInList(t, front, rest);
    KeptOneMore(was, i, choice);
    assert t.app[|front|] == el;
    if delete {
      ghost var k := t.Delete(el);
      WithoutMiddle(front, rest, k);
      assert rest[1..] == was[i + 1..];
    } else {
      assert front + rest == (front + [el]) + was[i + 1..];
    }
  }

  lemma NextMidway(t: Table, choice: nat -> bool, was: seq<Entry>, i: nat)
    requires Midway(t, choice, was, i) && i < |was|
    ensures was[i].next == At(was, i + 1)
  {
    hide Table.Valid, Kept;
    NextInList(t, Kept(was[..i], choice), was[i..]);
  }

  lemma TakeOneMore(was: seq<Entry>, i: nat)
    requires At(was, i) != null
    ensures i < |was| && was[..i + 1] == was[..i] + [was[i]] && At(was, i) == was[i]
  {}

  /** The loop's increment: the entry after the saved one, or null. */
  function Following(t: Table, ghost choice: nat -> bool, tmp: Entry?, ghost was: seq<Entry>,
                     ghost i: nat): (next: Entry?)
    requires Midway(t, choice, was, i) && tmp == At(was, i)
    reads t, t.buckets, t.app, t.bloom, (if t.bloom == null then {} else {t.bloom.bv}), tmp
    ensures next == At(was, i + 1)
  {
    if tmp != null then NextMidway(t, choice, was, i); tmp.next else null
  }

  /** A loop over the table that may delete the current entry, `choice` being what its body decides at each visit,
      visits every entry that was there, once, in order,
      and leaves exactly those it did not delete. */
  method IterDelete(t: Table, choice: nat -> bool) returns (visited: seq<Entry>)
    requires t.Valid()
    modifies t, t.buckets
    modifies Elems(t.app)`prev, Elems(t.app)`next, Elems(t.app)`hh_prev, Elems(t.app)`hh_next
    ensures t.Valid() && visited == old(t.app) && t.app == Kept(old(t.app), choice)
  {
    hide Midway, Kept, At, Table.Valid;
    ghost var was := t.app;
    visited := [];
    StartMidway(t, choice);
    var el := t.head;
    var tmp := if t.head != null then t.head.next else null;
    ghost var i := 0;
    while el != null
      invariant i <= |was| && el == At(was, i) && tmp == At(was, i + 1) && visited == was[..i]
      invariant Midway(t, choice, was, i) && Elems(t.app) <= Elems(was) && t.buckets == old(t.buckets)
      decreases |was| - i
    {
      var cur: Entry := el;
      TakeOneMore(was, i);
      visited := visited + [cur];
      VisitOne(t, choice(|visited| - 1), choice, cur, was, i);
      el, tmp := tmp, Following(t, choice, tmp, was, i + 1);
      i := i + 1;
    }
    EndMidway(t, choice, was, i);
  }

  lemma StartMidway(t: Table, choice: nat -> bool)
    requires t.Valid()
    ensures Midway(t, choice, t.app, 0)
    ensures t.head == At(t.app, 0)
    ensures (if t.head != null then t.head.next else null) == At(t.app, 1)
  {
    assert Kept([], choice) == [];
  }

  lemma EndMidway(t: Table, choice: nat -> bool, was: seq<Entry>, i: nat)
    requires Midway(t, choice, was, i) && At(was, i) == null
    ensures t.Valid() && t.app == Kept(was, choice) && was[..i] == was
  {
    assert was[..i] == was && was[i..] == [];
  }

  // ---------- Runs of operations ----------

  datatype Option<T> = None | Some(value: T)

  datatype Op = Put(key: Key, value: Value) | Get(key: Key) | Del(key: Key)

  /** A finite map that remembers the order in which its keys came in. */
  datatype Spec = Spec(order: seq<Key>, values: map<Key, Value>)

  function Remove(ks: seq<Key>, k: Key): seq<Key> {
    if ks == [] then []
    else if ks[|ks| - 1] == k then ks[..|ks| - 1]
    else Remove(ks[..|ks| - 1], k) + [ks[|ks| - 1]]
  }

  function Step(m: Spec, op: Op): (Spec, Option<Value>) {
    match op
    case Put(k, v) => (Spec(if k in m.values then m.order else m.order + [k], m.values[k := v]), None)
    case Get(k) => (m, if k in m.values then Some(m.values[k]) else None)
    case Del(k) => (Spec(Remove(m.order, k), m.values - {k}), None)
  }

  function Replay(m: Spec, ops: seq<Op>): (Spec, seq<Option<Value>>) {
    if ops == [] then (m, []) else
      var (m', answers) := Replay(m, ops[..|ops| - 1]);
      var (m'', answer) := Step(m', ops[|ops| - 1]);
      (m'', answers + [answer])
  }

  ghost predicate Distinct(ks: seq<Key>) {
    forall i, j :: 0 <= i < j < |ks| ==> ks[i] != ks[j]
  }

  /** The entries carry the keys and values of `m`, in its order. */
  ghost predicate Carries(s: seq<Entry>, m: Spec)
    reads Elems(s)`key, Elems(s)`value
  {
    && |s| == |m.order| && Distinct(m.order)
    && (forall i :: 0 <= i < |s| ==>
          s[i].key == m.order[i] && m.order[i] in m.values && s[i].value == m.values[m.order[i]])
    && (forall k :: k in m.values ==> k in m.order)
  }

  lemma {:induction false} RemoveIsWithout(ks: seq<Key>, i: nat)
    requires i < |ks| && Distinct(ks)
    ensures Remove(ks, ks[i]) == ks[..i] + ks[i + 1..]
  {
    var n := |ks| - 1;
    if i < n {
      RemoveIsWithout(ks[..n], i);
      assert ks[..n][..i] == ks[..i] && ks[..n][i + 1..] + [ks[n]] == ks[i + 1..];
    }
  }

  /** The entry of a key is the only one there is. */
  lemma EntryOfKey(s: seq<Entry>, m: Spec, k: Key)
    requires Carries(s, m)
    ensures k in m.values <==> exists e :: e in s && e.key == k
    ensures forall e :: e in s && e.key == k ==> k in m.values && e.value == m.values[k]
  {
    if k in m.values {
      var i :| 0 <= i < |m.order| && m.order[i] == k;
      assert s[i] in s && s[i].key == k;
    }
  }

  lemma CarriesWithout(s: seq<Entry>, m: Spec, i: nat)
    requires Carries(s, m) && i < |s|
    ensures Carries(Without(s, i), Step(m, Del(s[i].key)).0)
  {
    hide Remove, Distinct;
    var k := s[i].key;
    RemoveIsWithout(m.order, i);
    var r := Remove(m.order, k);
    var w := Without(s, i);
    forall j | 0 <= j < |r|
      ensures r[j] == m.order[if j < i then j else j + 1] && w[j] == s[if j < i then j else j + 1]
    {
      if j < i {
        assert m.order[..i][j] == m.order[j] && s[..i][j] == s[j];
      } else {
        assert m.order[i + 1..][j - i] == m.order[j + 1] && s[i + 1..][j - i] == s[j + 1];
      }
    }
    RestIsKept(m.order, i, r);
    RestIsDistinct(m.order, i, r);
  }

  lemma RestIsDistinct(ks: seq<Key>, i: nat, r: seq<Key>)
    requires i < |ks| && |r| == |ks| - 1 && Distinct(ks)
    requires forall j :: 0 <= j < |r| ==> r[j] == ks[if j < i then j else j + 1]
    ensures Distinct(r) && ks[i] !in r
  {}

  lemma RestIsKept(ks: seq<Key>, i: nat, r: seq<Key>)
    requires i < |ks| && |r| == |ks| - 1
    requires forall j :: 0 <= j < |r| ==> r[j] == ks[if j < i then j else j + 1]
    ensures forall x :: x in ks && x != ks[i] ==> x in r
  {
    forall x | x in ks && x != ks[i]
      ensures x in r
    {
      var j :| 0 <= j < |ks| && ks[j] == x;
      assert r[if j < i then j else j - 1] == x;
    }
  }

  /** Writing a value touches no pointer. */
  method SetValue(t: Table, e: Entry, value: Value)
    requires t.Valid() && e in t.app
    modifies e`value
    ensures t.Valid() && e.value == value
  {
    hide Table.ListOk, Table.IndexOk;
    e.value := value;
  }

  lemma CarriesUpdate(s: seq<Entry>, m: Spec, k: Key, v: Value)
    requires |s| == |m.order| && Distinct(m.order) && k in m.values && (forall x :: x in m.values ==> x in m.order)
    requires forall i :: 0 <= i < |s| ==> s[i].key == m.order[i] && m.order[i] in m.values
    requires forall i :: 0 <= i < |s| ==> s[i].value == if s[i].key == k then v else m.values[m.order[i]]
    ensures Carries(s, Step(m, Put(k, v)).0)
  {}

  lemma CarriesAppend(s: seq<Entry>, m: Spec, e: Entry, v: Value)
    requires Carries(s, m) && e.key !in m.values && e.value == v
    ensures Carries(s + [e], Step(m, Put(e.key, v)).0)
  {
    var o := m.order + [e.key];
    assert forall i :: 0 <= i < |s| ==> o[i] == m.order[i] && (s + [e])[i] == s[i];
    forall k | k in m.values[e.key := v]
      ensures k in o
    {
      if k == e.key {
        assert o[|m.order|] == k;
      } else {
        assert k in m.order;
      }
    }
  }

  method PutNew(t: Table, key: Key, value: Value, ghost m: Spec)
    requires t.Valid() && Carries(t.app, m) && key !in m.values
    modifies t, t.buckets, t.bloom, (if t.bloom == null then {} else {t.bloom.bv})
    modifies Elems(t.app)`next, Elems(t.app)`hh_prev, Elems(t.app)`hh_next
    ensures t.Valid() && Carries(t.app, Step(m, Put(key, value)).0)
    ensures |t.app| == |old(t.app)| + 1 && t.app[..|old(t.app)|] == old(t.app) && fresh(t.app[|old(t.app)|])
    ensures t.buckets == old(t.buckets) || fresh(t.buckets)
    ensures t.bloom == null || t.bloom == old(t.bloom) || (fresh(t.bloom) && fresh(t.bloom.bv))
  {
    hide Table.Valid, Carries;
    ghost var was := t.app;
    var s := new Entry();
    assert Carries(was, m);
    t.Add(s, key);
    SetValue(t, s, value);
    assert Carries(was, m);
    CarriesAppend(was, m, s, value);
  }

  method PutOld(t: Table, s: Entry, value: Value, ghost m: Spec)
    requires t.Valid() && Carries(t.app, m) && s in t.app
    modifies Elems(t.app)`value
    ensures t.Valid() && Carries(t.app, Step(m, Put(s.key, value)).0)
  {
    hide Table.Valid;
    EntryOfKey(t.app, m, s.key);
    assert forall i, j :: 0 <= i < j < |t.app| ==> t.app[i].key != t.app[j].key;
    SetValue(t, s, value);
    CarriesUpdate(t.app, m, s.key, value);
  }

  /** The put of an application: look the key up, add an entry if there is none, write the value. */
  method DoPut(t: Table, key: Key, value: Value, ghost m: Spec)
    requires t.Valid() && Carries(t.app, m)
    modifies t, t.buckets, t.bloom, (if t.bloom == null then {} else {t.bloom.bv})
    modifies Elems(t.app)`next, Elems(t.app)`hh_prev, Elems(t.app)`hh_next, Elems(t.app)`value
    ensures t.Valid() && Carries(t.app, Step(m, Put(key, value)).0)
    ensures forall e :: e in t.app ==> e in old(t.app) || fresh(e)
    ensures t.buckets == old(t.buckets) || fresh(t.buckets)
    ensures t.bloom == null || t.bloom == old(t.bloom) || (fresh(t.bloom) && fresh(t.bloom.bv))
  {
    hide Table.Valid, Carries, Step;
    EntryOfKey(t.app, m, key);
    var s := t.Find(key);
    if s == null {
      PutNew(t, key, value, m);
    } else {
      PutOld(t, s, value, m);
    }
  }

  method DoDel(t: Table, key: Key, ghost m: Spec)
    requires t.Valid() && Carries(t.app, m)
    modifies t, t.buckets, Elems(t.app)`prev, Elems(t.app)`next, Elems(t.app)`hh_prev, Elems(t.app)`hh_next
    ensures t.Valid() && Carries(t.app, Step(m, Del(key)).0)
    ensures forall e :: e in t.app ==> e in old(t.app)
    ensures t.buckets == old(t.buckets) && t.bloom == old(t.bloom)
  {
    hide Table.Valid, Carries, Step;
    EntryOfKey(t.app, m, key);
    var s := t.Find(key);
    if s == null {
      DelNothing(t.app, m, key);
    } else {
      ghost var was := t.app;
      assert Carries(was, m);
      ghost var k := t.Delete(s);
      assert Carries(was, m);
      CarriesWithout(was, m, k);
    }
  }

  lemma DelNothing(s: seq<Entry>, m: Spec, key: Key)
    requires Carries(s, m) && key !in m.values
    ensures Carries(s, Step(m, Del(key)).0)
  {
    RemoveAbsent(m.order, key);
    assert m.values - {key} == m.values;
  }

  lemma {:induction false} RemoveAbsent(ks: seq<Key>, k: Key)
    requires k !in ks
    ensures Remove(ks, k) == ks
  {
    if ks != [] {
      RemoveAbsent(ks[..|ks| - 1], k);
    }
  }

  method DoGet(t: Table, key: Key, ghost m: Spec) returns (answer: Option<Value>)
    requires t.Valid() && Carries(t.app, m)
    ensures (m, answer) == Step(m, Get(key))
  {
    hide Table.Valid, Carries;
    EntryOfKey(t.app, m, key);
    var s := t.Find(key);
    answer := if s == null then None else Some(s.value);
  }

  /** Everything reachable from the table is what it was reachable from at the start, or newer. */
  twostate predicate OldOrFresh(t: Table)
    reads t, t.bloom
  {
    && (t.buckets == old(t.buckets) || fresh(t.buckets))
    && (t.bloom == null || t.bloom == old(t.bloom) || (fresh(t.bloom) && fresh(t.bloom.bv)))
    && (forall e :: e in t.app ==> e in old(t.app) || fresh(e))
  }

  method DoOp(t: Table, op: Op, ghost m: Spec) returns (answer: Option<Value>)
    requires t.Valid() && Carries(t.app, m)
    modifies t, t.buckets, t.bloom, (if t.bloom == null then {} else {t.bloom.bv}), Elems(t.app)
    ensures t.Valid() && Carries(t.app, Step(m, op).0) && answer == Step(m, op).1 && OldOrFresh(t)
  {
    hide Table.Valid, Carries, Remove;
    answer := None;
    match op {
      case Put(k, v) => DoPut(t, k, v, m);
      case Get(k) => answer := DoGet(t, k, m);
      case Del(k) => DoDel(t, k, m);
    }
  }

  lemma ReplayOneMore(m: Spec, ops: seq<Op>, i: nat)
    requires i < |ops|
    ensures Replay(m, ops[..i + 1]) ==
            (Step(Replay(m, ops[..i]).0, ops[i]).0, Replay(m, ops[..i]).1 + [Step(Replay(m, ops[..i]).0, ops[i]).1])
  {
    assert ops[..i + 1][..i] == ops[..i];
  }

  /** Over every run of puts, gets and deletes, also through the state without a table, every answer is the one a
      finite map gives, and the list in application order is the insertion order without the deleted keys.  Whether
      the Bloom filter is compiled in makes no difference to either. */
  method RunAll(t: Table, ops: seq<Op>, ghost m: Spec) returns (answers: seq<Option<Value>>)
    requires t.Valid() && Carries(t.app, m)
    modifies t, t.buckets, t.bloom, (if t.bloom == null then {} else {t.bloom.bv}), Elems(t.app)
    ensures t.Valid() && Carries(t.app, Replay(m, ops).0) && answers == Replay(m, ops).1
  {
    hide Table.Valid, Carries, Step;
    answers := [];
    ghost var now := m;
    for i := 0 to |ops|
      invariant t.Valid() && Carries(t.app, now) && OldOrFresh(t)
      invariant (now, answers) == Replay(m, ops[..i])
    {
      ReplayOneMore(m, ops, i);
      var answer := DoOp(t, ops[i], now);
      answers := answers + [answer];
      now := Step(now, ops[i]).0;
    }
    assert ops[..|ops|] == ops;
  }
}
