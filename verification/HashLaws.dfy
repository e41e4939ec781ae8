/** What the answers of a run of puts, gets and deletes are, told from the operations alone. */
module HashLaws {
  import opened HashEntries
  import opened HashClient

  const EmptySpec: Spec := Spec([], map[])

  /** The operation writes or deletes the key. */
  predicate Touches(op: Op, k: Key) {
    op.key == k && !op.Get?
  }

  ghost predicate Untouched(ops: seq<Op>, k: Key) {
    forall i :: 0 <= i < |ops| ==> !Touches(ops[i], k)
  }

  lemma {:induction false} ReplayConcat(m: Spec, a: seq<Op>, b: seq<Op>)
    ensures Replay(m, a + b).0 == Replay(Replay(m, a).0, b).0
    ensures Replay(m, a + b).1 == Replay(m, a).1 + Replay(Replay(m, a).0, b).1
    ensures |Replay(m, b).1| == |b|
  {
    hide Step;
    if b == [] {
      assert a + b == a;
    } else {
      var n := |b| - 1;
      assert (a + b)[..|a + b| - 1] == a + b[..n];
      ReplayConcat(m, a, b[..n]);
    }
  }

  lemma {:induction false} KeyStays(m: Spec, mid: seq<Op>, k: Key)
    requires Untouched(mid, k)
    ensures k in Replay(m, mid).0.values <==> k in m.values
    ensures k in m.values ==> Replay(m, mid).0.values[k] == m.values[k]
  {
    if mid != [] {
      KeyStays(m, mid[..|mid| - 1], k);
    }
  }

  lemma OneOp(m: Spec, op: Op)
    ensures Replay(m, [op]) == (Step(m, op).0, [Step(m, op).1])
  {
    var ops := [op];
    assert ops[..|ops| - 1] == [] && [] + [Step(m, op).1] == [Step(m, op).1];
  }

  /** The answer to a last get, where `first` set the key and `mid` left it alone. */
  lemma LastAnswer(m: Spec, ops: seq<Op>, first: Op, mid: seq<Op>, k: Key)
    requires Untouched(mid, k)
    ensures var all := ops + [first] + mid + [Get(k)];
            var set' := Step(Replay(m, ops).0, first).0;
            |Replay(m, all).1| == |all| &&
            Replay(m, all).1[|all| - 1] == if k in set'.values then Some(set'.values[k]) else None
  {
    hide Replay;
    var a, b, c := ops, ops + [first], ops + [first] + mid;
    ReplayConcat(m, a, [first]);
    ReplayConcat(m, b, mid);
    ReplayConcat(m, c, [Get(k)]);
    ReplayConcat(m, [], c + [Get(k)]);
    OneOp(Replay(m, a).0, first);
    OneOp(Replay(m, c).0, Get(k));
    KeyStays(Replay(m, b).0, mid, k);
  }

  /** A get answers the value of the last put of its key, whatever has happened before it and to other keys since. */
  lemma GetAfterPut(m: Spec, ops: seq<Op>, k: Key, v: Value, mid: seq<Op>)
    requires Untouched(mid, k)
    ensures var all := ops + [Put(k, v)] + mid + [Get(k)];
            |Replay(m, all).1| == |all| && Replay(m, all).1[|all| - 1] == Some(v)
  {
    hide Replay;
    LastAnswer(m, ops, Put(k, v), mid, k);
  }

  /** After a delete of its key it answers nothing. */
  lemma GetAfterDel(m: Spec, ops: seq<Op>, k: Key, mid: seq<Op>)
    requires Untouched(mid, k)
    ensures var all := ops + [Del(k)] + mid + [Get(k)];
            |Replay(m, all).1| == |all| && Replay(m, all).1[|all| - 1] == None
  {
    hide Replay;
    LastAnswer(m, ops, Del(k), mid, k);
  }

  ghost predicate NeverPut(ops: seq<Op>, k: Key) {
    forall i :: 0 <= i < |ops| ==> !(ops[i].Put? && ops[i].key == k)
  }

  lemma {:induction false} NeverThere(ops: seq<Op>, k: Key)
    requires NeverPut(ops, k)
    ensures k !in Replay(EmptySpec, ops).0.values
  {
    if ops != [] {
      NeverThere(ops[..|ops| - 1], k);
    }
  }

  /** Nor does it for a key that was never put. */
  lemma GetOfNothing(ops: seq<Op>, k: Key)
    requires NeverPut(ops, k)
    ensures |Replay(EmptySpec, ops + [Get(k)]).1| == |ops| + 1
    ensures Replay(EmptySpec, ops + [Get(k)]).1[|ops|] == None
  {
    hide Replay;
    ReplayConcat(EmptySpec, ops, [Get(k)]);
    ReplayConcat(EmptySpec, [], ops);
    OneOp(Replay(EmptySpec, ops).0, Get(k));
    NeverThere(ops, k);
  }

  // ---------- The order ----------

  /** Operation `i` brought the key in: it is a put of it, the key is not deleted later, and any earlier put of it is
      followed by a delete before `i`. */
  ghost predicate Born(ops: seq<Op>, k: Key, i: nat) {
    && i < |ops| && ops[i].Put? && ops[i].key == k
    && (forall j :: i < j < |ops| ==> ops[j] != Del(k))
    && forall h :: 0 <= h < i && ops[h].Put? && ops[h].key == k ==> exists j :: h < j < i && ops[j] == Del(k)
  }

  /** The order holds exactly the keys that were brought in, each once, in the order in which that happened. */
  ghost predicate InOrder(ops: seq<Op>, order: seq<Key>) {
    && (forall k :: k in order <==> Lives(ops, k))
    && forall x, y :: 0 <= x < y < |order| ==> Before(ops, order[x], order[y])
  }

  ghost predicate Lives(ops: seq<Op>, k: Key) {
    exists i: nat :: Born(ops, k, i)
  }

  /** Key `a` was brought in before key `b`. */
  ghost predicate Before(ops: seq<Op>, a: Key, b: Key) {
    forall i: nat, j: nat :: Born(ops, a, i) && Born(ops, b, j) ==> i < j
  }

  lemma BornBefore(ops: seq<Op>, op: Op, k: Key, i: nat)
    requires i < |ops|
    ensures Born(ops + [op], k, i) <==> Born(ops, k, i) && op != Del(k)
  {
    var all := ops + [op];
    assert all[|ops|] == op && forall j :: 0 <= j < |ops| ==> all[j] == ops[j];
  }

  /** A put that no delete follows has a first one of its kind at or before it. */
  lemma {:induction false} FirstSince(ops: seq<Op>, k: Key, h: nat) returns (i: nat)
    requires h < |ops| && ops[h].Put? && ops[h].key == k && forall j :: h < j < |ops| ==> ops[j] != Del(k)
    ensures Born(ops, k, i)
  {
    if Born(ops, k, h) {
      i := h;
    } else {
      var g :| 0 <= g < h && ops[g].Put? && ops[g].key == k && forall j :: g < j < h ==> ops[j] != Del(k);
      i := FirstSince(ops, k, g);
    }
  }

  lemma BornLast(ops: seq<Op>, op: Op, k: Key)
    requires forall i :: !Born(ops, k, i)
    ensures Born(ops + [op], k, |ops|) <==> op.Put? && op.key == k
  {
    var all := ops + [op];
    assert all[|ops|] == op && forall j :: 0 <= j < |ops| ==> all[j] == ops[j];
    forall h | 0 <= h < |ops| && ops[h].Put? && ops[h].key == k
      ensures exists j :: h < j < |ops| && all[j] == Del(k)
    {
      if forall j :: h < j < |ops| ==> ops[j] != Del(k) {
        var i := FirstSince(ops, k, h);
      } else {
        var j :| h < j < |ops| && ops[j] == Del(k);
        assert all[j] == Del(k);
      }
    }
  }

  lemma NotBornLast(ops: seq<Op>, op: Op, k: Key, i: nat)
    requires Born(ops, k, i)
    ensures !Born(ops + [op], k, |ops|)
  {
    var all := ops + [op];
    assert forall j :: 0 <= j < |ops| ==> all[j] == ops[j];
    assert all[i].Put? && all[i].key == k;
  }

  /** How one more operation changes who was born when. */
  ghost predicate NextBirths(ops: seq<Op>, op: Op, order: seq<Key>) {
    forall k: Key, i: nat ::
      Born(ops + [op], k, i) <==>
      (Born(ops, k, i) && op != Del(k)) || (i == |ops| && op.Put? && op.key == k && k !in order)
  }

  lemma Births(ops: seq<Op>, op: Op, order: seq<Key>)
    requires InOrder(ops, order)
    ensures NextBirths(ops, op, order)
  {
    hide Born;
    forall k: Key, i: nat
      ensures Born(ops + [op], k, i) <==>
              (Born(ops, k, i) && op != Del(k)) || (i == |ops| && op.Put? && op.key == k && k !in order)
    {
      BornInRange(ops, k, i);
      BornInRange(ops + [op], k, i);
      if i < |ops| {
        BornBefore(ops, op, k, i);
      } else if i == |ops| {
        if k in order {
          assert Lives(ops, k);
          var j: nat :| Born(ops, k, j);
          NotBornLast(ops, op, k, j);
        } else {
          assert forall j: nat :: Born(ops, k, j) ==> Lives(ops, k);
          BornLast(ops, op, k);
          if op.Put? && op.key == k {
          } else {
            BornIsPut(ops + [op], k, i);
          }
        }
      }
    }
  }

  lemma BornInRange(ops: seq<Op>, k: Key, i: nat)
    ensures Born(ops, k, i) ==> i < |ops|
  {}

  lemma BornIsPut(ops: seq<Op>, k: Key, i: nat)
    ensures Born(ops, k, i) ==> i < |ops| && ops[i].Put? && ops[i].key == k
  {}

  ghost predicate Good(ops: seq<Op>, m: Spec) {
    InOrder(ops, m.order) && Distinct(m.order) && forall k :: k in m.values <==> k in m.order
  }

  /** The order after one more operation: the keys that stay, in their places, and a new one behind them. */
  lemma OrderAfter(ops: seq<Op>, op: Op, order: seq<Key>, order': seq<Key>, places: seq<nat>)
    requires InOrder(ops, order) && NextBirths(ops, op, order)
    requires |places| <= |order'| <= |places| + 1
    requires forall x :: 0 <= x < |places| ==>
               places[x] < |order| && order'[x] == order[places[x]] && op != Del(order'[x])
    requires forall x, y :: 0 <= x < y < |places| ==> places[x] < places[y]
    requires forall k :: k in order && op != Del(k) ==> k in order'
    requires if op.Put? && op.key !in order then |order'| == |places| + 1 && order'[|places|] == op.key
             else |order'| == |places|
    ensures InOrder(ops + [op], order')
  {
    hide Born;
    var all := ops + [op];
    forall k
      ensures k in order' <==> Lives(all, k)
    {
      if k in order' {
        var x :| 0 <= x < |order'| && order'[x] == k;
        if x < |places| {
          assert order[places[x]] in order;
          var i: nat :| Born(ops, k, i);
          assert Born(all, k, i);
        } else {
          assert Born(all, op.key, |ops|);
        }
      }
      if i: nat :| Born(all, k, i) {
        if Born(ops, k, i) {
          assert Lives(ops, k);
        } else {
          assert order'[|places|] == k;
        }
      }
    }
    forall x, y | 0 <= x < y < |order'|
      ensures Before(all, order'[x], order'[y])
    {
      assert Before(ops, order[places[x]], order[places[if y < |places| then y else x]]) || y == |places|;
      forall i: nat, j: nat | Born(all, order'[x], i) && Born(all, order'[y], j)
        ensures i < j
      {
        BornInRange(ops, order[places[x]], i);
        assert order[places[x]] in order;
        if y < |places| {
          assert order[places[y]] in order;
        } else {
          assert Born(ops, op.key, j) ==> Lives(ops, op.key);
        }
      }
    }
  }

  function Places(n: nat): (ps: seq<nat>)
    ensures |ps| == n && forall x :: 0 <= x < n ==> ps[x] == x
  {
    seq(n, x => x)
  }

  function PlacesBut(n: nat, k: nat): (ps: seq<nat>)
    requires k < n
    ensures |ps| == n - 1 && forall x :: 0 <= x < n - 1 ==> ps[x] == if x < k then x else x + 1
  {
    seq(n - 1, x => if x < k then x else x + 1)
  }

  lemma GoodAfterGet(ops: seq<Op>, m: Spec, k: Key)
    requires Good(ops, m)
    ensures Good(ops + [Get(k)], m)
  {
    hide NextBirths, InOrder;
    Births(ops, Get(k), m.order);
    OrderAfter(ops, Get(k), m.order, m.order, Places(|m.order|));
  }

  lemma GoodAfterPut(ops: seq<Op>, m: Spec, k: Key, v: Value)
    requires Good(ops, m)
    ensures Good(ops + [Put(k, v)], Step(m, Put(k, v)).0)
  {
    hide NextBirths, InOrder;
    var order := Step(m, Put(k, v)).0.order;
    Births(ops, Put(k, v), m.order);
    OrderAfter(ops, Put(k, v), m.order, order, Places(|m.order|));
  }

  lemma RemoveOne(ks: seq<Key>, k: Key) returns (x: nat)
    requires Distinct(ks) && k in ks
    ensures x < |ks| && ks[x] == k && |Remove(ks, k)| == |ks| - 1
    ensures forall j :: 0 <= j < |ks| - 1 ==> Remove(ks, k)[j] == ks[if j < x then j else j + 1] != k
    ensures Distinct(Remove(ks, k)) && forall j :: j in Remove(ks, k) <==> j in ks && j != k
  {
    hide Remove;
    x :| 0 <= x < |ks| && ks[x] == k;
    RemoveIsWithout(ks, x);
    var r := Remove(ks, k);
    assert forall j :: 0 <= j < |r| ==> r[j] == ks[if j < x then j else j + 1] && r[j] in r;
    RestIsKept(ks, x, r);
    RestIsDistinct(ks, x, r);
  }

  lemma GoodAfterDel(ops: seq<Op>, m: Spec, k: Key)
    requires Good(ops, m)
    ensures Good(ops + [Del(k)], Step(m, Del(k)).0)
  {
    hide NextBirths, InOrder, Remove, Distinct;
    Births(ops, Del(k), m.order);
    if k in m.order {
      var x := RemoveOne(m.order, k);
      OrderAfter(ops, Del(k), m.order, Remove(m.order, k), PlacesBut(|m.order|, x));
    } else {
      RemoveAbsent(m.order, k);
      assert forall j :: 0 <= j < |m.order| ==> m.order[j] in m.order;
      OrderAfter(ops, Del(k), m.order, m.order, Places(|m.order|));
    }
  }

  /** From the empty table, the order in which the keys stand is that of the first put of each since its last
      deletion. */
  lemma {:induction false} OrderOfReplay(ops: seq<Op>)
    ensures InOrder(ops, Replay(EmptySpec, ops).0.order) && Distinct(Replay(EmptySpec, ops).0.order)
    ensures forall k :: k in Replay(EmptySpec, ops).0.values <==> k in Replay(EmptySpec, ops).0.order
  {
    hide InOrder, Step;
    if ops == [] {
      NothingBorn();
    } else {
      var n := |ops| - 1;
      OrderOfReplay(ops[..n]);
      var m := Replay(EmptySpec, ops[..n]).0;
      assert ops == ops[..n] + [ops[n]];
      match ops[n]
      case Get(k) => GoodAfterGet(ops[..n], m, k); GetKeeps(m, k);
      case Put(k, v) => GoodAfterPut(ops[..n], m, k, v);
      case Del(k) => GoodAfterDel(ops[..n], m, k);
    }
  }

  lemma GetKeeps(m: Spec, k: Key)
    ensures Step(m, Get(k)).0 == m
  {}

  lemma NothingBorn()
    ensures Good([], EmptySpec)
  {}
}
