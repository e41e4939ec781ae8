/** Doubling the bucket array: HASH_EXPAND_BUCKETS. */
module HashExpand {
  import opened Bits
  import opened HashEntries

  // ---------- Counting over chains ----------

  /** How far a chain of `n` entries exceeds the ideal length. */
  function Excess(n: nat, ideal: nat): (x: nat)
    ensures n <= ideal + x && (x == 0 || n == ideal + x)
  {
    if n > ideal then n - ideal else 0
  }

  ghost function NonIdeal(chains: seq<seq<Entry>>, ideal: nat): nat {
    if chains == [] then 0 else NonIdeal(chains[..|chains| - 1], ideal) + Excess(|chains[|chains| - 1]|, ideal)
  }

  ghost function Total(chains: seq<seq<Entry>>): nat {
    if chains == [] then 0 else Total(chains[..|chains| - 1]) + |chains[|chains| - 1]|
  }

  lemma {:induction false} NonIdealOfPush(chains: seq<seq<Entry>>, b: nat, e: Entry, ideal: nat)
    requires b < |chains|
    ensures NonIdeal(chains[b := [e] + chains[b]], ideal)
         == NonIdeal(chains, ideal) + if |chains[b]| + 1 > ideal then 1 else 0
  {
    var n := |chains| - 1;
    var c' := chains[b := [e] + chains[b]];
    if b < n {
      assert c'[..n] == chains[..n][b := [e] + chains[..n][b]];
      NonIdealOfPush(chains[..n], b, e, ideal);
    } else {
      assert c'[..n] == chains[..n];
    }
  }

  lemma {:induction false} NonIdealOfEmpty(n: nat, ideal: nat)
    ensures NonIdeal(Empty(n), ideal) == 0
  {
    if n > 0 {
      assert Empty(n)[..n - 1] == Empty(n - 1);
      NonIdealOfEmpty(n - 1, ideal);
    }
  }

  ghost function Empty(n: nat): seq<seq<Entry>> {
    seq(n, _ => [])
  }

  // ---------- The ideal chain length ----------

  function CeilDiv(x: nat, d: nat): nat
    requires d > 0
  {
    x / d + if x % d != 0 then 1 else 0
  }

  /** The computation by shift and mask, for `num_buckets == 2^log2` buckets about to be doubled. */
  function IdealChain(num_items: nat, log2: nat): nat {
    Shr(num_items, log2 + 1) + if And(num_items, Pow2(log2 + 1) - 1) != 0 then 1 else 0
  }

  /** It is the number of items per new bucket, rounded up, and it is never zero while there are items. */
  lemma IdealIsCeiling(num_items: nat, log2: nat)
    ensures IdealChain(num_items, log2) == CeilDiv(num_items, Pow2(log2 + 1))
    ensures num_items > 0 ==> IdealChain(num_items, log2) > 0
  {
    ShrDivides(num_items, log2 + 1);
    AndLowMask(num_items, log2 + 1);
    var d := Pow2(log2 + 1);
    if num_items > 0 && num_items / d == 0 {
      assert num_items == num_items / d * d + num_items % d;
    }
  }

  /** The ceiling is what it should be: the least length that lets all items fit. */
  lemma CeilDivIsLeast(x: nat, d: nat, m: nat)
    requires d > 0
    ensures m * d >= x <==> m >= CeilDiv(x, d)
  {
    var q, r := x / d, x % d;
    assert x == q * d + r;
    if m <= q {
      Monotone(m, q, d);
    } else {
      Monotone(q + 1, m, d);
      assert (q + 1) * d == q * d + d;
    }
  }

  lemma Monotone(a: nat, b: nat, d: nat)
    requires a <= b
    ensures a * d <= b * d
  {
    assert b * d == a * d + (b - a) * d;
  }

  // ---------- Moving entries ----------

  /** From index `j` on, the chain can still be walked through hh_next. */
  ghost predicate Onward(c: seq<Entry>, j: nat)
    reads c`hh_next
  {
    forall k :: j <= k < |c| ==> c[k].hh_next == At(c, k + 1)
  }

  /** The multiplier a bucket of `n` entries is left with. */
  function Multiplier(n: nat, ideal: nat): nat {
    if n > ideal > 0 then n / ideal else 0
  }

  /** A chain longer than the ideal length is that many times as long, rounded down; another has none. */
  lemma MultiplierIsQuotient(n: nat, ideal: nat)
    requires ideal > 0
    ensures n <= ideal ==> Multiplier(n, ideal) == 0
    ensures n > ideal ==> Multiplier(n, ideal) * ideal <= n < (Multiplier(n, ideal) + 1) * ideal
  {
    assert n == n / ideal * ideal + n % ideal;
    assert (n / ideal + 1) * ideal == n / ideal * ideal + ideal;
  }

  ghost predicate MultipliersOk(bkts: seq<Bucket>, chains: seq<seq<Entry>>, ideal: nat)
    requires |bkts| == |chains|
  {
    forall b :: 0 <= b < |bkts| ==> bkts[b].expand_mult == Multiplier(|chains[b]|, ideal)
  }

  lemma MultiplierIsFree(bkt: Bucket, c: seq<Entry>, b: nat, n: nat, mult: nat)
    requires n > 0 && BucketOk(bkt, c, b, n)
    ensures BucketOk(bkt.(expand_mult := mult), c, b, n)
  {}

  method SetMultiplier(bkts: array<Bucket>, ghost chains: seq<seq<Entry>>, ghost all: set<Entry>, b: nat, mult: nat)
    requires BucketsOk(bkts[..], chains, all) && b < bkts.Length
    modifies bkts
    ensures BucketsOk(bkts[..], chains, all)
    ensures bkts[..] == old(bkts[..])[b := old(bkts[b]).(expand_mult := mult)]
  {
    hide BucketOk;
    MultiplierIsFree(bkts[b], chains[b], b, |chains|, mult);
    bkts[b] := bkts[b].(expand_mult := mult);
  }

  /** The body of the inner loop: `e` goes to the front of its new bucket. */
  method Move(bkts: array<Bucket>, ghost chains: seq<seq<Entry>>, ghost moved: set<Entry>, e: Entry, b: nat,
              ideal: nat) returns (over: bool)
    requires BucketsOk(bkts[..], chains, moved) && e !in moved && b < bkts.Length && b == e.hashv % bkts.Length
    requires ideal > 0 && MultipliersOk(bkts[..], chains, ideal)
    modifies bkts, e`hh_prev, e`hh_next, moved`hh_prev
    ensures BucketsOk(bkts[..], chains[b := [e] + chains[b]], moved + {e})
    ensures MultipliersOk(bkts[..], chains[b := [e] + chains[b]], ideal)
    ensures over <==> |chains[b]| + 1 > ideal
  {
    hide BucketOk;
    assert BucketOk(bkts[b], chains[b], b, |chains|);
    BucketParts(bkts[b], chains[b], b, |chains|);
    var count := bkts[b].count + 1;
    over := count > ideal;
    PushFront(bkts, chains, moved, b, e);
    if over {
      SetMultiplier(bkts, chains[b := [e] + chains[b]], moved + {e}, b, count / ideal);
    }
  }

  lemma CompleteAfterMove(chains: seq<seq<Entry>>, moved: set<Entry>, b: nat, e: Entry)
    requires Complete(chains, moved) && b < |chains| && b == e.hashv % |chains|
    ensures Complete(chains[b := [e] + chains[b]], moved + {e})
  {
    var n := chains[b := [e] + chains[b]];
    forall x | x in moved + {e}
      ensures x in n[x.hashv % |n|]
    {
      if x != e {
        assert x in chains[x.hashv % |chains|];
      } else {
        assert n[b][0] == e;
      }
    }
  }

  /** The new buckets hold exactly the entries moved so far, with the multipliers of their lengths. */
  ghost predicate Rehashed(bkts: seq<Bucket>, chains: seq<seq<Entry>>, moved: set<Entry>, ideal: nat)
    reads moved`hh_prev, moved`hh_next, moved`hashv
  {
    BucketsOk(bkts, chains, moved) && Complete(chains, moved) && MultipliersOk(bkts, chains, ideal)
  }

  /** One entry moves on. */
  method MoveEntry(e: Entry, bkts: array<Bucket>, log2: nat, ghost chains: seq<seq<Entry>>, ghost moved: set<Entry>,
                   ideal: nat) returns (over: bool, ghost chains': seq<seq<Entry>>)
    requires Rehashed(bkts[..], chains, moved, ideal) && bkts.Length == Pow2(log2) && ideal > 0 && e !in moved
    modifies bkts, e`hh_prev, e`hh_next, moved`hh_prev
    ensures Rehashed(bkts[..], chains', moved + {e}, ideal)
    ensures NonIdeal(chains', ideal) == NonIdeal(chains, ideal) + if over then 1 else 0
  {
    hide BucketOk, And, Pow2, MultipliersOk;
    AndLowMask(e.hashv, log2);
    var b := And(e.hashv, bkts.Length - 1);
    NonIdealOfPush(chains, b, e, ideal);
    CompleteAfterMove(chains, moved, b, e);
    over := Move(bkts, chains, moved, e, b, ideal);
    chains' := chains[b := [e] + chains[b]];
  }

  /** The inner loop: one old chain is emptied into the new buckets. */
  method MoveChain(first: Entry?, ghost c: seq<Entry>, bkts: array<Bucket>, log2: nat, ghost chains: seq<seq<Entry>>,
                   ghost moved: set<Entry>, ideal: nat) returns (over: nat, ghost chains': seq<seq<Entry>>)
    requires Rehashed(bkts[..], chains, moved, ideal) && bkts.Length == Pow2(log2) && ideal > 0
    requires first == At(c, 0) && Onward(c, 0) && Unique(c) && Elems(c) !! moved
    modifies bkts, Elems(c)`hh_prev, Elems(c)`hh_next, moved`hh_prev
    ensures Rehashed(bkts[..], chains', moved + Elems(c), ideal)
    ensures NonIdeal(chains', ideal) == NonIdeal(chains, ideal) + over
  {
    hide Rehashed, NonIdeal, Pow2;
    over, chains' := 0, chains;
    var thh := first;
    ghost var j := 0;
    assert moved + Elems(c[..0]) == moved;
    while thh != null
      invariant j <= |c| && thh == At(c, j) && Onward(c, j)
      invariant Rehashed(bkts[..], chains', moved + Elems(c[..j]), ideal)
      invariant NonIdeal(chains', ideal) == NonIdeal(chains, ideal) + over
      decreases |c| - j
    {
      var nxt := thh.hh_next;
      MovedOneMore(c, j, moved);
      var more;
      more, chains' := MoveEntry(thh, bkts, log2, chains', moved + Elems(c[..j]), ideal);
      if more {
        over := over + 1;
      }
      thh := nxt;
      j := j + 1;
    }
    assert c[..j] == c;
  }

  lemma MovedOneMore(c: seq<Entry>, j: nat, moved: set<Entry>)
    requires j < |c| && Unique(c) && Elems(c) !! moved
    ensures c[j] in Elems(c) && c[j] !in moved + Elems(c[..j]) && Elems(c[..j]) <= Elems(c)
    ensures moved + Elems(c[..j]) + {c[j]} == moved + Elems(c[..j + 1])
  {
    assert c[..j + 1] == c[..j] + [c[j]];
    assert forall x :: x in c[..j + 1] <==> x in c[..j] || x == c[j];
  }

  // ---------- All chains ----------

  /** The entries whose old bucket is below `i`. */
  ghost function Below(all: set<Entry>, n: nat, i: nat): set<Entry>
    requires n > 0
    reads all`hashv
  {
    set e | e in all && e.hashv % n < i
  }

  /** The old chains from `i` on can still be walked. */
  ghost predicate Waiting(bkts: seq<Bucket>, chains: seq<seq<Entry>>, all: set<Entry>, i: nat)
    reads all`hh_next, all`hashv
  {
    |bkts| == |chains| > 0 && forall d :: i <= d < |chains| ==>
      Elems(chains[d]) <= all && bkts[d].hh_head == At(chains[d], 0) && Unique(chains[d])
      && Onward(chains[d], 0) && Belong(chains[d], d, |chains|)
  }

  lemma AllWaiting(bkts: seq<Bucket>, chains: seq<seq<Entry>>, all: set<Entry>)
    requires BucketsOk(bkts, chains, all)
    ensures Waiting(bkts, chains, all, 0) && Below(all, |chains|, 0) == {}
  {
    forall d | 0 <= d < |chains|
      ensures Onward(chains[d], 0) && bkts[d].hh_head == At(chains[d], 0)
    {
      assert BucketOk(bkts[d], chains[d], d, |chains|);
    }
  }

  lemma ChainIsSlice(bkts: seq<Bucket>, chains: seq<seq<Entry>>, all: set<Entry>, i: nat)
    requires Waiting(bkts, chains, all, i) && Complete(chains, all) && i < |chains|
    ensures Below(all, |chains|, i) + Elems(chains[i]) == Below(all, |chains|, i + 1)
    ensures Elems(chains[i]) !! Below(all, |chains|, i) && Below(all, |chains|, i) <= all
    ensures forall d, x :: i < d < |chains| && x in chains[d] ==>
              x !in Elems(chains[i]) && x !in Below(all, |chains|, i)
  {
    forall d, x | i <= d < |chains| && x in chains[d]
      ensures x.hashv % |chains| == d && x in all
    {
      assert x in Elems(chains[d]);
    }
    forall x | x in all && x.hashv % |chains| == i
      ensures x in Elems(chains[i])
    {
      assert x in chains[i];
    }
  }

  lemma EmptyIsRehashed(bkts: seq<Bucket>, ideal: nat)
    requires |bkts| > 0 && forall b :: 0 <= b < |bkts| ==> bkts[b] == Bucket(null, 0, 0)
    ensures Rehashed(bkts, Empty(|bkts|), {}, ideal)
  {}

  lemma BelowAll(all: set<Entry>, n: nat)
    requires n > 0
    ensures Below(all, n, n) == all
  {}

  /** The body of the outer loop. */
  method MoveBucket(first: Entry?, ghost olds: seq<Bucket>, ghost old_chains: seq<seq<Entry>>,
                    ghost all: set<Entry>, ghost i: nat, news: array<Bucket>, log2: nat,
                    ghost chains: seq<seq<Entry>>, ideal: nat)
    returns (over: nat, ghost chains': seq<seq<Entry>>)
    requires Waiting(olds, old_chains, all, i) && Complete(old_chains, all) && i < |olds| && first == olds[i].hh_head
    requires Rehashed(news[..], chains, Below(all, |olds|, i), ideal) && news.Length == Pow2(log2) && ideal > 0
    modifies news, all`hh_prev, all`hh_next
    ensures Waiting(olds, old_chains, all, i + 1)
    ensures Rehashed(news[..], chains', Below(all, |olds|, i + 1), ideal)
    ensures NonIdeal(chains', ideal) == NonIdeal(chains, ideal) + over
  {
    hide Complete, Rehashed, NonIdeal, Pow2, Onward, Unique, Belong, Below;
    ChainIsSlice(olds, old_chains, all, i);
    over, chains' := MoveChain(first, old_chains[i], news, log2, chains, Below(all, |olds|, i), ideal);
    forall d | i < d < |old_chains|
      ensures Onward(old_chains[d], 0)
    {
      assert old(Onward(old_chains[d], 0));
    }
  }

  /** The outer loop over the old buckets. */
  method Redistribute(olds: array<Bucket>, ghost chains: seq<seq<Entry>>, ghost all: set<Entry>, news: array<Bucket>,
                      log2: nat, ideal: nat) returns (nonideal: nat, ghost chains': seq<seq<Entry>>)
    requires BucketsOk(olds[..], chains, all) && Complete(chains, all) && olds != news
    requires news.Length == Pow2(log2) && ideal > 0
      && forall b :: 0 <= b < news.Length ==> news[b] == Bucket(null, 0, 0)
    modifies news, all`hh_prev, all`hh_next
    ensures Rehashed(news[..], chains', all, ideal) && nonideal == NonIdeal(chains', ideal)
  {
    hide BucketOk, Complete, Rehashed, NonIdeal, Pow2, Waiting, Below;
    nonideal, chains' := 0, Empty(news.Length);
    NonIdealOfEmpty(news.Length, ideal);
    EmptyIsRehashed(news[..], ideal);
    AllWaiting(olds[..], chains, all);
    ghost var was := olds[..];
    for i := 0 to olds.Length
      invariant olds[..] == was
      invariant Waiting(was, chains, all, i) && Complete(chains, all)
      invariant Rehashed(news[..], chains', Below(all, |was|, i), ideal)
      invariant nonideal == NonIdeal(chains', ideal)
    {
      var over;
      over, chains' := MoveBucket(olds[i].hh_head, was, chains, all, i, news, log2, chains', ideal);
      nonideal := nonideal + over;
    }
    BelowAll(all, |was|);
  }
}
