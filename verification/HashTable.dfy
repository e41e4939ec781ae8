/** The hash table: bucket chains and an insertion-ordered list over the same entries. */
module HashTable {
  import opened Bits
  import opened BloomFilter
  import opened HashEntries
  import opened Sequences
  import opened HashExpand
  import MergeSpec
  import HashSort

  const INITIAL_NUM_BUCKETS: nat := 32
  const INITIAL_NUM_BUCKETS_LOG2: nat := 5
  const BKT_CAPACITY_THRESH: nat := 10

  lemma InitialIsPow2()
    ensures Pow2(INITIAL_NUM_BUCKETS_LOG2) == INITIAL_NUM_BUCKETS
  {
    assert Pow2(0) == 1 && Pow2(1) == 2 && Pow2(2) == 4 && Pow2(3) == 8 && Pow2(4) == 16;
  }

  /** What adds change of a table. */
  datatype Shape = Shape(
    num_buckets: nat,
    buckets: seq<Bucket>,
    chains: seq<seq<Entry>>,
    ideal_chain_maxlen: nat,
    nonideal_items: nat,
    ineff_expands: nat,
    noexpand: bool
  )

  /** A table after HASH_MAKE_TABLE. */
  ghost predicate IsNew(t: Shape) {
    && t.num_buckets == 32 == |t.buckets| == |t.chains|
    && (forall b :: 0 <= b < 32 ==> t.buckets[b] == Bucket(null, 0, 0) && t.chains[b] == [])
    && t.ideal_chain_maxlen == t.nonideal_items == t.ineff_expands == 0 && !t.noexpand
  }

  /** How a table grows with a new entry `e` in bucket `b`, its number of items then being `items`.  If the entry brings
      the bucket to its threshold, a multiple of ten, and expansion is on, the buckets double: the ideal length is then
      the items per bucket rounded up, the non-ideal items are those beyond it, the multipliers are those of the new
      chains, and a second doubling in a row that leaves more than half of the items non-ideal is the last one.
      Otherwise the entry comes first in its chain, and nothing else changes but the links and the count. */
  ghost predicate Grows(was: Shape, e: Entry, b: nat, items: nat, now: Shape) {
    && b < was.num_buckets == |was.buckets| == |was.chains|
    && now.num_buckets == |now.buckets| == |now.chains|
    && if was.buckets[b].count + 1 >= (was.buckets[b].expand_mult + 1) * 10 && !was.noexpand then
         && now.num_buckets == 2 * was.num_buckets
         && now.ideal_chain_maxlen == CeilDiv(items, now.num_buckets)
         && now.nonideal_items == NonIdeal(now.chains, now.ideal_chain_maxlen)
         && MultipliersOk(now.buckets, now.chains, now.ideal_chain_maxlen)
         && now.ineff_expands == (if now.nonideal_items > items / 2 then was.ineff_expands + 1 else 0)
         && now.noexpand == (now.ineff_expands > 1)
       else
         && now == was.(buckets := now.buckets, chains := was.chains[b := [e] + was.chains[b]])
         && now.buckets[b].count == was.buckets[b].count + 1
         && forall d :: 0 <= d < was.num_buckets ==> now.buckets[d].expand_mult == was.buckets[d].expand_mult
  }

  /** How a table shrinks by an entry `e` of bucket `b`: the chain of that bucket loses it, and nothing else changes but
      the links and the count.  Buckets are never given back. */
  ghost predicate Shrinks(was: Shape, e: Entry, b: nat, now: Shape) {
    && b < was.num_buckets == |was.buckets| == |was.chains| == |now.buckets|
    && (exists j :: 0 <= j < |was.chains[b]| && was.chains[b][j] == e
              && now == was.(buckets := now.buckets, chains := was.chains[b := Without(was.chains[b], j)]))
    && now.buckets[b].count == was.buckets[b].count - 1 && now.buckets[b].expand_mult == was.buckets[b].expand_mult
    && forall d :: 0 <= d < was.num_buckets && d != b ==> now.buckets[d] == was.buckets[d]
  }

  /** The first entry of a new table leaves it at its 32 buckets. */
  lemma FirstGrowth(was: Shape, e: Entry, b: nat, items: nat, now: Shape)
    requires IsNew(was) && Grows(was, e, b, items, now)
    ensures now.num_buckets == 32 && now.ideal_chain_maxlen == now.nonideal_items == now.ineff_expands == 0
    ensures !now.noexpand
    ensures now.chains == was.chains[b := [e]]
  {
    assert [e] + [] == [e];
  }

  class Table {
    /** The hash function, and whether the Bloom filter is compiled in. */
    const hash: Key -> nat
    const with_bloom: bool
    const bloom_nbits: nat

    /** The application's pointer to the first entry; null while there is no table. */
    var head: Entry?

    // UT_hash_table
    var buckets: array<Bucket>
    var num_buckets: nat
    var log2_num_buckets: nat
    var num_items: nat
    var tail: Entry?
    var ideal_chain_maxlen: nat
    var nonideal_items: nat
    var ineff_expands: nat
    var noexpand: bool
    var bloom: Bloom?

    /** The entries in application order, and the chains of the buckets. */
    ghost var app: seq<Entry>
    ghost var chains: seq<seq<Entry>>

    constructor (hash: Key -> nat, with_bloom: bool, bloom_nbits: nat)
      ensures Valid() && app == [] && fresh(buckets) && bloom == null
      ensures this.hash == hash && this.with_bloom == with_bloom && this.bloom_nbits == bloom_nbits
    {
      this.hash, this.with_bloom, this.bloom_nbits := hash, with_bloom, bloom_nbits;
      head, tail, bloom := null, null, null;
      buckets := new Bucket[0];
      num_buckets, log2_num_buckets, num_items := 0, 0, 0;
      ideal_chain_maxlen, nonideal_items, ineff_expands, noexpand := 0, 0, 0, false;
      app, chains := [], [];
    }

    // ---------- The representation ----------

    ghost predicate ListOk()
      reads this`head, this`tail, this`app, Elems(app)`prev, Elems(app)`next
    {
      && app != [] && head == app[0] && tail == app[|app| - 1] && Unique(app) && Ordered(app)
    }

    /** The bucket array holds exactly the entries of `s`. */
    ghost predicate BucketArrayOk(s: seq<Entry>)
      reads this`buckets, this`num_buckets, this`log2_num_buckets, this`chains, buckets
      reads Elems(s)`hh_prev, Elems(s)`hh_next, Elems(s)`hashv
    {
      && buckets.Length == num_buckets == Pow2(log2_num_buckets) == |chains|
      && log2_num_buckets >= INITIAL_NUM_BUCKETS_LOG2
      && BucketsOk(buckets[..], chains, Elems(s)) && Complete(chains, Elems(s))
    }

    /** Hash values are those of the keys. */
    ghost predicate Hashed(s: seq<Entry>)
      reads Elems(s)`hashv, Elems(s)`key
    {
      forall e :: e in s ==> e.hashv == hash(e.key)
    }

    /** The filter, where there is one, has no false negatives. */
    ghost predicate BloomOk(s: seq<Entry>)
      reads this`bloom, Elems(s)`hashv, bloom, if bloom == null then {} else {bloom.bv}
    {
      && (bloom != null <==> with_bloom)
      && (bloom != null ==>
            bloom.Valid() && forall e :: e in s ==> Index(e.hashv, bloom.nbits) in bloom.marked)
    }

    /** The table stands for the entries of `s`. */
    ghost predicate IndexOk(s: seq<Entry>)
      reads this`buckets, this`num_buckets, this`log2_num_buckets, this`chains, this`num_items, this`bloom
      reads buckets, bloom, if bloom == null then {} else {bloom.bv}
      reads Elems(s)`hh_prev, Elems(s)`hh_next, Elems(s)`hashv, Elems(s)`key
    {
      num_items == |s| && BucketArrayOk(s) && Hashed(s) && BloomOk(s)
    }

    ghost predicate Valid()
      reads this, buckets, Elems(app), bloom, if bloom == null then {} else {bloom.bv}
    {
      if head == null then app == [] else ListOk() && IndexOk(app)
    }

    // ---------- HASH_FIND ----------

    /** Of several entries with the key it is the first in the chain the key's hash value names. */
    method Find(key: Key) returns (out: Entry?)
      requires Valid()
      ensures out == null ==> forall e :: e in app ==> e.key != key
      ensures out != null ==> out in app && out.key == key
      ensures out != null ==> 0 < num_buckets == |chains| && FirstWith(chains[hash(key) % num_buckets], key, out)
    {
      hide ListOk, Pow2, Index, BucketOk, Linked;
      out := null;
      if head != null {
        var hashv := hash(key);
        AndLowMask(hashv, log2_num_buckets);
        var bkt := And(hashv, num_buckets - 1);
        var hit := true;
        if bloom != null {
          hit := bloom.Test(hashv);
        }
        if hit {
          out := FindInChain(key, bkt);
        }
      }
    }

    method FindInChain(key: Key, bkt: nat) returns (out: Entry?)
      requires BucketArrayOk(app) && Hashed(app) && bkt < num_buckets && bkt == hash(key) % num_buckets
      ensures out == null ==> forall e :: e in app ==> e.key != key
      ensures out != null ==> out in app && out.key == key
      ensures out != null ==> bkt < |chains| && FirstWith(chains[bkt], key, out)
    {
      hide Pow2, Linked, Unique, Belong;
      assert BucketOk(buckets[bkt], chains[bkt], bkt, |chains|);
      out := FindInBkt(buckets[bkt], key, chains[bkt]);
      if out != null {
        assert out in Elems(chains[bkt]);
        assert out in Elems(app);
      } else {
        forall e | e in app
          ensures e.key != key
        {
          assert e in Elems(app);
        }
      }
    }

    // ---------- HASH_EXPAND_BUCKETS ----------

    /** Doubling keeps the entries and puts each into the bucket of its hash value; the ideal length is the items
        per bucket rounded up, and the non-ideal items are those beyond it, summed over the new chains. */
    method ExpandBuckets()
      requires BucketArrayOk(app) && num_items > 0
      modifies this`buckets, this`num_buckets, this`log2_num_buckets, this`chains
      modifies this`ideal_chain_maxlen, this`nonideal_items, this`ineff_expands, this`noexpand
      modifies Elems(app)`hh_prev, Elems(app)`hh_next
      ensures BucketArrayOk(app) && fresh(buckets) && num_buckets == 2 * old(num_buckets)
      ensures ideal_chain_maxlen == CeilDiv(num_items, num_buckets)
      ensures nonideal_items == NonIdeal(chains, ideal_chain_maxlen)
      ensures MultipliersOk(buckets[..], chains, ideal_chain_maxlen)
      ensures ineff_expands == if nonideal_items > num_items / 2 then old(ineff_expands) + 1 else 0
      ensures noexpand <==> old(noexpand) || ineff_expands > 1
    {
      hide IdealChain, CeilDiv, Pow2, Shr, BucketsOk, Complete, Rehashed, NonIdeal, MultipliersOk, Elems, BucketOk;
      var new_buckets, ideal, nonideal;
      ghost var chains';
      new_buckets, ideal, nonideal, chains' := Rebuild();
      Pow2Doubles(log2_num_buckets);
      HalfByShift(num_items);
      ideal_chain_maxlen, nonideal_items := ideal, nonideal;
      num_buckets, log2_num_buckets, buckets, chains := num_buckets * 2, log2_num_buckets + 1, new_buckets, chains';
      ineff_expands := if nonideal_items > Shr(num_items, 1) then ineff_expands + 1 else 0;
      if ineff_expands > 1 {
        noexpand := true;
      }
    }

    /** The part of the expansion that fills the new buckets. */
    method Rebuild() returns (new_buckets: array<Bucket>, ideal: nat, nonideal: nat, ghost chains': seq<seq<Entry>>)
      requires BucketArrayOk(app) && num_items > 0
      modifies Elems(app)`hh_prev, Elems(app)`hh_next
      ensures fresh(new_buckets) && new_buckets.Length == 2 * num_buckets == |chains'|
      ensures BucketsOk(new_buckets[..], chains', Elems(app)) && Complete(chains', Elems(app))
      ensures ideal == CeilDiv(num_items, 2 * num_buckets)
      ensures nonideal == NonIdeal(chains', ideal) && MultipliersOk(new_buckets[..], chains', ideal)
    {
      hide IdealChain, CeilDiv, Pow2, BucketsOk, Complete, Rehashed, NonIdeal, MultipliersOk;
      Pow2Doubles(log2_num_buckets);
      new_buckets := new Bucket[2 * num_buckets](_ => Bucket(null, 0, 0));
      ideal := IdealChain(num_items, log2_num_buckets);
      IdealIsCeiling(num_items, log2_num_buckets);
      nonideal, chains' := Redistribute(buckets, chains, Elems(app), new_buckets, log2_num_buckets + 1, ideal);
      RehashedParts(new_buckets[..], chains', Elems(app), ideal);
    }

    // ---------- HASH_ADD_KEYPTR ----------

    /** HASH_MAKE_TABLE: everything starts anew, whatever an earlier table left behind. */
    method MakeTable()
      modifies this`buckets, this`num_buckets, this`log2_num_buckets, this`chains, this`num_items
      modifies this`ideal_chain_maxlen, this`nonideal_items, this`ineff_expands, this`noexpand, this`bloom
      ensures fresh(buckets) && IsNew(Now()) && num_items == 0
      ensures log2_num_buckets == INITIAL_NUM_BUCKETS_LOG2 && num_buckets == Pow2(log2_num_buckets)
      ensures BucketsOk(buckets[..], chains, {})
      ensures bloom != null <==> with_bloom
      ensures bloom != null ==> fresh(bloom) && fresh(bloom.bv) && bloom.Valid()
    {
      hide Pow2, Empty, Rehashed, BucketsOk, Bloom.Valid;
      buckets := new Bucket[INITIAL_NUM_BUCKETS](_ => Bucket(null, 0, 0));
      num_buckets, log2_num_buckets, num_items := INITIAL_NUM_BUCKETS, INITIAL_NUM_BUCKETS_LOG2, 0;
      ideal_chain_maxlen, nonideal_items, ineff_expands, noexpand := 0, 0, 0, false;
      chains := Empty(INITIAL_NUM_BUCKETS);
      InitialIsPow2();
      EmptyIsRehashed(buckets[..], 0);
      RehashedParts(buckets[..], chains, {}, 0);
      EmptyChains(INITIAL_NUM_BUCKETS);
      MakeBloom();
    }

    /** HASH_BLOOM_MAKE, where the filter is compiled in. */
    method MakeBloom()
      modifies this`bloom
      ensures bloom != null <==> with_bloom
      ensures bloom != null ==> fresh(bloom) && fresh(bloom.bv) && bloom.Valid()
    {
      bloom := null;
      if with_bloom {
        bloom := new Bloom(bloom_nbits);
      }
    }

    /** What adds change of the table, as a value. */
    ghost function Now(): Shape
      reads this`buckets, this`num_buckets, this`chains, buckets
      reads this`ideal_chain_maxlen, this`nonideal_items, this`ineff_expands, this`noexpand
    {
      Shape(num_buckets, buckets[..], chains, ideal_chain_maxlen, nonideal_items, ineff_expands, noexpand)
    }

    lemma BucketCounts(s: seq<Entry>, b: nat)
      requires BucketArrayOk(s) && b < num_buckets
      ensures b < |chains| == buckets.Length && buckets[b].count == |chains[b]|
    {
      assert BucketOk(buckets[b], chains[b], b, |chains|);
    }

    /** HASH_ADD_TO_BKT, for an entry already appended to the application order, up to the test for expansion. */
    method PushInBkt(b: nat, e: Entry)
      requires Last(e) && b < num_buckets && b == e.hashv % num_buckets && BucketArrayOk(app[..|app| - 1])
      modifies this`chains, buckets, Elems(app)`hh_prev, Elems(app)`hh_next
      ensures BucketArrayOk(app) && chains == old(chains)[b := [e] + old(chains[b])]
      ensures buckets[b].count == old(buckets[b].count) + 1
      ensures forall d :: 0 <= d < buckets.Length ==> buckets[d].expand_mult == old(buckets[d].expand_mult)
    {
      hide Pow2, BucketOk;
      BucketCounts(app[..|app| - 1], b);
      ghost var most := Elems(app[..|app| - 1]);
      assert Elems(app) == most + {e} by { LastOf(app); }
      CompleteAfterMove(chains, most, b, e);
      PushFront(buckets, chains, most, b, e);
      chains := chains[b := [e] + chains[b]];
      BucketCounts(app, b);
    }

    /** HASH_ADD_TO_BKT: the buckets double exactly when the bucket reaches its threshold and expansion is on. */
    method AddToBkt(b: nat, e: Entry)
      requires Last(e) && b < num_buckets && b == e.hashv % num_buckets
      requires BucketArrayOk(app[..|app| - 1]) && num_items > 0
      modifies this`buckets, this`num_buckets, this`log2_num_buckets, this`chains, buckets
      modifies this`ideal_chain_maxlen, this`nonideal_items, this`ineff_expands, this`noexpand
      modifies Elems(app)`hh_prev, Elems(app)`hh_next
      ensures BucketArrayOk(app) && (buckets == old(buckets) || fresh(buckets))
      ensures Grows(old(Now()), e, b, num_items, Now())
    {
      hide BucketsOk, Complete, Pow2, CeilDiv, NonIdeal, Elems, MultipliersOk;
      PushInBkt(b, e);
      if buckets[b].count >= (buckets[b].expand_mult + 1) * BKT_CAPACITY_THRESH && !noexpand {
        ExpandBuckets();
      }
    }

    /** The first entry brings the table with it. */
    method AppendFirst(e: Entry)
      requires app == []
      modifies this, e`prev, e`next
      ensures ListOk() && IndexOk([]) && app == [e] && Last(e) && IsNew(Now())
      ensures fresh(buckets) && (bloom != null ==> fresh(bloom) && fresh(bloom.bv))
    {
      hide Pow2, BucketsOk, Bloom.Valid;
      e.next := null;
      head := e;
      head.prev := null;
      MakeTable();
      tail := head;
      app := [e];
      assert Elems([]) == {};
      NothingIsComplete(chains);
    }

    /** A further entry goes behind the tail. */
    method AppendNext(e: Entry)
      requires ListOk() && IndexOk(app) && e !in app
      modifies this`tail, this`app, e`prev, e`next, Elems(app)`next
      ensures ListOk() && IndexOk(old(app)) && app == old(app) + [e] && Last(e)
    {
      hide Ordered, Unique, IndexOk;
      LinkLast(tail, e, app);
      tail := e;
      app := app + [e];
    }

    ghost predicate Last(e: Entry)
      reads this`app
    {
      app != [] && e == app[|app| - 1] && e !in app[..|app| - 1]
    }

    /** HASH_BLOOM_ADD */
    method MarkLast(e: Entry)
      requires Last(e) && BloomOk(app[..|app| - 1])
      modifies bloom, if bloom == null then {} else {bloom.bv}
      ensures BloomOk(app)
    {
      hide Bloom.Valid, Index;
      LastOf(app);
      if bloom != null {
        bloom.Add(e.hashv);
      }
    }

    /** The entry at the end of the list gets its hash value and enters its bucket. */
    method EnterBucket(e: Entry)
      requires Last(e) && IndexOk(app[..|app| - 1]) && num_buckets > 0
      modifies this`buckets, this`num_buckets, this`log2_num_buckets, this`chains, this`num_items, buckets
      modifies this`ideal_chain_maxlen, this`nonideal_items, this`ineff_expands, this`noexpand
      modifies e`hashv, Elems(app)`hh_prev, Elems(app)`hh_next
      ensures num_items == |app| && BucketArrayOk(app) && Hashed(app) && BloomOk(app[..|app| - 1])
      ensures buckets == old(buckets) || fresh(buckets)
      ensures Grows(old(Now()), e, hash(e.key) % old(num_buckets), num_items, Now())
    {
      hide BucketArrayOk, Hashed, BloomOk, And, Pow2, Grows;
      ghost var was := app[..|app| - 1];
      LastOf(app);
      assert forall x :: x in was ==> x in Elems(was);
      BucketCount(was);
      num_items := num_items + 1;
      e.hashv := hash(e.key);
      AndLowMask(e.hashv, log2_num_buckets);
      var b := And(e.hashv, num_buckets - 1);
      assert BucketArrayOk(was) && Hashed(was) && BloomOk(was);
      AddToBkt(b, e);
      HashedLast(e);
    }

    /** The entry at the end of the list enters the table. */
    method InsertLast(e: Entry)
      requires Last(e) && IndexOk(app[..|app| - 1]) && num_buckets > 0
      modifies this`buckets, this`num_buckets, this`log2_num_buckets, this`chains, this`num_items, buckets
      modifies this`ideal_chain_maxlen, this`nonideal_items, this`ineff_expands, this`noexpand
      modifies e`hashv, Elems(app)`hh_prev, Elems(app)`hh_next
      modifies bloom, if bloom == null then {} else {bloom.bv}
      ensures IndexOk(app) && (buckets == old(buckets) || fresh(buckets)) && bloom == old(bloom)
      ensures Grows(old(Now()), e, hash(e.key) % old(num_buckets), num_items, Now())
    {
      hide BucketArrayOk, Hashed, BloomOk, Grows;
      EnterBucket(e);
      MarkLast(e);
    }

    lemma BucketCount(s: seq<Entry>)
      requires BucketArrayOk(s)
      ensures num_buckets == Pow2(log2_num_buckets) == buckets.Length
    {}

    lemma HashedLast(e: Entry)
      requires Last(e) && Hashed(app[..|app| - 1]) && e.hashv == hash(e.key)
      ensures Hashed(app)
    {
      LastOf(app);
    }

    /** Adding puts the entry last in application order and leaves everything else of the table as it was. */
    method Add(e: Entry, key: Key)
      requires Valid() && e !in app
      modifies this, buckets, bloom, if bloom == null then {} else {bloom.bv}
      modifies e`prev, e`next, e`hh_prev, e`hh_next, e`key, e`hashv
      modifies Elems(app)`next, Elems(app)`hh_prev, Elems(app)`hh_next
      ensures Valid() && app == old(app) + [e] && e.key == key
      ensures old(head) == null ==>
                num_buckets == 32 && ideal_chain_maxlen == nonideal_items == ineff_expands == 0 && !noexpand
      ensures old(head) != null ==>
                0 < old(num_buckets) && Grows(old(Now()), e, hash(key) % old(num_buckets), |app|, Now())
      ensures buckets == old(buckets) || fresh(buckets)
      ensures bloom == null || bloom == old(bloom) || (fresh(bloom) && fresh(bloom.bv))
    {
      hide IndexOk, ListOk, Valid, Grows, IsNew;
      SetKey(e, key);
      Append(e);
      ghost var appended := Now();
      assert app[..|app| - 1] == old(app);
      Enter(e);
      if old(head) == null {
        FirstGrowth(appended, e, hash(key) % appended.num_buckets, |app|, Now());
      }
    }

    /** The table part of HASH_ADD_KEYPTR. */
    method Enter(e: Entry)
      requires Last(e) && ListOk() && IndexOk(app[..|app| - 1])
      modifies this`buckets, this`num_buckets, this`log2_num_buckets, this`chains, this`num_items, buckets
      modifies this`ideal_chain_maxlen, this`nonideal_items, this`ineff_expands, this`noexpand
      modifies e`hashv, Elems(app)`hh_prev, Elems(app)`hh_next
      modifies bloom, if bloom == null then {} else {bloom.bv}
      ensures Valid() && (buckets == old(buckets) || fresh(buckets)) && bloom == old(bloom)
      ensures 0 < old(num_buckets) && Grows(old(Now()), e, hash(e.key) % old(num_buckets), |app|, Now())
    {
      hide IndexOk, ListOk, Valid, Grows;
      LastOf(app);
      BucketsExist(app[..|app| - 1]);
      InsertLast(e);
      ItemsOf();
      ListedAndIndexed();
    }

    lemma BucketsExist(s: seq<Entry>)
      requires IndexOk(s)
      ensures num_buckets > 0
    {}

    lemma ItemsOf()
      requires IndexOk(app)
      ensures num_items == |app|
    {}

    method SetKey(e: Entry, key: Key)
      requires Valid() && e !in app
      modifies e`key
      ensures Valid() && e.key == key
    {
      hide Valid;
      assert e !in Elems(app);
      e.key := key;
    }

    lemma ListedAndIndexed()
      requires ListOk() && IndexOk(app)
      ensures Valid()
    {
      hide IndexOk;
      ListHead();
    }

    /** The list part of HASH_ADD_KEYPTR. */
    method Append(e: Entry)
      requires Valid() && e !in app
      modifies this, e`prev, e`next, Elems(app)`next
      ensures ListOk() && IndexOk(old(app)) && app == old(app) + [e] && Last(e)
      ensures if old(head) == null then IsNew(Now()) else Now() == old(Now())
      ensures buckets == old(buckets) || fresh(buckets)
      ensures bloom == null || bloom == old(bloom) || (fresh(bloom) && fresh(bloom.bv))
    {
      hide IndexOk, ListOk, Last;
      if head == null {
        AppendFirst(e);
      } else {
        AppendNext(e);
      }
    }

    lemma ListHead()
      requires ListOk()
      ensures head != null
    {}

    // ---------- HASH_DELETE ----------

    /** Entry `k` leaves its chain. */
    method PopFromBkt(e: Entry, b: nat, ghost k: nat)
      requires k < |app| && app[k] == e && Unique(app) && BucketArrayOk(app)
      requires b < num_buckets && b == e.hashv % num_buckets
      modifies this`chains, buckets, Elems(app)`hh_prev, Elems(app)`hh_next
      ensures BucketArrayOk(Without(app, k)) && Shrinks(old(Now()), e, b, Now())
    {
      hide BucketsOk, Pow2, Unique, Complete, Elems;
      ghost var j := PlaceOf(chains, app, k, b);
      ElemsWithout(app, k);
      CompleteWithout(chains, Elems(app), b, e, j);
      DelInBkt(buckets, chains, Elems(app), b, e, j);
      chains := chains[b := Without(chains[b], j)];
    }

    /** The bucket part of HASH_DELETE. */
    method Unindex(e: Entry, ghost k: nat)
      requires k < |app| && app[k] == e && Unique(app) && IndexOk(app)
      modifies this`chains, this`num_items, buckets, Elems(app)`hh_prev, Elems(app)`hh_next
      ensures IndexOk(Without(app, k))
      ensures 0 < old(num_buckets) && Shrinks(old(Now()), e, e.hashv % old(num_buckets), Now())
    {
      hide BucketArrayOk, And, Pow2, Unique, Shrinks, Index;
      BucketCount(app);
      AndLowMask(e.hashv, log2_num_buckets);
      var bkt := And(e.hashv, num_buckets - 1);
      BloomWithout(k);
      HashedWithout(k);
      PopFromBkt(e, bkt, k);
      num_items := num_items - 1;
    }

    lemma HashedWithout(k: nat)
      requires k < |app| && Hashed(app)
      ensures Hashed(Without(app, k))
    {
      assert forall x :: x in Without(app, k) ==> x in app;
    }

    lemma BloomWithout(k: nat)
      requires k < |app| && BloomOk(app)
      ensures BloomOk(Without(app, k))
    {
      assert forall x :: x in Without(app, k) ==> x in app;
    }

    /** Deleting takes out that entry and nothing else; with the last entry the table goes. */
    method Delete(e: Entry) returns (ghost k: nat)
      requires Valid() && e in app
      modifies this, buckets, Elems(app)`prev, Elems(app)`next, Elems(app)`hh_prev, Elems(app)`hh_next
      ensures Valid() && k < |old(app)| && old(app)[k] == e && app == Without(old(app), k)
      ensures buckets == old(buckets) && bloom == old(bloom)
      ensures if |old(app)| == 1 then head == null
              else 0 < old(num_buckets) && Shrinks(old(Now()), e, hash(e.key) % old(num_buckets), Now())
    {
      hide IndexOk, ListOk, Shrinks;
      k :| 0 <= k < |app| && app[k] == e;
      if e.prev == null && e.next == null {
        OnlyEntry(k);
        head := null;
        app := [];
      } else {
        Unlist(e, k);
        ListHead();
      }
    }

    lemma OnlyEntry(k: nat)
      requires ListOk() && k < |app| && app[k].prev == null && app[k].next == null
      ensures Without(app, k) == [] && |app| == 1
    {}

    /** The list part of HASH_DELETE, for one entry of several. */
    method Unlist(e: Entry, ghost k: nat)
      requires ListOk() && IndexOk(app) && k < |app| && app[k] == e && (e.prev != null || e.next != null)
      modifies this, buckets, Elems(app)`prev, Elems(app)`next, Elems(app)`hh_prev, Elems(app)`hh_next
      ensures ListOk() && IndexOk(app) && app == Without(old(app), k) && |old(app)| > 1
      ensures buckets == old(buckets) && bloom == old(bloom)
      ensures 0 < old(num_buckets) && Shrinks(old(Now()), e, hash(e.key) % old(num_buckets), Now())
    {
      hide IndexOk, Ordered, Unique, Shrinks, Now;
      HashOf(k);
      ElemsWithout(app, k);
      ghost var rest := Without(app, k);
      Detach(e, k);
      Unindex(e, k);
      assert Ordered(rest);
      app := rest;
    }

    method Detach(e: Entry, ghost k: nat)
      requires ListOk() && k < |app| && app[k] == e && (e.prev != null || e.next != null)
      modifies this`head, this`tail, Elems(app)`prev, Elems(app)`next
      ensures |app| > 1 && Ordered(Without(app, k))
      ensures head == Without(app, k)[0] && tail == Without(app, k)[|app| - 2]
    {
      hide Ordered, Unique, Without;
      EndsWithout(k);
      if e == tail {
        tail := e.prev;
      }
      if e.prev == null {
        head := e.next;
      }
      UnlinkOrdered(e, app, k);
    }

    lemma HashOf(k: nat)
      requires IndexOk(app) && k < |app|
      ensures app[k].hashv == hash(app[k].key)
    {}

    /** Which entries come first and last once entry `k` is gone. */
    lemma EndsWithout(k: nat)
      requires ListOk() && k < |app| && (app[k].prev != null || app[k].next != null)
      ensures Without(app, k) != [] && |app| > 1
      ensures Without(app, k)[0] == if app[k].prev == null then app[k].next else head
      ensures Without(app, k)[|app| - 2] == if app[k] == tail then app[k].prev else tail
    {}

    // ---------- HASH_SRT ----------

    /** Sorting reorders the list and touches nothing of the buckets, so every lookup answers as before.  The new order
        is the merge sort of the old one under the comparison of the entries' fields; where that is a total preorder,
        the list is sorted by it and entries with equal fields keep their order. */
    method Sort(cmp: HashSort.Cmp)
      requires Valid() && |app| <= 0x1_0000_0000
      modifies this`head, this`tail, this`app, Elems(app)`prev, Elems(app)`next
      ensures Valid() && multiset(app) == multiset(old(app)) && Elems(app) == Elems(old(app))
      ensures app == MergeSpec.Sort(HashSort.Order(cmp, HashSort.Snap(Elems(app))), old(app), 1)
      ensures MergeSpec.Preorder(cmp, HashSort.FieldsOf(app)) ==>
                HashSort.SortedByFields(cmp, app) && HashSort.SameAlike(cmp, old(app), app)
    {
      hide Valid, MergeSpec.Sort, HashSort.Order, HashSort.Snap, HashSort.Agree;
      hide MergeSpec.Preorder, HashSort.SameAlike, HashSort.SortedByFields, HashSort.FieldsOf;
      ghost var was := app;
      ghost var ord := HashSort.Order(cmp, HashSort.Snap(Elems(app)));
      HashSort.OrderAgrees(cmp, Elems(app));
      Reorder(cmp, ord);
      HashSort.SameFields(was, app);
      if MergeSpec.Preorder(cmp, HashSort.FieldsOf(was)) {
        HashSort.SortedAndStable(cmp, ord, was, app);
      }
    }

    method Reorder(cmp: HashSort.Cmp, ghost ord: HashSort.Ord)
      requires Valid() && |app| <= 0x1_0000_0000 && HashSort.Agree(cmp, ord, Elems(app))
      modifies this`head, this`tail, this`app, Elems(app)`prev, Elems(app)`next
      ensures Valid() && multiset(app) == multiset(old(app)) && Elems(app) == Elems(old(app))
      ensures app == MergeSpec.Sort(ord, old(app), 1)
    {
      hide IndexOk, Ordered, Unique, MergeSpec.Sort, HashSort.Agree;
      ghost var was := app;
      MergeSpec.SortIsPermutation(ord, was, 1);
      if head != null {
        ghost var out;
        head, tail, out := HashSort.SortList(cmp, ord, head, app);
        HashSort.SameMembers(was, out);
        IndexOfSameElems(was, out);
        app := out;
      } else {
        SortNothing(ord);
      }
    }

    lemma IndexOfSameElems(s: seq<Entry>, t: seq<Entry>)
      requires IndexOk(s) && Elems(s) == Elems(t) && |s| == |t|
      ensures IndexOk(t)
    {
      hide BucketsOk, Complete, Index, Bloom.Valid;
      assert forall e :: e in t ==> e in Elems(s);
    }

    // ---------- HASH_FSCK ----------

    /** The conditions HASH_FSCK checks and does not get from the shape of the lists: the bucket counts add up to
        the number of items. */
    lemma CountsAddUp()
      requires Valid() && head != null
      ensures Total(chains) == num_items
      ensures forall b :: 0 <= b < num_buckets ==> buckets[b].count == |chains[b]|
    {
      hide Pow2, Ordered, BloomOk, Hashed, Linked;
      TotalIsSize(buckets[..], chains, Elems(app), |chains|);
      BelowAll(Elems(app), |chains|);
      assert chains[..|chains|] == chains;
      UniqueSize(app);
      forall b | 0 <= b < num_buckets
        ensures buckets[b].count == |chains[b]|
      {
        assert BucketOk(buckets[b], chains[b], b, |chains|);
      }
    }
  }

  lemma SortNothing(ord: HashSort.Ord)
    ensures MergeSpec.Sort(ord, [], 1) == []
  {}

  lemma {:induction false} UniqueSize(c: seq<Entry>)
    requires Unique(c)
    ensures |Elems(c)| == |c|
  {
    if c != [] {
      var n := |c| - 1;
      UniqueSize(c[..n]);
      LastOf(c);
    } else {
      assert Elems(c) == {};
    }
  }

  /** The chains below bucket `i` hold as many entries as hash there. */
  lemma {:induction false} TotalIsSize(bkts: seq<Bucket>, chains: seq<seq<Entry>>, all: set<Entry>, i: nat)
    requires BucketsOk(bkts, chains, all) && Complete(chains, all) && i <= |chains|
    ensures Total(chains[..i]) == |Below(all, |chains|, i)|
  {
    hide BucketsOk, Complete, Below, Elems, Unique, Waiting;
    if i == 0 {
      AllWaiting(bkts, chains, all);
    } else {
      TotalIsSize(bkts, chains, all, i - 1);
      ChainUnique(bkts, chains, all, i - 1);
      WaitingFrom(bkts, chains, all, i - 1);
      ChainIsSlice(bkts, chains, all, i - 1);
      UniqueSize(chains[i - 1]);
      assert chains[..i][..i - 1] == chains[..i - 1];
    }
  }

  lemma ChainUnique(bkts: seq<Bucket>, chains: seq<seq<Entry>>, all: set<Entry>, i: nat)
    requires BucketsOk(bkts, chains, all) && i < |chains|
    ensures Unique(chains[i])
  {
    assert BucketOk(bkts[i], chains[i], i, |chains|);
  }

  lemma WaitingFrom(bkts: seq<Bucket>, chains: seq<seq<Entry>>, all: set<Entry>, i: nat)
    requires BucketsOk(bkts, chains, all)
    ensures Waiting(bkts, chains, all, i)
  {
    AllWaiting(bkts, chains, all);
  }

  lemma PlaceOf(chains: seq<seq<Entry>>, s: seq<Entry>, k: nat, b: nat) returns (j: nat)
    requires k < |s| && Complete(chains, Elems(s)) && b < |chains| && b == s[k].hashv % |chains|
    ensures j < |chains[b]| && chains[b][j] == s[k]
  {
    assert s[k] in Elems(s);
    j :| 0 <= j < |chains[b]| && chains[b][j] == s[k];
  }

  lemma CompleteWithout(chains: seq<seq<Entry>>, all: set<Entry>, b: nat, e: Entry, j: nat)
    requires Complete(chains, all) && b < |chains| && b == e.hashv % |chains| && j < |chains[b]| && chains[b][j] == e
    ensures Complete(chains[b := Without(chains[b], j)], all - {e})
  {
    forall x | x in all - {e}
      ensures x in chains[b := Without(chains[b], j)][x.hashv % |chains|]
    {
      var c := chains[x.hashv % |chains|];
      assert x in c;
      if x.hashv % |chains| == b {
        var i :| 0 <= i < |c| && c[i] == x;
        assert Without(c, j)[if i < j then i else i - 1] == x;
      }
    }
  }

  lemma NothingIsComplete(chains: seq<seq<Entry>>)
    requires |chains| > 0
    ensures Complete(chains, {})
  {}

  lemma EmptyChains(n: nat)
    ensures |Empty(n)| == n && forall b :: 0 <= b < n ==> Empty(n)[b] == []
  {}

  lemma Pow2Doubles(k: nat)
    ensures Pow2(k + 1) == 2 * Pow2(k)
  {}

  lemma HalfByShift(x: nat)
    ensures Shr(x, 1) == x / 2
  {
    assert Shr(x, 1) == Shr(x / 2, 0);
  }

  lemma RehashedParts(bkts: seq<Bucket>, chains: seq<seq<Entry>>, all: set<Entry>, ideal: nat)
    requires Rehashed(bkts, chains, all, ideal)
    ensures BucketsOk(bkts, chains, all) && Complete(chains, all) && |bkts| == |chains|
    ensures MultipliersOk(bkts, chains, ideal)
  {}

  lemma LastOf(s: seq<Entry>)
    requires s != []
    ensures Elems(s) == Elems(s[..|s| - 1]) + {s[|s| - 1]}
  {
    assert s == s[..|s| - 1] + [s[|s| - 1]];
  }
}
