/** The entries of a hash table and its bucket chains. */
module HashEntries {
  import opened Messages
  import opened Sequences

  type Key = seq<byte>
  type Value = seq<byte>

  /** What the application keeps in an element, and may compare elements by. */
  datatype Fields = Fields(key: Key, value: Value)

  /** An element with its hash handle.  Every element of a table carries the same `tbl` pointer and handle offset;
      the table object stands for both. */
  class Entry {
    var prev: Entry?
    var next: Entry?
    var hh_prev: Entry?
    var hh_next: Entry?
    var key: Key
    var hashv: nat
    /** The application's other data in the element. */
    var value: Value

    constructor ()
    {
      key, value := [], [];
      prev, next, hh_prev, hh_next := null, null, null, null;
      hashv := 0;
    }

    function Get(): Fields
      reads this`key, this`value
    {
      Fields(key, value)
    }
  }

  datatype Bucket = Bucket(hh_head: Entry?, count: nat, expand_mult: nat)

  ghost function Elems(c: seq<Entry>): set<Entry> {
    set e | e in c
  }

  ghost predicate Unique(c: seq<Entry>) {
    forall i, j :: 0 <= i < j < |c| ==> c[i] != c[j]
  }

  /** The entry at an index, or null outside the sequence. */
  ghost function At(c: seq<Entry>, i: int): Entry? {
    if 0 <= i < |c| then c[i] else null
  }

  // ---------- The list in application order ----------

  /** `s` is linked through prev and next, in both directions. */
  ghost predicate Ordered(s: seq<Entry>)
    reads s`prev, s`next
  {
    forall i :: 0 <= i < |s| ==> s[i].prev == At(s, i - 1) && s[i].next == At(s, i + 1)
  }

  /** A new last entry. */
  method LinkLast(tail: Entry, e: Entry, ghost s: seq<Entry>)
    requires Ordered(s) && Unique(s) && s != [] && tail == s[|s| - 1] && e !in s
    modifies e`prev, e`next, tail`next
    ensures Ordered(s + [e]) && Unique(s + [e])
  {
    e.next := null;
    tail.next := e;
    e.prev := tail;
    ghost var n := s + [e];
    assert forall i :: 0 <= i < |s| ==> n[i] == s[i];
  }

  // ---------- Chains ----------

  /** `c` is linked through hh_prev and hh_next from `first`, in both directions. */
  ghost predicate Linked(c: seq<Entry>, first: Entry?)
    reads c`hh_prev, c`hh_next
  {
    && first == At(c, 0)
    && forall i :: 0 <= i < |c| ==> c[i].hh_prev == At(c, i - 1) && c[i].hh_next == At(c, i + 1)
  }

  /** The hash values of `c` belong to bucket `b` of `n`. */
  ghost predicate Belong(c: seq<Entry>, b: nat, n: nat)
    requires n > 0
    reads c`hashv
  {
    forall i :: 0 <= i < |c| ==> c[i].hashv % n == b
  }

  ghost predicate BucketOk(bkt: Bucket, c: seq<Entry>, b: nat, n: nat)
    requires n > 0
    reads c`hh_prev, c`hh_next, c`hashv
  {
    Linked(c, bkt.hh_head) && bkt.count == |c| && Unique(c) && Belong(c, b, n)
  }

  /** The buckets hold the chains, and the chains hold entries of `all` only. */
  ghost predicate BucketsOk(bkts: seq<Bucket>, chains: seq<seq<Entry>>, all: set<Entry>)
    reads all`hh_prev, all`hh_next, all`hashv
  {
    |bkts| == |chains| > 0 &&
    forall b :: 0 <= b < |chains| ==> Elems(chains[b]) <= all && BucketOk(bkts[b], chains[b], b, |chains|)
  }

  /** Every entry of `all` is in the chain its hash value names. */
  ghost predicate Complete(chains: seq<seq<Entry>>, all: set<Entry>)
    reads all`hashv
  {
    |chains| > 0 && forall e :: e in all ==> e in chains[e.hashv % |chains|]
  }

  // ---------- Changing one chain ----------

  /** Bucket `b` shares no entry with the chain of any other bucket. */
  ghost predicate Apart(chains: seq<seq<Entry>>, b: nat, x: Entry) {
    forall d :: 0 <= d < |chains| && d != b ==> x !in chains[d]
  }

  lemma ChainsApart(bkts: seq<Bucket>, chains: seq<seq<Entry>>, all: set<Entry>, b: nat)
    requires BucketsOk(bkts, chains, all) && b < |chains|
    ensures forall x :: x in all && x.hashv % |chains| == b ==> Apart(chains, b, x)
    ensures forall x :: x in chains[b] ==> x in all && x.hashv % |chains| == b
  {
    forall x, d | x in all && x.hashv % |chains| == b && 0 <= d < |chains| && d != b
      ensures x !in chains[d]
    {
      assert BucketOk(bkts[d], chains[d], d, |chains|);
    }
    assert BucketOk(bkts[b], chains[b], b, |chains|);
    assert forall x :: x in chains[b] ==> x in Elems(chains[b]);
  }

  method LinkFront(head: Entry?, e: Entry, ghost c: seq<Entry>)
    requires Linked(c, head) && Unique(c) && e !in c
    modifies e`hh_prev, e`hh_next, Elems(c)`hh_prev
    ensures Linked([e] + c, e)
  {
    e.hh_next := head;
    e.hh_prev := null;
    if head != null {
      head.hh_prev := e;
    }
    ghost var n := [e] + c;
    assert forall i :: 0 < i < |n| ==> n[i] == c[i - 1];
  }

  method PushLinks(bkts: array<Bucket>, ghost c: seq<Entry>, b: nat, e: Entry)
    requires b < bkts.Length && b == e.hashv % bkts.Length && e !in c && BucketOk(bkts[b], c, b, bkts.Length)
    modifies bkts, e`hh_prev, e`hh_next, Elems(c)`hh_prev
    ensures BucketOk(bkts[b], [e] + c, b, bkts.Length) && bkts[b].expand_mult == old(bkts[b].expand_mult)
    ensures forall d :: 0 <= d < bkts.Length && d != b ==> bkts[d] == old(bkts[d])
  {
    hide BucketOk;
    BucketParts(bkts[b], c, b, bkts.Length);
    bkts[b] := bkts[b].(count := bkts[b].count + 1);
    LinkFront(bkts[b].hh_head, e, c);
    bkts[b] := bkts[b].(hh_head := e);
    NewInFront(bkts[b], c, e, b, bkts.Length);
  }

  /** HASH_ADD_TO_BKT up to its test for expansion. */
  method PushFront(bkts: array<Bucket>, ghost chains: seq<seq<Entry>>, ghost all: set<Entry>, b: nat, e: Entry)
    requires BucketsOk(bkts[..], chains, all) && e !in all && b < bkts.Length && b == e.hashv % bkts.Length
    modifies bkts, e`hh_prev, e`hh_next, all`hh_prev
    ensures BucketsOk(bkts[..], chains[b := [e] + chains[b]], all + {e})
    ensures bkts[b].expand_mult == old(bkts[b].expand_mult)
    ensures forall d :: 0 <= d < bkts.Length && d != b ==> bkts[d] == old(bkts[d])
  {
    hide BucketOk, Apart;
    ghost var c := chains[b];
    ChainsApart(bkts[..], chains, all, b);
    assert BucketOk(bkts[b], c, b, |chains|);
    PushLinks(bkts, c, b, e);
    forall d | 0 <= d < |chains| && d != b
      ensures BucketOk(bkts[d], chains[d], d, |chains|)
    {
      assert old(BucketOk(bkts[d], chains[d], d, |chains|));
      assert Elems(chains[d]) <= all && forall x :: x in chains[d] ==> x in Elems(chains[d]);
      ApartFrom(chains, b, d, c, e);
    }
  }

  lemma BucketParts(bkt: Bucket, c: seq<Entry>, b: nat, n: nat)
    requires n > 0 && BucketOk(bkt, c, b, n)
    ensures Linked(c, bkt.hh_head) && Unique(c) && Belong(c, b, n) && bkt.count == |c|
  {}

  lemma ApartFrom(chains: seq<seq<Entry>>, b: nat, d: nat, c: seq<Entry>, e: Entry)
    requires b < |chains| && d < |chains| && d != b && forall x :: x in c ==> Apart(chains, b, x)
    ensures forall x :: x in chains[d] ==> x !in c
  {}

  lemma NewInFront(bkt: Bucket, c: seq<Entry>, e: Entry, b: nat, n: nat)
    requires n > 0 && e !in c && Unique(c) && Belong(c, b, n) && e.hashv % n == b
    requires Linked([e] + c, bkt.hh_head) && bkt.count == |c| + 1
    ensures BucketOk(bkt, [e] + c, b, n)
  {
    hide Linked;
  }

  // ---------- Taking an entry out ----------

  lemma ElemsWithout(c: seq<Entry>, k: nat)
    requires k < |c| && Unique(c)
    ensures Elems(Without(c, k)) == Elems(c) - {c[k]} && Unique(Without(c, k))
  {
    var w := Without(c, k);
    assert forall i :: 0 <= i < |w| ==> w[i] == if i < k then c[i] else c[i + 1];
    forall x | x in c && x != c[k]
      ensures x in w
    {
      var i :| 0 <= i < |c| && c[i] == x;
      assert w[if i < k then i else i - 1] == x;
    }
  }

  /** Neighbours after an element is skipped. */
  lemma AtWithout(c: seq<Entry>, k: nat, i: int)
    requires k < |c| && -1 <= i < |c|
    ensures At(Without(c, k), i) == if i < k then At(c, i) else At(c, i + 1)
  {
    var w := Without(c, k);
    assert forall j :: 0 <= j < |w| ==> w[j] == if j < k then c[j] else c[j + 1];
  }

  lemma Differ(s: seq<Entry>, i: nat, j: nat)
    requires Unique(s) && i < |s| && j < |s| && i != j
    ensures s[i] != s[j]
  {}

  /** The first half of HASH_DELETE on the list in application order: the previous entry skips `e`. */
  method BypassForward(e: Entry, ghost s: seq<Entry>, ghost k: nat)
    requires Unique(s) && k < |s| && s[k] == e && e.prev == At(s, k - 1)
    requires forall i :: 0 <= i < |s| ==> s[i].next == At(s, i + 1)
    modifies Elems(s)`next
    ensures e.next == old(e.next)
    ensures forall i :: 0 <= i < |s| && i != k ==> s[i].next == if i + 1 == k then At(s, k + 1) else At(s, i + 1)
  {
    if e.prev != null {
      assert e.prev == s[k - 1];
      e.prev.next := e.next;
    }
  }

  /** The second half: the next entry skips `e` backwards. */
  method BypassBackward(e: Entry, ghost s: seq<Entry>, ghost k: nat)
    requires Unique(s) && k < |s| && s[k] == e && e.next == At(s, k + 1)
    requires forall i :: 0 <= i < |s| ==> s[i].prev == At(s, i - 1)
    modifies Elems(s)`prev
    ensures forall i :: 0 <= i < |s| && i != k ==> s[i].prev == if i - 1 == k then At(s, k - 1) else At(s, i - 1)
  {
    if e.next != null {
      assert e.next == s[k + 1];
      e.next.prev := e.prev;
    }
  }

  /** The pointer surgery of HASH_DELETE on the list in application order. */
  method UnlinkOrdered(e: Entry, ghost s: seq<Entry>, ghost k: nat)
    requires Ordered(s) && Unique(s) && k < |s| && s[k] == e
    modifies Elems(s)`prev, Elems(s)`next
    ensures Ordered(Without(s, k))
  {
    hide At, Unique, Without;
    BypassForward(e, s, k);
    BypassBackward(e, s, k);
    SkippedIsOrdered(s, k);
  }

  lemma SkippedIsOrdered(s: seq<Entry>, k: nat)
    requires k < |s|
    requires forall i :: 0 <= i < |s| && i != k ==> s[i].next == if i + 1 == k then At(s, k + 1) else At(s, i + 1)
    requires forall i :: 0 <= i < |s| && i != k ==> s[i].prev == if i - 1 == k then At(s, k - 1) else At(s, i - 1)
    ensures Ordered(Without(s, k))
  {
    var n := Without(s, k);
    forall i | 0 <= i < |n|
      ensures n[i].prev == At(n, i - 1) && n[i].next == At(n, i + 1)
    {
      AtWithout(s, k, i - 1);
      AtWithout(s, k, i);
      AtWithout(s, k, i + 1);
    }
  }

  /** The pointer surgery of HASH_DEL_IN_BKT. */
  method UnlinkFrom(head: Entry?, e: Entry, ghost c: seq<Entry>, ghost k: nat) returns (first: Entry?)
    requires Linked(c, head) && Unique(c) && k < |c| && c[k] == e
    modifies Elems(c)`hh_prev, Elems(c)`hh_next
    ensures Linked(Without(c, k), first)
  {
    first := head;
    if first == e {
      first := e.hh_next;
    }
    AtWithout(c, k, 0);
    hide Unique, Without;
    assert forall i :: 0 <= i < |c| ==> c[i].hh_prev == At(c, i - 1) && c[i].hh_next == At(c, i + 1);
    if e.hh_prev != null {
      assert e.hh_prev == c[k - 1];
      e.hh_prev.hh_next := e.hh_next;
    }
    if e.hh_next != null {
      assert e.hh_next == c[k + 1];
      e.hh_next.hh_prev := e.hh_prev;
    }
    forall i | 0 <= i < |c| && i != k
      ensures c[i].hh_next == if i + 1 == k then At(c, k + 1) else At(c, i + 1)
      ensures c[i].hh_prev == if i - 1 == k then At(c, k - 1) else At(c, i - 1)
    {
      assert old(c[i].hh_prev) == At(c, i - 1) && old(c[i].hh_next) == At(c, i + 1);
      Differ(c, i, k);
      if k > 0 && i != k - 1 {
        Differ(c, i, k - 1);
      }
      if k + 1 < |c| && i != k + 1 {
        Differ(c, i, k + 1);
      }
    }
    SkippedIsLinked(c, k);
  }

  lemma SkippedIsLinked(c: seq<Entry>, k: nat)
    requires k < |c|
    requires forall i :: 0 <= i < |c| && i != k ==> c[i].hh_next == if i + 1 == k then At(c, k + 1) else At(c, i + 1)
    requires forall i :: 0 <= i < |c| && i != k ==> c[i].hh_prev == if i - 1 == k then At(c, k - 1) else At(c, i - 1)
    ensures Linked(Without(c, k), At(Without(c, k), 0))
  {
    var n := Without(c, k);
    forall i | 0 <= i < |n|
      ensures n[i].hh_prev == At(n, i - 1) && n[i].hh_next == At(n, i + 1)
    {
      AtWithout(c, k, i - 1);
      AtWithout(c, k, i);
      AtWithout(c, k, i + 1);
    }
  }

  lemma BucketWithout(old': Bucket, bkt: Bucket, c: seq<Entry>, k: nat, b: nat, n: nat)
    requires n > 0 && Unique(c) && Belong(c, b, n) && k < |c|
    requires Linked(Without(c, k), bkt.hh_head) && bkt.count == |c| - 1
    ensures BucketOk(bkt, Without(c, k), b, n) && c[k] !in Without(c, k)
  {
    hide Linked;
    var w := Without(c, k);
    assert forall i :: 0 <= i < |w| ==> w[i] == if i < k then c[i] else c[i + 1];
  }

  method PopLinks(bkts: array<Bucket>, ghost c: seq<Entry>, b: nat, e: Entry, ghost k: nat)
    requires b < bkts.Length && k < |c| && c[k] == e && BucketOk(bkts[b], c, b, bkts.Length)
    modifies bkts, Elems(c)`hh_prev, Elems(c)`hh_next
    ensures BucketOk(bkts[b], Without(c, k), b, bkts.Length) && e !in Without(c, k)
    ensures bkts[b].count == old(bkts[b].count) - 1 && bkts[b].expand_mult == old(bkts[b].expand_mult)
    ensures forall d :: 0 <= d < bkts.Length && d != b ==> bkts[d] == old(bkts[d])
  {
    hide BucketOk;
    BucketParts(bkts[b], c, b, bkts.Length);
    bkts[b] := bkts[b].(count := bkts[b].count - 1);
    var first := UnlinkFrom(bkts[b].hh_head, e, c, k);
    bkts[b] := bkts[b].(hh_head := first);
    BucketWithout(old(bkts[b]), bkts[b], c, k, b, bkts.Length);
  }

  /** HASH_DEL_IN_BKT. */
  method DelInBkt(bkts: array<Bucket>, ghost chains: seq<seq<Entry>>, ghost all: set<Entry>,
                  b: nat, e: Entry, ghost k: nat)
    requires BucketsOk(bkts[..], chains, all) && b < bkts.Length && k < |chains[b]| && chains[b][k] == e
    modifies bkts, all`hh_prev, all`hh_next
    ensures BucketsOk(bkts[..], chains[b := Without(chains[b], k)], all - {e})
    ensures bkts[b].count == old(bkts[b].count) - 1 && bkts[b].expand_mult == old(bkts[b].expand_mult)
    ensures forall d :: 0 <= d < bkts.Length && d != b ==> bkts[d] == old(bkts[d])
  {
    hide BucketOk, Apart;
    ghost var c := chains[b];
    ChainsApart(bkts[..], chains, all, b);
    assert BucketOk(bkts[b], c, b, |chains|);
    PopLinks(bkts, c, b, e, k);
    forall d | 0 <= d < |chains| && d != b
      ensures BucketOk(bkts[d], chains[d], d, |chains|) && Elems(chains[d]) <= all - {e}
    {
      assert old(BucketOk(bkts[d], chains[d], d, |chains|));
      assert Elems(chains[d]) <= all && forall x :: x in chains[d] ==> x in Elems(chains[d]);
      ApartFrom(chains, b, d, c, e);
    }
    assert Elems(Without(c, k)) <= all - {e} by {
      assert Elems(c) <= all && forall x :: x in Without(c, k) ==> x in c;
    }
  }

  // ---------- Searching ----------

  /** `e` is the first entry of the chain with that key. */
  ghost predicate FirstWith(c: seq<Entry>, key: Key, e: Entry)
    reads Elems(c)`key
  {
    exists k :: 0 <= k < |c| && c[k] == e && e.key == key && forall i :: 0 <= i < k ==> c[i].key != key
  }

  /** HASH_FIND_IN_BKT: the first entry of the chain with that key. */
  method FindInBkt(bkt: Bucket, key: Key, ghost c: seq<Entry>) returns (out: Entry?)
    requires Linked(c, bkt.hh_head)
    ensures out == null ==> forall e :: e in c ==> e.key != key
    ensures out != null ==> FirstWith(c, key, out)
  {
    out := bkt.hh_head;
    ghost var k := 0;
    while out != null
      invariant 0 <= k <= |c| && out == At(c, k)
      invariant forall i :: 0 <= i < k ==> c[i].key != key
      decreases |c| - k
    {
      if |out.key| == |key| {
        if out.key == key {
          break;
        }
      }
      out := out.hh_next;
      k := k + 1;
    }
  }
}
