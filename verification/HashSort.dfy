/** HASH_SRT: the merge sort on the list in application order, in place. */
module HashSort {
  import opened HashEntries
  import opened MergeSpec

  /** The comparison function of the application, on the fields of two elements. */
  type Cmp = (Fields, Fields) -> int

  /** The same as a comparison of entries, with their fields fixed at one moment. */
  type Ord = (Entry, Entry) -> int

  /** What the entries of `all` hold. */
  ghost function Snap(all: set<Entry>): map<Entry, Fields>
    reads all`key, all`value
  {
    map e | e in all :: e.Get()
  }

  ghost function Order(cmp: Cmp, snap: map<Entry, Fields>): Ord {
    (a: Entry, b: Entry) => if a in snap && b in snap then cmp(snap[a], snap[b]) else 0
  }

  /** On the entries of `all`, `ord` is the comparison of their fields. */
  ghost predicate Agree(cmp: Cmp, ord: Ord, all: set<Entry>)
    reads all`key, all`value
  {
    forall a, b :: a in all && b in all ==> ord(a, b) == cmp(a.Get(), b.Get())
  }

  lemma AgreeOnSubset(cmp: Cmp, ord: Ord, some: set<Entry>, all: set<Entry>)
    requires some <= all && Agree(cmp, ord, all)
    ensures Agree(cmp, ord, some)
  {}

  lemma OrderAgrees(cmp: Cmp, all: set<Entry>)
    ensures Agree(cmp, Order(cmp, Snap(all)), all)
  {}

  // ---------- What the sort means for the fields ----------

  ghost function FieldsOf(s: seq<Entry>): set<Fields>
    reads Elems(s)`key, Elems(s)`value
  {
    set e | e in s :: e.Get()
  }

  ghost predicate SortedByFields(cmp: Cmp, s: seq<Entry>)
    reads Elems(s)`key, Elems(s)`value
  {
    forall i, j :: 0 <= i < j < |s| ==> cmp(s[i].Get(), s[j].Get()) <= 0
  }

  /** The entries of `s` whose fields compare equal to `f`, in order. */
  ghost function Alike(cmp: Cmp, s: seq<Entry>, f: Fields): seq<Entry>
    reads Elems(s)`key, Elems(s)`value
  {
    if s == [] then [] else
      var rest := Alike(cmp, s[1..], f);
      if cmp(s[0].Get(), f) <= 0 && cmp(f, s[0].Get()) <= 0 then [s[0]] + rest else rest
  }

  /** Entries with equal fields stand in the same order in `s` and `t`. */
  ghost predicate SameAlike(cmp: Cmp, s: seq<Entry>, t: seq<Entry>)
    reads Elems(s)`key, Elems(s)`value, Elems(t)`key, Elems(t)`value
  {
    forall e :: e in s ==> Alike(cmp, t, e.Get()) == Alike(cmp, s, e.Get())
  }

  lemma SameFields(s: seq<Entry>, t: seq<Entry>)
    requires Elems(s) == Elems(t)
    ensures FieldsOf(s) == FieldsOf(t)
  {
    assert forall e :: e in s <==> e in Elems(s);
    assert forall e :: e in t <==> e in Elems(t);
  }

  lemma {:induction false} AlikeIsClass(cmp: Cmp, ord: Ord, all: set<Entry>, s: seq<Entry>, x: Entry)
    requires Agree(cmp, ord, all) && x in all && Elems(s) <= all
    ensures Alike(cmp, s, x.Get()) == Class(ord, s, x)
  {
    if s != [] {
      assert s[0] in Elems(s) && Elems(s[1..]) <= Elems(s);
      AlikeIsClass(cmp, ord, all, s[1..], x);
    }
  }

  lemma PreorderOfEntries(cmp: Cmp, ord: Ord, s: seq<Entry>)
    requires Agree(cmp, ord, Elems(s)) && Preorder(cmp, FieldsOf(s))
    ensures Preorder(ord, Range(s))
  {
    assert forall a :: a in Range(s) ==> a in Elems(s) && a.Get() in FieldsOf(s);
  }

  /** The merge sort of a list, under the comparison of fields, is sorted by fields, has the same entries, and leaves
      those with equal fields in their order. */
  lemma SortedAndStable(cmp: Cmp, ord: Ord, s: seq<Entry>, t: seq<Entry>)
    requires Agree(cmp, ord, Elems(s)) && Preorder(cmp, FieldsOf(s)) && t == Sort(ord, s, 1)
    ensures SortedByFields(cmp, t) && multiset(t) == multiset(s)
    ensures SameAlike(cmp, s, t)
  {
    hide Sort, Class, Preorder, Alike;
    PreorderOfEntries(cmp, ord, s);
    SortIsCorrect(ord, s);
    SameMembers(s, t);
    forall x | x in s
      ensures Alike(cmp, t, x.Get()) == Alike(cmp, s, x.Get())
    {
      AlikeIsClass(cmp, ord, Elems(s), s, x);
      AlikeIsClass(cmp, ord, Elems(s), t, x);
    }
  }

  lemma SameMembers(s: seq<Entry>, t: seq<Entry>)
    requires multiset(s) == multiset(t)
    ensures Elems(s) == Elems(t) && |s| == |t|
  {
    assert |multiset(s)| == |s| && |multiset(t)| == |t|;
    assert forall x :: x in s <==> x in multiset(s);
    assert forall x :: x in t <==> x in multiset(t);
  }

  // ---------- Lists being built ----------

  /** From index `i` on, the list can be walked through next. */
  ghost predicate Forward(s: seq<Entry>, i: nat)
    reads s`next
  {
    forall j :: i <= j < |s| ==> s[j].next == At(s, j + 1)
  }

  /** The sorted part built so far; the next pointer of its last entry is still open. */
  ghost predicate Built(out: seq<Entry>, list: Entry?, tail: Entry?)
    reads out`prev, out`next
  {
    && list == At(out, 0) && tail == At(out, |out| - 1) && Unique(out)
    && (forall j :: 0 <= j < |out| ==> out[j].prev == At(out, j - 1))
    && (forall j :: 0 <= j < |out| - 1 ==> out[j].next == At(out, j + 1))
  }

  /** What is left of the left run and of everything from the right run on can be walked and is not built in. */
  ghost predicate Left(s: seq<Entry>, i: nat, pe: nat, j: nat, out: seq<Entry>)
    reads s`next
  {
    forall k :: (i <= k < pe || j <= k) && k < |s| ==> s[k].next == At(s, k + 1) && s[k] !in out
  }

  /** Entry `e` is appended to the part built. */
  method Emit(e: Entry, list: Entry?, tail: Entry?, ghost out: seq<Entry>) returns (list': Entry?)
    requires Built(out, list, tail) && e !in out
    modifies Elems(out)`next, e`prev
    ensures Built(out + [e], list', e)
  {
    ghost var n := out + [e];
    assert forall k :: 0 <= k < |out| ==> n[k] == out[k];
    list' := list;
    if tail != null {
      tail.next := e;
    } else {
      list' := e;
    }
    e.prev := tail;
  }

  /** Which of the two runs gives the next entry, and the indices afterwards. */
  ghost predicate Picks(cmp: Ord, s: seq<Entry>, i: nat, pe: nat, j: nat, qe: nat, i': nat, j': nat, e: Entry) {
    && i <= i' <= pe <= j <= j' <= qe <= |s| && (i < pe || j < qe)
    && var fromLeft := i < pe && (j == qe || cmp(s[i], s[j]) <= 0);
       if fromLeft then i' == i + 1 && j' == j && e == s[i] else j < qe && i' == i && j' == j + 1 && e == s[j]
  }

  lemma PicksFromMerge(cmp: Ord, s: seq<Entry>, i: nat, pe: nat, j: nat, qe: nat, i': nat, j': nat, e: Entry)
    requires Picks(cmp, s, i, pe, j, qe, i', j', e)
    ensures Merge(cmp, s[i..pe], s[j..qe]) == [e] + Merge(cmp, s[i'..pe], s[j'..qe])
  {
    assert i < pe ==> s[i..pe][0] == s[i] && s[i..pe][1..] == s[i + 1..pe];
    assert j < qe ==> s[j..qe][0] == s[j] && s[j..qe][1..] == s[j + 1..qe];
    assert i < pe && j == qe ==> s[i..pe] == [s[i]] + s[i + 1..pe];
    assert i == pe && j < qe ==> s[j..qe] == [s[j]] + s[j + 1..qe];
  }

  lemma LeftHeads(s: seq<Entry>, i: nat, pe: nat, j: nat, out: seq<Entry>)
    requires Left(s, i, pe, j, out) && i <= pe <= j <= |s|
    ensures i < pe ==> s[i].next == At(s, i + 1) && s[i] !in out
    ensures j < |s| ==> s[j].next == At(s, j + 1) && s[j] !in out
  {}

  /** The picked entry moves over to the part built. */
  method EmitPicked(e: Entry, list: Entry?, tail: Entry?, ghost out: seq<Entry>, ghost s: seq<Entry>, ghost i: nat,
                    ghost pe: nat, ghost j: nat, ghost i': nat, ghost j': nat) returns (list': Entry?)
    requires Built(out, list, tail) && Unique(s) && Left(s, i, pe, j, out) && Elems(out) <= Elems(s)
    requires i <= i' <= pe <= j <= j' <= |s|
    requires (i' == i + 1 && j' == j && i < pe && e == s[i]) || (i' == i && j' == j + 1 && j < |s| && e == s[j])
    modifies Elems(out)`next, e`prev
    ensures Built(out + [e], list', e) && Left(s, i', pe, j', out + [e]) && Elems(out + [e]) <= Elems(s)
  {
    hide Built;
    LeftHeads(s, i, pe, j, out);
    list' := Emit(e, list, tail, out);
    assert forall k :: (i' <= k < pe || j' <= k) && k < |s| ==> s[k] !in out && s[k] != e;
    assert forall x :: x in out ==> x in Elems(out);
    assert forall x :: x in out + [e] ==> x in Elems(s);
  }

  /** The cursors of a merge: `p` with `psize` entries to go, `q` with at most `qsize`. */
  ghost predicate Cursors(s: seq<Entry>, i: nat, pe: nat, j: nat, qe: nat, insize: nat,
                          p: Entry?, psize: nat, q: Entry?, qsize: nat)
  {
    && i <= pe <= j <= qe <= |s| && qe == (if pe + insize <= |s| then pe + insize else |s|)
    && psize == pe - i && qsize == insize - (j - pe)
    && (psize > 0 ==> p == At(s, i)) && q == At(s, j)
  }

  /** The choice at the top of the merge loop. */
  method Choose(cmp: Cmp, ghost ord: Ord, p0: Entry?, psize0: nat, q0: Entry?, qsize0: nat,
                ghost s: seq<Entry>, ghost i: nat, ghost pe: nat, ghost j: nat, ghost qe: nat,
                ghost insize: nat, ghost out: seq<Entry>)
    returns (e: Entry, p: Entry?, psize: nat, q: Entry?, qsize: nat, ghost i': nat, ghost j': nat)
    requires Agree(cmp, ord, Elems(s))
    requires Cursors(s, i, pe, j, qe, insize, p0, psize0, q0, qsize0) && Left(s, i, pe, j, out)
    requires psize0 > 0 || (qsize0 > 0 && q0 != null)
    ensures Picks(ord, s, i, pe, j, qe, i', j', e) && Cursors(s, i', pe, j', qe, insize, p, psize, q, qsize)
  {
    hide Left;
    LeftHeads(s, i, pe, j, out);
    p, psize, q, qsize, i', j' := p0, psize0, q0, qsize0, i, j;
    if psize == 0 {
      e := q;
      q, qsize, j' := q.next, qsize - 1, j + 1;
    } else if qsize == 0 || q == null {
      e := p;
      p, psize, i' := p.next, psize - 1, i + 1;
    } else if cmp(p.Get(), q.Get()) <= 0 {
      e := p;
      p, psize, i' := p.next, psize - 1, i + 1;
    } else {
      e := q;
      q, qsize, j' := q.next, qsize - 1, j + 1;
    }
  }

  lemma MergedAll(cmp: Ord, s: seq<Entry>, i: nat, pe: nat, j: nat, qe: nat, insize: nat,
                  p: Entry?, psize: nat, q: Entry?, qsize: nat, out: seq<Entry>)
    requires Cursors(s, i, pe, j, qe, insize, p, psize, q, qsize) && Left(s, i, pe, j, out)
    requires !(psize > 0 || (qsize > 0 && q != null))
    ensures i == pe && j == qe && q == At(s, qe) && Left(s, qe, qe, qe, out)
    ensures out + Merge(cmp, s[i..pe], s[j..qe]) == out
  {}

  /** Merging the run of `psize` entries at `p` with the run of at most `insize` entries at `q`. */
  method MergeRuns(cmp: Cmp, ghost ord: Ord, p0: Entry?, q0: Entry?, psize0: nat, insize: nat,
                   list0: Entry?, tail0: Entry?, ghost s: seq<Entry>, ghost pi: nat, ghost out0: seq<Entry>)
    returns (q: Entry?, list: Entry?, tail: Entry?, ghost out: seq<Entry>, ghost qe: nat)
    requires Agree(cmp, ord, Elems(s))
    requires Unique(s) && pi + psize0 <= |s| && p0 == At(s, pi) && q0 == At(s, pi + psize0)
    requires Built(out0, list0, tail0) && Left(s, pi, pi + psize0, pi + psize0, out0) && Elems(out0) <= Elems(s)
    modifies Elems(s)`prev, Elems(s)`next
    ensures pi + psize0 <= qe <= |s| && qe == if pi + psize0 + insize <= |s| then pi + psize0 + insize else |s|
    ensures q == At(s, qe) && Left(s, qe, qe, qe, out) && Elems(out) <= Elems(s)
    ensures Built(out, list, tail) && out == out0 + Merge(ord, s[pi..pi + psize0], s[pi + psize0..qe])
  {
    hide Built, Unique, Left, Merge, Agree;
    var p := p0;
    var psize: nat, qsize: nat := psize0, insize;
    q, list, tail, out := q0, list0, tail0, out0;
    ghost var i: nat, pe: nat, j: nat := pi, pi + psize0, pi + psize0;
    qe := if pe + insize <= |s| then pe + insize else |s|;
    while psize > 0 || (qsize > 0 && q != null)
      invariant Cursors(s, i, pe, j, qe, insize, p, psize, q, qsize)
      invariant Built(out, list, tail) && Left(s, i, pe, j, out) && Elems(out) <= Elems(s)
      invariant out + Merge(ord, s[i..pe], s[j..qe]) == out0 + Merge(ord, s[pi..pe], s[pe..qe])
      decreases pe - i + qe - j
    {
      var e;
      ghost var i', j';
      e, p, psize, q, qsize, i', j' := Choose(cmp, ord, p, psize, q, qsize, s, i, pe, j, qe, insize, out);
      PicksFromMerge(ord, s, i, pe, j, qe, i', j', e);
      list := EmitPicked(e, list, tail, out, s, i, pe, j, i', j');
      tail := e;
      out := out + [e];
      i, j := i', j';
    }
    MergedAll(ord, s, i, pe, j, qe, insize, p, psize, q, qsize, out);
  }

  /** Stepping over at most `insize` entries from `p`. */
  method Walk(p: Entry, insize: nat, ghost s: seq<Entry>, ghost i: nat) returns (psize: nat, q: Entry?)
    requires i < |s| && p == s[i] && insize > 0 && Forward(s, i)
    ensures psize == (if i + insize <= |s| then insize else |s| - i) && q == At(s, i + psize)
  {
    q, psize := p, 0;
    for k := 0 to insize
      invariant psize == k && i + k < |s| && q == s[i + k]
    {
      psize := psize + 1;
      q := q.next;
      if q == null {
        break;
      }
    }
  }

  lemma LeftIsForward(s: seq<Entry>, i: nat, out: seq<Entry>)
    requires Left(s, i, i, i, out)
    ensures Forward(s, i)
  {}

  lemma LeftOfChunk(s: seq<Entry>, i: nat, pe: nat, out: seq<Entry>)
    requires Left(s, i, i, i, out) && i <= pe
    ensures Left(s, i, pe, pe, out)
  {}

  lemma ChunkSlices(s: seq<Entry>, i: nat, pe: nat, k: nat)
    requires i <= |s| && pe == if i + k <= |s| then i + k else |s|
    ensures Take(s[i..], k) == s[i..pe] && Drop(s[i..], k) == s[pe..]
  {}

  /** The chunks still to merge, as the specification sees them. */
  lemma NextChunk(cmp: Ord, s: seq<Entry>, i: nat, pe: nat, qe: nat, k: nat)
    requires i < |s| && k > 0 && pe == (if i + k <= |s| then i + k else |s|)
      && qe == (if pe + k <= |s| then pe + k else |s|)
    ensures Pass(cmp, s[i..], k) == Merge(cmp, s[i..pe], s[pe..qe]) + Pass(cmp, s[qe..], k)
    ensures Merges(|s| - i, k) == 1 + Merges(|s| - qe, k)
  {
    hide Merge, Take, Drop;
    ChunkSlices(s, i, pe, k);
    ChunkSlices(s, pe, qe, k);
    assert s[i..] != [];
  }

  /** The body of a pass: the runs at `p` are measured and merged. */
  method MergeNext(cmp: Cmp, ghost ord: Ord, p: Entry, insize: nat, list0: Entry?, tail0: Entry?,
                   ghost s: seq<Entry>, ghost i: nat, ghost out0: seq<Entry>)
    returns (q: Entry?, list: Entry?, tail: Entry?, ghost out: seq<Entry>, ghost qe: nat)
    requires Agree(cmp, ord, Elems(s))
    requires i < |s| && p == s[i] && Unique(s) && insize > 0
    requires Built(out0, list0, tail0) && Left(s, i, i, i, out0) && Elems(out0) <= Elems(s)
    modifies Elems(s)`prev, Elems(s)`next
    ensures i < qe <= |s| && q == At(s, qe) && Left(s, qe, qe, qe, out) && Elems(out) <= Elems(s)
    ensures Built(out, list, tail)
    ensures out + Pass(ord, s[qe..], insize) == out0 + Pass(ord, s[i..], insize)
    ensures Merges(|s| - i, insize) == 1 + Merges(|s| - qe, insize)
  {
    hide Unique, Left, Merge, Pass, Merges, Built, Agree;
    LeftIsForward(s, i, out0);
    var psize, q0 := Walk(p, insize, s, i);
    LeftOfChunk(s, i, i + psize, out0);
    q, list, tail, out, qe := MergeRuns(cmp, ord, p, q0, psize, insize, list0, tail0, s, i, out0);
    NextChunk(ord, s, i, i + psize, qe, insize);
    Regroup(out0, Merge(ord, s[i..i + psize], s[i + psize..qe]), Pass(ord, s[qe..], insize));
  }

  lemma Regroup(a: seq<Entry>, b: seq<Entry>, c: seq<Entry>)
    ensures (a + b) + c == a + (b + c)
  {}

  /** One pass over the list. */
  method OnePass(cmp: Cmp, ghost ord: Ord, first: Entry?, insize: nat, ghost s: seq<Entry>)
    returns (list: Entry?, tail: Entry?, nmerges: nat, ghost out: seq<Entry>)
    requires Agree(cmp, ord, Elems(s))
    requires s != [] && first == s[0] && Forward(s, 0) && Unique(s) && insize > 0
    modifies Elems(s)`prev, Elems(s)`next
    ensures out == Pass(ord, s, insize) && nmerges == Merges(|s|, insize) && Elems(out) <= Elems(s) && out != []
    ensures Unique(out) && Ordered(out) && list == out[0] && tail == out[|out| - 1]
  {
    hide Unique, Left, Merge, Pass, Merges, Built, Agree;
    StartPass(s);
    list, tail, nmerges, out := AllMerges(cmp, ord, first, insize, s);
    BuiltEnds(out, list, tail);
    tail.next := null;
    BuiltIsOrdered(out);
  }

  method AllMerges(cmp: Cmp, ghost ord: Ord, first: Entry?, insize: nat, ghost s: seq<Entry>)
    returns (list: Entry?, tail: Entry?, nmerges: nat, ghost out: seq<Entry>)
    requires Agree(cmp, ord, Elems(s))
    requires s != [] && first == s[0] && Unique(s) && insize > 0
    requires Left(s, 0, 0, 0, []) && Built([], null, null)
    modifies Elems(s)`prev, Elems(s)`next
    ensures out == Pass(ord, s, insize) && nmerges == Merges(|s|, insize) && Elems(out) <= Elems(s) && out != []
    ensures Built(out, list, tail)
  {
    hide Unique, Left, Merge, Pass, Merges, Built, Agree;
    var p := first;
    list, tail, nmerges, out := null, null, 0, [];
    ghost var i: nat := 0;
    assert s[0..] == s;
    while p != null
      invariant i <= |s| && p == At(s, i) && Left(s, i, i, i, out) && Elems(out) <= Elems(s)
      invariant Built(out, list, tail)
      invariant out + Pass(ord, s[i..], insize) == Pass(ord, s, insize)
      invariant nmerges + Merges(|s| - i, insize) == Merges(|s|, insize)
      decreases |s| - i
    {
      nmerges := nmerges + 1;
      p, list, tail, out, i := MergeNext(cmp, ord, p, insize, list, tail, s, i, out);
    }
    PassDone(ord, s, i, insize, out);
  }

  lemma StartPass(s: seq<Entry>)
    requires Forward(s, 0)
    ensures Left(s, 0, 0, 0, []) && Built([], null, null)
  {}

  lemma PassDone(cmp: Ord, s: seq<Entry>, i: nat, k: nat, out: seq<Entry>)
    requires i == |s| && k > 0 && s != [] && out + Pass(cmp, s[i..], k) == Pass(cmp, s, k)
    ensures out == Pass(cmp, s, k) && out != [] && Merges(|s| - i, k) == 0
  {}

  lemma BuiltEnds(out: seq<Entry>, list: Entry?, tail: Entry?)
    requires Built(out, list, tail) && out != []
    ensures list == out[0] && tail == out[|out| - 1] && Unique(out)
    ensures forall j :: 0 <= j < |out| ==> out[j].prev == At(out, j - 1)
    ensures forall j :: 0 <= j < |out| - 1 ==> out[j].next == At(out, j + 1) && out[j] != tail
  {}

  lemma BuiltIsOrdered(out: seq<Entry>)
    requires forall j :: 0 <= j < |out| ==> out[j].prev == At(out, j - 1)
    requires forall j :: 0 <= j < |out| - 1 ==> out[j].next == At(out, j + 1)
    requires out != [] && out[|out| - 1].next == null
    ensures Ordered(out)
  {}

  // ---------- The whole sort ----------

  lemma OrderedIsForward(s: seq<Entry>)
    requires Ordered(s)
    ensures Forward(s, 0)
  {}

  lemma SortUnfolds(cmp: Ord, s: seq<Entry>, k: nat)
    requires k > 0
    ensures Sort(cmp, s, k) == if Merges(|s|, k) <= 1 then Pass(cmp, s, k) else Sort(cmp, Pass(cmp, s, k), 2 * k)
    ensures |Pass(cmp, s, k)| == |s|
  {}

  /** HASH_SRT: passes with doubled run length.  The run length is an unsigned word; for every list an unsigned
      item counter can count, the doubling does not wrap before the loop is left. */
  method SortList(cmp: Cmp, ghost ord: Ord, head: Entry, ghost s: seq<Entry>)
    returns (list: Entry, tail: Entry, ghost out: seq<Entry>)
    requires Agree(cmp, ord, Elems(s))
    requires s != [] && head == s[0] && Ordered(s) && Unique(s) && |s| <= 0x1_0000_0000
    modifies Elems(s)`prev, Elems(s)`next
    ensures out == Sort(ord, s, 1) && out != [] && Unique(out) && Ordered(out) && Elems(out) <= Elems(s)
    ensures list == out[0] && tail == out[|out| - 1]
  {
    hide Unique, Ordered, Pass, Sort, Merges, Forward, Agree;
    OrderedIsForward(s);
    var insize: nat, looping := 1, true;
    list, tail, out := head, head, s;
    while looping
      invariant out != [] && list == out[0] && |out| == |s| && Elems(out) <= Elems(s) && Unique(out) && Ordered(out)
      invariant looping ==> 0 < insize < 0x1_0000_0000 && Sort(ord, out, insize) == Sort(ord, s, 1)
      invariant !looping ==> out == Sort(ord, s, 1) && tail == out[|out| - 1]
      decreases if looping then if |s| <= 2 * insize then 1 else |s| - 2 * insize + 2 else 0
    {
      SortUnfolds(ord, out, insize);
      AgreeOnSubset(cmp, ord, Elems(out), Elems(s));
      OrderedIsForward(out);
      var l, t, nmerges;
      l, t, nmerges, out := OnePass(cmp, ord, list, insize, out);
      list, tail := l, t;
      MergesCount(|s|, insize);
      if nmerges <= 1 {
        looping := false;
      }
      insize := insize * 2 % 0x1_0000_0000;
    }
  }

  lemma MergesCount(n: nat, k: nat)
    requires k > 0
    ensures Merges(n, k) <= 1 <==> n <= 2 * k
  {}
}
