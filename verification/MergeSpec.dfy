/** Bottom-up merging of sequences under a comparison function. */
module MergeSpec {

  /** `cmp` is a total preorder on the elements of `s`. */
  ghost predicate Preorder<T>(cmp: (T, T) -> int, s: set<T>) {
    && (forall a, b :: a in s && b in s ==> cmp(a, b) <= 0 || cmp(b, a) <= 0)
    && (forall a, b, c :: a in s && b in s && c in s && cmp(a, b) <= 0 && cmp(b, c) <= 0 ==> cmp(a, c) <= 0)
  }

  ghost predicate Sorted<T>(cmp: (T, T) -> int, s: seq<T>) {
    forall i, j :: 0 <= i < j < |s| ==> cmp(s[i], s[j]) <= 0
  }

  /** The elements that compare equal to `x`, in order. */
  ghost function Class<T>(cmp: (T, T) -> int, s: seq<T>, x: T): seq<T> {
    if s == [] then []
    else if cmp(s[0], x) <= 0 && cmp(x, s[0]) <= 0 then [s[0]] + Class(cmp, s[1..], x)
    else Class(cmp, s[1..], x)
  }

  ghost function Range<T>(s: seq<T>): set<T> {
    set x | x in s
  }

  // ---------- Merging two runs ----------

  /** The left element goes first unless the right one is strictly smaller. */
  ghost function Merge<T>(cmp: (T, T) -> int, xs: seq<T>, ys: seq<T>): (r: seq<T>)
    ensures |r| == |xs| + |ys|
    decreases |xs| + |ys|
  {
    if xs == [] then ys
    else if ys == [] then xs
    else if cmp(xs[0], ys[0]) <= 0 then [xs[0]] + Merge(cmp, xs[1..], ys)
    else [ys[0]] + Merge(cmp, xs, ys[1..])
  }

  lemma {:induction false} MergeIsPermutation<T>(cmp: (T, T) -> int, xs: seq<T>, ys: seq<T>)
    ensures multiset(Merge(cmp, xs, ys)) == multiset(xs) + multiset(ys)
    decreases |xs| + |ys|
  {
    if xs != [] && ys != [] {
      assert xs == [xs[0]] + xs[1..] && ys == [ys[0]] + ys[1..];
      if cmp(xs[0], ys[0]) <= 0 {
        MergeIsPermutation(cmp, xs[1..], ys);
      } else {
        MergeIsPermutation(cmp, xs, ys[1..]);
      }
    } else {
      assert xs + ys == if xs == [] then ys else xs;
    }
  }

  lemma MergeMember<T>(cmp: (T, T) -> int, xs: seq<T>, ys: seq<T>, x: T)
    ensures x in Merge(cmp, xs, ys) <==> x in xs || x in ys
  {
    MergeIsPermutation(cmp, xs, ys);
    assert x in multiset(Merge(cmp, xs, ys)) <==> x in multiset(xs) || x in multiset(ys);
  }

  lemma SortedCons<T>(cmp: (T, T) -> int, x: T, s: seq<T>)
    requires Sorted(cmp, s) && forall y :: y in s ==> cmp(x, y) <= 0
    ensures Sorted(cmp, [x] + s)
  {}

  lemma {:induction false} MergeIsSorted<T>(cmp: (T, T) -> int, all: set<T>, xs: seq<T>, ys: seq<T>)
    requires Preorder(cmp, all) && Range(xs) <= all && Range(ys) <= all
    requires Sorted(cmp, xs) && Sorted(cmp, ys)
    ensures Sorted(cmp, Merge(cmp, xs, ys))
    decreases |xs| + |ys|
  {
    if xs != [] && ys != [] {
      assert xs[0] in Range(xs) && ys[0] in Range(ys);
      if cmp(xs[0], ys[0]) <= 0 {
        Tail(all, xs);
        MergeIsSorted(cmp, all, xs[1..], ys);
        HeadFirst(cmp, all, xs, ys, xs[0]);
        SortedCons(cmp, xs[0], Merge(cmp, xs[1..], ys));
      } else {
        Tail(all, ys);
        MergeIsSorted(cmp, all, xs, ys[1..]);
        HeadFirst(cmp, all, ys, xs, ys[0]);
        forall y | y in Merge(cmp, xs, ys[1..])
          ensures cmp(ys[0], y) <= 0
        {
          MergeMember(cmp, xs, ys[1..], y);
        }
        SortedCons(cmp, ys[0], Merge(cmp, xs, ys[1..]));
      }
    }
  }

  lemma Tail<T>(all: set<T>, s: seq<T>)
    requires s != [] && Range(s) <= all
    ensures Range(s[1..]) <= all
  {
    assert forall x :: x in s[1..] ==> x in s && x in Range(s);
  }

  /** The head of the run that wins is below everything that is left. */
  lemma HeadFirst<T>(cmp: (T, T) -> int, all: set<T>, xs: seq<T>, ys: seq<T>, x: T)
    requires Preorder(cmp, all) && Range(xs) <= all && Range(ys) <= all && Sorted(cmp, xs) && Sorted(cmp, ys)
    requires xs != [] && ys != [] && x == xs[0] && cmp(x, ys[0]) <= 0
    ensures forall y :: y in xs[1..] || y in ys ==> cmp(x, y) <= 0
    ensures forall y :: y in Merge(cmp, xs[1..], ys) ==> cmp(x, y) <= 0
  {
    assert x in Range(xs) && ys[0] in Range(ys);
    forall y | y in ys
      ensures cmp(x, y) <= 0
    {
      assert y in Range(ys);
      var i :| 0 <= i < |ys| && ys[i] == y;
      assert i == 0 || cmp(ys[0], ys[i]) <= 0;
    }
    forall y | y in Merge(cmp, xs[1..], ys)
      ensures cmp(x, y) <= 0
    {
      MergeMember(cmp, xs[1..], ys, y);
    }
  }

  lemma {:induction false} ClassOfConcat<T>(cmp: (T, T) -> int, s: seq<T>, t: seq<T>, x: T)
    ensures Class(cmp, s + t, x) == Class(cmp, s, x) + Class(cmp, t, x)
  {
    if s == [] {
      assert s + t == t;
    } else {
      assert (s + t)[1..] == s[1..] + t;
      ClassOfConcat(cmp, s[1..], t, x);
    }
  }

  /** A strictly smaller right head has no equals on the left. */
  lemma {:induction false} NoEquals<T>(cmp: (T, T) -> int, all: set<T>, xs: seq<T>, y: T, x: T)
    requires Preorder(cmp, all) && Range(xs) <= all && y in all && x in all && Sorted(cmp, xs)
    requires xs != [] && cmp(xs[0], y) > 0 && cmp(y, x) <= 0 && cmp(x, y) <= 0
    ensures Class(cmp, xs, x) == []
  {
    NothingBelow(cmp, all, xs, xs[0], y, x);
  }

  lemma {:induction false} NothingBelow<T>(cmp: (T, T) -> int, all: set<T>, s: seq<T>, h: T, y: T, x: T)
    requires Preorder(cmp, all) && Range(s) <= all && h in all && y in all && x in all
    requires forall z :: z in s ==> cmp(h, z) <= 0 || z == h
    requires cmp(h, y) > 0 && cmp(x, y) <= 0
    ensures Class(cmp, s, x) == []
  {
    if s != [] {
      Tail(all, s);
      assert s[0] in Range(s);
      NothingBelow(cmp, all, s[1..], h, y, x);
    }
  }

  lemma SortedTail<T>(cmp: (T, T) -> int, s: seq<T>)
    requires s != [] && Sorted(cmp, s)
    ensures Sorted(cmp, s[1..])
  {}

  lemma {:induction false} MergeIsStable<T>(cmp: (T, T) -> int, all: set<T>, xs: seq<T>, ys: seq<T>, x: T)
    requires Preorder(cmp, all) && Range(xs) <= all && Range(ys) <= all && x in all && Sorted(cmp, xs)
    ensures Class(cmp, Merge(cmp, xs, ys), x) == Class(cmp, xs, x) + Class(cmp, ys, x)
    decreases |xs| + |ys|
  {
    hide Preorder, Sorted;
    if xs != [] && ys != [] {
      assert xs[0] in Range(xs) && ys[0] in Range(ys);
      if cmp(xs[0], ys[0]) <= 0 {
        Tail(all, xs);
        SortedTail(cmp, xs);
        MergeIsStable(cmp, all, xs[1..], ys, x);
        ClassOfConcat(cmp, [xs[0]], Merge(cmp, xs[1..], ys), x);
        ClassOfConcat(cmp, [xs[0]], xs[1..], x);
        assert xs == [xs[0]] + xs[1..];
      } else {
        Tail(all, ys);
        MergeIsStable(cmp, all, xs, ys[1..], x);
        if cmp(ys[0], x) <= 0 && cmp(x, ys[0]) <= 0 {
          NoEquals(cmp, all, xs, ys[0], x);
        }
      }
    }
  }

  // ---------- One pass over runs of length k ----------

  ghost function Take<T>(s: seq<T>, k: nat): (r: seq<T>)
    ensures |r| == if k <= |s| then k else |s|
  {
    if k <= |s| then s[..k] else s
  }

  ghost function Drop<T>(s: seq<T>, k: nat): (r: seq<T>)
    ensures |r| == if k <= |s| then |s| - k else 0
    ensures Take(s, k) + r == s
  {
    if k <= |s| then s[k..] else []
  }

  /** Adjacent runs are merged pairwise. */
  ghost function Pass<T>(cmp: (T, T) -> int, s: seq<T>, k: nat): (r: seq<T>)
    requires k > 0
    ensures |r| == |s|
    decreases |s|
  {
    if s == [] then []
    else
      var rest := Drop(s, k);
      Merge(cmp, Take(s, k), Take(rest, k)) + Pass(cmp, Drop(rest, k), k)
  }

  /** How many merges a pass over `n` elements makes. */
  function Merges(n: nat, k: nat): (m: nat)
    requires k > 0
    ensures m <= 1 <==> n <= 2 * k
    ensures m == 0 <==> n == 0
    decreases n
  {
    if n == 0 then 0 else 1 + Merges(if n <= 2 * k then 0 else n - 2 * k, k)
  }

  /** Consecutive runs of length k are sorted, the last one possibly shorter. */
  ghost predicate Runs<T>(cmp: (T, T) -> int, s: seq<T>, k: nat)
    requires k > 0
    decreases |s|
  {
    s == [] || (Sorted(cmp, Take(s, k)) && Runs(cmp, Drop(s, k), k))
  }

  lemma RangeOfParts<T>(s: seq<T>, k: nat, all: set<T>)
    requires Range(s) <= all
    ensures Range(Take(s, k)) <= all && Range(Drop(s, k)) <= all
  {
    assert forall x :: x in Take(s, k) || x in Drop(s, k) ==> x in s && x in Range(s);
  }

  lemma {:induction false} PassIsPermutation<T>(cmp: (T, T) -> int, s: seq<T>, k: nat)
    requires k > 0
    ensures multiset(Pass(cmp, s, k)) == multiset(s)
    decreases |s|
  {
    if s != [] {
      var rest := Drop(s, k);
      MergeIsPermutation(cmp, Take(s, k), Take(rest, k));
      PassIsPermutation(cmp, Drop(rest, k), k);
      assert s == Take(s, k) + (Take(rest, k) + Drop(rest, k));
    }
  }

  lemma {:induction false} PassDoublesRuns<T>(cmp: (T, T) -> int, all: set<T>, s: seq<T>, k: nat)
    requires k > 0 && Preorder(cmp, all) && Range(s) <= all && Runs(cmp, s, k)
    ensures Runs(cmp, Pass(cmp, s, k), 2 * k)
    decreases |s|
  {
    hide Preorder, Sorted, Merge;
    if s != [] {
      var rest := Drop(s, k);
      RangeOfParts(s, k, all);
      RangeOfParts(rest, k, all);
      SortedNothing(cmp);
      MergeIsSorted(cmp, all, Take(s, k), Take(rest, k));
      PassDoublesRuns(cmp, all, Drop(rest, k), k);
      var m := Merge(cmp, Take(s, k), Take(rest, k));
      var p := Pass(cmp, Drop(rest, k), k);
      assert Take(m + p, 2 * k) == m && Drop(m + p, 2 * k) == p;
    }
  }

  lemma SortedNothing<T>(cmp: (T, T) -> int)
    ensures Sorted<T>(cmp, [])
  {}

  lemma {:induction false} PassIsStable<T>(cmp: (T, T) -> int, all: set<T>, s: seq<T>, k: nat, x: T)
    requires k > 0 && Preorder(cmp, all) && Range(s) <= all && x in all && Runs(cmp, s, k)
    ensures Class(cmp, Pass(cmp, s, k), x) == Class(cmp, s, x)
    decreases |s|
  {
    hide Preorder, Sorted, Merge, Class;
    if s != [] {
      var rest := Drop(s, k);
      RangeOfParts(s, k, all);
      RangeOfParts(rest, k, all);
      MergeIsStable(cmp, all, Take(s, k), Take(rest, k), x);
      PassIsStable(cmp, all, Drop(rest, k), k, x);
      ClassOfConcat(cmp, Merge(cmp, Take(s, k), Take(rest, k)), Pass(cmp, Drop(rest, k), k), x);
      ClassOfConcat(cmp, Take(s, k), rest, x);
      ClassOfConcat(cmp, Take(rest, k), Drop(rest, k), x);
    }
  }

  // ---------- The whole sort ----------

  /** Passes with doubled run length until a pass makes at most one merge. */
  ghost function Sort<T>(cmp: (T, T) -> int, s: seq<T>, k: nat): seq<T>
    requires k > 0
    decreases if |s| <= 2 * k then 0 else |s| - 2 * k + 1
  {
    var p := Pass(cmp, s, k);
    if Merges(|s|, k) <= 1 then p else Sort(cmp, p, 2 * k)
  }

  lemma {:induction false} SortIsPermutation<T>(cmp: (T, T) -> int, s: seq<T>, k: nat)
    requires k > 0
    ensures multiset(Sort(cmp, s, k)) == multiset(s)
    decreases if |s| <= 2 * k then 0 else |s| - 2 * k + 1
  {
    PassIsPermutation(cmp, s, k);
    if Merges(|s|, k) > 1 {
      SortIsPermutation(cmp, Pass(cmp, s, k), 2 * k);
    }
  }

  lemma PassRange<T>(cmp: (T, T) -> int, s: seq<T>, k: nat, all: set<T>)
    requires k > 0 && Range(s) <= all
    ensures Range(Pass(cmp, s, k)) <= all
  {
    PassIsPermutation(cmp, s, k);
    forall x | x in Pass(cmp, s, k)
      ensures x in all
    {
      assert x in multiset(s);
      assert x in Range(s);
    }
  }

  lemma {:induction false} SortIsSortedAndStable<T>(cmp: (T, T) -> int, all: set<T>, s: seq<T>, k: nat)
    requires k > 0 && Preorder(cmp, all) && Range(s) <= all && Runs(cmp, s, k)
    ensures Sorted(cmp, Sort(cmp, s, k))
    ensures forall x :: x in all ==> Class(cmp, Sort(cmp, s, k), x) == Class(cmp, s, x)
    decreases if |s| <= 2 * k then 0 else |s| - 2 * k + 1
  {
    hide Preorder, Class, Merge, Sorted;
    PassDoublesRuns(cmp, all, s, k);
    var p := Pass(cmp, s, k);
    forall x | x in all
      ensures Class(cmp, p, x) == Class(cmp, s, x)
    {
      PassIsStable(cmp, all, s, k, x);
    }
    if Merges(|s|, k) <= 1 {
      OneRunIsSorted(cmp, p, 2 * k);
    } else {
      PassRange(cmp, s, k, all);
      SortIsSortedAndStable(cmp, all, p, 2 * k);
    }
  }

  lemma OneRunIsSorted<T>(cmp: (T, T) -> int, s: seq<T>, k: nat)
    requires k > 0 && |s| <= k && Runs(cmp, s, k)
    ensures Sorted(cmp, s)
  {
    assert Take(s, k) == s;
  }

  lemma {:induction false} SinglesAreRuns<T>(cmp: (T, T) -> int, s: seq<T>)
    ensures Runs(cmp, s, 1)
    decreases |s|
  {
    if s != [] {
      SinglesAreRuns(cmp, Drop(s, 1));
    }
  }

  /** For every total preorder and every length, the bottom-up merge sort leaves a stable sorted permutation. */
  lemma SortIsCorrect<T>(cmp: (T, T) -> int, s: seq<T>)
    requires Preorder(cmp, Range(s))
    ensures Sorted(cmp, Sort(cmp, s, 1)) && multiset(Sort(cmp, s, 1)) == multiset(s)
    ensures forall x :: x in s ==> Class(cmp, Sort(cmp, s, 1), x) == Class(cmp, s, x)
  {
    SinglesAreRuns(cmp, s);
    SortIsPermutation(cmp, s, 1);
    SortIsSortedAndStable(cmp, Range(s), s, 1);
    assert forall x :: x in s ==> x in Range(s);
  }
}
