/** Majorities of acceptors, and the bit mask a learner keeps of those it has heard. */
module Quorums {
  import opened Bits

  // ---------- The majority ----------

  function Ceil(x: real): int {
    -((-x).Floor)
  }

  /** `learner_ctx_new`: half of `num_acceptors + 1`, in floating point, rounded up. */
  function Majority(num_acceptors: nat): int {
    Ceil((num_acceptors + 1) as real / 2.0)
  }

  /** The computed threshold is the least number of acceptors that outweighs the others, and there are that
      many acceptors. */
  lemma MajorityIsLeast(n: nat, m: int)
    requires n >= 1
    ensures 2 * m > n <==> m >= Majority(n)
    ensures 1 <= Majority(n) <= n
  {
    var h := (n + 1) as real / 2.0;
    assert Majority(n) as real - 1.0 < h <= Majority(n) as real;
    assert 2 * Majority(n) >= n + 1 && 2 * (Majority(n) - 1) < n + 1;
  }

  lemma {:induction false} SubsetSize<T>(a: set<T>, b: set<T>)
    requires a <= b
    ensures |a| <= |b|
  {
    assert b == a + (b - a);
  }

  /** Two majorities of the same acceptors have a member in common. */
  lemma MajoritiesMeet(all: set<nat>, a: set<nat>, b: set<nat>) returns (x: nat)
    requires all != {} && a <= all && b <= all
    requires |a| >= Majority(|all|) && |b| >= Majority(|all|)
    ensures x in a && x in b
  {
    MajorityIsLeast(|all|, |a|);
    MajorityIsLeast(|all|, |b|);
    if a * b == {} {
      assert |a + b| == |a| + |b|;
      SubsetSize(a + b, all);
    }
    x :| x in a * b;
  }

  /** With at most two acceptors every majority is everybody. */
  lemma SmallMajorityIsAll(all: set<nat>, a: set<nat>)
    requires all != {} && |all| <= 2 && a <= all && |a| >= Majority(|all|)
    ensures a == all
  {
    MajorityIsLeast(|all|, |a|);
    assert |all| == |a| + |all - a|;
  }

  // ---------- The mask ----------

  /** `1 << acptid` is an int: ids stay below its sign bit. */
  const MAX_ID: nat := 31

  function Mask(id: nat): nat {
    Pow2(id)
  }

  /** The acceptors whose bit is set. */
  function Heard(from: nat): (ids: set<nat>)
    ensures forall id :: 0 <= id < MAX_ID ==> (id in ids <==> And(from, Mask(id)) != 0)
  {
    set id | 0 <= id < MAX_ID && And(from, Mask(id)) != 0
  }

  lemma NoneHeard()
    ensures Heard(0) == {}
  {}

  /** Or-ing in an acceptor's mask adds exactly that acceptor. */
  lemma HeardAfterOr(from: nat, id: nat)
    requires id < MAX_ID
    ensures Heard(Or(from, Mask(id))) == Heard(from) + {id}
  {
    forall j: nat | j < MAX_ID
      ensures And(Or(from, Mask(id)), Mask(j)) != 0 <==> And(from, Mask(j)) != 0 || j == id
    {
      AndPow2(Or(from, Mask(id)), j);
      AndPow2(from, j);
      BitOfOr(from, Mask(id), j);
      BitOfPow2(id, j);
    }
  }
}
