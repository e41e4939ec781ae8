/** The guarantees of the shipped deployment, over every run. */
module DeploymentResults {
  import opened Messages
  import opened Quorums
  import opened Acceptor
  import opened LearnerSpec
  import opened Submission
  import opened Deployment
  import opened DeploymentSafety

  /** The instance numbers on the acceptors' hop are exactly those below the counter, one datagram for each, and
      every one of them is an untouched submission. */
  lemma InstancesAreNumberedOnce(c: Config, acts: seq<Action>)
    requires WellFormed(c) && IsRun(c, acts)
    ensures forall i: nat :: Used(Exec(c, acts), i) <==> i < Exec(c, acts).cur_inst
    ensures forall i: nat, m, n :: Carries(Exec(c, acts), m, i) && Carries(Exec(c, acts), n, i) ==> m == n
    ensures forall i: nat, m :: Carries(Exec(c, acts), m, i) ==> (m.paxosval, m.client) in Exec(c, acts).submitted
  {
    hide Inv, Exec, IsRun, Packed, Unpacked;
    RunKeepsInv(c, acts);
    var w := Exec(c, acts);
    assert Numbered(w) by { InvNumbered(c, w); }
    forall i: nat, m | Carries(w, m, i)
      ensures i < w.cur_inst && m == Packed(Proposal(w.slots, i)) && (m.paxosval, m.client) in w.submitted
    {
      var j: nat :| j < |w.slots| && m == Packed(Proposal(w.slots, j));
      PackRoundTrip(Proposal(w.slots, j));
      PackedValueIs(j, w.slots[j].0, w.slots[j].1);
    }
    forall i: nat
      ensures i < w.cur_inst ==> Used(w, i)
    {
      if i < w.cur_inst {
        PackRoundTrip(Proposal(w.slots, i));
        assert Carries(w, Packed(Proposal(w.slots, i)), i);
      }
    }
  }

  /** A datagram for instance `i` has gone out to the acceptors. */
  ghost predicate Carries(w: World, m: Message, i: nat) {
    m in w.toAcceptors && Unpacked(m).inst == i
  }

  ghost predicate Used(w: World, i: nat) {
    exists m :: Carries(w, m, i)
  }

  lemma InvNumbered(c: Config, w: World)
    requires Inv(c, w)
    ensures Numbered(w)
  {}

  /** No phase 1b ever exists: everything sent to learners is a round-0 vote of an acceptor. */
  lemma OnlyRoundZeroVotes(c: Config, acts: seq<Action>, m: Message)
    requires WellFormed(c) && IsRun(c, acts) && m in Exec(c, acts).toLearners
    ensures Unpacked(m).msgtype == PHASE2B && Unpacked(m).rnd == 0 && Unpacked(m).acptid in c.acceptors
  {
    hide Exec, IsRun, Packed, Unpacked;
    RunKeepsInv(c, acts);
    var w := Exec(c, acts);
    assert IsBallot(c, w.slots, m);
    var i: nat, a: nat :| IsBallotOf(c, w.slots, m, i, a);
    PackRoundTrip(Ballot(w.slots, i, a));
  }

  /** Every vote a learner has handled is the ballot of the instance's one pair. */
  lemma TakenIsBallot(c: Config, w: World, l: nat, k: nat) returns (a: nat)
    requires Inv(c, w) && k < |w.Lrn(c, l).taken|
    ensures a in c.acceptors && a < MAX_ID && w.Lrn(c, l).taken[k].inst < |w.slots| <= 0x7fff_ffff
    ensures w.Lrn(c, l).taken[k] == Ballot(w.slots, w.Lrn(c, l).taken[k].inst, a)
  {
    hide Packed, Unpacked, HandleAll;
    var m := w.Lrn(c, l).taken[k];
    assert LearnerOk(c, w, w.Lrn(c, l));
    assert IsBallot(c, w.slots, Packed(m));
    var i: nat, b: nat :| IsBallotOf(c, w.slots, Packed(m), i, b);
    PackedIsInjective(m, Ballot(w.slots, i, b));
    a := b;
  }

  /** What a learner delivers for an instance is the pair the coordinator put there. */
  lemma DeliveryIsSlot(c: Config, w: World, l: nat, k: nat)
    requires WellFormed(c) && Inv(c, w) && k < |w.Lrn(c, l).deliveries|
    ensures var d := w.Lrn(c, l).deliveries[k];
            d.inst < |w.slots| && (d.value, d.client) == w.slots[d.inst] && w.slots[d.inst] in w.submitted
  {
    hide Packed, HandleAll, Accounts, IsBallot;
    var v := w.Lrn(c, l);
    var d := v.deliveries[k];
    assert LearnerOk(c, w, v);
    DeliveriesAccount(Majority(|c.acceptors|), c.maxinst, v.taken);
    assert DeliveredFrom(v.taken, d) by { AccountsDelivered(v.taken, Handled(v.states, v.deliveries), k); }
    var j :| 0 <= j < |v.taken| && d == Delivery(v.taken[j].inst, v.taken[j].paxosval, v.taken[j].client);
    var a := TakenIsBallot(c, w, l, j);
  }

  lemma AccountsDelivered(msgs: seq<Vote>, h: Handled, k: nat)
    requires Accounts(msgs, h) && k < |h.deliveries|
    ensures DeliveredFrom(msgs, h.deliveries[k])
  {}

  /** Agreement and validity: two deliveries for one instance, by any learners, are the same value for the same
      client, and some proposer submitted the two together.  No learner delivers an instance twice. */
  lemma DeliveriesAgree(c: Config, acts: seq<Action>, l: nat, j: nat, n: nat, k: nat)
    requires WellFormed(c) && IsRun(c, acts)
    requires j < |Exec(c, acts).Lrn(c, l).deliveries| && k < |Exec(c, acts).Lrn(c, n).deliveries|
    requires Exec(c, acts).Lrn(c, l).deliveries[j].inst == Exec(c, acts).Lrn(c, n).deliveries[k].inst
    ensures Exec(c, acts).Lrn(c, l).deliveries[j] == Exec(c, acts).Lrn(c, n).deliveries[k]
    ensures var d := Exec(c, acts).Lrn(c, l).deliveries[j];
            (d.value, d.client) in Exec(c, acts).submitted && d.inst < Exec(c, acts).cur_inst
    ensures l == n ==> j == k
  {
    hide Inv, Exec, IsRun, HandleAll;
    RunKeepsInv(c, acts);
    var w := Exec(c, acts);
    InvNumbered(c, w);
    DeliveryIsSlot(c, w, l, j);
    DeliveryIsSlot(c, w, n, k);
    TakenInRange(c, w, l);
    DeliveriesAccount(Majority(|c.acceptors|), c.maxinst, w.Lrn(c, l).taken);
  }

  lemma TakenInRange(c: Config, w: World, l: nat)
    requires Inv(c, w)
    ensures InRange(w.Lrn(c, l).taken, c.maxinst)
    ensures HandleAll(Majority(|c.acceptors|), LearnerSpec.InitialStates(c.maxinst), w.Lrn(c, l).taken)
         == Handled(w.Lrn(c, l).states, w.Lrn(c, l).deliveries)
  {
    hide HandleAll;
    assert LearnerOk(c, w, w.Lrn(c, l));
  }

  /** Every submitted value ends in a NUL. */
  lemma {:induction false} SubmittedAreClosed(c: Config, acts: seq<Action>)
    requires IsRun(c, acts)
    ensures forall p :: p in Exec(c, acts).submitted ==> Closed(p.0)
  {
    hide Closed, CStr, Packed, BatchOutcome, HandleAll, InRangePrefix;
    if acts != [] {
      SubmittedAreClosed(c, acts[..|acts| - 1]);
    }
  }

  /** So does every delivered one: every string an application reads in it ends inside it. */
  lemma DeliveredIsClosed(c: Config, acts: seq<Action>, l: nat, k: nat)
    requires WellFormed(c) && IsRun(c, acts) && k < |Exec(c, acts).Lrn(c, l).deliveries|
    ensures Closed(Exec(c, acts).Lrn(c, l).deliveries[k].value)
  {
    hide Inv, Exec, IsRun, HandleAll, Closed;
    RunKeepsInv(c, acts);
    SubmittedAreClosed(c, acts);
    DeliveryIsSlot(c, Exec(c, acts), l, k);
  }

  // ---------- When an instance is delivered ----------

  lemma {:induction false} InstanceVotes(msgs: seq<Vote>, i: nat, k: nat)
    requires k < |OfInstance(msgs, i)|
    ensures exists j :: 0 <= j < |msgs| && msgs[j] == OfInstance(msgs, i)[k] && msgs[j].inst == i
  {
    var n := |msgs| - 1;
    if k < |OfInstance(msgs[..n], i)| {
      InstanceVotes(msgs[..n], i, k);
      var j :| 0 <= j < n && msgs[..n][j] == OfInstance(msgs[..n], i)[k] && msgs[..n][j].inst == i;
      assert msgs[j] == OfInstance(msgs, i)[k];
    } else {
      assert msgs[n] == OfInstance(msgs, i)[k];
    }
  }

  /** A learner has delivered an instance exactly when the votes it has handled for it come from a majority of
      the acceptors, in whatever order and however often they arrived. */
  lemma DeliveredIffMajority(c: Config, acts: seq<Action>, l: nat, i: nat)
    requires WellFormed(c) && IsRun(c, acts) && i < c.maxinst
    ensures (exists k :: 0 <= k < |Exec(c, acts).Lrn(c, l).deliveries|
                      && Exec(c, acts).Lrn(c, l).deliveries[k].inst == i)
       <==> |HeardIn(OfInstance(Exec(c, acts).Lrn(c, l).taken, i), 0)| >= Majority(|c.acceptors|)
  {
    hide Inv, Exec, IsRun, HandleAll, HeardIn, Run, Majority;
    RunKeepsInv(c, acts);
    var w := Exec(c, acts);
    var v := w.Lrn(c, l);
    var maj := Majority(|c.acceptors|);
    TakenInRange(c, w, l);
    InstancesAreIndependent(maj, c.maxinst, v.taken, i);
    MajorityIsLeast(|c.acceptors|, 0);
    AllTakenRoundZero(c, w, l, i);
    RoundZeroIsASetOfVotes(maj, OfInstance(v.taken, i));
    DeliveriesAccount(maj, c.maxinst, v.taken);
  }

  lemma AllTakenRoundZero(c: Config, w: World, l: nat, i: nat)
    requires Inv(c, w)
    ensures AllRoundZero(OfInstance(w.Lrn(c, l).taken, i))
  {
    hide Inv, OfInstance;
    var h := OfInstance(w.Lrn(c, l).taken, i);
    forall k | 0 <= k < |h|
      ensures h[k].rnd == 0
    {
      InstanceVotes(w.Lrn(c, l).taken, i, k);
      var j :| 0 <= j < |w.Lrn(c, l).taken| && w.Lrn(c, l).taken[j] == h[k];
      var a := TakenIsBallot(c, w, l, j);
    }
  }

  /** A majority of the acceptors holds the string at the front of a delivered value, followed by zeros. */
  lemma DeliveredIsStored(c: Config, acts: seq<Action>, l: nat, k: nat) returns (q: set<nat>)
    requires WellFormed(c) && IsRun(c, acts) && k < |Exec(c, acts).Lrn(c, l).deliveries|
    ensures q <= c.acceptors && |q| >= Majority(|c.acceptors|)
    ensures forall a :: a in q ==> Stores(c, Exec(c, acts), a, Exec(c, acts).Lrn(c, l).deliveries[k])
  {
    hide Inv, Exec, IsRun, HandleAll, HeardIn, Majority, Stores, OfInstance;
    RunKeepsInv(c, acts);
    var w := Exec(c, acts);
    var v := w.Lrn(c, l);
    var d := v.deliveries[k];
    TakenInRange(c, w, l);
    DeliveriesAccount(Majority(|c.acceptors|), c.maxinst, v.taken);
    DeliveredIffMajority(c, acts, l, d.inst);
    DeliveryIsSlot(c, w, l, k);
    q := HeardIn(OfInstance(v.taken, d.inst), 0);
    forall a | a in q
      ensures a in c.acceptors && Stores(c, w, a, d)
    {
      HeardIsStored(c, w, l, d, a);
    }
  }

  ghost predicate Stores(c: Config, w: World, a: nat, d: Delivery) {
    d.inst < |w.Acc(c, a).states| && w.Acc(c, a).states[d.inst].paxosval == Recorded(d.value)
  }

  /** What is behind the first NUL of a delivered value no acceptor holds: each has a zero wherever the value has
      another byte there. */
  lemma TailIsLost(c: Config, acts: seq<Action>, a: nat, l: nat, k: nat, j: nat)
    requires WellFormed(c) && IsRun(c, acts) && a in c.acceptors && k < |Exec(c, acts).Lrn(c, l).deliveries|
    requires |CStr(Exec(c, acts).Lrn(c, l).deliveries[k].value)| <= j < PAXOS_VALUE_SIZE
    ensures var d := Exec(c, acts).Lrn(c, l).deliveries[k];
            d.inst < |Exec(c, acts).Acc(c, a).states| && Exec(c, acts).Acc(c, a).states[d.inst].paxosval[j] == 0
  {
    hide Inv, Exec, IsRun, HandleAll, CStr;
    RunKeepsInv(c, acts);
    var w := Exec(c, acts);
    TakenInRange(c, w, l);
    DeliveriesAccount(Majority(|c.acceptors|), c.maxinst, w.Lrn(c, l).taken);
    DeliveryIsSlot(c, w, l, k);
    AcceptorIsClean(c, w, a);
  }

  lemma AcceptorIsClean(c: Config, w: World, a: nat)
    requires Inv(c, w) && a in c.acceptors
    ensures |w.Acc(c, a).states| == c.maxinst && Clean(w.slots, w.Acc(c, a).states)
  {}

  /** A request of the sort the shipped client sends: the number 1 as a four-byte integer, then an operation.  Of its
      block an acceptor that has voted keeps the first byte only. */
  lemma BinaryRequest(op: byte)
    requires op != 0
    ensures var b := RequestBlock([1, 0, 0, 0, op]); CStr(b) == [1] && b[4] == op && Recorded(b)[4] == 0
  {
    var request := [1, 0, 0, 0, op];
    var b := RequestBlock(request);
    assert b[..5] == request;
    assert b[0] == b[..5][0] && b[1] == b[..5][1] && b[4] == b[..5][4];
    assert b == [1] + [0] + b[2..];
    CStrOfPrefix([1], b[2..]);
  }

  lemma HeardIsStored(c: Config, w: World, l: nat, d: Delivery, a: nat)
    requires Inv(c, w) && d.inst < |w.slots| && d.inst < c.maxinst && d.value == w.slots[d.inst].0
    requires a in HeardIn(OfInstance(w.Lrn(c, l).taken, d.inst), 0)
    ensures a in c.acceptors && Stores(c, w, a, d)
  {
    hide Packed, CStr, HandleAll, OfInstance, RoundZero;
    var taken := w.Lrn(c, l).taken;
    var h := OfInstance(taken, d.inst);
    var k :| 0 <= k < |h| && h[k].rnd == 0 && h[k].acptid == a;
    InstanceVotes(taken, d.inst, k);
    var j :| 0 <= j < |taken| && taken[j] == h[k] && taken[j].inst == d.inst;
    var b := TakenIsBallot(c, w, l, j);
    assert LearnerOk(c, w, w.Lrn(c, l));
    assert Packed(Ballot(w.slots, d.inst, a)) in w.toLearners;
    assert Holds(w, a, w.Acc(c, a).states);
  }

  // ---------- Buffers behind the key pointers ----------

  lemma DeliveriesOnlyGrow(c: Config, w: World, act: Action, l: nat)
    requires Enabled(c, w, act)
    ensures w.Lrn(c, l).deliveries <= Apply(c, w, act).Lrn(c, l).deliveries
  {
    hide BatchOutcome, HandleAll, RequestBlock, Retimed, InRangePrefix, Packed, Unpacked;
  }

  lemma {:induction false} DeliveriesStay(c: Config, acts: seq<Action>, n: nat, l: nat)
    requires IsRun(c, acts) && n <= |acts|
    ensures IsRun(c, acts[..n]) && Exec(c, acts[..n]).Lrn(c, l).deliveries <= Exec(c, acts).Lrn(c, l).deliveries
    decreases |acts|
  {
    hide Enabled, Apply;
    if n == |acts| {
      assert acts[..n] == acts;
    } else {
      var k := |acts| - 1;
      assert acts[..k][..n] == acts[..n];
      DeliveriesStay(c, acts[..k], n, l);
      DeliveriesOnlyGrow(c, Exec(c, acts[..k]), acts[k], l);
    }
  }

  /** Whatever happens after a delivery, the learner's buffer of that instance keeps every byte it had when the
      application was called, so a key pointer the application took into it still denotes the same key. */
  lemma DeliveredBuffersStay(c: Config, acts: seq<Action>, n: nat, l: nat, k: nat)
    requires WellFormed(c) && IsRun(c, acts) && n <= |acts| && IsRun(c, acts[..n])
    requires k < |Exec(c, acts[..n]).Lrn(c, l).deliveries|
    ensures var d := Exec(c, acts[..n]).Lrn(c, l).deliveries[k];
            && d.inst < |Exec(c, acts).Lrn(c, l).states|
            && Exec(c, acts).Lrn(c, l).states[d.inst].paxosval == d.value
  {
    hide Inv, Exec, IsRun, HandleAll, DeliveredFrom;
    DeliveriesStay(c, acts, n, l);
    RunKeepsInv(c, acts);
    TakenInRange(c, Exec(c, acts), l);
    DeliveriesAccount(Majority(|c.acceptors|), c.maxinst, Exec(c, acts).Lrn(c, l).taken);
    assert Exec(c, acts).Lrn(c, l).deliveries[k] == Exec(c, acts[..n]).Lrn(c, l).deliveries[k];
  }
}
