/** The shipped deployment can deliver: for every configuration and every request there is a run that does. */
module DeploymentRun {
  import opened Messages
  import opened Quorums
  import opened Acceptor
  import opened LearnerSpec
  import opened Submission
  import opened Deployment
  import opened DeploymentSafety
  import opened DeploymentResults

  ghost predicate Reaches(c: Config, w: World) {
    exists acts :: IsRun(c, acts) && Exec(c, acts) == w
  }

  lemma Step(c: Config, w: World, act: Action)
    requires Reaches(c, w) && Enabled(c, w, act)
    ensures Reaches(c, Apply(c, w, act))
  {
    hide Enabled, Apply;
    var acts :| IsRun(c, acts) && Exec(c, acts) == w;
    var more := acts + [act];
    assert more[..|more| - 1] == acts;
    assert Exec(c, more) == Apply(c, w, act);
  }

  lemma ReachedInv(c: Config, w: World)
    requires WellFormed(c) && Reaches(c, w)
    ensures Inv(c, w)
  {
    hide Inv;
    var acts :| IsRun(c, acts) && Exec(c, acts) == w;
    RunKeepsInv(c, acts);
  }

  /** The value and the client of instance 0, on its way to the acceptors. */
  ghost predicate Offered(w: World) {
    |w.slots| == 1 && Packed(Proposal(w.slots, 0)) in w.toAcceptors
  }

  lemma SubmitAndNumber(c: Config, request: seq<byte>, client: Address) returns (w: World)
    requires |request| < PAXOS_VALUE_SIZE
    ensures Reaches(c, w) && Offered(w) && w.slots == [(RequestBlock(request), client)]
    ensures w.acceptors == map[] && w.learners == map[]
  {
    hide CStr, RequestBlock, Packed;
    assert Reaches(c, InitialWorld) by {
      assert IsRun(c, []) && Exec(c, []) == InitialWorld;
    }
    hide Reaches;
    var b := RequestBlock(request);
    var u := Apply(c, InitialWorld, Submit(request, client));
    Step(c, InitialWorld, Submit(request, client));
    var m := Packed(Stamped(0, b, client));
    PackedValueIs(0, b, client);
    StampSetsInstance(0, b, client);
    Step(c, u, Number(m));
    w := Apply(c, u, Number(m));
  }

  /** Acceptor `a`, which has done nothing yet, votes. */
  lemma VoteOne(c: Config, w: World, a: nat) returns (t: World)
    requires WellFormed(c) && c.maxinst > 0 && Reaches(c, w) && Offered(w) && a in c.acceptors && a !in w.acceptors
    ensures Reaches(c, t) && Offered(t) && t.slots == w.slots && t.learners == w.learners
    ensures forall b :: b in t.acceptors ==> b == a || b in w.acceptors
    ensures w.toLearners <= t.toLearners && Packed(Ballot(t.slots, 0, a)) in t.toLearners
  {
    hide CStr, Packed, Unpacked, Reaches, BatchOutcome, Inv, Ballot;
    var batch := [Packed(Proposal(w.slots, 0))];
    PackRoundTrip(Proposal(w.slots, 0));
    var act := Action.Accept(a, batch);
    ReachedInv(c, w);
    BatchesAreSentWhole(c, w, a, batch);
    Step(c, w, act);
    t := Apply(c, w, act);
    var out := BatchOutcome(a, w.Acc(c, a).states, UnpackAll(batch));
    assert out.sent[0] in Elements(out.sent);
  }

  lemma {:induction false} VoteAll(c: Config, w: World, who: set<nat>) returns (t: World)
    requires WellFormed(c) && c.maxinst > 0 && Reaches(c, w) && Offered(w) && who <= c.acceptors
    requires w.acceptors == map[]
    ensures Reaches(c, t) && Offered(t) && t.slots == w.slots && t.learners == w.learners
    ensures forall b :: b in t.acceptors ==> b in who
    ensures forall a :: a in who ==> a < MAX_ID && Packed(Ballot(t.slots, 0, a)) in t.toLearners
  {
    hide Reaches, Packed, Offered;
    if who == {} {
      t := w;
    } else {
      var a :| a in who;
      var u := VoteAll(c, w, who - {a});
      OneSlot(u);
      t := VoteOne(c, u, a);
    }
  }

  lemma OneSlot(w: World)
    requires Offered(w)
    ensures |w.slots| == 1
  {}

  /** Learner 0 handles the vote of acceptor `a`. */
  lemma LearnOne(c: Config, w: World, a: nat) returns (t: World)
    requires WellFormed(c) && c.maxinst > 0 && Reaches(c, w) && |w.slots| == 1 && a < MAX_ID
    requires Packed(Ballot(w.slots, 0, a)) in w.toLearners && !w.Lrn(c, 0).stopped
    ensures Reaches(c, t) && t.slots == w.slots && t.toLearners == w.toLearners && !t.Lrn(c, 0).stopped
    ensures t.Lrn(c, 0).taken == w.Lrn(c, 0).taken + [Ballot(w.slots, 0, a)]
  {
    hide CStr, Packed, Unpacked, Reaches, HandleAll, InRangePrefix;
    var m := Ballot(w.slots, 0, a);
    var batch := [Packed(m)];
    PackRoundTrip(m);
    ReachedInv(c, w);
    assert LearnerOk(c, w, w.Lrn(c, 0));
    var msgs := UnpackAll(batch);
    assert msgs == [m];
    InRangePrefixIs(msgs, |w.Lrn(c, 0).states|, 1);
    assert AsVotes(batch)[..1] == [m];
    Step(c, w, Action.Learn(0, batch));
    t := Apply(c, w, Action.Learn(0, batch));
  }

  lemma {:induction false} LearnAll(c: Config, w: World, who: set<nat>) returns (t: World)
    requires WellFormed(c) && c.maxinst > 0 && Reaches(c, w) && |w.slots| == 1 && w.learners == map[]
    requires forall a :: a in who ==> a < MAX_ID && Packed(Ballot(w.slots, 0, a)) in w.toLearners
    ensures Reaches(c, t) && t.slots == w.slots && t.toLearners == w.toLearners && !t.Lrn(c, 0).stopped
    ensures forall a :: a in who ==> Ballot(t.slots, 0, a) in t.Lrn(c, 0).taken
  {
    hide Reaches, Packed;
    if who == {} {
      t := w;
    } else {
      var a :| a in who;
      var u := LearnAll(c, w, who - {a});
      t := LearnOne(c, u, a);
    }
  }

  lemma {:induction false} AmongInstance(msgs: seq<Vote>, i: nat, m: Vote)
    requires m in msgs && m.inst == i
    ensures m in OfInstance(msgs, i)
  {
    var n := |msgs| - 1;
    if m in msgs[..n] {
      AmongInstance(msgs[..n], i, m);
    } else {
      assert m == msgs[n];
    }
  }

  /** Whatever the configuration, any request can be delivered to its client. */
  lemma CanDeliver(c: Config, request: seq<byte>, client: Address) returns (acts: seq<Action>)
    requires WellFormed(c) && c.maxinst > 0 && |request| < PAXOS_VALUE_SIZE
    ensures IsRun(c, acts) && Delivery(0, RequestBlock(request), client) in Exec(c, acts).Lrn(c, 0).deliveries
  {
    hide Packed, RequestBlock, HandleAll, OfInstance, HeardIn, Majority, Inv, Exec, IsRun;
    var w := SubmitAndNumber(c, request, client);
    w := VoteAll(c, w, c.acceptors);
    OneSlot(w);
    w := LearnAll(c, w, c.acceptors);
    acts :| IsRun(c, acts) && Exec(c, acts) == w;
    var h := OfInstance(w.Lrn(c, 0).taken, 0);
    forall a | a in c.acceptors
      ensures a in HeardIn(h, 0)
    {
      var m := Ballot(w.slots, 0, a);
      AmongInstance(w.Lrn(c, 0).taken, 0, m);
      HeardOne(h, m);
    }
    SubsetSize(c.acceptors, HeardIn(h, 0));
    MajorityIsLeast(|c.acceptors|, |c.acceptors|);
    DeliveredIffMajority(c, acts, 0, 0);
    var k :| 0 <= k < |w.Lrn(c, 0).deliveries| && w.Lrn(c, 0).deliveries[k].inst == 0;
    ReachedInv(c, w);
    DeliveryIsSlot(c, w, 0, k);
  }

  lemma HeardOne(h: seq<Vote>, m: Vote)
    requires m in h
    ensures m.acptid in HeardIn(h, m.rnd)
  {
    var k :| 0 <= k < |h| && h[k] == m;
  }
}
