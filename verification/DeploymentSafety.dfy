/** What holds in every run of the shipped deployment. */
module DeploymentSafety {
  import opened Messages
  import opened Quorums
  import opened Acceptor
  import opened LearnerSpec
  import opened Submission
  import opened Deployment

  lemma PackedIsInjective(m: Message, n: Message)
    requires Packed(m) == Packed(n)
    ensures m == n
  {
    hide Packed, Unpacked;
    PackRoundTrip(m);
    PackRoundTrip(n);
  }

  // ---------- A batch at an acceptor that is still in round 0 ----------

  ghost predicate AllProposals(slots: seq<Pair>, msgs: seq<Message>) {
    |slots| <= 0x7fff_ffff &&
    forall k :: 0 <= k < |msgs| ==> msgs[k].inst < |slots| && msgs[k] == Proposal(slots, msgs[k].inst)
  }

  /** Everything is accepted, every reply is the acceptor's ballot, and every touched instance holds its value. */
  ghost predicate VotedAll(slots: seq<Pair>, a: nat, states: seq<AState>, msgs: seq<Message>, b: Batch)
    requires AllProposals(slots, msgs) && InRange(msgs, |states|) && a < MAX_ID
  {
    && |b.states| == |states| && |b.outs| == |b.accepted| == |msgs| && RoundZero(b.states)
    && (forall k :: 0 <= k < |msgs| ==> b.accepted[k] && b.outs[k] == Packed(Ballot(slots, msgs[k].inst, a)))
    && (forall k :: 0 <= k < |msgs| ==> b.states[msgs[k].inst].paxosval == Recorded(slots[msgs[k].inst].0))
    && (forall i :: 0 <= i < |states| ==>
          b.states[i] == states[i] || (i < |slots| && b.states[i].paxosval == Recorded(slots[i].0)))
    && Clean(slots, b.states)
  }

  lemma RoundZeroVote(slots: seq<Pair>, a: nat, s: AState, m: Message)
    requires |slots| <= 0x7fff_ffff && m.inst < |slots| && m == Proposal(slots, m.inst) && a < MAX_ID
    requires s.rnd == 0 && s.vrnd == 0
    requires s.paxosval == InitialAState.paxosval || s.paxosval == Recorded(slots[m.inst].0)
    ensures var r := Handle(a, s, m);
            && r.accepted && r.msg == Ballot(slots, m.inst, a) && r.state.rnd == 0 && r.state.vrnd == 0
            && r.state.paxosval == Recorded(slots[m.inst].0)
  {
    hide CStr, Recorded;
    FirstCopy(s.paxosval, slots[m.inst].0);
  }

  /** Copying a value over zeros or over the same value leaves what one vote for it leaves. */
  lemma FirstCopy(buf: Stored, b: Block)
    requires buf == InitialAState.paxosval || buf == Recorded(b)
    ensures StrCpy(buf, b) == Recorded(b)
  {
    hide CStr;
    var n := |CStr(b)|;
    assert buf[n + 1..] == Zeros(PAXOS_VALUE_SIZE - n);
  }

  lemma {:induction false} BatchIsVoted(slots: seq<Pair>, a: nat, states: seq<AState>, msgs: seq<Message>)
    requires AllProposals(slots, msgs) && InRange(msgs, |states|) && a < MAX_ID
      && RoundZero(states) && Clean(slots, states)
    ensures VotedAll(slots, a, states, msgs, RunBatch(a, states, msgs))
  {
    hide Handle, Packed, CStr, Ballot, VotedAll, RoundZero;
    if msgs == [] {
      NothingVoted(slots, a, states);
    } else {
      var n := |msgs| - 1;
      BatchIsVoted(slots, a, states, msgs[..n]);
      VotedOneMore(slots, a, states, msgs, RunBatch(a, states, msgs[..n]));
    }
  }

  lemma NothingVoted(slots: seq<Pair>, a: nat, states: seq<AState>)
    requires |slots| <= 0x7fff_ffff && a < MAX_ID && RoundZero(states) && Clean(slots, states)
    ensures VotedAll(slots, a, states, [], Batch(states, [], []))
  {}

  lemma VotedOneMore(slots: seq<Pair>, a: nat, states: seq<AState>, msgs: seq<Message>, b: Batch)
    requires AllProposals(slots, msgs) && InRange(msgs, |states|) && a < MAX_ID && msgs != []
    requires VotedAll(slots, a, states, msgs[..|msgs| - 1], b)
    ensures var m := msgs[|msgs| - 1];
            var r := Handle(a, b.states[m.inst], m);
            r.accepted && VotedAll(slots, a, states, msgs,
                                   Batch(b.states[m.inst := r.state], b.outs + [Packed(r.msg)], b.accepted + [true]))
  {
    hide Handle, Packed, CStr, Ballot, Proposal;
    var n := |msgs| - 1;
    RoundZeroVote(slots, a, b.states[msgs[n].inst], msgs[n]);
    assert forall k :: 0 <= k < n ==> msgs[..n][k] == msgs[k];
  }

  lemma {:induction false} AllAcceptedIsSent(outs: seq<Message>, accepted: seq<bool>)
    requires |outs| == |accepted| && forall k :: 0 <= k < |accepted| ==> accepted[k]
    ensures Replies(outs, accepted) == outs
  {
    if outs != [] {
      AllAcceptedIsSent(outs[..|outs| - 1], accepted[..|outs| - 1]);
    }
  }

  lemma ReceivedAreProposals(w: World, batch: seq<Message>)
    requires Numbered(w) && Received(batch, w.toAcceptors)
    ensures AllProposals(w.slots, UnpackAll(batch))
  {
    hide Packed, Unpacked;
    forall k | 0 <= k < |batch|
      ensures Unpacked(batch[k]).inst < |w.slots| && Unpacked(batch[k]) == Proposal(w.slots, Unpacked(batch[k]).inst)
    {
      var i: nat :| i < |w.slots| && batch[k] == Packed(Proposal(w.slots, i));
      PackRoundTrip(Proposal(w.slots, i));
    }
  }

  /** What is sent for a batch that has been accepted as a whole. */
  ghost predicate SentWhole(slots: seq<Pair>, a: nat, msgs: seq<Message>, out: Outcome) {
    && AllProposals(slots, msgs) && a < MAX_ID && !out.halted && |out.sent| == |msgs|
    && forall k :: 0 <= k < |msgs| ==> out.sent[k] == Packed(Ballot(slots, msgs[k].inst, a))
  }

  /** In the shipped deployment every batch is accepted as a whole, so the vector sent is what it is meant to
      be: the packed votes, in order. */
  lemma BatchesAreSentWhole(c: Config, w: World, a: nat, batch: seq<Message>)
    requires WellFormed(c) && Inv(c, w) && Enabled(c, w, Action.Accept(a, batch))
    requires InRange(UnpackAll(batch), c.maxinst)
    ensures SentWhole(w.slots, a, UnpackAll(batch), BatchOutcome(a, w.Acc(c, a).states, UnpackAll(batch)))
  {
    hide Packed, Unpacked, RunBatch, Numbered, BatchOutcome, Holds, Ballot;
    var msgs := UnpackAll(batch);
    var states := w.Acc(c, a).states;
    ReceivedAreProposals(w, batch);
    assert msgs[..|msgs|] == msgs;
    OutcomeOfProposals(w.slots, a, states, msgs, |msgs|);
  }

  lemma OutcomeOfProposals(slots: seq<Pair>, a: nat, states: seq<AState>, msgs: seq<Message>, n: nat)
    requires AllProposals(slots, msgs) && a < MAX_ID && RoundZero(states) && Clean(slots, states)
    requires n <= |msgs| && InRange(msgs[..n], |states|) && (n < |msgs| ==> msgs[n].inst >= |states|)
    ensures AllProposals(slots, msgs[..n]) && VotedAll(slots, a, states, msgs[..n], RunBatch(a, states, msgs[..n]))
    ensures BatchOutcome(a, states, msgs) ==
            Outcome(RunBatch(a, states, msgs[..n]).states,
                    if n < |msgs| then [] else RunBatch(a, states, msgs[..n]).outs, n < |msgs|)
  {
    hide Packed, RunBatch, BatchOutcome, Ballot, Proposal;
    BatchIsVoted(slots, a, states, msgs[..n]);
    var b := RunBatch(a, states, msgs[..n]);
    AllAcceptedIsSent(b.outs, b.accepted);
    OutcomeIs(a, states, msgs, n);
  }

  /** The header of a vote on the wire: the instance, round 0 in both fields, the acceptor, and type 4. */
  lemma BallotHeader(slots: seq<Pair>, i: nat, a: nat)
    requires i < |slots| <= 0x7fff_ffff && a < MAX_ID
    ensures Header(Packed(Ballot(slots, i, a))) == BigEndian32(i) + [0, 0] + [0, 0] + [0, a as byte] + [0, 4]
  {
    hide Header, Packed, BigEndian32, CStr;
    PackedHeader(Ballot(slots, i, a));
  }

  // ---------- Steps ----------

  lemma SlotsGrow(c: Config, slots: seq<Pair>, p: Pair, m: Message)
    requires |slots| < 0x7fff_ffff && IsBallot(c, slots, m)
    ensures IsBallot(c, slots + [p], m)
  {
    hide Packed;
    var i: nat, a: nat :| IsBallotOf(c, slots, m, i, a);
    assert Ballot(slots + [p], i, a) == Ballot(slots, i, a);
    assert IsBallotOf(c, slots + [p], m, i, a);
  }

  lemma PutKeeps(c: Config, w: World, b: Block, client: Address)
    requires Inv(c, w)
    ensures Inv(c, Put(w, b, client))
  {
    hide Packed, CStr, IsBallot, HandleAll;
    var t := Put(w, b, client);
    assert forall a: nat :: t.Acc(c, a) == w.Acc(c, a);
    forall l: nat
      ensures LearnerOk(c, t, t.Lrn(c, l))
    {
      assert LearnerOk(c, w, w.Lrn(c, l));
    }
    forall m | m in t.toCoordinator
      ensures exists p :: p in t.submitted && m == Packed(Stamped(0, p.0, p.1))
    {
      if m in w.toCoordinator {
        var p :| p in w.submitted && m == Packed(Stamped(0, p.0, p.1));
        assert p in t.submitted;
      } else {
        var p := (b, client);
        assert p in t.submitted && m == Packed(Stamped(0, p.0, p.1));
      }
    }
  }

  lemma NumberIsNumbered(c: Config, w: World, m: Message)
    requires Numbered(w) && Enabled(c, w, Number(m))
    ensures Numbered(Apply(c, w, Number(m)))
    ensures (m.paxosval, m.client) in w.submitted
  {
    hide Packed, CStr, Swap32, Proposal;
    var t := Apply(c, w, Number(m));
    var p :| p in w.submitted && m == Packed(Stamped(0, p.0, p.1));
    StampedProposal(w, m, p);
    forall x
      ensures x in t.toAcceptors <==> exists i: nat :: i < |t.slots| && x == Packed(Proposal(t.slots, i))
    {
      NumberedOneMore(w, t, p, x);
    }
  }

  lemma StampedProposal(w: World, m: Message, p: Pair)
    requires m == Packed(Stamped(0, p.0, p.1)) && |w.slots| == w.cur_inst < 0x7fff_ffff
    ensures p == (m.paxosval, m.client)
    ensures m.(inst := Swap32(w.cur_inst)) == Packed(Proposal(w.slots + [p], w.cur_inst))
  {
    hide Packed, CStr, Swap32;
    PackedValueIs(0, p.0, p.1);
    StampSetsInstance(w.cur_inst, p.0, p.1);
  }

  lemma NumberedOneMore(w: World, t: World, p: Pair, x: Message)
    requires Numbered(w) && |w.slots| < 0x7fff_ffff && t.slots == w.slots + [p]
    requires t.toAcceptors == w.toAcceptors + {Packed(Proposal(t.slots, |w.slots|))}
    ensures x in t.toAcceptors <==> exists i: nat :: i < |t.slots| && x == Packed(Proposal(t.slots, i))
  {
    hide Packed, CStr, Swap32;
    assert forall i: nat :: i < |w.slots| ==> Proposal(t.slots, i) == Proposal(w.slots, i);
    if x in w.toAcceptors {
      var i: nat :| i < |w.slots| && x == Packed(Proposal(w.slots, i));
      assert x == Packed(Proposal(t.slots, i));
    }
  }

  lemma NumberKeeps(c: Config, w: World, m: Message)
    requires WellFormed(c) && Inv(c, w) && Enabled(c, w, Number(m))
    ensures Inv(c, Apply(c, w, Number(m)))
  {
    hide Packed, CStr, Swap32, HandleAll, Ballot, RoundZero;
    NumberIsNumbered(c, w, m);
    var t := Apply(c, w, Number(m));
    forall x | x in t.toLearners
      ensures IsBallot(c, t.slots, x)
    {
      SlotsGrow(c, w.slots, (m.paxosval, m.client), x);
    }
    forall a | a in c.acceptors
      ensures |t.Acc(c, a).states| == c.maxinst && RoundZero(t.Acc(c, a).states)
      ensures Clean(t.slots, t.Acc(c, a).states) && Holds(t, a, t.Acc(c, a).states)
    {
      assert t.Acc(c, a) == w.Acc(c, a);
      NewSlotHasNoBallot(c, w, t, a, w.Acc(c, a).states);
    }
    forall l: nat
      ensures LearnerOk(c, t, t.Lrn(c, l))
    {
      assert LearnerOk(c, w, w.Lrn(c, l));
    }
  }

  lemma NewSlotHasNoBallot(c: Config, w: World, t: World, a: nat, states: seq<AState>)
    requires |w.slots| < 0x7fff_ffff && |t.slots| == |w.slots| + 1 && w.slots == t.slots[..|w.slots|]
    requires t.toLearners == w.toLearners && forall m :: m in w.toLearners ==> IsBallot(c, w.slots, m)
    requires Holds(w, a, states)
    ensures Holds(t, a, states)
  {
    hide Packed, CStr;
    forall i: nat | i < |t.slots| && i < |states| && a < MAX_ID && Packed(Ballot(t.slots, i, a)) in t.toLearners
      ensures states[i].paxosval == Recorded(t.slots[i].0)
    {
      var j: nat, b: nat :| IsBallotOf(c, w.slots, Packed(Ballot(t.slots, i, a)), j, b);
      PackedIsInjective(Ballot(t.slots, i, a), Ballot(w.slots, j, b));
      assert i == j;
      assert Ballot(t.slots, i, a) == Ballot(w.slots, i, a);
    }
  }

  /** What accepting a batch, also one that stops the acceptor, does to the states and puts on the wire. */
  lemma AcceptEffect(c: Config, w: World, a: nat, batch: seq<Message>)
    requires Inv(c, w) && Enabled(c, w, Action.Accept(a, batch))
    ensures var states := w.Acc(c, a).states;
            var out := BatchOutcome(a, states, UnpackAll(batch));
            && |out.states| == |states| && RoundZero(out.states) && Clean(w.slots, out.states)
            && Kept(w.slots, states, out.states)
            && Cast(c, w.slots, a, out.states, out.sent)
  {
    hide Packed, Unpacked, CStr, HandleAll, Ballot, BatchOutcome, RunBatch, Numbered, Holds, RoundZero, IsBallot;
    hide Kept, Cast, VotedAll, InRangePrefix, AllProposals;
    var states := w.Acc(c, a).states;
    var msgs := UnpackAll(batch);
    ReceivedAreProposals(w, batch);
    var n := InRangePrefix(msgs, |states|);
    OutcomeOfProposals(w.slots, a, states, msgs, n);
    VotedIsKeptAndCast(c, w.slots, a, states, msgs[..n], RunBatch(a, states, msgs[..n]));
  }

  lemma VotedIsKeptAndCast(c: Config, slots: seq<Pair>, a: nat, states: seq<AState>, msgs: seq<Message>, b: Batch)
    requires AllProposals(slots, msgs) && InRange(msgs, |states|) && a < MAX_ID && a in c.acceptors
    requires |states| == c.maxinst && VotedAll(slots, a, states, msgs, b)
    ensures RoundZero(b.states) && Clean(slots, b.states) && Kept(slots, states, b.states)
    ensures Cast(c, slots, a, b.states, b.outs) && Cast(c, slots, a, b.states, [])
  {
    hide Packed, CStr, Ballot, Proposal;
    forall k | 0 <= k < |b.outs|
      ensures IsCast(c, slots, a, b.states, b.outs[k])
    {
      assert IsCastFor(c, slots, a, b.states, b.outs[k], msgs[k].inst);
    }
  }

  /** Every state is untouched or holds the value of its instance. */
  ghost predicate Kept(slots: seq<Pair>, states: seq<AState>, after: seq<AState>) {
    |states| == |after| &&
    forall i :: 0 <= i < |states| ==>
      after[i] == states[i] || (i < |slots| && after[i].paxosval == Recorded(slots[i].0))
  }

  /** Everything sent is a ballot of `a` whose value `a` holds. */
  ghost predicate Cast(c: Config, slots: seq<Pair>, a: nat, states: seq<AState>, sent: seq<Message>) {
    |slots| <= 0x7fff_ffff && forall k :: 0 <= k < |sent| ==> IsCast(c, slots, a, states, sent[k])
  }

  ghost predicate IsCast(c: Config, slots: seq<Pair>, a: nat, states: seq<AState>, m: Message)
    requires |slots| <= 0x7fff_ffff
  {
    exists i: nat :: IsCastFor(c, slots, a, states, m, i)
  }

  ghost predicate IsCastFor(c: Config, slots: seq<Pair>, a: nat, states: seq<AState>, m: Message, i: nat)
    requires |slots| <= 0x7fff_ffff
  {
    IsBallotOf(c, slots, m, i, a) && i < |states| && states[i].paxosval == Recorded(slots[i].0)
  }

  lemma HoldsAfterOwnVotes(c: Config, w: World, t: World, a: nat, states: seq<AState>,
                           after: seq<AState>, sent: seq<Message>)
    requires |w.slots| <= 0x7fff_ffff && t.slots == w.slots && t.toLearners == w.toLearners + Elements(sent)
    requires Holds(w, a, states) && Kept(w.slots, states, after) && Cast(c, w.slots, a, after, sent)
    ensures Holds(t, a, after)
  {
    hide Packed, CStr, Ballot;
    forall i: nat | i < |t.slots| && i < |after| && a < MAX_ID && Packed(Ballot(t.slots, i, a)) in t.toLearners
      ensures after[i].paxosval == Recorded(t.slots[i].0)
    {
      if Packed(Ballot(t.slots, i, a)) !in w.toLearners {
        var k :| 0 <= k < |sent| && sent[k] == Packed(Ballot(t.slots, i, a));
        assert IsCast(c, w.slots, a, after, sent[k]);
        var j: nat :| IsCastFor(c, w.slots, a, after, sent[k], j);
        SameBallot(w.slots, i, a, j, a);
      }
    }
  }

  lemma SameBallot(slots: seq<Pair>, i: nat, a: nat, j: nat, b: nat)
    requires |slots| <= 0x7fff_ffff && i < |slots| && j < |slots| && a < MAX_ID && b < MAX_ID
    requires Packed(Ballot(slots, i, a)) == Packed(Ballot(slots, j, b))
    ensures i == j && a == b
  {
    PackedIsInjective(Ballot(slots, i, a), Ballot(slots, j, b));
  }

  lemma HoldsAfterOthersVotes(c: Config, w: World, t: World, a: nat, b: nat, states: seq<AState>,
                              after: seq<AState>, sent: seq<Message>)
    requires |w.slots| <= 0x7fff_ffff && t.slots == w.slots && t.toLearners == w.toLearners + Elements(sent)
    requires Holds(w, b, states) && Cast(c, w.slots, a, after, sent) && a != b
    ensures Holds(t, b, states)
  {
    hide Packed, CStr, Ballot;
    forall i: nat | i < |t.slots| && i < |states| && b < MAX_ID && Packed(Ballot(t.slots, i, b)) in t.toLearners
      ensures Packed(Ballot(t.slots, i, b)) in w.toLearners
    {
      if Packed(Ballot(t.slots, i, b)) !in w.toLearners {
        var k :| 0 <= k < |sent| && sent[k] == Packed(Ballot(t.slots, i, b));
        assert IsCast(c, w.slots, a, after, sent[k]);
        var j: nat :| IsCastFor(c, w.slots, a, after, sent[k], j);
        SameBallot(w.slots, i, b, j, a);
      }
    }
  }

  lemma AcceptKeeps(c: Config, w: World, a: nat, batch: seq<Message>)
    requires WellFormed(c) && Inv(c, w) && Enabled(c, w, Action.Accept(a, batch))
    ensures Inv(c, Apply(c, w, Action.Accept(a, batch)))
  {
    hide Packed, Unpacked, CStr, HandleAll, Ballot, BatchOutcome, Holds, RoundZero, Kept, IsBallotOf;
    AcceptEffect(c, w, a, batch);
    var t := Apply(c, w, Action.Accept(a, batch));
    var out := BatchOutcome(a, w.Acc(c, a).states, UnpackAll(batch));
    assert Numbered(t) by { NumberedStays(w, t); }
    forall b | b in c.acceptors
      ensures |t.Acc(c, b).states| == c.maxinst && RoundZero(t.Acc(c, b).states)
      ensures Clean(t.slots, t.Acc(c, b).states) && Holds(t, b, t.Acc(c, b).states)
    {
      if b == a {
        HoldsAfterOwnVotes(c, w, t, a, w.Acc(c, a).states, out.states, out.sent);
      } else {
        HoldsAfterOthersVotes(c, w, t, a, b, w.Acc(c, b).states, out.states, out.sent);
      }
    }
    forall m | m in t.toLearners
      ensures IsBallot(c, t.slots, m)
    {
      if m !in w.toLearners {
        var k :| 0 <= k < |out.sent| && out.sent[k] == m;
        assert IsCast(c, w.slots, a, out.states, out.sent[k]);
        var i: nat :| IsCastFor(c, w.slots, a, out.states, out.sent[k], i);
      }
    }
    LearnersStay(c, w, t);
  }

  lemma NumberedStays(w: World, t: World)
    requires Numbered(w) && t.slots == w.slots && t.cur_inst == w.cur_inst && t.submitted == w.submitted
    requires t.toCoordinator == w.toCoordinator && t.toAcceptors == w.toAcceptors
    ensures Numbered(t)
  {
    hide Packed;
  }

  lemma LearnersStay(c: Config, w: World, t: World)
    requires |w.slots| <= 0x7fff_ffff && t.slots == w.slots && w.toLearners <= t.toLearners && t.learners == w.learners
    requires forall l: nat :: LearnerOk(c, w, w.Lrn(c, l))
    ensures forall l: nat :: LearnerOk(c, t, t.Lrn(c, l))
  {
    hide Packed, HandleAll;
    forall l: nat
      ensures LearnerOk(c, t, t.Lrn(c, l))
    {
      assert LearnerOk(c, w, w.Lrn(c, l));
    }
  }

  // ---------- A learner's batch ----------

  lemma {:induction false} HandleAllConcat(maj: int, states: seq<LState>, xs: seq<Vote>, ys: seq<Vote>)
    requires InRange(xs, |states|) && InRange(ys, |states|) && InRange(xs + ys, |states|)
    ensures HandleAll(maj, states, xs + ys).states == HandleAll(maj, HandleAll(maj, states, xs).states, ys).states
    ensures HandleAll(maj, states, xs + ys).deliveries
         == HandleAll(maj, states, xs).deliveries + HandleAll(maj, HandleAll(maj, states, xs).states, ys).deliveries
  {
    hide HandleAll, HandleOne;
    var first := HandleAll(maj, states, xs);
    if ys == [] {
      assert xs + ys == xs;
      HandleNothing(maj, first.states);
    } else {
      var n := |ys| - 1;
      assert (xs + ys)[..|xs| + n] == xs + ys[..n] && (xs + ys)[..|xs| + n + 1] == xs + ys && ys[..n + 1] == ys;
      HandleAllConcat(maj, states, xs, ys[..n]);
      HandleAllAppend(maj, states, xs + ys, |xs| + n);
      HandleAllAppend(maj, first.states, ys, n);
      HandleOneAfter(maj, first.deliveries, HandleAll(maj, first.states, ys[..n]), ys[n]);
    }
  }

  lemma TakenAreSent(w: World, batch: seq<Message>, n: nat)
    requires Received(batch, w.toLearners) && Votes(batch) && n <= |batch|
    ensures forall k :: 0 <= k < n ==> Packed(AsVotes(batch)[..n][k]) in w.toLearners
  {
    hide Packed, Unpacked;
    forall k | 0 <= k < n
      ensures Packed(AsVotes(batch)[..n][k]) in w.toLearners
    {
      PackRoundTrip(batch[k]);
      assert batch[k] in w.toLearners;
    }
  }

  lemma LearnKeeps(c: Config, w: World, l: nat, batch: seq<Message>)
    requires WellFormed(c) && Inv(c, w) && Enabled(c, w, Action.Learn(l, batch))
    ensures Inv(c, Apply(c, w, Action.Learn(l, batch)))
  {
    hide Packed, Unpacked, HandleAll, Holds, RoundZero, IsBallot;
    var t := Apply(c, w, Action.Learn(l, batch));
    var v := w.Lrn(c, l);
    assert LearnerOk(c, w, v);
    var n := InRangePrefix(AsVotes(batch), |v.states|);
    assert Numbered(t) by { NumberedStays(w, t); }
    assert forall a: nat :: t.Acc(c, a) == w.Acc(c, a);
    AcceptorsStay(c, w, t);
    TakenAreSent(w, batch, n);
    HandleAllConcat(Majority(|c.acceptors|), LearnerSpec.InitialStates(c.maxinst), v.taken, AsVotes(batch)[..n]);
    forall k: nat
      ensures LearnerOk(c, t, t.Lrn(c, k))
    {
      if k != l {
        assert LearnerOk(c, w, w.Lrn(c, k));
      }
    }
  }

  lemma AcceptorsStay(c: Config, w: World, t: World)
    requires |w.slots| <= 0x7fff_ffff && AcceptorsOk(c, w)
    requires t.slots == w.slots && t.toLearners == w.toLearners && t.acceptors == w.acceptors
    ensures AcceptorsOk(c, t)
  {
    hide Packed, CStr, Ballot, RoundZero;
    forall a | a in c.acceptors
      ensures Holds(t, a, t.Acc(c, a).states)
    {
      assert Holds(w, a, w.Acc(c, a).states);
    }
  }

  lemma StepKeepsInv(c: Config, w: World, act: Action)
    requires WellFormed(c) && Inv(c, w) && Enabled(c, w, act)
    ensures Inv(c, Apply(c, w, act))
  {
    hide Inv, RequestBlock, Retimed, Put;
    match act
    case Submit(request, client) => PutKeeps(c, w, RequestBlock(request), client);
    case Retry(b, client, ts) => PutKeeps(c, w, Retimed(b, ts), client);
    case Number(m) => NumberKeeps(c, w, m);
    case Accept(a, batch) => AcceptKeeps(c, w, a, batch);
    case Learn(l, batch) => LearnKeeps(c, w, l, batch);
  }

  // ---------- Runs ----------

  ghost function Exec(c: Config, acts: seq<Action>): World
    requires IsRun(c, acts)
    decreases |acts|, 1
  {
    if acts == [] then InitialWorld else Apply(c, Exec(c, acts[..|acts| - 1]), acts[|acts| - 1])
  }

  ghost predicate IsRun(c: Config, acts: seq<Action>)
    decreases |acts|, 0
  {
    acts == [] || (IsRun(c, acts[..|acts| - 1]) && Enabled(c, Exec(c, acts[..|acts| - 1]), acts[|acts| - 1]))
  }

  lemma InitialInv(c: Config)
    ensures Inv(c, InitialWorld)
  {
    hide CStr, Packed;
  }

  lemma {:induction false} RunKeepsInv(c: Config, acts: seq<Action>)
    requires WellFormed(c) && IsRun(c, acts)
    ensures Inv(c, Exec(c, acts))
  {
    hide Inv, Enabled, Apply;
    if acts == [] {
      InitialInv(c);
    } else {
      var n := |acts| - 1;
      RunKeepsInv(c, acts[..n]);
      StepKeepsInv(c, Exec(c, acts[..n]), acts[n]);
    }
  }
}
