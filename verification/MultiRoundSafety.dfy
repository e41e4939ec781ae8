/** The inductive invariant of the multi-round protocol, and what follows for every run. */
module MultiRoundSafety {
  import opened Messages
  import opened Quorums
  import opened Acceptor
  import opened LearnerSpec
  import opened Bits
  import opened MultiRound

  // ---------- Chosen values ----------

  lemma VotesGrow(net: set<Message>, m: Message)
    ensures m.msgtype != PHASE2B ==> Votes(net + {m}) == Votes(net)
    ensures m.msgtype == PHASE2B ==> Votes(net + {m}) == Votes(net) + {V(m.inst, m.acptid, m.rnd, CStr(m.paxosval))}
  {}

  lemma VoteIsProposed(c: Config, net: set<Message>, x: V)
    requires Shape(c, net) && x in Votes(net)
    ensures Proposed(net, x.inst, x.rnd, x.val) && x.acptid in c.acceptors
  {
    var m :| m in net && m.msgtype == PHASE2B && x == V(m.inst, m.acptid, m.rnd, CStr(m.paxosval));
    var p :| Voucher(net, p, m);
  }

  lemma OneValuePerRound(net: set<Message>, i: nat, r: nat, v: seq<byte>, w: seq<byte>)
    requires OneValue(net) && Proposed(net, i, r, v) && Proposed(net, i, r, w)
    ensures v == w
  {}

  lemma VotersAreAcceptors(c: Config, net: set<Message>, i: nat, r: nat, v: seq<byte>)
    requires Shape(c, net)
    ensures Voters(Votes(net), i, r, v) <= c.acceptors
  {
    hide Votes;
    forall x | x in Votes(net)
      ensures x.acptid in c.acceptors
    {
      VoteIsProposed(c, net, x);
    }
  }

  lemma VoterVoted(votes: set<V>, i: nat, r: nat, v: seq<byte>, a: nat)
    requires a in Voters(votes, i, r, v)
    ensures V(i, a, r, v) in votes
  {}

  /** Once a value is chosen, every proposal of a higher round is for that value. */
  lemma {:induction false} ChosenIsKept(c: Config, s: Sys, i: nat, r: nat, v: seq<byte>, r': nat, v': seq<byte>)
    requires WellFormed(c) && Sound(c) && Shape(c, s.net) && OneValue(s.net) && ProposalsOk(c, s)
    requires Chosen(c, s, i, r, v) && Proposed(s.net, i, r', v') && r < r'
    ensures v == v'
    decreases r'
  {
    hide Votes, Proposed, Voters, Shape, OneValue, Majority;
    var votes := Votes(s.net);
    assert Justified(c, s, i, r', v') by { ProposalJustified(c, s, i, r', v'); }
    var q :| Justifies(c, s, q, i, r', v');
    VotersAreAcceptors(c, s.net, i, r, v);
    var x := MajoritiesMeet(c.acceptors, q, Voters(votes, i, r, v));
    VoterVoted(votes, i, r, v, x);
    var a: nat, k: nat :| a in q && LastVoteBelow(votes, i, a, r', k, v')
      && (|c.acceptors| <= 2 || forall b :: b in q ==> NoVoteIn(votes, i, b, k + 1, r'));
    if |c.acceptors| <= 2 {
      SmallMajorityIsAll(c.acceptors, Voters(votes, i, r, v));
      VoterVoted(votes, i, r, v, a);
    }
    VoteIsProposed(c, s.net, V(i, a, k, v'));
    if k == r {
      VoteIsProposed(c, s.net, V(i, x, r, v));
      OneValuePerRound(s.net, i, r, v, v');
    } else {
      ChosenIsKept(c, s, i, r, v, k, v');
    }
  }

  lemma ProposalJustified(c: Config, s: Sys, i: nat, r: nat, v: seq<byte>)
    requires ProposalsOk(c, s) && Proposed(s.net, i, r, v)
    ensures Justified(c, s, i, r, v)
  {}

  lemma ChosenIsProposed(c: Config, s: Sys, i: nat, r: nat, v: seq<byte>)
    requires WellFormed(c) && Shape(c, s.net) && Chosen(c, s, i, r, v)
    ensures Proposed(s.net, i, r, v)
  {
    hide Votes, Proposed, Shape;
    MajorityIsLeast(|c.acceptors|, 1);
    var a :| a in Voters(Votes(s.net), i, r, v);
    VoterVoted(Votes(s.net), i, r, v, a);
    VoteIsProposed(c, s.net, V(i, a, r, v));
  }

  /** At most one value is ever chosen for an instance, over all rounds. */
  lemma ChosenIsUnique(c: Config, s: Sys, i: nat, r: nat, v: seq<byte>, r': nat, v': seq<byte>)
    requires WellFormed(c) && Sound(c) && Inv(c, s) && Chosen(c, s, i, r, v) && Chosen(c, s, i, r', v')
    ensures v == v'
  {
    hide Chosen, Shape, OneValue, ProposalsOk;
    ChosenIsProposed(c, s, i, r, v);
    ChosenIsProposed(c, s, i, r', v');
    if r < r' {
      ChosenIsKept(c, s, i, r, v, r', v');
    } else if r' < r {
      ChosenIsKept(c, s, i, r', v', r, v);
    } else {
      OneValuePerRound(s.net, i, r, v, v');
    }
  }

  // ---------- What a step leaves true ----------

  /** The network and the rounds only grow, and new votes are never below a round left behind. */
  ghost predicate Extends(s: Sys, t: Sys) {
    && s.net <= t.net
    && (forall a: nat, i: nat :: s.AccOf(a, i).rnd <= t.AccOf(a, i).rnd)
    && Votes(s.net) <= Votes(t.net)
    && (forall x :: x in Votes(t.net) && x !in Votes(s.net) ==> s.AccOf(x.acptid, x.inst).rnd <= x.rnd)
  }

  lemma NoVoteStays(s: Sys, t: Sys, i: nat, a: nat, lo: nat, hi: nat)
    requires Extends(s, t) && hi <= s.AccOf(a, i).rnd && NoVoteIn(Votes(s.net), i, a, lo, hi)
    ensures NoVoteIn(Votes(t.net), i, a, lo, hi)
  {}

  lemma PromiseStays(c: Config, s: Sys, t: Sys, p: Message)
    requires Extends(s, t) && PromiseOk(c, s, p)
    ensures PromiseOk(c, t, p)
  {
    hide Votes, NoVoteIn, CStr;
    if HasVote(p) {
      var k: nat :| LastVoteBelow(Votes(s.net), p.inst, p.acptid, p.rnd, k, CStr(p.paxosval))
        && (c.report == LastVote ==> p.vrnd == k);
      NoVoteStays(s, t, p.inst, p.acptid, k + 1, p.rnd);
      assert LastVoteBelow(Votes(t.net), p.inst, p.acptid, p.rnd, k, CStr(p.paxosval));
    } else {
      NoVoteStays(s, t, p.inst, p.acptid, 0, p.rnd);
    }
  }

  lemma JustificationStays(c: Config, s: Sys, t: Sys, i: nat, r: nat, v: seq<byte>)
    requires Extends(s, t) && Justified(c, s, i, r, v)
    ensures Justified(c, t, i, r, v)
  {
    hide Justifies, Extends;
    if Sound(c) {
      var q :| Justifies(c, s, q, i, r, v);
      JustifierStays(c, s, t, q, i, r, v);
    }
  }

  lemma JustifierStays(c: Config, s: Sys, t: Sys, q: set<nat>, i: nat, r: nat, v: seq<byte>)
    requires Extends(s, t) && Justifies(c, s, q, i, r, v)
    ensures Justifies(c, t, q, i, r, v)
  {
    hide Votes, NoVoteIn, Quorum;
    forall a, lo: nat | a in q && NoVoteIn(Votes(s.net), i, a, lo, r)
      ensures NoVoteIn(Votes(t.net), i, a, lo, r)
    {
      NoVoteStays(s, t, i, a, lo, r);
    }
    if a: nat, k: nat :| a in q && LastVoteBelow(Votes(s.net), i, a, r, k, v)
                         && (|c.acceptors| <= 2 || forall b :: b in q ==> NoVoteIn(Votes(s.net), i, b, k + 1, r)) {
      assert LastVoteBelow(Votes(t.net), i, a, r, k, v);
    }
  }

  lemma LearnerStays(c: Config, net: set<Message>, more: set<Message>, i: nat, st: LState)
    requires LearnerOk(c, net, i, st) && net <= more
    ensures LearnerOk(c, more, i, st)
  {
    var counted :| Backed(net, i, st, counted);
    assert Backed(more, i, st, counted);
  }

  /** Everything said about messages already sent, and about learners, survives a step of the others. */
  lemma OldStays(c: Config, s: Sys, t: Sys)
    requires Inv(c, s) && Extends(s, t) && s.lrn == t.lrn
    ensures forall p :: p in s.net && p.msgtype == PHASE1B ==> PromiseOk(c, t, p)
    ensures forall m :: m in s.net && m.msgtype == PHASE2A ==> Justified(c, t, m.inst, m.rnd, CStr(m.paxosval))
    ensures LearnersOk(c, t)
  {
    hide Extends, PromiseOk, Justified, LearnerOk, Shape, OneValue, AcceptorsOk, CStr;
    forall p | p in s.net && p.msgtype == PHASE1B
      ensures PromiseOk(c, t, p)
    {
      PromiseStays(c, s, t, p);
    }
    forall m | m in s.net && m.msgtype == PHASE2A
      ensures Justified(c, t, m.inst, m.rnd, CStr(m.paxosval))
    {
      JustificationStays(c, s, t, m.inst, m.rnd, CStr(m.paxosval));
    }
    forall l, i | 0 <= l && 0 <= i
      ensures LearnerOk(c, t.net, i, t.LrnOf(l, i))
    {
      assert s.net <= t.net by { NetGrows(s, t); }
      assert LearnerOk(c, s.net, i, s.LrnOf(l, i));
      LearnerStays(c, s.net, t.net, i, s.LrnOf(l, i));
    }
  }

  lemma NetGrows(s: Sys, t: Sys)
    requires Extends(s, t)
    ensures s.net <= t.net
  {}

  lemma ShapeGrows(c: Config, net: set<Message>, m: Message, p: Message)
    requires Shape(c, net) && m.inst < c.maxinst
    requires m.msgtype in {PHASE1B, PHASE2B} ==> m.acptid in c.acceptors
    requires m.msgtype == PHASE2A ==> HasVote(m)
    requires m.msgtype == PHASE2B ==> Voucher(net, p, m)
    ensures Shape(c, net + {m})
  {
    hide HasVote;
    forall x | x in net && x.msgtype == PHASE2B
      ensures exists y :: Voucher(net + {m}, y, x)
    {
      var y :| Voucher(net, y, x);
      assert Voucher(net + {m}, y, x);
    }
    if m.msgtype == PHASE2B {
      assert Voucher(net + {m}, p, m);
    }
  }

  /** A proposer's message, of either kind. */
  lemma SendKeeps(c: Config, s: Sys, m: Message)
    requires WellFormed(c) && Inv(c, s) && m.inst < c.maxinst && m.msgtype in {PHASE1A, PHASE2A}
    requires m.msgtype == PHASE2A ==> HasVote(m) && Justified(c, s, m.inst, m.rnd, CStr(m.paxosval))
    requires m.msgtype == PHASE2A ==>
               forall q :: q in s.net && q.msgtype == PHASE2A && q.inst == m.inst && q.rnd == m.rnd ==>
                 q.paxosval == m.paxosval
    ensures Inv(c, s.(net := s.net + {m}))
  {
    hide Votes, Shape, Justified, PromiseOk, LearnerOk, Remembers, CStr, NoVoteIn;
    var t := s.(net := s.net + {m});
    VotesGrow(s.net, m);
    ShapeGrows(c, s.net, m, m);
    OldStays(c, s, t);
    if m.msgtype == PHASE2A {
      JustificationStays(c, s, t, m.inst, m.rnd, CStr(m.paxosval));
    }
    AcceptorsStay(c, s, t);
  }

  lemma AcceptorsStay(c: Config, s: Sys, t: Sys)
    requires AcceptorsOk(c, s) && Votes(s.net) == Votes(t.net) && s.acc == t.acc
    ensures AcceptorsOk(c, t)
  {
    hide Votes, Remembers;
    forall a, i | a in c.acceptors && 0 <= i
      ensures Remembers(Votes(t.net), i, a, t.AccOf(a, i))
    {
      assert Remembers(Votes(s.net), i, a, s.AccOf(a, i));
    }
  }

  // ---------- A majority of promises justifies a proposal ----------

  /** The promise whose last vote is the latest of all. */
  lemma {:induction false} LatestPromise(c: Config, s: Sys, ps: set<Message>) returns (p: Message, k: nat)
    requires PromisesOk(c, s) && ps <= s.net && forall q :: q in ps ==> q.msgtype == PHASE1B && HasVote(q)
    requires ps != {}
    ensures p in ps && LastVoteBelow(Votes(s.net), p.inst, p.acptid, p.rnd, k, CStr(p.paxosval))
    ensures forall q :: q in ps ==> NoVoteIn(Votes(s.net), q.inst, q.acptid, k + 1, q.rnd)
  {
    hide Votes, NoVoteIn, HasVote, CStr;
    var q :| q in ps;
    assert PromiseOk(c, s, q);
    var j: nat :| LastVoteBelow(Votes(s.net), q.inst, q.acptid, q.rnd, j, CStr(q.paxosval));
    p, k := q, j;
    assert ps == {q} + (ps - {q});
    if ps - {q} == {} {
      assert ps == {q};
    } else {
      p, k := LatestPromise(c, s, ps - {q});
      if k < j {
        forall x | x in ps - {q}
          ensures NoVoteIn(Votes(s.net), x.inst, x.acptid, j + 1, x.rnd)
        {
          NoVoteNarrows(Votes(s.net), x.inst, x.acptid, k + 1, j + 1, x.rnd);
        }
        p, k := q, j;
      } else {
        NoVoteNarrows(Votes(s.net), q.inst, q.acptid, j + 1, k + 1, q.rnd);
      }
    }
  }

  lemma NoVoteNarrows(votes: set<V>, i: nat, a: nat, lo: nat, lo': nat, hi: nat)
    requires NoVoteIn(votes, i, a, lo, hi) && lo <= lo'
    ensures NoVoteIn(votes, i, a, lo', hi)
  {}

  lemma PromiseOfMember(c: Config, s: Sys, ps: set<Message>, i: nat, r: nat, a: nat) returns (p: Message)
    requires PromisesOk(c, s) && PromisedByMajority(c, s.net, ps, i, r) && a in Senders(ps)
    ensures p in ps && p.acptid == a && p.inst == i && p.rnd == r && PromiseOk(c, s, p)
  {
    p :| p in ps && p.acptid == a;
  }

  /** The majority that promised, with nothing to report. */
  lemma SilentMajority(c: Config, s: Sys, ps: set<Message>, i: nat, r: nat, v: seq<byte>)
    requires Inv(c, s) && PromisedByMajority(c, s.net, ps, i, r)
    requires forall p :: p in ps ==> !HasVote(p)
    ensures Justified(c, s, i, r, v)
  {
    hide Votes, NoVoteIn, HasVote, Quorum;
    var q := Senders(ps);
    SendersAreAcceptors(c, s, ps, i, r);
    forall a | a in q
      ensures s.AccOf(a, i).rnd >= r && NoVoteIn(Votes(s.net), i, a, 0, r)
    {
      var p := PromiseOfMember(c, s, ps, i, r, a);
    }
    assert Justifies(c, s, q, i, r, v);
  }

  lemma SendersAreAcceptors(c: Config, s: Sys, ps: set<Message>, i: nat, r: nat)
    requires Shape(c, s.net) && PromisedByMajority(c, s.net, ps, i, r)
    ensures Senders(ps) <= c.acceptors && |Senders(ps)| >= Quorum(c)
  {}

  /** The majority that promised, where the vote behind promise `p` is the latest or everybody has promised. */
  lemma SpokenMajority(c: Config, s: Sys, ps: set<Message>, i: nat, r: nat, p: Message, k: nat)
    requires Inv(c, s) && PromisedByMajority(c, s.net, ps, i, r) && p in ps
    requires LastVoteBelow(Votes(s.net), i, p.acptid, r, k, CStr(p.paxosval))
    requires |c.acceptors| <= 2 ||
             forall q :: q in ps && HasVote(q) ==> NoVoteIn(Votes(s.net), i, q.acptid, k + 1, r)
    ensures Justified(c, s, i, r, CStr(p.paxosval))
  {
    hide Votes, NoVoteIn, HasVote, Quorum, CStr, LastVoteBelow;
    var q := Senders(ps);
    SendersAreAcceptors(c, s, ps, i, r);
    forall a | a in q
      ensures s.AccOf(a, i).rnd >= r
      ensures |c.acceptors| <= 2 || NoVoteIn(Votes(s.net), i, a, k + 1, r)
    {
      var x := PromiseOfMember(c, s, ps, i, r, a);
      if !HasVote(x) {
        NoVoteNarrows(Votes(s.net), i, a, 0, k + 1, r);
      }
    }
    assert p.acptid in q;
    assert Justifies(c, s, q, i, r, CStr(p.paxosval));
  }

  lemma ProposalIsJustified(c: Config, s: Sys, m: Message, ps: set<Message>)
    requires WellFormed(c) && Inv(c, s) && Enabled(c, s, Propose(m, ps))
    ensures Justified(c, s, m.inst, m.rnd, CStr(m.paxosval))
  {
    hide Votes, NoVoteIn, HasVote, CStr, Shape, OneValue;
    var i, r, v := m.inst, m.rnd, CStr(m.paxosval);
    if r == 0 {
      NothingBelowZero(c, s, i, v);
    } else if forall p :: p in ps ==> !HasVote(p) {
      SilentMajority(c, s, ps, i, r, v);
    } else if !Sound(c) {
    } else if c.rule == Unanimous {
      var spoken := set p | p in ps && HasVote(p);
      var p0 :| p0 in ps && HasVote(p0);
      assert p0 in spoken;
      var p, k := LatestPromise(c, s, spoken);
      SpokenMajority(c, s, ps, i, r, p, k);
    } else {
      var p :| p in ps && HasVote(p) && CStr(p.paxosval) == v && forall q :: q in ps && HasVote(q) ==> q.vrnd <= p.vrnd;
      HighestIsLatest(c, s, ps, i, r, p);
    }
  }

  /** Under honest reports, or with everybody promising, the highest report leads to a safe value. */
  lemma HighestIsLatest(c: Config, s: Sys, ps: set<Message>, i: nat, r: nat, p: Message)
    requires Inv(c, s) && PromisedByMajority(c, s.net, ps, i, r) && p in ps && HasVote(p)
    requires c.report == LastVote || |c.acceptors| <= 2
    requires forall q :: q in ps && HasVote(q) ==> q.vrnd <= p.vrnd
    ensures Justified(c, s, i, r, CStr(p.paxosval))
  {
    hide Votes, NoVoteIn, HasVote, CStr, Shape, OneValue, Justified;
    assert PromiseOk(c, s, p);
    var k: nat :| LastVoteBelow(Votes(s.net), i, p.acptid, r, k, CStr(p.paxosval))
      && (c.report == LastVote ==> p.vrnd == k);
    if c.report == LastVote {
      forall q | q in ps && HasVote(q)
        ensures NoVoteIn(Votes(s.net), i, q.acptid, k + 1, r)
      {
        assert PromiseOk(c, s, q);
        var j: nat :| LastVoteBelow(Votes(s.net), i, q.acptid, r, j, CStr(q.paxosval)) && q.vrnd == j;
        NoVoteNarrows(Votes(s.net), i, q.acptid, j + 1, k + 1, r);
      }
    }
    SpokenMajority(c, s, ps, i, r, p, k);
  }

  lemma NothingBelowZero(c: Config, s: Sys, i: nat, v: seq<byte>)
    requires WellFormed(c)
    ensures Justified(c, s, i, 0, v)
  {
    hide Votes;
    MajorityIsLeast(|c.acceptors|, 1);
    assert Justifies(c, s, c.acceptors, i, 0, v);
  }

  // ---------- An acceptor's answer ----------

  lemma AnswerKeeps(c: Config, s: Sys, a: nat, m: Message)
    requires WellFormed(c) && Inv(c, s) && Enabled(c, s, Answer(a, m))
    ensures Inv(c, Apply(c, s, Answer(a, m)))
  {
    hide Handle, CStr, Inv;
    var st := s.AccOf(a, m.inst);
    var r := ReplyOf(c, a, st, m);
    assert st.vrnd <= st.rnd && m.inst < c.maxinst by { AcceptorFacts(c, s, a, m); }
    HandleKeeps(a, st, m);
    if !r.accepted {
      RefusalKeeps(c, s, a, m.inst);
    } else if r.msg.msgtype == PHASE1B {
      PromiseKeeps(c, s, a, st, r.msg);
    } else {
      VoteKeeps(c, s, a, m, r.state, r.msg);
    }
  }

  lemma AcceptorFacts(c: Config, s: Sys, a: nat, m: Message)
    requires Inv(c, s) && a in c.acceptors && m in s.net
    ensures Remembers(Votes(s.net), m.inst, a, s.AccOf(a, m.inst)) && m.inst < c.maxinst
  {}

  lemma RefusalKeeps(c: Config, s: Sys, a: nat, i: nat)
    requires Inv(c, s)
    ensures Inv(c, s.(acc := s.acc[(a, i) := s.AccOf(a, i)]))
  {
    hide Votes, Shape, Remembers, LearnerOk, CStr, Justifies;
    var t := s.(acc := s.acc[(a, i) := s.AccOf(a, i)]);
    assert forall b: nat, j: nat :: t.AccOf(b, j) == s.AccOf(b, j);
    OldStays(c, s, t);
    forall b, j | b in c.acceptors && 0 <= j
      ensures Remembers(Votes(t.net), j, b, t.AccOf(b, j))
    {
      assert Remembers(Votes(s.net), j, b, s.AccOf(b, j));
    }
  }

  lemma PromiseKeeps(c: Config, s: Sys, a: nat, st: AState, p: Message)
    requires WellFormed(c) && Inv(c, s) && a in c.acceptors && p.inst < c.maxinst && st == s.AccOf(a, p.inst)
    requires p.msgtype == PHASE1B && p.acptid == a && st.rnd < p.rnd
    requires CStr(p.paxosval) == CStr(st.paxosval) && (c.report == LastVote ==> p.vrnd == st.vrnd)
    ensures Inv(c, s.(acc := s.acc[(a, p.inst) := st.(rnd := p.rnd)], net := s.net + {p}))
  {
    hide Votes, Shape, LearnerOk, CStr, Justifies;
    var t := s.(acc := s.acc[(a, p.inst) := st.(rnd := p.rnd)], net := s.net + {p});
    VotesGrow(s.net, p);
    ShapeGrows(c, s.net, p, p);
    assert Remembers(Votes(s.net), p.inst, a, st);
    OldStays(c, s, t);
    assert HasVote(p) ==> LastVoteBelow(Votes(t.net), p.inst, a, p.rnd, st.vrnd, CStr(p.paxosval));
    assert PromiseOk(c, t, p);
    forall b, j | b in c.acceptors && 0 <= j
      ensures Remembers(Votes(t.net), j, b, t.AccOf(b, j))
    {
      assert Remembers(Votes(s.net), j, b, s.AccOf(b, j));
    }
  }

  lemma VoteKeeps(c: Config, s: Sys, a: nat, m: Message, st: AState, v: Message)
    requires WellFormed(c) && Inv(c, s) && a in c.acceptors && m in s.net && m.msgtype == PHASE2A
    requires v.msgtype == PHASE2B && v.acptid == a && v.inst == m.inst && v.rnd == m.rnd && v.paxosval == m.paxosval
    requires s.AccOf(a, m.inst).rnd <= m.rnd
    requires st.rnd == st.vrnd == m.rnd && CStr(st.paxosval) == CStr(m.paxosval)
    ensures Inv(c, s.(acc := s.acc[(a, m.inst) := st], net := s.net + {v}))
  {
    hide Votes, LearnerOk, CStr, Justifies;
    var t := s.(acc := s.acc[(a, m.inst) := st], net := s.net + {v});
    VotesGrow(s.net, v);
    assert Voucher(s.net, m, v);
    ShapeGrows(c, s.net, v, m);
    OldStays(c, s, t);
    forall b, j | b in c.acceptors && 0 <= j
      ensures Remembers(Votes(t.net), j, b, t.AccOf(b, j))
    {
      assert Remembers(Votes(s.net), j, b, s.AccOf(b, j));
    }
  }

  // ---------- A learner's step ----------

  lemma LearnKeeps(c: Config, s: Sys, l: nat, m: Message)
    requires WellFormed(c) && Inv(c, s) && Enabled(c, s, Learn(l, m))
    ensures Inv(c, Apply(c, s, Learn(l, m)))
  {
    hide Votes, Shape, OneValue, Remembers, PromiseOk, Justifies, Accept, LearnerOk, CStr;
    var t := Apply(c, s, Learn(l, m));
    assert forall a: nat, i: nat :: t.AccOf(a, i) == s.AccOf(a, i);
    ViewsStay(c, s, t);
    forall k, i | 0 <= k && 0 <= i
      ensures LearnerOk(c, t.net, i, t.LrnOf(k, i))
    {
      assert LearnerOk(c, s.net, i, s.LrnOf(k, i));
      if k == l && i == m.inst {
        VoteIsCounted(c, s.net, m, s.LrnOf(l, i));
      }
    }
  }

  lemma ViewsStay(c: Config, s: Sys, t: Sys)
    requires Inv(c, s) && t.net == s.net && t.acc == s.acc
    ensures AcceptorsOk(c, t) && PromisesOk(c, t) && ProposalsOk(c, t)
  {
    hide Votes, Shape, LearnerOk, CStr;
    var u := t.(lrn := s.lrn);
    assert u == s;
    assert forall a: nat, i: nat :: t.AccOf(a, i) == s.AccOf(a, i);
    AcceptorsStay(c, s, t);
    forall p | p in s.net && p.msgtype == PHASE1B
      ensures PromiseOk(c, t, p)
    {
      assert PromiseOk(c, s, p);
    }
    forall p | p in s.net && p.msgtype == PHASE2A
      ensures Justified(c, t, p.inst, p.rnd, CStr(p.paxosval))
    {
      assert Extends(s, t);
      JustificationStays(c, s, t, p.inst, p.rnd, CStr(p.paxosval));
    }
  }

  lemma VoteIsCounted(c: Config, net: set<Message>, m: Vote, st: LState)
    requires m in net && m.msgtype == PHASE2B && LearnerOk(c, net, m.inst, st)
    ensures LearnerOk(c, net, m.inst, Accept(Quorum(c), st, m))
  {
    hide CStr, StrCpy, Or, And, Heard;
    var counted :| Backed(net, m.inst, st, counted);
    var st' := Accept(Quorum(c), st, m);
    HeardAfterOr(st.from, m.acptid);
    assert VotesWith(m, m.inst, m.rnd);
    if !st.finished && m.rnd == st.rnd && And(st.from, Mask(m.acptid)) == 0 {
      NotHeard(st.from, m.acptid);
      assert Backed(net, m.inst, st', counted + {m.acptid});
    } else if !st.finished && m.rnd > st.rnd {
      assert Backed(net, m.inst, st', {m.acptid});
    }
  }

  /** Every enabled step keeps the invariant. */
  lemma StepKeepsInv(c: Config, s: Sys, act: Action)
    requires WellFormed(c) && Inv(c, s) && Enabled(c, s, act)
    ensures Inv(c, Apply(c, s, act))
  {
    hide Inv;
    match act
    case Prepare(m) => SendKeeps(c, s, m);
    case Propose(m, ps) =>
      ProposalIsJustified(c, s, m, ps);
      SendKeeps(c, s, m);
    case Answer(a, m) => AnswerKeeps(c, s, a, m);
    case Learn(l, m) => LearnKeeps(c, s, l, m);
  }

  // ---------- Runs ----------

  /** The system after the actions of a run, oldest first. */
  ghost function Exec(c: Config, acts: seq<Action>): Sys
    requires IsRun(c, acts)
    decreases |acts|, 1
  {
    if acts == [] then InitialSys else Apply(c, Exec(c, acts[..|acts| - 1]), acts[|acts| - 1])
  }

  /** Every action of the run is enabled when it is taken. */
  ghost predicate IsRun(c: Config, acts: seq<Action>)
    decreases |acts|, 0
  {
    acts == [] || (IsRun(c, acts[..|acts| - 1]) && Enabled(c, Exec(c, acts[..|acts| - 1]), acts[|acts| - 1]))
  }

  lemma InitialInv(c: Config)
    requires WellFormed(c)
    ensures Inv(c, InitialSys)
  {
    hide CStr, Majority;
    assert CStr(InitialAState.paxosval) == [] by { ZerosAreEmpty(); }
    forall i: nat, l: nat
      ensures LearnerOk(c, {}, i, InitialSys.LrnOf(l, i))
    {
      assert Backed({}, i, InitialLState, {});
    }
  }

  lemma ZerosAreEmpty()
    ensures CStr(InitialAState.paxosval) == []
  {}

  lemma {:induction false} RunKeepsInv(c: Config, acts: seq<Action>)
    requires WellFormed(c) && IsRun(c, acts)
    ensures Inv(c, Exec(c, acts))
  {
    hide Inv, Enabled;
    if acts == [] {
      InitialInv(c);
    } else {
      var n := |acts| - 1;
      RunKeepsInv(c, acts[..n]);
      StepKeepsInv(c, Exec(c, acts[..n]), acts[n]);
    }
  }

  // ---------- Agreement ----------

  /** A finished learner holds a chosen value. */
  lemma FinishedIsChosen(c: Config, s: Sys, l: nat, i: nat)
    requires WellFormed(c) && Inv(c, s) && s.LrnOf(l, i).finished
    ensures Chosen(c, s, i, s.LrnOf(l, i).rnd, CStr(s.LrnOf(l, i).paxosval))
  {
    hide Inv, Votes, CStr, Shape, OneValue, Heard;
    var st := s.LrnOf(l, i);
    var v := CStr(st.paxosval);
    assert Shape(c, s.net) && OneValue(s.net) && LearnerOk(c, s.net, i, st) by { InvParts(c, s, l, i); }
    var m :| m in s.net && VotesWith(m, i, st.rnd) && m.paxosval == st.paxosval;
    VoteOf(c, s.net, m);
    var counted :| Backed(s.net, i, st, counted);
    forall a | a in counted
      ensures a in Voters(Votes(s.net), i, st.rnd, v)
    {
      var x :| x in s.net && VotesWith(x, i, st.rnd) && x.acptid == a;
      VoteOf(c, s.net, x);
      OneValuePerRound(s.net, i, st.rnd, v, CStr(x.paxosval));
    }
    SubsetSize(counted, Voters(Votes(s.net), i, st.rnd, v));
  }

  lemma InvParts(c: Config, s: Sys, l: nat, i: nat)
    requires Inv(c, s)
    ensures Shape(c, s.net) && OneValue(s.net) && LearnerOk(c, s.net, i, s.LrnOf(l, i))
  {}

  lemma VoteOf(c: Config, net: set<Message>, m: Message)
    requires Shape(c, net) && m in net && m.msgtype == PHASE2B
    ensures V(m.inst, m.acptid, m.rnd, CStr(m.paxosval)) in Votes(net)
    ensures Proposed(net, m.inst, m.rnd, CStr(m.paxosval))
  {
    VoteIsProposed(c, net, V(m.inst, m.acptid, m.rnd, CStr(m.paxosval)));
  }

  /** No two learners hold different values for an instance they have both finished. */
  ghost predicate Agree(s: Sys) {
    forall l, k, i :: 0 <= l && 0 <= k && 0 <= i && s.LrnOf(l, i).finished && s.LrnOf(k, i).finished ==>
      CStr(s.LrnOf(l, i).paxosval) == CStr(s.LrnOf(k, i).paxosval)
  }

  /** Agreement, for every run of any number of acceptors, learners, instances and rounds. */
  lemma Agreement(c: Config, acts: seq<Action>)
    requires WellFormed(c) && Sound(c) && IsRun(c, acts)
    ensures Agree(Exec(c, acts))
  {
    hide Inv, Exec, IsRun, Chosen, CStr;
    var s := Exec(c, acts);
    RunKeepsInv(c, acts);
    forall l, k, i | 0 <= l && 0 <= k && 0 <= i && s.LrnOf(l, i).finished && s.LrnOf(k, i).finished
      ensures CStr(s.LrnOf(l, i).paxosval) == CStr(s.LrnOf(k, i).paxosval)
    {
      FinishedIsChosen(c, s, l, i);
      FinishedIsChosen(c, s, k, i);
      ChosenIsUnique(c, s, i, s.LrnOf(l, i).rnd, CStr(s.LrnOf(l, i).paxosval),
                     s.LrnOf(k, i).rnd, CStr(s.LrnOf(k, i).paxosval));
    }
  }
}
