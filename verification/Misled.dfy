/** What the phase 1b report costs as it is written: a run that decides twice, and the exact configurations that
    have no such run. */
module Misled {
  import opened Messages
  import opened Bits
  import opened Quorums
  import opened Acceptor
  import opened LearnerSpec
  import opened MultiRound
  import opened MultiRoundSafety

  ghost predicate Reaches(c: Config, s: Sys) {
    exists acts :: IsRun(c, acts) && Exec(c, acts) == s
  }

  lemma Step(c: Config, s: Sys, act: Action)
    requires Reaches(c, s) && Enabled(c, s, act)
    ensures Reaches(c, Apply(c, s, act))
  {
    hide Enabled, Apply;
    var acts :| IsRun(c, acts) && Exec(c, acts) == s;
    var more := acts + [act];
    assert more[..|more| - 1] == acts;
    assert Exec(c, more) == Apply(c, s, act);
  }

  /** The reply of acceptor `a` in state `s`. */
  function Told(c: Config, s: Sys, a: nat, m: Message): Reply
    requires a < MAX_ID
  {
    ReplyOf(c, a, s.AccOf(a, m.inst), m)
  }

  ghost predicate AllAccept(c: Config, s: Sys, who: set<nat>, m: Message) {
    forall a :: a in who ==> a < MAX_ID && Told(c, s, a, m).accepted
  }

  /** `t` is `s` after the acceptors in `who` have answered `m`. */
  ghost predicate Answered(c: Config, s: Sys, who: set<nat>, m: Message, t: Sys)
    requires AllAccept(c, s, who, m)
  {
    && t.lrn == s.lrn && s.net <= t.net
    && (forall a :: a in who ==> Told(c, s, a, m).msg in t.net)
    && (forall x :: x in t.net ==> x in s.net || exists a :: a in who && x == Told(c, s, a, m).msg)
    && (forall a :: a in who ==> t.AccOf(a, m.inst) == Told(c, s, a, m).state)
    && (forall a: nat :: a !in who ==> t.AccOf(a, m.inst) == s.AccOf(a, m.inst))
  }

  lemma {:induction false} AnswerAll(c: Config, s: Sys, who: set<nat>, m: Message) returns (t: Sys)
    requires WellFormed(c) && Reaches(c, s) && who <= c.acceptors && m in s.net && AllAccept(c, s, who, m)
    ensures Reaches(c, t) && Answered(c, s, who, m, t)
  {
    hide Reaches, ReplyOf, Apply, Enabled, Told;
    if who == {} {
      t := s;
    } else {
      var a :| a in who;
      var u := AnswerAll(c, s, who - {a}, m);
      AnswerOneMore(c, s, who - {a}, m, u, a);
      Step(c, u, Answer(a, m));
      t := Apply(c, u, Answer(a, m));
      assert who == (who - {a}) + {a};
    }
  }

  lemma AnswerOneMore(c: Config, s: Sys, who: set<nat>, m: Message, u: Sys, a: nat)
    requires WellFormed(c) && AllAccept(c, s, who + {a}, m) && Answered(c, s, who, m, u)
    requires a in c.acceptors && a !in who && m in s.net
    ensures Enabled(c, u, Answer(a, m)) && Answered(c, s, who + {a}, m, Apply(c, u, Answer(a, m)))
  {
    hide ReplyOf;
    assert Told(c, u, a, m) == Told(c, s, a, m);
  }

  /** What learner `l` holds after taking the votes of `who` for the value of `m`. */
  ghost predicate Took(c: Config, who: set<nat>, m: Message, st: LState) {
    if who == {} then st == InitialLState
    else if |who| < Quorum(c) then !st.finished && st.rnd == m.rnd && st.count == |who| && Heard(st.from) == who
    else st.finished && CStr(st.paxosval) == CStr(m.paxosval)
  }

  lemma TakeOne(c: Config, who: set<nat>, m: Vote, st: LState)
    requires Took(c, who, m, st) && m.acptid !in who && m.rnd > 0 && Quorum(c) >= 2
    ensures Took(c, who + {m.acptid}, m, Accept(Quorum(c), st, m))
  {
    hide Heard, Or, And, StrCpy, CStr, Quorum;
    NoneHeard();
    HeardAfterOr(st.from, m.acptid);
    if And(st.from, Mask(m.acptid)) != 0 {
      AlreadyHeard(st.from, m.acptid);
    }
  }

  /** `t` is `s` after learner `l` has taken votes. */
  ghost predicate Learned(s: Sys, l: nat, t: Sys) {
    t.net == s.net && t.acc == s.acc && forall k: nat, i: nat :: k != l ==> t.LrnOf(k, i) == s.LrnOf(k, i)
  }

  lemma {:induction false} LearnAll(c: Config, s: Sys, l: nat, who: set<nat>, m: Message) returns (t: Sys)
    requires Reaches(c, s) && m.rnd > 0 && Quorum(c) >= 2 && m.msgtype == PHASE2B
    requires forall a :: a in who ==> a < MAX_ID && m.(acptid := a) in s.net
    requires s.LrnOf(l, m.inst) == InitialLState
    ensures Reaches(c, t) && Learned(s, l, t) && Took(c, who, m, t.LrnOf(l, m.inst))
  {
    hide Reaches, Accept, Heard, CStr, Quorum;
    if who == {} {
      t := s;
    } else {
      var a :| a in who;
      var u := LearnAll(c, s, l, who - {a}, m);
      Step(c, u, Learn(l, m.(acptid := a)));
      t := Apply(c, u, Learn(l, m.(acptid := a)));
      TakeOne(c, who - {a}, m.(acptid := a), u.LrnOf(l, m.inst));
      assert who == (who - {a}) + {a};
    }
  }

  // ---------- One round, with tied reports ----------

  function Ask(r: u16): Message {
    Message(0, r, 0, 0, PHASE1A, Zeros(PAXOS_VALUE_SIZE), 0)
  }

  function Offer(r: u16, b: Block): Message {
    Message(0, r, 0, 0, PHASE2A, b, 0)
  }

  /** As written, a promise of round `r` reports round `r` itself, next to the last value. */
  lemma ToldPromise(c: Config, s: Sys, a: nat, r: u16)
    requires c.report == AsWritten && a < MAX_ID && s.AccOf(a, 0).rnd < r
    ensures var t := Told(c, s, a, Ask(r));
            && t.accepted && t.state == s.AccOf(a, 0).(rnd := r)
            && t.msg.msgtype == PHASE1B && t.msg.inst == 0 && t.msg.rnd == r && t.msg.vrnd == r && t.msg.acptid == a
            && CStr(t.msg.paxosval) == CStr(s.AccOf(a, 0).paxosval)
  {
    hide CStr, StrCpy;
  }

  lemma ToldVote(c: Config, s: Sys, a: nat, r: u16, b: Block)
    requires a < MAX_ID && s.AccOf(a, 0).rnd <= r
    ensures var t := Told(c, s, a, Offer(r, b));
            && t.accepted && t.state.rnd == r && CStr(t.state.paxosval) == CStr(b)
            && t.msg == Offer(r, b).(acptid := a, msgtype := PHASE2B)
  {
    hide CStr, StrCpy;
  }

  ghost predicate ProposalsBelow(s: Sys, r: nat) {
    forall q :: q in s.net && q.msgtype == PHASE2A ==> q.rnd < r
  }

  lemma SendAsk(c: Config, s: Sys, r: u16) returns (u: Sys)
    requires Reaches(c, s) && c.maxinst > 0 && ProposalsBelow(s, r)
    ensures Reaches(c, u) && u.lrn == s.lrn && u.acc == s.acc && Ask(r) in u.net && ProposalsBelow(u, r)
  {
    Step(c, s, Prepare(Ask(r)));
    u := Apply(c, s, Prepare(Ask(r)));
  }

  /** The members of `who` have promised round `r`. */
  lemma GatherPromises(c: Config, s: Sys, who: set<nat>, r: u16) returns (t: Sys, ps: set<Message>)
    requires WellFormed(c) && Reaches(c, s) && c.report == AsWritten && c.maxinst > 0
    requires who <= c.acceptors && ProposalsBelow(s, r) && forall a :: a in who ==> s.AccOf(a, 0).rnd < r
    ensures Reaches(c, t) && t.lrn == s.lrn && ProposalsBelow(t, r)
    ensures forall a: nat :: t.AccOf(a, 0) == if a in who then s.AccOf(a, 0).(rnd := r) else s.AccOf(a, 0)
    ensures ps <= t.net && Senders(ps) == who
    ensures forall p :: p in ps ==> p.msgtype == PHASE1B && p.inst == 0 && p.rnd == r && p.vrnd == r
    ensures forall p :: p in ps ==> CStr(p.paxosval) == CStr(s.AccOf(p.acptid, 0).paxosval)
  {
    hide Reaches, CStr, Told, Answered, ProposalsBelow, Senders;
    var u := SendAsk(c, s, r);
    AskIsAccepted(c, u, who, r);
    t := AnswerAll(c, u, who, Ask(r));
    ps := set a | a in who :: Told(c, u, a, Ask(r)).msg;
    PromisesAre(c, u, who, r, ps);
    PromisesSent(c, u, who, r, t);
  }

  lemma AskIsAccepted(c: Config, u: Sys, who: set<nat>, r: u16)
    requires WellFormed(c) && c.report == AsWritten && who <= c.acceptors
    requires forall a :: a in who ==> u.AccOf(a, 0).rnd < r
    ensures AllAccept(c, u, who, Ask(r))
  {
    hide Told;
    forall a | a in who
      ensures a < MAX_ID && Told(c, u, a, Ask(r)).accepted
    {
      ToldPromise(c, u, a, r);
    }
  }

  lemma PromisesAre(c: Config, u: Sys, who: set<nat>, r: u16, ps: set<Message>)
    requires c.report == AsWritten && forall a :: a in who ==> a < MAX_ID && u.AccOf(a, 0).rnd < r
    requires ps == set a | a in who :: Told(c, u, a, Ask(r)).msg
    ensures Senders(ps) == who
    ensures forall p :: p in ps ==> p.msgtype == PHASE1B && p.inst == 0 && p.rnd == r && p.vrnd == r
    ensures forall p :: p in ps ==> CStr(p.paxosval) == CStr(u.AccOf(p.acptid, 0).paxosval)
  {
    hide CStr, Told;
    forall a | a in who
      ensures a in Senders(ps)
    {
      ToldPromise(c, u, a, r);
      assert Told(c, u, a, Ask(r)).msg in ps;
    }
    forall p | p in ps
      ensures p.msgtype == PHASE1B && p.inst == 0 && p.rnd == r && p.vrnd == r && p.acptid in who
      ensures CStr(p.paxosval) == CStr(u.AccOf(p.acptid, 0).paxosval)
    {
      var a :| a in who && p == Told(c, u, a, Ask(r)).msg;
      ToldPromise(c, u, a, r);
    }
  }

  lemma PromisesSent(c: Config, u: Sys, who: set<nat>, r: u16, t: Sys)
    requires c.report == AsWritten && forall a :: a in who ==> a < MAX_ID && u.AccOf(a, 0).rnd < r
    requires AllAccept(c, u, who, Ask(r)) && Answered(c, u, who, Ask(r), t) && ProposalsBelow(u, r)
    ensures ProposalsBelow(t, r) && t.lrn == u.lrn
    ensures forall a: nat :: t.AccOf(a, 0) == if a in who then u.AccOf(a, 0).(rnd := r) else u.AccOf(a, 0)
    ensures forall a :: a in who ==> Told(c, u, a, Ask(r)).msg in t.net
  {
    hide CStr, Told;
    forall a: nat
      ensures t.AccOf(a, 0) == if a in who then u.AccOf(a, 0).(rnd := r) else u.AccOf(a, 0)
    {
      if a in who {
        ToldPromise(c, u, a, r);
      }
    }
    forall q | q in t.net && q.msgtype == PHASE2A
      ensures q in u.net
    {
      if q !in u.net {
        var a :| a in who && q == Told(c, u, a, Ask(r)).msg;
        ToldPromise(c, u, a, r);
      }
    }
  }

  /** The members of `who` vote for `b` in round `r` and learner `l` takes their votes. */
  lemma VoteAndLearn(c: Config, s: Sys, who: set<nat>, r: u16, b: Block, l: nat) returns (t: Sys)
    requires WellFormed(c) && Reaches(c, s) && who <= c.acceptors && |who| >= Quorum(c) >= 2 && r > 0
    requires Offer(r, b) in s.net && s.LrnOf(l, 0) == InitialLState && ProposalsBelow(s, r + 1)
    requires forall a :: a in who ==> s.AccOf(a, 0).rnd <= r
    ensures Reaches(c, t) && ProposalsBelow(t, r + 1)
    ensures t.LrnOf(l, 0).finished && CStr(t.LrnOf(l, 0).paxosval) == CStr(b)
    ensures forall k: nat :: k != l ==> t.LrnOf(k, 0) == s.LrnOf(k, 0)
    ensures forall a :: a in who ==> t.AccOf(a, 0).rnd == r && CStr(t.AccOf(a, 0).paxosval) == CStr(b)
    ensures forall a: nat :: a !in who ==> t.AccOf(a, 0) == s.AccOf(a, 0)
  {
    hide Reaches, ReplyOf, CStr, Told, Quorum;
    var m := Offer(r, b);
    forall a | a in who
      ensures a < MAX_ID && Told(c, s, a, m).accepted && Told(c, s, a, m).msg == m.(acptid := a, msgtype := PHASE2B)
      ensures Told(c, s, a, m).state.rnd == r && CStr(Told(c, s, a, m).state.paxosval) == CStr(b)
    {
      ToldVote(c, s, a, r, b);
    }
    var u := AnswerAll(c, s, who, m);
    t := LearnAll(c, u, l, who, m.(msgtype := PHASE2B));
  }

  /** One round of a proposer that obeys the rule.  All reports of a round are tied, so the value of any member's
      last vote, however old, can win. */
  lemma Round(c: Config, s: Sys, who: set<nat>, r: u16, b: Block, l: nat) returns (t: Sys)
    requires WellFormed(c) && c.report == AsWritten && c.rule == HighestVote && c.maxinst > 0
    requires Reaches(c, s) && who <= c.acceptors && |who| >= Quorum(c) >= 2 && 0 < r < 0xffff && CStr(b) != []
    requires s.LrnOf(l, 0) == InitialLState && ProposalsBelow(s, r)
    requires forall a :: a in who ==> s.AccOf(a, 0).rnd < r
    requires (forall a :: a in who ==> CStr(s.AccOf(a, 0).paxosval) == []) ||
             (exists a :: a in who && CStr(s.AccOf(a, 0).paxosval) == CStr(b))
    ensures Reaches(c, t) && ProposalsBelow(t, r + 1)
    ensures t.LrnOf(l, 0).finished && CStr(t.LrnOf(l, 0).paxosval) == CStr(b)
    ensures forall k: nat :: k != l ==> t.LrnOf(k, 0) == s.LrnOf(k, 0)
    ensures forall a :: a in who ==> t.AccOf(a, 0).rnd == r && CStr(t.AccOf(a, 0).paxosval) == CStr(b)
    ensures forall a: nat :: a !in who ==> t.AccOf(a, 0) == s.AccOf(a, 0)
  {
    hide Reaches, CStr, Quorum;
    var u, ps := GatherPromises(c, s, who, r);
    assert Picks(HighestVote, ps, CStr(b)) by { AnyVoteWins(s, who, ps, r, CStr(b)); }
    assert PromisedByMajority(c, u.net, ps, 0, r);
    Step(c, u, Propose(Offer(r, b), ps));
    var w := Apply(c, u, Propose(Offer(r, b), ps));
    t := VoteAndLearn(c, w, who, r, b, l);
  }

  lemma AnyVoteWins(s: Sys, who: set<nat>, ps: set<Message>, r: u16, v: seq<byte>)
    requires Senders(ps) == who && v != []
    requires forall p :: p in ps ==> p.vrnd == r && CStr(p.paxosval) == CStr(s.AccOf(p.acptid, 0).paxosval)
    requires (forall a :: a in who ==> CStr(s.AccOf(a, 0).paxosval) == []) ||
             (exists a :: a in who && CStr(s.AccOf(a, 0).paxosval) == v)
    ensures Picks(HighestVote, ps, v)
  {
    hide CStr;
    if a :| a in who && CStr(s.AccOf(a, 0).paxosval) == v {
      var p :| p in ps && p.acptid == a;
      assert HasVote(p) && forall q :: q in ps && HasVote(q) ==> q.vrnd <= p.vrnd;
    } else {
      forall p | p in ps
        ensures !HasVote(p)
      {
        assert p.acptid in Senders(ps);
      }
    }
  }

  // ---------- The run that decides twice ----------

  function OneByte(x: byte): (b: Block)
    requires x != 0
    ensures CStr(b) == [x]
  {
    CStrOfPrefix([x], Zeros(PAXOS_VALUE_SIZE - 2));
    assert [x] + [0] + Zeros(PAXOS_VALUE_SIZE - 2) == [x] + Zeros(PAXOS_VALUE_SIZE - 1);
    [x] + Zeros(PAXOS_VALUE_SIZE - 1)
  }

  /** Acceptor `x` alone has voted, for `b` in round 0. */
  lemma LoneVote(c: Config, x: nat, b: Block) returns (t: Sys)
    requires WellFormed(c) && c.maxinst > 0 && x in c.acceptors && CStr(b) != []
    ensures Reaches(c, t) && ProposalsBelow(t, 1)
    ensures t.AccOf(x, 0).rnd == 0 && CStr(t.AccOf(x, 0).paxosval) == CStr(b)
    ensures forall a: nat :: a != x ==> t.AccOf(a, 0) == InitialAState
    ensures forall l: nat :: t.LrnOf(l, 0) == InitialLState
  {
    hide CStr, ReplyOf, Told;
    assert Reaches(c, InitialSys) by {
      assert IsRun(c, []) && Exec(c, []) == InitialSys;
    }
    hide Reaches;
    var s := Apply(c, InitialSys, Propose(Offer(0, b), {}));
    Step(c, InitialSys, Propose(Offer(0, b), {}));
    ToldVote(c, s, x, 0, b);
    t := AnswerAll(c, s, {x}, Offer(0, b));
  }

  /** With three or more acceptors, the report as written and the classic rule, two learners of one run deliver
      different values for one instance. */
  lemma DecidesTwice(c: Config) returns (t: Sys)
    requires WellFormed(c) && c.maxinst > 0 && !Sound(c)
    ensures Reaches(c, t) && !Agree(t)
  {
    hide Reaches, CStr;
    var n := |c.acceptors|;
    var x :| x in c.acceptors;
    var rest := c.acceptors - {x};
    assert |rest| == n - 1;
    MajorityIsLeast(n, n - 1);
    MajorityIsLeast(n, 1);
    hide Majority;
    var old', new' := OneByte(1), OneByte(2);
    var s := LoneVote(c, x, old');
    assert CStr(InitialAState.paxosval) == [] by { ZerosAreEmpty(); }
    var u := Round(c, s, rest, 1, new', 0);
    assert u.AccOf(x, 0) == s.AccOf(x, 0);
    t := Round(c, u, c.acceptors, 2, old', 1);
    assert t.LrnOf(0, 0) == u.LrnOf(0, 0);
  }

  /** Agreement holds in every run if and only if the report names the round of the last vote, or proposers demand
      that the reported values agree, or there are at most two acceptors. */
  lemma AgreementIff(c: Config)
    requires WellFormed(c) && c.maxinst > 0
    ensures (forall acts :: IsRun(c, acts) ==> Agree(Exec(c, acts))) <==> Sound(c)
  {
    hide Agree, IsRun, Exec;
    if Sound(c) {
      forall acts | IsRun(c, acts)
        ensures Agree(Exec(c, acts))
      {
        Agreement(c, acts);
      }
    } else {
      var t := DecidesTwice(c);
      var acts :| IsRun(c, acts) && Exec(c, acts) == t;
      assert !Agree(Exec(c, acts));
    }
  }
}
