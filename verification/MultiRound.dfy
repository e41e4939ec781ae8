/** The handlers under arbitrary rounds: acceptors, learners and abstract proposers over a network that loses,
    duplicates and reorders messages. */
module MultiRound {
  import opened Messages
  import opened Quorums
  import opened Acceptor
  import opened LearnerSpec

  /** The round a phase 1b reports: the one just promised, as `handle_phase1a` has it, or the round of the last
      vote, which `a_state.vrnd` is kept for. */
  datatype Report = AsWritten | LastVote

  /** How a proposer picks its value from a majority of promises: the value of the highest reported round, or
      only a value that all reported votes agree on. */
  datatype Rule = HighestVote | Unanimous

  datatype Config = Config(acceptors: set<nat>, maxinst: nat, report: Report, rule: Rule)

  ghost predicate WellFormed(c: Config) {
    c.acceptors != {} && forall a :: a in c.acceptors ==> a < MAX_ID
  }

  function Quorum(c: Config): int {
    Majority(|c.acceptors|)
  }

  /** The network keeps every message ever sent; losing one is never taking it, duplicating is taking it again. */
  datatype Sys = Sys(net: set<Message>, acc: map<(nat, nat), AState>, lrn: map<(nat, nat), LState>) {
    function AccOf(a: nat, i: nat): AState {
      if (a, i) in acc then acc[(a, i)] else InitialAState
    }

    function LrnOf(l: nat, i: nat): LState {
      if (l, i) in lrn then lrn[(l, i)] else InitialLState
    }
  }

  const InitialSys: Sys := Sys({}, map[], map[])

  datatype Action =
    | Prepare(m: Message)
    | Propose(m: Message, promises: set<Message>)
    | Answer(a: nat, m: Message)
    | Learn(l: nat, m: Message)

  /** The reply of an acceptor, under the chosen report. */
  function ReplyOf(c: Config, a: nat, s: AState, m: Message): Reply
    requires a < MAX_ID
  {
    var r := Handle(a, s, m);
    if c.report == LastVote && r.accepted && r.msg.msgtype == PHASE1B then r.(msg := r.msg.(vrnd := s.vrnd)) else r
  }

  // ---------- Proposers ----------

  ghost predicate HasVote(p: Message) {
    CStr(p.paxosval) != []
  }

  /** The promises of a majority for instance `i` and round `r`. */
  ghost predicate PromisedByMajority(c: Config, net: set<Message>, ps: set<Message>, i: nat, r: nat) {
    && ps <= net
    && (forall p :: p in ps ==> p.msgtype == PHASE1B && p.inst == i && p.rnd == r)
    && |Senders(ps)| >= Quorum(c)
  }

  ghost function Senders(ps: set<Message>): set<nat> {
    set p | p in ps :: p.acptid
  }

  ghost predicate Picks(rule: Rule, ps: set<Message>, v: seq<byte>) {
    match rule
    case HighestVote =>
      (forall p :: p in ps ==> !HasVote(p)) ||
      exists p :: p in ps && HasVote(p) && CStr(p.paxosval) == v &&
        forall q :: q in ps && HasVote(q) ==> q.vrnd <= p.vrnd
    case Unanimous =>
      forall p :: p in ps && HasVote(p) ==> CStr(p.paxosval) == v
  }

  ghost predicate Enabled(c: Config, s: Sys, act: Action) {
    match act
    case Prepare(m) => m.msgtype == PHASE1A && m.inst < c.maxinst
    case Propose(m, ps) =>
      && m.msgtype == PHASE2A && m.inst < c.maxinst && HasVote(m)
      // one value per instance and round
      && (forall q :: q in s.net && q.msgtype == PHASE2A && q.inst == m.inst && q.rnd == m.rnd ==>
            q.paxosval == m.paxosval)
      && (m.rnd == 0 || (PromisedByMajority(c, s.net, ps, m.inst, m.rnd) && Picks(c.rule, ps, CStr(m.paxosval))))
    case Answer(a, m) => a in c.acceptors && a < MAX_ID && m in s.net
    // only votes are handed to the learner
    case Learn(l, m) => m in s.net && m.msgtype == PHASE2B && m.acptid < MAX_ID
  }

  ghost function Apply(c: Config, s: Sys, act: Action): Sys
    requires Enabled(c, s, act)
  {
    match act
    case Prepare(m) => s.(net := s.net + {m})
    case Propose(m, _) => s.(net := s.net + {m})
    case Answer(a, m) =>
      var r := ReplyOf(c, a, s.AccOf(a, m.inst), m);
      s.(acc := s.acc[(a, m.inst) := r.state], net := if r.accepted then s.net + {r.msg} else s.net)
    case Learn(l, m) => s.(lrn := s.lrn[(l, m.inst) := Accept(Quorum(c), s.LrnOf(l, m.inst), m)])
  }

  // ---------- Votes ----------

  datatype V = V(inst: nat, acptid: nat, rnd: nat, val: seq<byte>)

  /** The votes cast so far: what the phase 2b messages say. */
  ghost function Votes(net: set<Message>): set<V> {
    set m | m in net && m.msgtype == PHASE2B :: V(m.inst, m.acptid, m.rnd, CStr(m.paxosval))
  }

  ghost predicate Proposed(net: set<Message>, i: nat, r: nat, v: seq<byte>) {
    exists m :: m in net && m.msgtype == PHASE2A && m.inst == i && m.rnd == r && CStr(m.paxosval) == v
  }

  ghost predicate NoVoteIn(votes: set<V>, i: nat, a: nat, lo: nat, hi: nat) {
    forall x :: x in votes && x.inst == i && x.acptid == a ==> !(lo <= x.rnd < hi)
  }

  ghost function Voters(votes: set<V>, i: nat, r: nat, v: seq<byte>): set<nat> {
    set x | x in votes && x.inst == i && x.rnd == r && x.val == v :: x.acptid
  }

  /** A majority has voted for `v` in round `r`. */
  ghost predicate Chosen(c: Config, s: Sys, i: nat, r: nat, v: seq<byte>) {
    |Voters(Votes(s.net), i, r, v)| >= Quorum(c)
  }

  // ---------- The invariant ----------

  ghost predicate Shape(c: Config, net: set<Message>) {
    forall m :: m in net ==>
      && m.inst < c.maxinst
      && (m.msgtype in {PHASE1B, PHASE2B} ==> m.acptid in c.acceptors)
      && (m.msgtype == PHASE2A ==> HasVote(m))
      && (m.msgtype == PHASE2B ==> exists p :: Voucher(net, p, m))
  }

  /** The proposal a vote answers. */
  ghost predicate Voucher(net: set<Message>, p: Message, m: Message) {
    p in net && p.msgtype == PHASE2A && p.inst == m.inst && p.rnd == m.rnd && p.paxosval == m.paxosval
  }

  ghost predicate OneValue(net: set<Message>) {
    forall p, q ::
      p in net && q in net && p.msgtype == PHASE2A && q.msgtype == PHASE2A && p.inst == q.inst && p.rnd == q.rnd
      ==> p.paxosval == q.paxosval
  }

  /** What an acceptor holds agrees with the votes it has cast. */
  ghost predicate Remembers(votes: set<V>, i: nat, a: nat, st: AState) {
    && st.vrnd <= st.rnd
    && (forall x :: x in votes && x.inst == i && x.acptid == a ==> x.rnd <= st.vrnd && CStr(st.paxosval) != [])
    && (CStr(st.paxosval) != [] ==> V(i, a, st.vrnd, CStr(st.paxosval)) in votes)
  }

  ghost predicate AcceptorsOk(c: Config, s: Sys) {
    forall a, i :: a in c.acceptors && 0 <= i ==> Remembers(Votes(s.net), i, a, s.AccOf(a, i))
  }

  /** `v` is the last value `a` voted for below round `r`, in round `k`. */
  ghost predicate LastVoteBelow(votes: set<V>, i: nat, a: nat, r: nat, k: nat, v: seq<byte>) {
    k < r && V(i, a, k, v) in votes && NoVoteIn(votes, i, a, k + 1, r)
  }

  /** What a promise says about the votes below its round is true and stays so. */
  ghost predicate PromiseOk(c: Config, s: Sys, p: Message) {
    && p.rnd <= s.AccOf(p.acptid, p.inst).rnd
    && (!HasVote(p) ==> NoVoteIn(Votes(s.net), p.inst, p.acptid, 0, p.rnd))
    && (HasVote(p) ==> exists k: nat :: LastVoteBelow(Votes(s.net), p.inst, p.acptid, p.rnd, k, CStr(p.paxosval))
                                   && (c.report == LastVote ==> p.vrnd == k))
  }

  ghost predicate PromisesOk(c: Config, s: Sys) {
    forall p :: p in s.net && p.msgtype == PHASE1B ==> PromiseOk(c, s, p)
  }

  /** A majority that has left round `r` behind justifies `v` there: none of it voted below `r`, or `v` is the last
      vote of a member, and that member is the latest of the majority or speaks for everybody. */
  ghost predicate Justifies(c: Config, s: Sys, q: set<nat>, i: nat, r: nat, v: seq<byte>) {
    && q <= c.acceptors && |q| >= Quorum(c)
    && (forall a :: a in q ==> s.AccOf(a, i).rnd >= r)
    && ((forall a :: a in q ==> NoVoteIn(Votes(s.net), i, a, 0, r)) ||
        exists a: nat, k: nat :: a in q && LastVoteBelow(Votes(s.net), i, a, r, k, v)
                       && (|c.acceptors| <= 2 || forall b :: b in q ==> NoVoteIn(Votes(s.net), i, b, k + 1, r)))
  }

  /** The reports and rules under which a proposer cannot be misled. */
  ghost predicate Sound(c: Config) {
    c.report == LastVote || c.rule == Unanimous || |c.acceptors| <= 2
  }

  ghost predicate Justified(c: Config, s: Sys, i: nat, r: nat, v: seq<byte>) {
    Sound(c) ==> exists q :: Justifies(c, s, q, i, r, v)
  }

  ghost predicate ProposalsOk(c: Config, s: Sys) {
    forall m :: m in s.net && m.msgtype == PHASE2A ==> Justified(c, s, m.inst, m.rnd, CStr(m.paxosval))
  }

  /** The acceptors a learner counts did vote in its current round, and a finished learner holds the block of a
      vote of that round. */
  ghost predicate LearnerOk(c: Config, net: set<Message>, i: nat, st: LState) {
    && (exists counted :: Backed(net, i, st, counted))
    && (st.finished ==>
          st.count >= Quorum(c) && exists m :: m in net && VotesWith(m, i, st.rnd) && m.paxosval == st.paxosval)
  }

  ghost predicate Backed(net: set<Message>, i: nat, st: LState, counted: set<nat>) {
    && |counted| == st.count && counted <= Heard(st.from)
    && forall a :: a in counted ==> exists m :: m in net && VotesWith(m, i, st.rnd) && m.acptid == a
  }

  ghost predicate VotesWith(m: Message, i: nat, r: nat) {
    m.msgtype == PHASE2B && m.inst == i && m.rnd == r
  }

  ghost predicate LearnersOk(c: Config, s: Sys) {
    forall l, i :: 0 <= l && 0 <= i ==> LearnerOk(c, s.net, i, s.LrnOf(l, i))
  }

  ghost predicate Inv(c: Config, s: Sys) {
    Shape(c, s.net) && OneValue(s.net) && AcceptorsOk(c, s) && PromisesOk(c, s) && ProposalsOk(c, s) && LearnersOk(c, s)
  }
}
