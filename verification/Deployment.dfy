/** The deployment as shipped: proposers submit round-0 values, one coordinator numbers them, acceptors answer
    batches, learners count.  Every hop may lose, duplicate and reorder datagrams. */
module Deployment {
  import opened Messages
  import opened Quorums
  import opened Acceptor
  import opened LearnerSpec
  import opened Submission

  datatype Config = Config(acceptors: set<nat>, maxinst: nat)

  ghost predicate WellFormed(c: Config) {
    c.acceptors != {} && forall a :: a in c.acceptors ==> a < MAX_ID
  }

  type Pair = (Block, Address)

  /** A learner, with the votes it has handled as a history. */
  datatype LearnerView = LearnerView(states: seq<LState>, deliveries: seq<Delivery>, taken: seq<Vote>, stopped: bool)

  datatype AcceptorView = AcceptorView(states: seq<AState>, stopped: bool)

  /** Each set of messages keeps what was ever sent on that hop, in wire order.  `submitted` and `slots` are
      histories: the value and client pairs that proposers sent, and the pair behind each instance number. */
  datatype World = World(
    submitted: set<Pair>,
    toCoordinator: set<Message>,
    cur_inst: nat,
    slots: seq<Pair>,
    toAcceptors: set<Message>,
    acceptors: map<nat, AcceptorView>,
    toLearners: set<Message>,
    learners: map<nat, LearnerView>)
  {
    function Acc(c: Config, a: nat): AcceptorView {
      if a in acceptors then acceptors[a] else AcceptorView(Acceptor.InitialStates(c.maxinst), false)
    }

    function Lrn(c: Config, l: nat): LearnerView {
      if l in learners then learners[l] else LearnerView(LearnerSpec.InitialStates(c.maxinst), [], [], false)
    }
  }

  const InitialWorld: World := World({}, {}, 0, [], {}, map[], {}, map[])

  datatype Action =
    | Submit(request: seq<byte>, client: Address)
    | Retry(b: Block, client: Address, ts: seq<byte>)
    | Number(m: Message)
    | Accept(a: nat, batch: seq<Message>)
    | Learn(l: nat, batch: seq<Message>)

  ghost predicate Received(batch: seq<Message>, hop: set<Message>) {
    forall k :: 0 <= k < |batch| ==> batch[k] in hop
  }

  ghost predicate Votes(batch: seq<Message>) {
    forall k :: 0 <= k < |batch| ==> Unpacked(batch[k]).acptid < MAX_ID
  }

  ghost predicate Enabled(c: Config, w: World, act: Action) {
    match act
    case Submit(request, _) => |request| < PAXOS_VALUE_SIZE
    // a retry repeats what this client's datagram holds
    case Retry(b, client, ts) => (b, client) in w.submitted && Closed(b) && |ts| == TS_TO - TS_FROM
    case Number(m) => m in w.toCoordinator && w.cur_inst < 0x7fff_ffff
    case Accept(a, batch) =>
      a in c.acceptors && a < MAX_ID && !w.Acc(c, a).stopped && Received(batch, w.toAcceptors)
    case Learn(l, batch) => !w.Lrn(c, l).stopped && Received(batch, w.toLearners) && Votes(batch)
  }

  ghost function AsVotes(batch: seq<Message>): (vs: seq<Vote>)
    requires Votes(batch)
    ensures vs == UnpackAll(batch)
  {
    UnpackAll(batch)
  }

  ghost function Elements(s: seq<Message>): set<Message> {
    set k | 0 <= k < |s| :: s[k]
  }

  ghost function Put(w: World, b: Block, client: Address): World {
    w.(submitted := w.submitted + {(b, client)}, toCoordinator := w.toCoordinator + {Packed(Stamped(0, b, client))})
  }

  ghost function Apply(c: Config, w: World, act: Action): World
    requires Enabled(c, w, act)
  {
    match act
    case Submit(request, client) => Put(w, RequestBlock(request), client)
    case Retry(b, client, ts) => Put(w, Retimed(b, ts), client)
    case Number(m) =>
      w.(cur_inst := w.cur_inst + 1, slots := w.slots + [(m.paxosval, m.client)],
         toAcceptors := w.toAcceptors + {m.(inst := Swap32(w.cur_inst))})
    case Accept(a, batch) =>
      var out := BatchOutcome(a, w.Acc(c, a).states, UnpackAll(batch));
      w.(acceptors := w.acceptors[a := AcceptorView(out.states, out.halted)],
         toLearners := w.toLearners + Elements(out.sent))
    case Learn(l, batch) =>
      var v := w.Lrn(c, l);
      var msgs := AsVotes(batch);
      var n := InRangePrefix(msgs, |v.states|);
      var h := HandleAll(Majority(|c.acceptors|), v.states, msgs[..n]);
      w.(learners := w.learners[l := LearnerView(h.states, v.deliveries + h.deliveries,
                                         v.taken + msgs[..n], n < |msgs|)])
  }

  // ---------- The invariant ----------

  /** The datagram the coordinator sends for instance `i`. */
  ghost function Proposal(slots: seq<Pair>, i: nat): Message
    requires i < |slots| <= 0x7fff_ffff
  {
    Stamped(i, slots[i].0, slots[i].1)
  }

  /** Acceptor `a`'s vote for instance `i`. */
  ghost function Ballot(slots: seq<Pair>, i: nat, a: nat): Vote
    requires i < |slots| <= 0x7fff_ffff && a < MAX_ID
  {
    Proposal(slots, i).(acptid := a, msgtype := PHASE2B)
  }

  /** The coordinator has used the instances below `cur_inst`, each once, for pairs that were submitted. */
  ghost predicate Numbered(w: World) {
    && |w.slots| == w.cur_inst <= 0x7fff_ffff
    && (forall i :: 0 <= i < |w.slots| ==> w.slots[i] in w.submitted)
    && (forall m :: m in w.toCoordinator ==> exists p :: p in w.submitted && m == Packed(Stamped(0, p.0, p.1)))
    && (forall m :: m in w.toAcceptors <==> exists i: nat :: i < |w.slots| && m == Packed(Proposal(w.slots, i)))
  }

  ghost predicate IsBallot(c: Config, slots: seq<Pair>, m: Message)
    requires |slots| <= 0x7fff_ffff
  {
    exists i: nat, a: nat :: IsBallotOf(c, slots, m, i, a)
  }

  ghost predicate IsBallotOf(c: Config, slots: seq<Pair>, m: Message, i: nat, a: nat)
    requires |slots| <= 0x7fff_ffff
  {
    i < |slots| && i < c.maxinst && a in c.acceptors && a < MAX_ID && m == Packed(Ballot(slots, i, a))
  }

  /** No acceptor has left round 0. */
  ghost predicate RoundZero(states: seq<AState>) {
    forall i :: 0 <= i < |states| ==> states[i].rnd == 0 && states[i].vrnd == 0
  }

  /** An acceptor's buffer after one vote for `b`: the string at the front of `b`, and nothing of what is behind it. */
  function Recorded(b: Block): (r: Stored)
    ensures CStr(r) == CStr(b)
  {
    CStrOfPrefix(CStr(b), Zeros(PAXOS_VALUE_SIZE - |CStr(b)|));
    CStr(b) + [0] + Zeros(PAXOS_VALUE_SIZE - |CStr(b)|)
  }

  /** Every buffer is as it was at the start, or as a vote for the instance's value leaves it. */
  ghost predicate Clean(slots: seq<Pair>, states: seq<AState>) {
    forall i :: 0 <= i < |states| ==>
      states[i].paxosval == InitialAState.paxosval || (i < |slots| && states[i].paxosval == Recorded(slots[i].0))
  }

  /** What an acceptor has voted for it still holds. */
  ghost predicate Holds(w: World, a: nat, states: seq<AState>)
    requires |w.slots| <= 0x7fff_ffff
  {
    forall i: nat :: i < |w.slots| && i < |states| && a < MAX_ID && Packed(Ballot(w.slots, i, a)) in w.toLearners ==>
      states[i].paxosval == Recorded(w.slots[i].0)
  }

  ghost predicate AcceptorsOk(c: Config, w: World)
    requires |w.slots| <= 0x7fff_ffff
  {
    forall a :: a in c.acceptors ==>
      |w.Acc(c, a).states| == c.maxinst && RoundZero(w.Acc(c, a).states)
      && Clean(w.slots, w.Acc(c, a).states) && Holds(w, a, w.Acc(c, a).states)
  }

  ghost predicate LearnerOk(c: Config, w: World, v: LearnerView)
    requires |w.slots| <= 0x7fff_ffff
  {
    && (forall k :: 0 <= k < |v.taken| ==> Packed(v.taken[k]) in w.toLearners && v.taken[k].inst < c.maxinst)
    && HandleAll(Majority(|c.acceptors|), LearnerSpec.InitialStates(c.maxinst), v.taken)
       == Handled(v.states, v.deliveries)
  }

  ghost predicate Inv(c: Config, w: World) {
    && Numbered(w)
    && AcceptorsOk(c, w)
    && (forall m :: m in w.toLearners ==> IsBallot(c, w.slots, m))
    && (forall l: nat :: LearnerOk(c, w, w.Lrn(c, l)))
  }
}
