/** The classes take the steps of the deployment: each method call is an action of the transition system. */
module DeploymentCode {
  import opened Messages
  import opened Quorums
  import opened Acceptor
  import opened LearnerSpec
  import opened Learner
  import opened Submission
  import opened Deployment

  // ---------- Proposers ----------

  /** What the proposer's datagram holds has been submitted by it. */
  ghost predicate ProposerIs(p: Proposer, w: World)
    reads p
  {
    p.Valid() && (p.filled ==> (p.datagram.paxosval, p.mine) in w.submitted)
  }

  method NewProposer(c: Config, mine: Address, outstanding: nat) returns (p: Proposer)
    ensures fresh(p) && ProposerIs(p, InitialWorld)
  {
    p := new Proposer(mine, outstanding);
  }

  method SubmitStep(p: Proposer, request: seq<byte>, ghost c: Config, ghost w: World)
    returns (sent: Message, ghost t: World)
    requires ProposerIs(p, w) && Enabled(c, w, Action.Submit(request, p.mine))
    modifies p
    ensures t == Apply(c, w, Action.Submit(request, p.mine)) && ProposerIs(p, t)
    ensures t.toCoordinator == w.toCoordinator + {sent}
  {
    hide CStr, Packed, RequestBlock, Closed;
    sent := p.Submit(request);
    PackedValueIs(0, RequestBlock(request), p.mine);
    t := Apply(c, w, Action.Submit(request, p.mine));
  }

  /** One retry action for each time of sending. */
  ghost function RetryAll(c: Config, w: World, b: Block, client: Address, times: seq<seq<byte>>): (t: World)
    requires (b, client) in w.submitted && Closed(b) && forall k :: 0 <= k < |times| ==> |times[k]| == TS_TO - TS_FROM
    ensures w.submitted <= t.submitted
  {
    hide CStr, Packed, Retimed, Closed, Stamped;
    if times == [] then w else
      var n := |times| - 1;
      Apply(c, RetryAll(c, w, b, client, times[..n]), Action.Retry(b, client, times[n]))
  }

  lemma {:induction false} RetriesAreSent(c: Config, w: World, b: Block, client: Address, times: seq<seq<byte>>,
                                          sent: seq<Message>)
    requires (b, client) in w.submitted && Closed(b) && forall k :: 0 <= k < |times| ==> |times[k]| == TS_TO - TS_FROM
    requires |sent| == |times|
    requires forall k :: 0 <= k < |sent| ==> sent[k] == Packed(Stamped(0, Retimed(b, times[k]), client))
    ensures RetryAll(c, w, b, client, times).toCoordinator == w.toCoordinator + Elements(sent)
    ensures sent != [] ==> (Retimed(b, times[|sent| - 1]), client) in RetryAll(c, w, b, client, times).submitted
  {
    hide CStr, Packed, Retimed, Closed, Stamped, Elements;
    if times == [] {
      NoElements();
    } else {
      var n := |times| - 1;
      RetriesAreSent(c, w, b, client, times[..n], sent[..n]);
      LastElement(sent);
    }
  }

  lemma NoElements()
    ensures Elements([]) == {}
  {}

  lemma LastElement(s: seq<Message>)
    requires s != []
    ensures Elements(s) == Elements(s[..|s| - 1]) + {s[|s| - 1]}
  {
    forall x | x in Elements(s)
      ensures x in Elements(s[..|s| - 1]) || x == s[|s| - 1]
    {
      var k :| 0 <= k < |s| && s[k] == x;
      assert k < |s| - 1 ==> s[..|s| - 1][k] == x;
    }
    forall x | x in Elements(s[..|s| - 1])
      ensures x in Elements(s)
    {
      var k :| 0 <= k < |s| - 1 && s[..|s| - 1][k] == x;
      assert s[k] == x;
    }
  }

  method RetryStep(p: Proposer, times: seq<seq<byte>>, ghost c: Config, ghost w: World)
    returns (sent: seq<Message>, ghost t: World)
    requires ProposerIs(p, w) && |times| == p.outstanding
    requires forall k :: 0 <= k < |times| ==> |times[k]| == TS_TO - TS_FROM
    modifies p
    ensures !old(p.filled) ==> t == w
    ensures old(p.filled) ==> t == RetryAll(c, w, old(p.datagram.paxosval), p.mine, times)
    ensures t.toCoordinator == w.toCoordinator + Elements(sent) && ProposerIs(p, t)
  {
    hide CStr, Packed, Retimed, RetryAll, Stamped, Elements;
    ghost var b := p.datagram.paxosval;
    ghost var filled := p.filled;
    sent := p.Retry(times);
    if filled {
      t := RetryAll(c, w, b, p.mine, times);
      RetriesAreSent(c, w, b, p.mine, times, sent);
      if sent != [] {
        PackedValueIs(0, Retimed(b, times[|sent| - 1]), p.mine);
      }
    } else {
      NoElements();
      t := w;
    }
  }

  // ---------- The coordinator ----------

  method NewCoordinator() returns (co: Coordinator)
    ensures fresh(co) && co.cur_inst == InitialWorld.cur_inst
  {
    co := new Coordinator();
  }

  method NumberStep(co: Coordinator, received: Message, ghost c: Config, ghost w: World)
    returns (sent: Message, ghost t: World)
    requires co.cur_inst == w.cur_inst && Enabled(c, w, Number(received))
    modifies co
    ensures t == Apply(c, w, Number(received)) && co.cur_inst == t.cur_inst
    ensures t.toAcceptors == w.toAcceptors + {sent}
  {
    sent := co.OnValue(received);
    t := Apply(c, w, Number(received));
  }

  // ---------- Acceptors ----------

  ghost predicate AcceptorIs(ctx: AcceptorCtx, a: nat, c: Config, w: World)
    reads ctx, ctx.states, ctx.Repr
  {
    ctx.Valid() && ctx.acceptor_id == a && ctx.view == w.Acc(c, a).states
  }

  method NewAcceptor(a: u16, vlen: nat, maxinst: nat, ghost c: Config) returns (ctx: AcceptorCtx)
    requires maxinst == c.maxinst
    ensures fresh(ctx) && AcceptorIs(ctx, a, c, InitialWorld) && ctx.count_accepted == 0
  {
    ctx := new AcceptorCtx(a, maxinst, vlen);
  }

  method AcceptStep(ctx: AcceptorCtx, bufs: array<Message>, retval: nat, ghost a: nat, ghost c: Config, ghost w: World)
    returns (sent: seq<Message>, ghost t: World)
    requires AcceptorIs(ctx, a, c, w) && retval <= bufs.Length == ctx.out_bufs.Length == ctx.out_iovecs.Length
    requires bufs != ctx.out_bufs && bufs !in ctx.Repr && ctx.count_accepted == 0
    requires Enabled(c, w, Action.Accept(a, bufs[..retval]))
    modifies ctx`view, ctx`count_accepted, ctx.out_bufs, ctx.out_iovecs, ctx.Repr
    ensures t == Apply(c, w, Action.Accept(a, old(bufs[..retval]))) && AcceptorIs(ctx, a, c, t)
    ensures t.toLearners == w.toLearners + Elements(sent)
    ensures !t.Acc(c, a).stopped ==> ctx.count_accepted == 0
  {
    hide AcceptorCtx.Valid, BatchOutcome, Unpacked;
    t := Apply(c, w, Action.Accept(a, bufs[..retval]));
    var halted;
    sent, halted := ctx.OnValue(bufs, retval);
  }

  // ---------- Learners ----------

  ghost predicate LearnerIs(ctx: LearnerCtx, l: nat, c: Config, w: World)
    reads ctx, ctx.states, ctx.Repr
  {
    ctx.Valid() && ctx.maj == Majority(|c.acceptors|)
    && ctx.Now() == Handled(w.Lrn(c, l).states, w.Lrn(c, l).deliveries)
  }

  method NewLearner(l: nat, num_acceptors: nat, vlen: nat, maxinst: nat, ghost c: Config) returns (ctx: LearnerCtx)
    requires maxinst == c.maxinst && num_acceptors == |c.acceptors|
    ensures fresh(ctx) && LearnerIs(ctx, l, c, InitialWorld)
  {
    ctx := new LearnerCtx(num_acceptors, maxinst, vlen);
  }

  method LearnStep(ctx: LearnerCtx, bufs: array<Message>, retval: nat, ghost l: nat, ghost c: Config, ghost w: World)
    returns (halted: bool, ghost t: World)
    requires LearnerIs(ctx, l, c, w) && retval <= bufs.Length == ctx.out_bufs.Length
    requires bufs != ctx.out_bufs && bufs !in ctx.Repr
    requires Enabled(c, w, Action.Learn(l, bufs[..retval]))
    modifies ctx`view, ctx`num_packets, ctx`delivered, ctx.out_bufs, ctx.Repr
    ensures t == Apply(c, w, Action.Learn(l, old(bufs[..retval]))) && LearnerIs(ctx, l, c, t)
    ensures halted <==> t.Lrn(c, l).stopped
  {
    hide LearnerCtx.Valid, HandleAll, Unpacked, InRangePrefix, Majority;
    t := Apply(c, w, Action.Learn(l, bufs[..retval]));
    ViewSize(ctx);
    halted := ctx.OnValue(bufs, retval, AsVotes(bufs[..retval]));
  }

  lemma ViewSize(ctx: LearnerCtx)
    requires ctx.Valid()
    ensures |ctx.view| == ctx.states.Length
  {}

  // ---------- The objects side by side ----------

  // An action of one process leaves the ties of all others in place, so that along a run every object goes on standing
  // for its process: the calls change only the memory they name.

  lemma ProposerStays(p: Proposer, c: Config, w: World, act: Action)
    requires ProposerIs(p, w) && Enabled(c, w, act)
    ensures ProposerIs(p, Apply(c, w, act))
  {
    hide CStr, Packed, BatchOutcome, HandleAll, InRangePrefix, RequestBlock, Retimed;
  }

  lemma CoordinatorStays(co: Coordinator, c: Config, w: World, act: Action)
    requires co.cur_inst == w.cur_inst && Enabled(c, w, act) && !act.Number?
    ensures co.cur_inst == Apply(c, w, act).cur_inst
  {
    hide CStr, Packed, BatchOutcome, HandleAll, InRangePrefix, RequestBlock, Retimed;
  }

  lemma AcceptorStays(ctx: AcceptorCtx, a: nat, c: Config, w: World, act: Action)
    requires AcceptorIs(ctx, a, c, w) && Enabled(c, w, act) && (act.Accept? ==> act.a != a)
    ensures AcceptorIs(ctx, a, c, Apply(c, w, act))
  {
    hide CStr, Packed, BatchOutcome, HandleAll, InRangePrefix, RequestBlock, Retimed, AcceptorCtx.Valid;
  }

  lemma LearnerStays(ctx: LearnerCtx, l: nat, c: Config, w: World, act: Action)
    requires LearnerIs(ctx, l, c, w) && Enabled(c, w, act) && (act.Learn? ==> act.l != l)
    ensures LearnerIs(ctx, l, c, Apply(c, w, act))
  {
    hide CStr, Packed, BatchOutcome, HandleAll, InRangePrefix, RequestBlock, Retimed, LearnerCtx.Valid;
  }
}
