/** The protocol as a log: a partial map from instance to value that only grows and is written once per instance. */
module DecidedLog {
  import opened Messages
  import opened Quorums
  import opened Acceptor
  import opened MultiRound
  import opened MultiRoundSafety

  type Log = map<nat, seq<byte>>

  ghost predicate IsDecided(c: Config, s: Sys, i: nat) {
    exists r: nat, v :: Chosen(c, s, i, r, v)
  }

  ghost function Decision(c: Config, s: Sys, i: nat): seq<byte>
    requires IsDecided(c, s, i)
  {
    var r: nat, v :| Chosen(c, s, i, r, v);
    v
  }

  ghost function LogOf(c: Config, s: Sys): Log {
    map i | 0 <= i < c.maxinst && IsDecided(c, s, i) :: Decision(c, s, i)
  }

  /** A step of the abstract log: nothing, or one entry that was not there. */
  ghost predicate LogStep(log: Log, log': Log) {
    log' == log || exists i: nat :: i !in log && i in log' && log' == log[i := log'[i]]
  }

  ghost predicate Submap(log: Log, log': Log) {
    forall i :: i in log ==> i in log' && log'[i] == log[i]
  }

  lemma VotersStay(votes: set<V>, more: set<V>, i: nat, r: nat, v: seq<byte>)
    requires votes <= more
    ensures Voters(votes, i, r, v) <= Voters(more, i, r, v)
  {}

  lemma NewVotesAreHere(c: Config, s: Sys, act: Action)
    requires WellFormed(c) && Enabled(c, s, act)
    ensures Votes(s.net) <= Votes(Apply(c, s, act).net)
    ensures forall x :: x in Votes(Apply(c, s, act).net) && x !in Votes(s.net) ==> act.Answer? && x.inst == act.m.inst
  {
    hide CStr, Handle, Picks;
    match act
    case Prepare(m) => VotesGrow(s.net, m);
    case Propose(m, _) => VotesGrow(s.net, m);
    case Answer(a, m) =>
      var r := ReplyOf(c, a, s.AccOf(a, m.inst), m);
      ReplyKeepsInstance(c, a, s.AccOf(a, m.inst), m);
      VotesGrow(s.net, r.msg);
    case Learn(_, _) =>
  }

  lemma ReplyKeepsInstance(c: Config, a: nat, st: AState, m: Message)
    requires a < MAX_ID
    ensures ReplyOf(c, a, st, m).msg.inst == m.inst
  {
    HandleKeeps(a, st, m);
  }

  lemma DecisionIs(c: Config, s: Sys, i: nat, r: nat, v: seq<byte>)
    requires WellFormed(c) && Sound(c) && Inv(c, s) && Chosen(c, s, i, r, v)
    ensures IsDecided(c, s, i) && Decision(c, s, i) == v
  {
    hide Chosen, Inv;
    var r': nat :| Chosen(c, s, i, r', Decision(c, s, i));
    ChosenIsUnique(c, s, i, r, v, r', Decision(c, s, i));
  }

  lemma DecidedStays(c: Config, s: Sys, t: Sys, i: nat)
    requires WellFormed(c) && Sound(c) && Inv(c, s) && Inv(c, t) && Votes(s.net) <= Votes(t.net) && IsDecided(c, s, i)
    ensures IsDecided(c, t, i) && Decision(c, t, i) == Decision(c, s, i)
  {
    hide Inv, Voters, Votes;
    var v := Decision(c, s, i);
    var r: nat :| Chosen(c, s, i, r, v);
    VotersStay(Votes(s.net), Votes(t.net), i, r, v);
    SubsetSize(Voters(Votes(s.net), i, r, v), Voters(Votes(t.net), i, r, v));
    DecisionIs(c, t, i, r, v);
  }

  lemma UndecidedElsewhere(c: Config, s: Sys, act: Action, i: nat)
    requires WellFormed(c) && Enabled(c, s, act) && IsDecided(c, Apply(c, s, act), i)
    requires act.Answer? ==> act.m.inst != i
    ensures IsDecided(c, s, i)
  {
    hide Votes, Apply, Enabled;
    var t := Apply(c, s, act);
    NewVotesAreHere(c, s, act);
    var r: nat, v :| Chosen(c, t, i, r, v);
    assert Voters(Votes(t.net), i, r, v) == Voters(Votes(s.net), i, r, v);
    assert Chosen(c, s, i, r, v);
  }

  /** Every step of the protocol is a step of the log. */
  lemma StepRefinesLog(c: Config, s: Sys, act: Action)
    requires WellFormed(c) && Sound(c) && Inv(c, s) && Enabled(c, s, act)
    ensures LogStep(LogOf(c, s), LogOf(c, Apply(c, s, act)))
  {
    hide Inv, Votes, Apply, Enabled, Decision, IsDecided;
    var t := Apply(c, s, act);
    var log, log' := LogOf(c, s), LogOf(c, t);
    StepKeepsInv(c, s, act);
    NewVotesAreHere(c, s, act);
    forall i | i in log
      ensures i in log' && log'[i] == log[i]
    {
      DecidedStays(c, s, t, i);
    }
    forall i | i in log' && (act.Answer? ==> act.m.inst != i)
      ensures i in log
    {
      UndecidedElsewhere(c, s, act, i);
    }
    if act.Answer? && act.m.inst in log' && act.m.inst !in log {
      assert log' == log[act.m.inst := log'[act.m.inst]];
    } else {
      assert log' == log;
    }
  }

  /** In every run the log never loses or rewrites an entry. */
  lemma {:induction false} LogIsWriteOnce(c: Config, acts: seq<Action>, n: nat)
    requires WellFormed(c) && Sound(c) && IsRun(c, acts) && n <= |acts|
    ensures IsRun(c, acts[..n]) && Submap(LogOf(c, Exec(c, acts[..n])), LogOf(c, Exec(c, acts)))
    decreases |acts|
  {
    hide Inv, Apply, Enabled, LogOf;
    if n == |acts| {
      assert acts[..n] == acts;
    } else {
      var k := |acts| - 1;
      assert acts[..k][..n] == acts[..n];
      LogIsWriteOnce(c, acts[..k], n);
      RunKeepsInv(c, acts[..k]);
      StepRefinesLog(c, Exec(c, acts[..k]), acts[k]);
    }
  }

  /** What a learner has delivered is in the log, and what is in the log was proposed. */
  lemma DeliveredIsLogged(c: Config, acts: seq<Action>, l: nat, i: nat)
    requires WellFormed(c) && Sound(c) && IsRun(c, acts) && Exec(c, acts).LrnOf(l, i).finished
    ensures i in LogOf(c, Exec(c, acts))
    ensures LogOf(c, Exec(c, acts))[i] == CStr(Exec(c, acts).LrnOf(l, i).paxosval)
    ensures exists r: nat :: Proposed(Exec(c, acts).net, i, r, LogOf(c, Exec(c, acts))[i])
  {
    hide Inv, Exec, IsRun, Chosen, CStr, Proposed;
    var s := Exec(c, acts);
    RunKeepsInv(c, acts);
    FinishedIsChosen(c, s, l, i);
    DecisionIs(c, s, i, s.LrnOf(l, i).rnd, CStr(s.LrnOf(l, i).paxosval));
    InvParts(c, s, l, i);
    InstanceInRange(c, s, i, s.LrnOf(l, i).rnd, CStr(s.LrnOf(l, i).paxosval));
  }

  lemma InstanceInRange(c: Config, s: Sys, i: nat, r: nat, v: seq<byte>)
    requires WellFormed(c) && Shape(c, s.net) && Chosen(c, s, i, r, v)
    ensures i < c.maxinst && Proposed(s.net, i, r, v)
  {
    ChosenIsProposed(c, s, i, r, v);
  }

  /** Two deliveries agree even when they happen at different times of a run. */
  lemma DeliveriesAgreeOverTime(c: Config, acts: seq<Action>, n: nat, l: nat, k: nat, i: nat)
    requires WellFormed(c) && Sound(c) && IsRun(c, acts) && n <= |acts| && IsRun(c, acts[..n])
    requires Exec(c, acts[..n]).LrnOf(l, i).finished && Exec(c, acts).LrnOf(k, i).finished
    ensures CStr(Exec(c, acts[..n]).LrnOf(l, i).paxosval) == CStr(Exec(c, acts).LrnOf(k, i).paxosval)
  {
    hide Exec, IsRun, LogOf, CStr;
    LogIsWriteOnce(c, acts, n);
    DeliveredIsLogged(c, acts[..n], l, i);
    DeliveredIsLogged(c, acts, k, i);
  }

  // ---------- Promises over runs ----------

  /** Every prefix of a run is a run. */
  lemma {:induction false} PrefixIsRun(c: Config, acts: seq<Action>, n: nat)
    requires IsRun(c, acts) && n <= |acts|
    ensures IsRun(c, acts[..n])
    decreases |acts|
  {
    hide Enabled, Apply;
    if n == |acts| {
      assert acts[..n] == acts;
    } else {
      assert acts[..|acts| - 1][..n] == acts[..n];
      PrefixIsRun(c, acts[..|acts| - 1], n);
    }
  }

  /** Step `k` of the run makes acceptor `a` send a phase 2b of round `r` for instance `i`. */
  ghost predicate Emits(c: Config, acts: seq<Action>, k: nat, a: nat, i: nat, r: nat)
    requires IsRun(c, acts)
  {
    k < |acts| && IsRun(c, acts[..k]) && acts[k].Answer? && acts[k].a == a < MAX_ID && acts[k].m.inst == i &&
    var reply := ReplyOf(c, a, Exec(c, acts[..k]).AccOf(a, i), acts[k].m);
    reply.accepted && reply.msg.msgtype == PHASE2B && reply.msg.rnd == r
  }

  /** Whatever the reports and the rule: once an acceptor has promised a round, no phase 2b it sends later is of a
      lower round, not even one it has sent before. */
  lemma PromiseIsKept(c: Config, acts: seq<Action>, n: nat, p: Message, k: nat, r: nat)
    requires WellFormed(c) && IsRun(c, acts) && n <= k < |acts| && IsRun(c, acts[..n])
    requires p in Exec(c, acts[..n]).net && p.msgtype == PHASE1B
    requires Emits(c, acts, k, p.acptid, p.inst, r)
    ensures r >= p.rnd
  {
    hide Inv, Exec, IsRun, Handle, CStr;
    var s := Exec(c, acts[..k]);
    assert acts[..k][..n] == acts[..n];
    RunKeepsInv(c, acts[..k]);
    NetOnlyGrows(c, acts[..k], n);
    PromiseBelowRound(c, s, p);
    HandleKeeps(p.acptid, s.AccOf(p.acptid, p.inst), acts[k].m);
  }

  /** The round of an acceptor never goes back. */
  lemma {:induction false} RoundNeverDecreases(c: Config, acts: seq<Action>, n: nat, a: nat, i: nat)
    requires IsRun(c, acts) && n <= |acts| && IsRun(c, acts[..n])
    ensures Exec(c, acts[..n]).AccOf(a, i).rnd <= Exec(c, acts).AccOf(a, i).rnd
    decreases |acts|
  {
    hide Apply, Enabled;
    if n == |acts| {
      assert acts[..n] == acts;
    } else {
      var k := |acts| - 1;
      assert acts[..k][..n] == acts[..n];
      RoundNeverDecreases(c, acts[..k], n, a, i);
      StepKeepsRound(c, Exec(c, acts[..k]), acts[k], a, i);
    }
  }

  lemma StepKeepsRound(c: Config, s: Sys, act: Action, a: nat, i: nat)
    requires Enabled(c, s, act)
    ensures s.AccOf(a, i).rnd <= Apply(c, s, act).AccOf(a, i).rnd
  {
    hide Handle, Picks, CStr, PromisedByMajority;
    if act.Answer? {
      HandleKeeps(act.a, s.AccOf(act.a, act.m.inst), act.m);
    }
  }

  lemma PromiseBelowRound(c: Config, s: Sys, p: Message)
    requires Inv(c, s) && p in s.net && p.msgtype == PHASE1B
    ensures p.rnd <= s.AccOf(p.acptid, p.inst).rnd
  {}

  lemma {:induction false} NetOnlyGrows(c: Config, acts: seq<Action>, n: nat)
    requires IsRun(c, acts) && n <= |acts| && IsRun(c, acts[..n])
    ensures Exec(c, acts[..n]).net <= Exec(c, acts).net
    decreases |acts|
  {
    hide Enabled, ReplyOf;
    if n == |acts| {
      assert acts[..n] == acts;
    } else {
      assert acts[..|acts| - 1][..n] == acts[..n];
      NetOnlyGrows(c, acts[..|acts| - 1], n);
    }
  }

  /** An acceptor's own record over every run: its round bounds its vote, and it holds its highest-round vote. */
  lemma AcceptorRecord(c: Config, acts: seq<Action>, a: nat, i: nat)
    requires WellFormed(c) && IsRun(c, acts) && a in c.acceptors
    ensures Remembers(Votes(Exec(c, acts).net), i, a, Exec(c, acts).AccOf(a, i))
  {
    hide Exec, IsRun, Votes, Remembers;
    RunKeepsInv(c, acts);
  }
}
