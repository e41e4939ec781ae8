/** The acceptor: its two handlers and the loop that answers a batch of datagrams. */
module Acceptor {
  import opened Messages

  const ACCEPTOR_VALUE_SIZE: nat := PAXOS_VALUE_SIZE + 1

  /** A stored value: one byte longer than a message's field, holding a string that fits the field. */
  type Stored = b: seq<byte> | |b| == ACCEPTOR_VALUE_SIZE && |CStr(b)| < PAXOS_VALUE_SIZE
    witness Zeros(ACCEPTOR_VALUE_SIZE)

  /** What `a_state` holds for one instance. */
  datatype AState = AState(rnd: u16, vrnd: u16, paxosval: Stored)

  datatype Reply = Reply(state: AState, msg: Message, accepted: bool)

  const InitialAState: AState := AState(0, 0, Zeros(ACCEPTOR_VALUE_SIZE))

  function InitialStates(maxinst: nat): seq<AState> {
    seq(maxinst, _ => InitialAState)
  }

  /** `handle_phase1a`, including the round it reports: the one just promised. */
  function Phase1a(id: u16, s: AState, m: Message): Reply
  {
    if m.rnd > s.rnd then
      Reply(s.(rnd := m.rnd),
            m.(vrnd := m.rnd, paxosval := StrCpy(m.paxosval, s.paxosval), acptid := id, msgtype := PHASE1B),
            true)
    else
      Reply(s, m, false)
  }

  /** `handle_phase2a`. */
  function Phase2a(id: u16, s: AState, m: Message): Reply
  {
    if m.rnd >= s.rnd then
      Reply(AState(m.rnd, m.rnd, StrCpy(s.paxosval, m.paxosval)), m.(acptid := id, msgtype := PHASE2B), true)
    else
      Reply(s, m, false)
  }

  /** The dispatch on the message type inside `on_value`. */
  function Handle(id: u16, s: AState, m: Message): Reply
  {
    if m.msgtype == PHASE1A then Phase1a(id, s, m)
    else if m.msgtype == PHASE2A then Phase2a(id, s, m)
    else Reply(s, m, false)
  }

  /** A promise never lowers the vote, a vote always carries the proposal's string, and no handler
      touches the buffer invariant or lets the round go back. */
  lemma HandleKeeps(id: u16, s: AState, m: Message)
    ensures var r := Handle(id, s, m);
            && s.rnd <= r.state.rnd
            && (s.vrnd <= s.rnd ==> r.state.vrnd <= r.state.rnd)
            && (!r.accepted ==> r.state == s && r.msg == m)
            && (r.accepted ==> r.msg.acptid == id && r.msg.rnd == m.rnd == r.state.rnd
                               && r.msg.msgtype in {PHASE1B, PHASE2B})
            && (r.accepted ==> r.msg.inst == m.inst && (r.msg.msgtype == PHASE1B <==> m.msgtype == PHASE1A)
                                                    && (r.msg.msgtype == PHASE2B <==> m.msgtype == PHASE2A))
            && (r.accepted && r.msg.msgtype == PHASE1B ==> s.rnd < m.rnd && r.state == s.(rnd := m.rnd)
                                                           && r.msg.vrnd == m.rnd && r.msg.client == m.client
                                                           && CStr(r.msg.paxosval) == CStr(s.paxosval))
            && (r.accepted && r.msg.msgtype == PHASE2B ==> r.msg == m.(acptid := id, msgtype := PHASE2B)
                                                           && s.rnd <= m.rnd && r.state.vrnd == m.rnd
                                                           && CStr(r.state.paxosval) == CStr(m.paxosval))
  {
  }

  /** The round reported by an accepted phase 1a is never the round of the last vote: the comparison that
      admits the message makes the two differ.  The field is right exactly when the message is refused
      and happened to carry that round already. */
  lemma ReportedVoteRound(id: u16, s: AState, m: Message)
    requires s.vrnd <= s.rnd
    ensures Phase1a(id, s, m).msg.vrnd == s.vrnd <==> m.rnd <= s.rnd && m.vrnd == s.vrnd
  {}

  // ---------- Batches ----------

  /** After the first `n` messages of a batch: the states, the out buffers, and which were accepted.
      An accepted slot holds its packed reply, a refused slot its unpacked message. */
  datatype Batch = Batch(states: seq<AState>, outs: seq<Message>, accepted: seq<bool>)

  /** One-at-a-time handling of the unpacked messages `msgs`, in order. */
  ghost function RunBatch(id: u16, states: seq<AState>, msgs: seq<Message>): (b: Batch)
    requires InRange(msgs, |states|)
    ensures |b.states| == |states|
    ensures |b.outs| == |b.accepted| == |msgs|
  {
    if msgs == [] then Batch(states, [], []) else
      var n := |msgs| - 1;
      var b := RunBatch(id, states, msgs[..n]);
      var r := Handle(id, b.states[msgs[n].inst], msgs[n]);
      HandleKeeps(id, b.states[msgs[n].inst], msgs[n]);
      Batch(b.states[msgs[n].inst := r.state],
            b.outs + [if r.accepted then Packed(r.msg) else r.msg],
            b.accepted + [r.accepted])
  }

  /** The replies that should be sent: the accepted slots, in order. */
  ghost function Replies(outs: seq<Message>, accepted: seq<bool>): (r: seq<Message>)
    requires |outs| == |accepted|
    ensures |r| <= |outs|
  {
    if outs == [] then [] else
      var n := |outs| - 1;
      Replies(outs[..n], accepted[..n]) + if accepted[n] then [outs[n]] else []
  }

  /** What `on_value` hands to `sendmmsg`: the first `count_accepted` out buffers. */
  ghost function SentVector(b: Batch): seq<Message>
    requires |b.outs| == |b.accepted|
  {
    b.outs[..|Replies(b.outs, b.accepted)|]
  }

  /** The accepted messages come first. */
  ghost predicate AcceptedFirst(accepted: seq<bool>) {
    forall j, k :: 0 <= j < k < |accepted| && accepted[k] ==> accepted[j]
  }

  /** Every message type is one of the enum's. */
  ghost predicate KnownTypes(msgs: seq<Message>) {
    forall k :: 0 <= k < |msgs| ==> msgs[k].msgtype <= PHASE2B
  }

  /** Accepted slots, and only they, hold a type in network byte order. */
  ghost predicate Marked(outs: seq<Message>, accepted: seq<bool>)
    requires |outs| == |accepted|
  {
    forall k :: 0 <= k < |outs| ==> (accepted[k] <==> outs[k].msgtype > PHASE2B)
  }

  lemma {:induction false} SlotsAreMarked(id: u16, states: seq<AState>, msgs: seq<Message>)
    requires InRange(msgs, |states|) && KnownTypes(msgs)
    ensures Marked(RunBatch(id, states, msgs).outs, RunBatch(id, states, msgs).accepted)
  {
    if msgs != [] {
      var n := |msgs| - 1;
      SlotsAreMarked(id, states, msgs[..n]);
      var b := RunBatch(id, states, msgs[..n]);
      var r := Handle(id, b.states[msgs[n].inst], msgs[n]);
      HandleKeeps(id, b.states[msgs[n].inst], msgs[n]);
      if r.accepted {
        PackedTypeIsForeign(r.msg);
      }
    }
  }

  lemma {:induction false} RepliesAreForeign(outs: seq<Message>, accepted: seq<bool>)
    requires |outs| == |accepted|
    requires Marked(outs, accepted)
    ensures forall k :: 0 <= k < |Replies(outs, accepted)| ==> Replies(outs, accepted)[k].msgtype > PHASE2B
  {
    if outs != [] {
      RepliesAreForeign(outs[..|outs| - 1], accepted[..|outs| - 1]);
    }
  }

  lemma {:induction false} PrefixIsReplies(outs: seq<Message>, accepted: seq<bool>)
    requires |outs| == |accepted| && AcceptedFirst(accepted)
    ensures Replies(outs, accepted) == outs[..|Replies(outs, accepted)|]
  {
    if outs != [] {
      var n := |outs| - 1;
      var p := Replies(outs[..n], accepted[..n]);
      PrefixIsReplies(outs[..n], accepted[..n]);
      assert outs[..n][..|p|] == outs[..|p|];
      if accepted[n] {
        RepliesCountAtLeast(outs[..n], accepted[..n], n);
      }
    }
  }

  lemma {:induction false} RefusedLeavesGap(outs: seq<Message>, accepted: seq<bool>, j: nat, k: nat)
    requires |outs| == |accepted| && j < k < |outs| && !accepted[j] && accepted[k]
    requires forall i :: 0 <= i < j ==> accepted[i]
    ensures j < |Replies(outs, accepted)|
  {
    var n := |outs| - 1;
    if k < n {
      RefusedLeavesGap(outs[..n], accepted[..n], j, k);
    } else {
      RepliesCountAtLeast(outs[..n], accepted[..n], j);
    }
  }

  lemma {:induction false} RepliesCountAtLeast(outs: seq<Message>, accepted: seq<bool>, j: nat)
    requires |outs| == |accepted| && j <= |outs| && forall i :: 0 <= i < j ==> accepted[i]
    ensures j <= |Replies(outs, accepted)|
  {
    if outs != [] {
      var n := |outs| - 1;
      RepliesCountAtLeast(outs[..n], accepted[..n], if j < n then j else n);
    }
  }

  lemma PrefixSentIffAcceptedFirst(outs: seq<Message>, accepted: seq<bool>)
    requires |outs| == |accepted| && Marked(outs, accepted)
    ensures outs[..|Replies(outs, accepted)|] == Replies(outs, accepted) <==> AcceptedFirst(accepted)
  {
    if AcceptedFirst(accepted) {
      PrefixIsReplies(outs, accepted);
    } else {
      var j0, k :| 0 <= j0 < k < |accepted| && accepted[k] && !accepted[j0];
      var j := FirstRefused(accepted, j0);
      RefusedLeavesGap(outs, accepted, j, k);
      RepliesAreForeign(outs, accepted);
      assert outs[..|Replies(outs, accepted)|][j] == outs[j];
    }
  }

  // ---------- Which messages of a batch are accepted ----------

  /** The highest round that instance `i` has had when the messages of `msgs` have arrived: its round at the start,
      or that of a phase 1a or 2a for it. */
  ghost function Highest(states: seq<AState>, msgs: seq<Message>, i: nat): (r: nat)
    requires i < |states|
    ensures r >= states[i].rnd && forall k :: 0 <= k < |msgs| && Asks(msgs[k], i) ==> r >= msgs[k].rnd
    ensures r == states[i].rnd || exists k :: 0 <= k < |msgs| && Asks(msgs[k], i) && r == msgs[k].rnd
  {
    if msgs == [] then states[i].rnd else
      var n := |msgs| - 1;
      var r := Highest(states, msgs[..n], i);
      assert forall k :: 0 <= k < n ==> msgs[k] == msgs[..n][k];
      if Asks(msgs[n], i) && msgs[n].rnd > r then msgs[n].rnd else r
  }

  ghost predicate Asks(m: Message, i: nat) {
    m.inst == i && m.msgtype in {PHASE1A, PHASE2A}
  }

  /** Message `k` of the batch beats the start round of its instance and all earlier requests for it: a phase 1a
      strictly, a phase 2a or equally. */
  ghost predicate Admitted(states: seq<AState>, msgs: seq<Message>, k: nat)
    requires InRange(msgs, |states|) && k < |msgs|
  {
    var high := Highest(states, msgs[..k], msgs[k].inst);
    (msgs[k].msgtype == PHASE1A && msgs[k].rnd > high) || (msgs[k].msgtype == PHASE2A && msgs[k].rnd >= high)
  }

  /** The admitted messages come first. */
  ghost predicate AdmittedFirst(states: seq<AState>, msgs: seq<Message>)
    requires InRange(msgs, |states|)
  {
    forall j, k :: 0 <= j < k < |msgs| && Admitted(states, msgs, k) ==> Admitted(states, msgs, j)
  }

  lemma {:induction false} RoundIsHighest(id: u16, states: seq<AState>, msgs: seq<Message>, i: nat)
    requires InRange(msgs, |states|) && i < |states|
    ensures RunBatch(id, states, msgs).states[i].rnd == Highest(states, msgs, i)
  {
    hide StrCpy, CStr, Packed;
    if msgs != [] {
      RoundIsHighest(id, states, msgs[..|msgs| - 1], i);
    }
  }

  /** A message is accepted exactly when it is admitted by the rounds before it. */
  lemma {:induction false} AcceptedIffAdmitted(id: u16, states: seq<AState>, msgs: seq<Message>, k: nat)
    requires InRange(msgs, |states|) && k < |msgs|
    ensures RunBatch(id, states, msgs).accepted[k] <==> Admitted(states, msgs, k)
  {
    hide StrCpy, CStr, Packed, Highest;
    var n := |msgs| - 1;
    if k < n {
      AcceptedIffAdmitted(id, states, msgs[..n], k);
      assert msgs[..n][..k] == msgs[..k];
    } else {
      RoundIsHighest(id, states, msgs[..n], msgs[n].inst);
    }
  }

  lemma AcceptedFirstIffAdmittedFirst(id: u16, states: seq<AState>, msgs: seq<Message>)
    requires InRange(msgs, |states|)
    ensures AcceptedFirst(RunBatch(id, states, msgs).accepted) <==> AdmittedFirst(states, msgs)
  {
    hide RunBatch, Admitted;
    forall k | 0 <= k < |msgs|
      ensures RunBatch(id, states, msgs).accepted[k] <==> Admitted(states, msgs, k)
    {
      AcceptedIffAdmitted(id, states, msgs, k);
    }
  }

  /** Whatever the message types: where the admitted messages come first, the vector that is sent is the packed
      replies in order. */
  lemma AdmittedFirstIsSent(id: u16, states: seq<AState>, msgs: seq<Message>)
    requires InRange(msgs, |states|) && AdmittedFirst(states, msgs)
    ensures var b := RunBatch(id, states, msgs); SentVector(b) == Replies(b.outs, b.accepted)
  {
    hide RunBatch;
    AcceptedFirstIffAdmittedFirst(id, states, msgs);
    var b := RunBatch(id, states, msgs);
    PrefixIsReplies(b.outs, b.accepted);
  }

  /** With message types of the enum, the sent vector is right for those batches and no others. */
  lemma SentVectorIsRepliesIffPrefix(id: u16, states: seq<AState>, msgs: seq<Message>)
    requires InRange(msgs, |states|) && KnownTypes(msgs)
    ensures var b := RunBatch(id, states, msgs);
            SentVector(b) == Replies(b.outs, b.accepted) <==> AdmittedFirst(states, msgs)
  {
    hide RunBatch;
    SlotsAreMarked(id, states, msgs);
    AcceptedFirstIffAdmittedFirst(id, states, msgs);
    var b := RunBatch(id, states, msgs);
    PrefixSentIffAcceptedFirst(b.outs, b.accepted);
  }

  /** A batch whose second message is refused: three phase 2a for one instance, of rounds 2, 1 and 3.  The second
      reply is lost, and the refused message is sent in its place. */
  lemma RefusedIsSent(id: u16, m: Message)
    ensures var a := m.(inst := 0, msgtype := PHASE2A);
            var msgs := [a.(rnd := 2), a.(rnd := 1), a.(rnd := 3)];
            && InRange(msgs, 1)
            && var b := RunBatch(id, InitialStates(1), msgs);
            && b.accepted == [true, false, true]
            && SentVector(b) == [b.outs[0], b.outs[1]] != [b.outs[0], b.outs[2]] == Replies(b.outs, b.accepted)
  {
    hide RunBatch, Highest, InitialStates;
    var a := m.(inst := 0, msgtype := PHASE2A);
    var msgs := [a.(rnd := 2), a.(rnd := 1), a.(rnd := 3)];
    var states := InitialStates(1);
    InitialRound(1, 0);
    var b := RunBatch(id, states, msgs);
    forall k | 0 <= k < 3
      ensures b.accepted[k] <==> k != 1
    {
      AcceptedIffAdmitted(id, states, msgs, k);
      assert Asks(msgs[0], 0) && msgs[..1][0] == msgs[0] && msgs[..2][0] == msgs[0] && msgs[..2][1] == msgs[1];
    }
    assert b.accepted == [true, false, true];
    SlotsAreMarked(id, states, msgs);
    assert b.outs[..2] == [b.outs[0], b.outs[1]];
    RepliesOfThree(b.outs, b.accepted);
  }

  lemma InitialRound(n: nat, i: nat)
    requires i < n
    ensures |InitialStates(n)| == n && InitialStates(n)[i].rnd == 0
  {}

  lemma RepliesOfThree(outs: seq<Message>, accepted: seq<bool>)
    requires |outs| == 3 && accepted == [true, false, true]
    ensures Replies(outs, accepted) == [outs[0], outs[2]]
  {
    var o, a := outs[..2], accepted[..2];
    assert o[..1][..0] == [] && a[..1][..0] == [];
    assert Replies(o[..1], a[..1]) == [outs[0]];
    assert Replies(o, a) == [outs[0]];
  }

  /** Even then nothing is sent that a learner could take for a vote: what unpacks to a phase 2b is a reply. */
  lemma SentVoteIsReply(id: u16, states: seq<AState>, msgs: seq<Message>, m: Message)
    requires InRange(msgs, |states|) && KnownTypes(msgs) && m in SentVector(RunBatch(id, states, msgs))
    requires Unpacked(m).msgtype == PHASE2B
    ensures m in Replies(RunBatch(id, states, msgs).outs, RunBatch(id, states, msgs).accepted)
  {
    hide RunBatch, Replies;
    SlotsAreMarked(id, states, msgs);
    var b := RunBatch(id, states, msgs);
    var k :| 0 <= k < |b.outs| && b.outs[k] == m;
    AcceptedIsReply(b.outs, b.accepted, k);
  }

  lemma {:induction false} AcceptedIsReply(outs: seq<Message>, accepted: seq<bool>, k: nat)
    requires |outs| == |accepted| && k < |outs| && accepted[k]
    ensures outs[k] in Replies(outs, accepted)
  {
    var n := |outs| - 1;
    if k < n {
      AcceptedIsReply(outs[..n], accepted[..n], k);
    }
  }

  lemma FirstRefused(accepted: seq<bool>, j0: nat) returns (j: nat)
    requires j0 < |accepted| && !accepted[j0]
    ensures j <= j0 && !accepted[j] && forall i :: 0 <= i < j ==> accepted[i]
  {
    j := 0;
    while accepted[j]
      invariant j <= j0 && forall i :: 0 <= i < j ==> accepted[i]
      decreases j0 - j
    {
      j := j + 1;
    }
  }

  // ---------- The code ----------

  class AcceptorState {
    var rnd: u16
    var vrnd: u16
    const paxosval: array<byte>

    constructor ()
      ensures rnd == 0 && vrnd == 0 && fresh(paxosval)
      ensures paxosval[..] == InitialAState.paxosval
    {
      rnd, vrnd := 0, 0;
      paxosval := new byte[ACCEPTOR_VALUE_SIZE](_ => 0);
    }

    static method Table(maxinst: nat) returns (states: array<AcceptorState>)
      ensures fresh(states) && states.Length == maxinst
      ensures forall k :: 0 <= k < maxinst ==> fresh(states[k]) && fresh(states[k].paxosval)
      ensures forall k :: 0 <= k < maxinst ==> states[k].Is(InitialAState)
      ensures forall j, k :: 0 <= j < k < maxinst ==>
                states[j] != states[k] && states[j].paxosval != states[k].paxosval
    {
      var blank := new AcceptorState();
      states := new AcceptorState[maxinst](_ => blank);
      for i := 0 to maxinst
        invariant forall k :: 0 <= k < i ==> fresh(states[k]) && fresh(states[k].paxosval)
        invariant forall k :: 0 <= k < i ==> states[k].Is(InitialAState)
        invariant forall j, k :: 0 <= j < k < i ==>
                    states[j] != states[k] && states[j].paxosval != states[k].paxosval
      {
        states[i] := new AcceptorState();
      }
    }

    ghost predicate Is(s: AState)
      reads this, paxosval
    {
      rnd == s.rnd && vrnd == s.vrnd && paxosval[..] == s.paxosval
    }
  }

  class AcceptorCtx {
    const acceptor_id: u16
    const states: array<AcceptorState>
    const out_bufs: array<Message>
    /** For each outgoing message, the out buffer its `iov_base` points to. */
    const out_iovecs: array<nat>
    var count_accepted: nat
    /** The state of every instance, as a value. */
    ghost var view: seq<AState>

    /** The states and their buffers. */
    ghost const Repr: set<object>

    ghost predicate Valid()
      reads this, states, Repr
    {
      && |view| == states.Length
      && states !in Repr && this !in Repr && out_bufs !in Repr && out_iovecs !in Repr
      && (forall k :: 0 <= k < states.Length ==>
            states[k] in Repr && states[k].paxosval in Repr && states[k].Is(view[k]))
      && (forall j, k :: 0 <= j < k < states.Length ==>
            states[j] != states[k] && states[j].paxosval != states[k].paxosval)
    }

    /** `acceptor_ctx_new`. */
    constructor (id: u16, maxinst: nat, vlen: nat)
      ensures Valid() && fresh(states) && fresh(out_bufs) && fresh(out_iovecs) && fresh(Repr) && count_accepted == 0
      ensures acceptor_id == id && states.Length == maxinst && out_bufs.Length == out_iovecs.Length == vlen
      ensures view == InitialStates(maxinst)
    {
      acceptor_id := id;
      count_accepted := 0;
      out_bufs := new Message[vlen](_ => Blank());
      out_iovecs := new nat[vlen];
      var table := AcceptorState.Table(maxinst);
      states := table;
      view := InitialStates(maxinst);
      Repr := (set k | 0 <= k < maxinst :: table[k]) + (set k | 0 <= k < maxinst :: table[k].paxosval);
    }

    method HandlePhase1a(i: nat) returns (res: bool)
      requires Valid() && i < out_bufs.Length && out_bufs[i].inst < states.Length
      modifies this`view, out_bufs, Repr
      ensures Valid()
      ensures var m := old(out_bufs[i]); var r := Phase1a(acceptor_id, old(view[m.inst]), m);
              res == r.accepted && view == old(view)[m.inst := r.state] && out_bufs[..] == old(out_bufs[..])[i := r.msg]
    {
      hide CStr, StrCpy;
      var state := states[out_bufs[i].inst];
      ghost var inst := out_bufs[i].inst;
      if out_bufs[i].rnd > state.rnd {
        state.rnd := out_bufs[i].rnd;
        out_bufs[i] := out_bufs[i].(vrnd := state.rnd);
        out_bufs[i] := out_bufs[i].(paxosval := StrCpy(out_bufs[i].paxosval, state.paxosval[..]));
        out_bufs[i] := out_bufs[i].(acptid := acceptor_id);
        out_bufs[i] := out_bufs[i].(msgtype := PHASE1B);
        view := view[inst := view[inst].(rnd := state.rnd)];
        return true;
      }
      return false;
    }

    method HandlePhase2a(i: nat) returns (res: bool)
      requires Valid() && i < out_bufs.Length && out_bufs[i].inst < states.Length
      modifies this`view, out_bufs, Repr
      ensures Valid()
      ensures var m := old(out_bufs[i]); var r := Phase2a(acceptor_id, old(view[m.inst]), m);
              res == r.accepted && view == old(view)[m.inst := r.state] && out_bufs[..] == old(out_bufs[..])[i := r.msg]
    {
      hide CStr, StrCpy;
      var state := states[out_bufs[i].inst];
      ghost var inst := out_bufs[i].inst;
      if out_bufs[i].rnd >= state.rnd {
        state.rnd := out_bufs[i].rnd;
        state.vrnd := out_bufs[i].rnd;
        StrCpyInto(state.paxosval, out_bufs[i].paxosval);
        out_bufs[i] := out_bufs[i].(acptid := acceptor_id);
        view := view[inst := AState(state.rnd, state.vrnd, state.paxosval[..])];
        out_bufs[i] := out_bufs[i].(msgtype := PHASE2B);
        return true;
      }
      return false;
    }

    /** The body of the batch loop, once the message has been copied and unpacked. */
    method HandleSlot(i: nat)
      requires Valid() && i < out_bufs.Length == out_iovecs.Length && out_bufs[i].inst < states.Length
      requires count_accepted < out_iovecs.Length
      modifies this`view, this`count_accepted, out_bufs, out_iovecs
      modifies Repr
      ensures Valid()
      ensures var m := old(out_bufs[i]); var r := Handle(acceptor_id, old(view[m.inst]), m);
              && view == old(view)[m.inst := r.state]
              && out_bufs[..] == old(out_bufs[..])[i := if r.accepted then Packed(r.msg) else r.msg]
              && count_accepted == old(count_accepted) + (if r.accepted then 1 else 0)
              && out_iovecs[..] == if r.accepted then old(out_iovecs[..])[old(count_accepted) := old(count_accepted)]
                                   else old(out_iovecs[..])
    {
      hide Phase1a, Phase2a, Packed, CStr, StrCpy;
      var res := false;
      if out_bufs[i].msgtype == PHASE1A {
        res := HandlePhase1a(i);
      } else if out_bufs[i].msgtype == PHASE2A {
        res := HandlePhase2a(i);
      }
      if res {
        Pack(out_bufs, i);
        out_iovecs[count_accepted] := count_accepted;
        count_accepted := count_accepted + 1;
      }
    }

    /** `sendmmsg` gathers the buffers the vector points to. */
    method Gather() returns (sent: seq<Message>)
      requires count_accepted <= out_iovecs.Length == out_bufs.Length
      requires forall k :: 0 <= k < count_accepted ==> out_iovecs[k] == k
      ensures sent == out_bufs[..count_accepted]
    {
      sent := [];
      for k := 0 to count_accepted
        invariant sent == out_bufs[..k]
      {
        sent := sent + [out_bufs[out_iovecs[k]]];
      }
    }

    /** One turn of the batch loop. */
    method Turn(bufs: array<Message>, i: nat, ghost start: seq<AState>, ghost msgs: seq<Message>)
      returns (stop: bool)
      requires Valid() && i < |msgs| <= bufs.Length == out_bufs.Length && bufs != out_bufs
      requires BatchDone(i, start, msgs) && msgs[i] == Unpacked(bufs[i])
      modifies this`view, this`count_accepted, out_bufs, out_iovecs
      modifies Repr
      ensures Valid()
      ensures stop <==> msgs[i].inst >= states.Length
      ensures stop ==> view == old(view)
      ensures !stop ==> BatchDone(i + 1, start, msgs)
    {
      hide Handle, Packed, Unpacked, RunBatch, Replies, CStr, StrCpy;
      out_bufs[i] := bufs[i];
      Unpack(out_bufs, i);
      if out_bufs[i].inst >= states.Length {
        return true;
      }
      ExtendBatch(acceptor_id, start, msgs, i);
      HandleSlot(i);
      return false;
    }

    /** `on_value` for `retval` received datagrams: the states and the sent vector are those of handling the
        messages one at a time, up to a message whose instance is out of range, which stops the acceptor
        with nothing sent. */
    method OnValue(bufs: array<Message>, retval: nat) returns (sent: seq<Message>, halted: bool)
      requires Valid() && retval <= bufs.Length == out_bufs.Length == out_iovecs.Length
      requires bufs != out_bufs && bufs !in Repr && count_accepted == 0
      modifies this`view, this`count_accepted, out_bufs, out_iovecs
      modifies Repr
      ensures Valid()
      ensures Outcome(view, sent, halted) == BatchOutcome(acceptor_id, old(view), UnpackAll(bufs[..retval]))
      ensures !halted ==> count_accepted == 0
    {
      hide Handle, Packed, Unpacked, RunBatch, Replies, CStr, StrCpy, BatchOutcome;
      ghost var msgs := UnpackAll(bufs[..retval]);
      ghost var start := view;
      EmptyBatch(acceptor_id, start);
      for i := 0 to retval
        invariant Valid() && bufs[..] == old(bufs[..])
        invariant BatchDone(i, start, msgs)
      {
        var stop := Turn(bufs, i, start, msgs);
        if stop {
          OutcomeIs(acceptor_id, start, msgs, i);
          return [], true;
        }
      }
      assert msgs[..retval] == msgs;
      OutcomeIs(acceptor_id, start, msgs, retval);
      sent := Gather();
      if count_accepted > 0 {
        count_accepted := 0;
      }
      halted := false;
    }

    /** What the batch loop has established after `i` messages. */
    ghost predicate BatchDone(i: nat, start: seq<AState>, msgs: seq<Message>)
      reads this, out_bufs, out_iovecs
    {
      && i <= |msgs| && i <= out_bufs.Length == out_iovecs.Length && |start| == |view| == states.Length
      && InRange(msgs[..i], states.Length)
      && var b := RunBatch(acceptor_id, start, msgs[..i]);
      && view == b.states && out_bufs[..i] == b.outs
      && count_accepted == |Replies(b.outs, b.accepted)|
      && forall k :: 0 <= k < count_accepted ==> out_iovecs[k] == k
    }
  }

  /** What a whole call of `on_value` amounts to. */
  datatype Outcome = Outcome(states: seq<AState>, sent: seq<Message>, halted: bool)

  ghost function BatchOutcome(id: u16, states: seq<AState>, msgs: seq<Message>): Outcome
  {
    var n := InRangePrefix(msgs, |states|);
    var b := RunBatch(id, states, msgs[..n]);
    Outcome(b.states, if n < |msgs| then [] else SentVector(b), n < |msgs|)
  }

  lemma OutcomeIs(id: u16, states: seq<AState>, msgs: seq<Message>, n: nat)
    requires n <= |msgs| && InRange(msgs[..n], |states|)
    requires n < |msgs| ==> msgs[n].inst >= |states|
    ensures var b := RunBatch(id, states, msgs[..n]);
            BatchOutcome(id, states, msgs) == Outcome(b.states, if n < |msgs| then [] else SentVector(b), n < |msgs|)
  {
    hide RunBatch, SentVector;
    InRangePrefixIs(msgs, |states|, n);
  }

  lemma EmptyBatch(id: u16, start: seq<AState>)
    ensures RunBatch(id, start, []) == Batch(start, [], []) && Replies([], []) == []
  {}

  lemma ExtendBatch(id: u16, start: seq<AState>, msgs: seq<Message>, i: nat)
    requires i < |msgs| 
    requires InRange(msgs[..i + 1], |start|)
    ensures InRange(msgs[..i], |start|)
    ensures var b := RunBatch(id, start, msgs[..i]);
            var r := Handle(id, b.states[msgs[i].inst], msgs[i]);
            var c := RunBatch(id, start, msgs[..i + 1]);
            && c.states == b.states[msgs[i].inst := r.state]
            && c.outs == b.outs + [if r.accepted then Packed(r.msg) else r.msg]
            && |Replies(c.outs, c.accepted)| == |Replies(b.outs, b.accepted)| + if r.accepted then 1 else 0
  {
    assert msgs[..i + 1][..i] == msgs[..i];
    var b := RunBatch(id, start, msgs[..i]);
    var c := RunBatch(id, start, msgs[..i + 1]);
    assert c.outs[..i] == b.outs && c.accepted[..i] == b.accepted;
  }
}
