/** The learner: its handler and the loop over a batch of datagrams. */
module Learner {
  import opened Messages
  import opened Bits
  import opened Quorums
  import opened LearnerSpec

  class PaxosState {
    var rnd: u16
    var count: nat
    var from: nat
    var finished: bool
    const paxosval: array<byte>

    constructor ()
      ensures Is(InitialLState) && fresh(paxosval)
    {
      rnd, count, from, finished := 0, 0, 0, false;
      paxosval := new byte[PAXOS_VALUE_SIZE](_ => 0);
    }

    ghost predicate Is(s: LState)
      reads this, paxosval
    {
      rnd == s.rnd && count == s.count && from == s.from && finished == s.finished && paxosval[..] == s.paxosval
    }

    static method Table(maxinst: nat) returns (states: array<PaxosState>)
      ensures fresh(states) && states.Length == maxinst
      ensures forall k :: 0 <= k < maxinst ==> fresh(states[k]) && fresh(states[k].paxosval)
      ensures forall k :: 0 <= k < maxinst ==> states[k].Is(InitialLState)
      ensures forall j, k :: 0 <= j < k < maxinst ==>
                states[j] != states[k] && states[j].paxosval != states[k].paxosval
    {
      hide InitialLState;
      var blank := new PaxosState();
      states := new PaxosState[maxinst](_ => blank);
      for i := 0 to maxinst
        invariant forall k :: 0 <= k < i ==> fresh(states[k]) && fresh(states[k].paxosval)
        invariant forall k :: 0 <= k < i ==> states[k].Is(InitialLState)
        invariant forall j, k :: 0 <= j < k < i ==>
                    states[j] != states[k] && states[j].paxosval != states[k].paxosval
      {
        states[i] := new PaxosState();
      }
    }
  }

  class LearnerCtx {
    const maj: int
    const states: array<PaxosState>
    const out_bufs: array<Message>
    var num_packets: nat
    /** The calls made to the application, in order. */
    var delivered: seq<Delivery>
    /** The state of every instance, as a value. */
    ghost var view: seq<LState>
    /** The states and their buffers. */
    ghost const Repr: set<object>

    ghost predicate Valid()
      reads this, states, Repr
    {
      && |view| == states.Length && num_packets == |delivered|
      && states !in Repr && this !in Repr && out_bufs !in Repr
      && (forall k :: 0 <= k < states.Length ==>
            states[k] in Repr && states[k].paxosval in Repr && states[k].Is(view[k]))
      && (forall j, k :: 0 <= j < k < states.Length ==>
            states[j] != states[k] && states[j].paxosval != states[k].paxosval)
    }

    /** `learner_ctx_new`. */
    constructor (num_acceptors: nat, maxinst: nat, vlen: nat)
      ensures Valid() && fresh(states) && fresh(out_bufs) && fresh(Repr)
      ensures maj == Majority(num_acceptors) && states.Length == maxinst && out_bufs.Length == vlen
      ensures view == InitialStates(maxinst) && delivered == []
    {
      maj := Majority(num_acceptors);
      num_packets := 0;
      delivered := [];
      out_bufs := new Message[vlen](_ => Blank());
      var table := PaxosState.Table(maxinst);
      states := table;
      view := InitialStates(maxinst);
      Repr := (set k | 0 <= k < maxinst :: table[k]) + (set k | 0 <= k < maxinst :: table[k].paxosval);
    }

    /** The learner's answers so far, as a value. */
    ghost function Now(): Handled
      reads this
    {
      Handled(view, delivered)
    }

    /** A message of the round the learner is in. */
    method CountVote(m: Vote)
      requires Valid() && m.inst < states.Length && !view[m.inst].finished && m.rnd == view[m.inst].rnd
      modifies this`view, this`num_packets, this`delivered, Repr
      ensures Valid() && Now() == HandleOne(maj, old(Now()), m)
    {
      hide CStr, And, Or, Mask;
      var state := states[m.inst];
      ghost var s, r := view[m.inst], HandleOne(maj, Now(), m);
      var mask := Mask(m.acptid);
      var exist := And(state.from, mask);
      if exist == 0 {
        state.from := Or(state.from, mask);
        state.count := state.count + 1;
        MemCpyInto(state.paxosval, m.paxosval);
        if state.count == maj {
          state.finished := true;
          delivered := delivered + [Delivery(m.inst, state.paxosval[..], m.client)];
          num_packets := num_packets + 1;
        }
        view := view[m.inst := LState(state.rnd, state.count, state.from, state.finished, m.paxosval)];
        assert view[m.inst] == Accept(maj, s, m) && Now() == r;
      }
    }

    /** A message of a higher round. */
    method ChangeRound(m: Vote)
      requires Valid() && m.inst < states.Length && !view[m.inst].finished && m.rnd > view[m.inst].rnd
      modifies this`view, this`num_packets, this`delivered, Repr
      ensures Valid() && Now() == HandleOne(maj, old(Now()), m)
    {
      hide CStr, StrCpy, Or, Mask;
      var state := states[m.inst];
      ghost var s, r := view[m.inst], HandleOne(maj, Now(), m);
      state.rnd := m.rnd;
      var mask := Mask(m.acptid);
      state.from := Or(state.from, mask);
      state.count := 1;
      StrCpyInto(state.paxosval, m.paxosval);
      view := view[m.inst := LState(m.rnd, 1, state.from, false, StrCpy(s.paxosval, m.paxosval))];
      assert view[m.inst] == Accept(maj, s, m) && Now() == r;
    }

    /** `handle_accepted` */
    method HandleAccepted(m: Vote)
      requires Valid() && m.inst < states.Length
      modifies this`view, this`num_packets, this`delivered, Repr
      ensures Valid() && Now() == HandleOne(maj, old(Now()), m)
    {
      hide CStr, StrCpy, And, Or, Mask;
      var state := states[m.inst];
      if !state.finished {
        if m.rnd == state.rnd {
          CountVote(m);
        } else if m.rnd > state.rnd {
          ChangeRound(m);
        }
      }
    }

    /** One turn of the batch loop. */
    method Turn(bufs: array<Message>, i: nat, ghost m: Vote) returns (stop: bool)
      requires Valid() && i < bufs.Length == out_bufs.Length && bufs != out_bufs && bufs !in Repr
      requires m == Unpacked(bufs[i])
      modifies this`view, this`num_packets, this`delivered, out_bufs, Repr
      ensures Valid() && (stop <==> m.inst >= states.Length)
      ensures Now() == if stop then old(Now()) else HandleOne(maj, old(Now()), m)
    {
      hide CStr, StrCpy, Accept, Delivers, Unpacked, HandleOne;
      out_bufs[i] := bufs[i];
      Unpack(out_bufs, i);
      if out_bufs[i].inst >= states.Length {
        return true;
      }
      HandleAccepted(out_bufs[i]);
      return false;
    }

    /** `on_value`: the received messages are handled one at a time, up to the first whose instance is out of
        range, which stops the learner. */
    method OnValue(bufs: array<Message>, retval: nat, ghost msgs: seq<Vote>) returns (halted: bool)
      requires Valid() && retval <= bufs.Length == out_bufs.Length && bufs != out_bufs && bufs !in Repr
      requires msgs == UnpackAll(bufs[..retval])
      modifies this`view, this`num_packets, this`delivered, out_bufs, Repr
      ensures Valid()
      ensures var n := InRangePrefix(msgs, states.Length);
              && (halted <==> n < retval)
              && view == HandleAll(maj, old(view), msgs[..n]).states
              && delivered == old(delivered) + HandleAll(maj, old(view), msgs[..n]).deliveries
    {
      hide CStr, StrCpy, Accept, Delivers, Unpacked, InRangePrefix, HandleAll, HandleOne;
      ghost var start := view;
      HandleNothing(maj, start);
      for i := 0 to retval
        invariant Valid() && bufs[..] == old(bufs[..]) && |start| == states.Length
        invariant InRange(msgs[..i], states.Length)
        invariant view == HandleAll(maj, start, msgs[..i]).states
        invariant delivered == old(delivered) + HandleAll(maj, start, msgs[..i]).deliveries
      {
        ghost var h := HandleAll(maj, start, msgs[..i]);
        var stop := Turn(bufs, i, msgs[i]);
        if stop {
          InRangePrefixIs(msgs, states.Length, i);
          return true;
        }
        assert InRange(msgs[..i + 1], states.Length);
        HandleAllAppend(maj, start, msgs, i);
        HandleOneAfter(maj, old(delivered), h, msgs[i]);
      }
      InRangePrefixIs(msgs, states.Length, retval);
      halted := false;
    }
  }
}
