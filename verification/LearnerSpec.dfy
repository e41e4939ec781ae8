/** What a learner makes of the messages of one instance, as a fold over the messages it handles. */
module LearnerSpec {
  import opened Messages
  import opened Bits
  import opened Quorums

  /** What `paxos_state` holds for one instance. */
  datatype LState = LState(rnd: u16, count: nat, from: nat, finished: bool, paxosval: Block)

  const InitialLState: LState := LState(0, 0, 0, false, Zeros(PAXOS_VALUE_SIZE))

  /** A message with an acceptor id the learner can shift by. */
  type Vote = m: Message | m.acptid < MAX_ID witness Message(0, 0, 0, 0, 0, Zeros(PAXOS_VALUE_SIZE), 0)

  /** `handle_accepted`.  The message type is never looked at; a higher round resets the count but neither the
      mask nor a test for the majority. */
  function Accept(maj: int, s: LState, m: Vote): LState
  {
    if s.finished then s
    else if m.rnd == s.rnd then
      if And(s.from, Mask(m.acptid)) != 0 then s
      else LState(s.rnd, s.count + 1, Or(s.from, Mask(m.acptid)), s.count + 1 == maj, m.paxosval)
    else if m.rnd > s.rnd then
      LState(m.rnd, 1, Or(s.from, Mask(m.acptid)), false, StrCpy(s.paxosval, m.paxosval))
    else s
  }

  /** One message: it is passed over exactly when the instance is finished, the round is old, or its sender's bit is set
      in the current round.  Otherwise the buffer takes its value, in the current round the whole block and on a change
      of round the string, before what the buffer held behind it. */
  lemma AcceptTakes(maj: int, s: LState, m: Vote)
    ensures var t := Accept(maj, s, m);
            && (t == s <==> s.finished || m.rnd < s.rnd || (m.rnd == s.rnd && m.acptid in Heard(s.from)))
            && (t != s ==> t.rnd == m.rnd && Heard(t.from) == Heard(s.from) + {m.acptid}
                           && CStr(t.paxosval) == CStr(m.paxosval))
            && (t != s && m.rnd == s.rnd ==> t.count == s.count + 1 && t.paxosval == m.paxosval
                                             && (t.finished <==> t.count == maj))
            && (t != s && m.rnd > s.rnd ==>
                  t.count == 1 && !t.finished
                  && t.paxosval[|CStr(m.paxosval)| + 1..] == s.paxosval[|CStr(m.paxosval)| + 1..])
  {
    hide And, Or, Mask, CStr;
    HeardAfterOr(s.from, m.acptid);
    if And(s.from, Mask(m.acptid)) != 0 {
      AlreadyHeard(s.from, m.acptid);
    } else {
      NotHeard(s.from, m.acptid);
    }
  }

  /** `handle_accepted` calls back into the application on this message. */
  predicate Delivers(maj: int, s: LState, m: Vote)
  {
    !s.finished && Accept(maj, s, m).finished
  }

  /** The state after handling the messages of `h`, all for one instance, in order. */
  ghost function Run(maj: int, h: seq<Vote>): (s: LState)
  {
    if h == [] then InitialLState else Accept(maj, Run(maj, h[..|h| - 1]), h[|h| - 1])
  }

  // ---------- Frozen once finished ----------

  /** After an instance is finished no message changes anything about it, its 32 value bytes included. */
  lemma {:induction false} FinishedIsFrozen(maj: int, h: seq<Vote>, more: seq<Vote>)
    requires Run(maj, h).finished
    ensures Run(maj, h + more) == Run(maj, h)
  {
    if more == [] {
      assert h + more == h;
    } else {
      var n := |more| - 1;
      assert (h + more)[..|h + more| - 1] == h + more[..n];
      FinishedIsFrozen(maj, h, more[..n]);
    }
  }

  /** The prefixes of a history at whose last message the application is called. */
  ghost predicate DeliversAt(maj: int, h: seq<Vote>, n: nat)
  {
    n < |h| && Delivers(maj, Run(maj, h[..n]), h[n])
  }

  /** An instance is delivered at most once, and what the buffer holds ever after is the whole value block of
      the message that completed the majority: no byte is left over from an earlier copy. */
  lemma DeliveredOnceAndWhole(maj: int, h: seq<Vote>, n: nat)
    requires DeliversAt(maj, h, n)
    ensures forall k: nat :: DeliversAt(maj, h, k) ==> k == n
    ensures Run(maj, h).finished && Run(maj, h).paxosval == h[n].paxosval && Run(maj, h).rnd == h[n].rnd
  {
    forall k: nat | DeliversAt(maj, h, k)
      ensures k == n
    {
      if k < n {
        FrozenFrom(maj, h, k, n);
      } else if n < k {
        FrozenFrom(maj, h, n, k);
      }
    }
    FrozenFrom(maj, h, n, |h|);
    assert h[..|h|] == h;
  }

  lemma FrozenFrom(maj: int, h: seq<Vote>, k: nat, n: nat)
    requires k < n <= |h| && DeliversAt(maj, h, k)
    ensures Run(maj, h[..n]) == Accept(maj, Run(maj, h[..k]), h[k])
  {
    assert h[..k + 1][..k] == h[..k];
    assert h[..n] == h[..k + 1] + h[k + 1..n];
    FinishedIsFrozen(maj, h[..k + 1], h[k + 1..n]);
  }

  // ---------- What is counted ----------

  ghost function MaxRound(h: seq<Vote>): (r: nat)
    ensures forall k :: 0 <= k < |h| ==> h[k].rnd <= r
    ensures r == 0 || exists k :: 0 <= k < |h| && h[k].rnd == r
  {
    if h == [] then 0 else
      var n := |h| - 1;
      assert forall k :: 0 <= k < n ==> h[k] == h[..n][k];
      if h[n].rnd > MaxRound(h[..n]) then h[n].rnd else MaxRound(h[..n])
  }

  /** The acceptors a message of round `r` came from. */
  ghost function HeardIn(h: seq<Vote>, r: nat): set<nat> {
    set k | 0 <= k < |h| && h[k].rnd == r :: h[k].acptid
  }

  /** The first message of round `r`. */
  ghost function FirstOf(h: seq<Vote>, r: nat): (k: nat)
    ensures k <= |h| && (k < |h| ==> h[k].rnd == r)
    ensures forall j :: 0 <= j < k ==> h[j].rnd != r
  {
    if h == [] || h[0].rnd == r then 0 else
      var k := 1 + FirstOf(h[1..], r);
      assert forall j :: 1 <= j < k ==> h[j] == h[1..][j - 1];
      k
  }

  /** The acceptor whose message moved the learner to the current round; nobody moves it to round 0. */
  ghost function Switcher(h: seq<Vote>): set<nat> {
    var k := FirstOf(h, MaxRound(h));
    if MaxRound(h) > 0 && k < |h| then {h[k].acptid} else {}
  }

  /** Message `k` is of no lower round than any message before it. */
  ghost predicate Current(h: seq<Vote>, k: nat) {
    k < |h| && forall j :: 0 <= j < k ==> h[j].rnd <= h[k].rnd
  }

  /** The senders of the messages that were current when they came. */
  ghost function Setters(h: seq<Vote>): set<nat> {
    set k | 0 <= k < |h| && Current(h, k) :: h[k].acptid
  }

  /** The acceptors whose bit was already set when the current round began: those that had sent a message that was
      current when it came. */
  ghost function Stale(h: seq<Vote>): set<nat>
  {
    if MaxRound(h) == 0 then {} else Setters(h[..FirstOf(h, MaxRound(h))])
  }

  /** The acceptors that count towards the current round. */
  ghost function Counted(h: seq<Vote>): set<nat>
  {
    Switcher(h) + (HeardIn(h, MaxRound(h)) - Stale(h))
  }

  lemma FirstOfPrefix(h: seq<Vote>, m: Vote, r: nat)
    requires FirstOf(h, r) < |h|
    ensures FirstOf(h + [m], r) == FirstOf(h, r)
  {
    assert forall j :: 0 <= j < |h| ==> (h + [m])[j] == h[j];
  }

  lemma HeardInPrefix(h: seq<Vote>, m: Vote, r: nat)
    ensures HeardIn(h + [m], r) == HeardIn(h, r) + if m.rnd == r then {m.acptid} else {}
  {
    var g := h + [m];
    forall x | x in HeardIn(h, r)
      ensures x in HeardIn(g, r)
    {
      var k :| 0 <= k < |h| && h[k].rnd == r && h[k].acptid == x;
      assert g[k] == h[k];
    }
    assert g[|h|] == m;
  }

  /** A further message adds its sender if it is current. */
  lemma SettersOfAppend(h: seq<Vote>, m: Vote)
    ensures Setters(h + [m]) == Setters(h) + if m.rnd >= MaxRound(h) then {m.acptid} else {}
  {
    var g := h + [m];
    forall k: nat
      ensures k < |h| ==> (Current(g, k) <==> Current(h, k)) && g[k] == h[k]
    {
      assert k < |h| ==> forall j :: 0 <= j <= k ==> g[j] == h[j];
    }
    assert Current(g, |h|) <==> m.rnd >= MaxRound(h) by { NewIsCurrent(h, m); }
    assert g[|h|] == m;
  }

  lemma NewIsCurrent(h: seq<Vote>, m: Vote)
    ensures Current(h + [m], |h|) <==> m.rnd >= MaxRound(h)
  {
    var g := h + [m];
    assert forall j :: 0 <= j < |h| ==> g[j] == h[j];
  }

  lemma MaxRoundOfAppend(h: seq<Vote>, m: Vote)
    ensures MaxRound(h + [m]) == if m.rnd > MaxRound(h) then m.rnd else MaxRound(h)
  {
    assert (h + [m])[..|h|] == h;
  }

  lemma NobodyHeardAbove(h: seq<Vote>, r: nat)
    requires r > MaxRound(h)
    ensures HeardIn(h, r) == {}
  {}

  /** A message of a new round leaves only its own sender counted. */
  lemma CountedAfterSwitch(h: seq<Vote>, m: Vote)
    requires m.rnd > MaxRound(h)
    ensures Counted(h + [m]) == {m.acptid} && Stale(h + [m]) == Setters(h)
    ensures HeardIn(h + [m], m.rnd) == {m.acptid}
  {
    hide Run, MaxRound, FirstOf, HeardIn, Setters;
    var g := h + [m];
    MaxRoundOfAppend(h, m);
    HeardInPrefix(h, m, m.rnd);
    NobodyHeardAbove(h, m.rnd);
    var k := FirstOf(g, m.rnd);
    assert g[|h|] == m && forall j :: 0 <= j < |h| ==> g[j] == h[j];
    assert g[..k] == h;
  }

  /** Within a round nothing changes but the acceptors heard. */
  lemma CountedWithinRound(h: seq<Vote>, m: Vote)
    requires m.rnd <= MaxRound(h)
    ensures Switcher(h + [m]) == Switcher(h) && Stale(h + [m]) == Stale(h)
    ensures HeardIn(h + [m], MaxRound(h)) == HeardIn(h, MaxRound(h)) + if m.rnd == MaxRound(h) then {m.acptid} else {}
  {
    hide Run, MaxRound, FirstOf, HeardIn, Setters;
    var g := h + [m];
    MaxRoundOfAppend(h, m);
    HeardInPrefix(h, m, MaxRound(h));
    if MaxRound(h) > 0 {
      var j :| 0 <= j < |h| && h[j].rnd == MaxRound(h);
      var k := FirstOf(h, MaxRound(h));
      FirstOfPrefix(h, m, MaxRound(h));
      assert g[k] == h[k] && g[..k] == h[..k];
    }
  }

  /** What the learner's fields mean before it has finished. */
  ghost predicate Tracks(maj: int, h: seq<Vote>)
  {
    var s := Run(maj, h);
    && s.rnd == MaxRound(h)
    && Heard(s.from) == Setters(h) == Stale(h) + HeardIn(h, MaxRound(h))
    && s.count == |Counted(h)|
    && Counted(h) <= HeardIn(h, MaxRound(h))
    && (s.rnd > 0 ==> s.count >= 1)
  }

  lemma RunAppend(maj: int, h: seq<Vote>, m: Vote)
    ensures Run(maj, h + [m]) == Accept(maj, Run(maj, h), m)
  {
    assert (h + [m])[..|h|] == h;
  }

  lemma TracksStep(maj: int, h: seq<Vote>, m: Vote)
    requires Tracks(maj, h) && !Run(maj, h).finished
    ensures Tracks(maj, h + [m])
  {
    hide Run, MaxRound, FirstOf, HeardIn, Heard, Switcher, Stale, Setters, Or, And, StrCpy, CStr;
    RunAppend(maj, h, m);
    MaxRoundOfAppend(h, m);
    SettersOfAppend(h, m);
    if m.rnd > MaxRound(h) {
      HeardAfterOr(Run(maj, h).from, m.acptid);
      CountedAfterSwitch(h, m);
    } else {
      CountedWithinRound(h, m);
      if m.rnd == MaxRound(h) {
        TracksVote(maj, h, m);
      } else {
        assert Counted(h + [m]) == Counted(h);
      }
    }
  }

  lemma TracksVote(maj: int, h: seq<Vote>, m: Vote)
    requires Tracks(maj, h) && !Run(maj, h).finished && m.rnd == MaxRound(h)
    ensures Tracks(maj, h + [m])
  {
    hide Run, MaxRound, FirstOf, HeardIn, Heard, Switcher, Stale, Setters, Or, And, StrCpy, CStr;
    var s := Run(maj, h);
    RunAppend(maj, h, m);
    MaxRoundOfAppend(h, m);
    SettersOfAppend(h, m);
    CountedWithinRound(h, m);
    if And(s.from, Mask(m.acptid)) == 0 {
      NotHeard(s.from, m.acptid);
      HeardAfterOr(s.from, m.acptid);
      assert Counted(h + [m]) == Counted(h) + {m.acptid};
    } else {
      AlreadyHeard(s.from, m.acptid);
      assert Counted(h + [m]) == Counted(h);
    }
  }

  lemma NotHeard(from: nat, id: nat)
    requires id < MAX_ID && And(from, Mask(id)) == 0
    ensures id !in Heard(from)
  {}

  lemma AlreadyHeard(from: nat, id: nat)
    requires id < MAX_ID && And(from, Mask(id)) != 0
    ensures id in Heard(from)
  {}

  /** In every history that had not finished before its last message, the count is the number of acceptors that
      either moved the learner to the current round or were heard in it without their bit being set from
      before; all of them did vote in that one round. */
  lemma {:induction false} CountIsFreshVoters(maj: int, h: seq<Vote>)
    requires h == [] || !Run(maj, h[..|h| - 1]).finished
    ensures Tracks(maj, h)
  {
    if h == [] {
      NoneHeard();
    } else {
      var n := |h| - 1;
      assert h == h[..n] + [h[n]];
      CountIsFreshVoters(maj, h[..n]);
      TracksStep(maj, h[..n], h[n]);
    }
  }

  /** A round the learner can finish in: it tests for the majority only on a message that finds the round
      current, which for a majority of one happens only in the initial round. */
  predicate CanFinish(maj: int, r: nat) {
    r == 0 || maj >= 2
  }

  lemma {:induction false} UnfinishedIsBelow(maj: int, h: seq<Vote>)
    requires maj >= 1 && !Run(maj, h).finished && CanFinish(maj, MaxRound(h))
    ensures Run(maj, h).count < maj
  {
    hide Run, Counted, HeardIn, MaxRound, Stale, Setters, Heard, StrCpy, CStr, Or, And;
    RunOfNothing(maj);
    if h != [] {
      var n := |h| - 1;
      var s := Run(maj, h[..n]);
      assert h == h[..n] + [h[n]];
      RunAppend(maj, h[..n], h[n]);
      UnfinishedPrefix(maj, h, n);
      if n > 0 {
        UnfinishedPrefix(maj, h, n - 1);
        assert h[..n][..n - 1] == h[..n - 1];
      }
      CountIsFreshVoters(maj, h[..n]);
      MaxRoundOfAppend(h[..n], h[n]);
      if CanFinish(maj, MaxRound(h[..n])) {
        UnfinishedIsBelow(maj, h[..n]);
      }
    }
  }

  lemma UnfinishedPrefix(maj: int, h: seq<Vote>, n: nat)
    requires n <= |h| && !Run(maj, h).finished
    ensures !Run(maj, h[..n]).finished
  {
    assert h == h[..n] + h[n..];
    if Run(maj, h[..n]).finished {
      FinishedIsFrozen(maj, h[..n], h[n..]);
    }
  }

  lemma RunOfNothing(maj: int)
    ensures Run(maj, []) == InitialLState
  {}

  /** The message that finished an instance, and why it did. */
  lemma {:induction false} FinishingPoint(maj: int, h: seq<Vote>) returns (n: nat)
    requires maj >= 1 && Run(maj, h).finished
    ensures n < |h| && DeliversAt(maj, h, n) && h[n].rnd == MaxRound(h[..n + 1])
    ensures |Counted(h[..n + 1])| == maj && CanFinish(maj, MaxRound(h[..n + 1]))
    ensures Counted(h[..n + 1]) <= HeardIn(h[..n + 1], h[n].rnd)
  {
    hide Run, Counted, HeardIn, MaxRound, Setters, Heard, StrCpy, Or, And;
    RunOfNothing(maj);
    assert h != [];
    n := |h| - 1;
    if Run(maj, h[..n]).finished {
      var k := n;
      n := FinishingPoint(maj, h[..k]);
      assert h[..k][..n] == h[..n] && h[..k][..n + 1] == h[..n + 1];
    } else {
      assert h[..n + 1] == h;
      LastMessageFinishes(maj, h, n);
    }
  }

  lemma LastMessageFinishes(maj: int, h: seq<Vote>, n: nat)
    requires |h| == n + 1 && !Run(maj, h[..n]).finished && Run(maj, h).finished
    ensures DeliversAt(maj, h, n) && h[n].rnd == MaxRound(h)
    ensures |Counted(h)| == maj && CanFinish(maj, MaxRound(h))
    ensures Counted(h) <= HeardIn(h, h[n].rnd)
  {
    hide Run, Counted, HeardIn, MaxRound, Setters, Heard, StrCpy, Or, And;
    assert h == h[..n] + [h[n]];
    RunAppend(maj, h[..n], h[n]);
    if n > 0 {
      UnfinishedPrefix(maj, h[..n], n - 1);
    }
    CountIsFreshVoters(maj, h[..n]);
    CountIsFreshVoters(maj, h);
    MaxRoundOfAppend(h[..n], h[n]);
  }

  /** A history is finished exactly when at some point as many acceptors as the majority were counted, in a
      round that can finish.  Acceptors whose bit was stale are missing from the count, so a majority of
      votes in one round is not by itself enough. */
  lemma FinishedIff(maj: int, h: seq<Vote>)
    requires maj >= 1
    ensures Run(maj, h).finished <==>
            exists n: nat :: n <= |h| && |Counted(h[..n])| >= maj && CanFinish(maj, MaxRound(h[..n]))
  {
    hide Run, Counted, MaxRound, HeardIn;
    if Run(maj, h).finished {
      var n := FinishingPoint(maj, h);
      assert n + 1 <= |h| && |Counted(h[..n + 1])| >= maj;
    } else if n: nat :| n <= |h| && |Counted(h[..n])| >= maj && CanFinish(maj, MaxRound(h[..n])) {
      UnfinishedPrefix(maj, h, n);
      if n > 0 {
        UnfinishedPrefix(maj, h, n - 1);
        assert h[..n][..n - 1] == h[..n - 1];
      }
      CountIsFreshVoters(maj, h[..n]);
      UnfinishedIsBelow(maj, h[..n]);
    }
  }

  /** A delivery is backed by a majority of distinct acceptors whose votes in the round of the delivered value
      the learner has handled. */
  lemma DeliveryHasMajority(maj: int, h: seq<Vote>, n: nat)
    requires maj >= 1 && DeliversAt(maj, h, n)
    ensures |HeardIn(h[..n + 1], h[n].rnd)| >= maj
  {
    hide Run, Counted, MaxRound, HeardIn, CanFinish;
    var g := h[..n + 1];
    assert g[..n] == h[..n] && g == g[..n] + [g[n]];
    RunAppend(maj, g[..n], g[n]);
    assert DeliversAt(maj, g, n);
    var k := FinishingPoint(maj, g);
    DeliveredOnceAndWhole(maj, g, k);
    assert g[..k + 1] == g;
    SubsetSize(Counted(g), HeardIn(g, h[n].rnd));
  }

  lemma NothingSet(mask: nat)
    ensures And(0, mask) == 0
  {}

  lemma AlreadySet()
    ensures And(3, 1) != 0
  {}

  lemma {:induction false} OneOrTwo()
    ensures Mask(0) == 1 && Mask(1) == 2 && Or(0, 1) == 1 && Or(1, 2) == 3
  {
    assert Or(0, 1) == 1 && Pow2(0) == 1;
  }

  /** The converse fails: here two of three acceptors vote in round 1, but one of them had been heard in round
      0, whose bits are never cleared, and the instance stays open. */
  lemma MajorityMissed(m: Vote)
    ensures var h := [m.(rnd := 0, acptid := 0), m.(rnd := 1, acptid := 1), m.(rnd := 1, acptid := 0)];
            && |HeardIn(h, 1)| >= Majority(3) && !Run(Majority(3), h).finished
  {
    hide Run, And, Or, Mask, StrCpy, CStr, Majority;
    MajorityIsLeast(3, 2);
    MajorityIsLeast(3, 1);
    OneOrTwo();
    var a, b, c := m.(rnd := 0, acptid := 0), m.(rnd := 1, acptid := 1), m.(rnd := 1, acptid := 0);
    var h := [a, b, c];
    RunOfNothing(2);
    RunAppend(2, [], a);
    RunAppend(2, [a], b);
    RunAppend(2, [a, b], c);
    NothingSet(Mask(0));
    assert h == [a, b] + [c] && [a, b] == [a] + [b] && [a] == [] + [a];
    AlreadySet();
    assert HeardIn(h, 1) >= {0, 1} by {
      assert h[1] == b && h[2] == c;
    }
    SubsetSize({0, 1}, HeardIn(h, 1));
  }

  // ---------- The shipped case: every vote is of round 0 ----------

  ghost predicate AllRoundZero(h: seq<Vote>) {
    forall k :: 0 <= k < |h| ==> h[k].rnd == 0
  }

  /** With votes of round 0 only, an instance is finished if and only if a majority of distinct acceptors has
      voted, whatever the order and however often each vote arrives; until then the count is the number of
      acceptors whose bit is set. */
  lemma RoundZeroIsASetOfVotes(maj: int, h: seq<Vote>)
    requires maj >= 1 && AllRoundZero(h)
    ensures Run(maj, h).finished <==> |HeardIn(h, 0)| >= maj
    ensures !Run(maj, h).finished ==> Run(maj, h).count == |Heard(Run(maj, h).from)| == |HeardIn(h, 0)|
  {
    hide Run, Counted, MaxRound, HeardIn, Heard;
    FinishedIff(maj, h);
    if Run(maj, h).finished {
      var n: nat :| n <= |h| && |Counted(h[..n])| >= maj && CanFinish(maj, MaxRound(h[..n]));
      CountedAtRoundZero(h, n);
      SubsetSize(Counted(h[..n]), HeardIn(h, 0));
    } else {
      CountedAtRoundZero(h, |h|);
      assert h[..|h|] == h;
      if h != [] {
        UnfinishedPrefix(maj, h, |h| - 1);
      }
      CountIsFreshVoters(maj, h);
      assert CanFinish(maj, MaxRound(h));
    }
  }

  lemma CountedAtRoundZero(h: seq<Vote>, n: nat)
    requires AllRoundZero(h) && n <= |h|
    ensures MaxRound(h[..n]) == 0 && Stale(h[..n]) == {}
    ensures Counted(h[..n]) == HeardIn(h[..n], 0) <= HeardIn(h, 0)
  {
    hide Run;
    assert forall k :: 0 <= k < n ==> h[..n][k] == h[k];
  }

  // ---------- All instances together ----------

  /** One call of the application's deliver callback. */
  datatype Delivery = Delivery(inst: u32, value: Block, client: Address)

  datatype Handled = Handled(states: seq<LState>, deliveries: seq<Delivery>)

  function InitialStates(maxinst: nat): seq<LState> {
    seq(maxinst, _ => InitialLState)
  }

  /** The messages of a batch handled one at a time. */
  ghost function HandleAll(maj: int, states: seq<LState>, msgs: seq<Vote>): (r: Handled)
    requires InRange(msgs, |states|)
    ensures |r.states| == |states|
  {
    if msgs == [] then Handled(states, []) else
      var n := |msgs| - 1;
      HandleOne(maj, HandleAll(maj, states, msgs[..n]), msgs[n])
  }

  ghost function HandleOne(maj: int, r: Handled, m: Vote): Handled
    requires m.inst < |r.states|
  {
    var s := r.states[m.inst];
    Handled(r.states[m.inst := Accept(maj, s, m)],
            r.deliveries + if Delivers(maj, s, m) then [Delivery(m.inst, m.paxosval, m.client)] else [])
  }

  lemma HandleNothing(maj: int, states: seq<LState>)
    ensures HandleAll(maj, states, []) == Handled(states, [])
  {}

  /** Earlier deliveries have no influence. */
  lemma HandleOneAfter(maj: int, before: seq<Delivery>, h: Handled, m: Vote)
    requires m.inst < |h.states|
    ensures HandleOne(maj, Handled(h.states, before + h.deliveries), m)
         == Handled(HandleOne(maj, h, m).states, before + HandleOne(maj, h, m).deliveries)
  {
    hide Accept, Delivers;
  }

  lemma HandleAllAppend(maj: int, states: seq<LState>, msgs: seq<Vote>, n: nat)
    requires n < |msgs| && InRange(msgs[..n + 1], |states|)
    ensures InRange(msgs[..n], |states|)
    ensures HandleAll(maj, states, msgs[..n + 1]) == HandleOne(maj, HandleAll(maj, states, msgs[..n]), msgs[n])
  {
    assert msgs[..n + 1][..n] == msgs[..n];
  }

  /** The messages of `msgs` for instance `i`. */
  ghost function OfInstance(msgs: seq<Vote>, i: nat): seq<Vote> {
    if msgs == [] then [] else
      var n := |msgs| - 1;
      if msgs[n].inst == i then OfInstance(msgs[..n], i) + [msgs[n]] else OfInstance(msgs[..n], i)
  }

  /** Instances do not interfere: from the initial states, what a learner holds for an instance is what the
      messages of that instance alone lead to. */
  lemma {:induction false} InstancesAreIndependent(maj: int, maxinst: nat, msgs: seq<Vote>, i: nat)
    requires i < maxinst && InRange(msgs, maxinst)
    ensures HandleAll(maj, InitialStates(maxinst), msgs).states[i] == Run(maj, OfInstance(msgs, i))
  {
    hide Accept, Run;
    RunOfNothing(maj);
    if msgs != [] {
      var n := |msgs| - 1;
      InstancesAreIndependent(maj, maxinst, msgs[..n], i);
      assert msgs[..n + 1] == msgs;
      HandleAllAppend(maj, InitialStates(maxinst), msgs, n);
      if msgs[n].inst == i {
        RunAppend(maj, OfInstance(msgs[..n], i), msgs[n]);
      }
    }
  }

  // ---------- The deliveries ----------

  /** Delivery `d` is of one of the messages. */
  ghost predicate DeliveredFrom(msgs: seq<Vote>, d: Delivery) {
    exists j :: 0 <= j < |msgs| && d == Delivery(msgs[j].inst, msgs[j].paxosval, msgs[j].client)
  }

  /** Every delivered instance is finished and its buffer holds what was delivered. */
  ghost predicate Settled(h: Handled) {
    forall k :: 0 <= k < |h.deliveries| ==>
      h.deliveries[k].inst < |h.states| && h.states[h.deliveries[k].inst].finished
      && h.states[h.deliveries[k].inst].paxosval == h.deliveries[k].value
  }

  /** The finished instances are the delivered ones, each once, and each buffer still holds what was delivered. */
  ghost predicate Accounts(msgs: seq<Vote>, h: Handled) {
    && Settled(h)
    && (forall k :: 0 <= k < |h.deliveries| ==> DeliveredFrom(msgs, h.deliveries[k]))
    && (forall j, k :: 0 <= j < k < |h.deliveries| ==> h.deliveries[j].inst != h.deliveries[k].inst)
    && (forall i :: 0 <= i < |h.states| && h.states[i].finished ==>
          exists k :: 0 <= k < |h.deliveries| && h.deliveries[k].inst == i)
  }

  lemma AcceptFacts(maj: int, s: LState, m: Vote)
    ensures s.finished ==> Accept(maj, s, m) == s
    ensures Delivers(maj, s, m) ==> Accept(maj, s, m).paxosval == m.paxosval
  {}

  lemma AccountsOneMore(maj: int, msgs: seq<Vote>, h: Handled, m: Vote)
    requires Accounts(msgs, h) && m.inst < |h.states|
    ensures Accounts(msgs + [m], HandleOne(maj, h, m))
  {
    hide Accept, DeliveredFrom;
    var s := h.states[m.inst];
    var g := HandleOne(maj, h, m);
    AcceptFacts(maj, s, m);
    forall k | 0 <= k < |h.deliveries|
      ensures DeliveredFrom(msgs + [m], h.deliveries[k])
    {
      DeliveredFromMore(msgs, m, h.deliveries[k]);
    }
    DeliveredFromLast(msgs, m);
    forall i | 0 <= i < |g.states| && g.states[i].finished
      ensures exists k :: 0 <= k < |g.deliveries| && g.deliveries[k].inst == i
    {
      if h.states[i].finished {
        var k :| 0 <= k < |h.deliveries| && h.deliveries[k].inst == i;
        assert g.deliveries[k].inst == i;
      } else {
        assert g.deliveries[|h.deliveries|].inst == i;
      }
    }
  }

  lemma DeliveredFromMore(msgs: seq<Vote>, m: Vote, d: Delivery)
    requires DeliveredFrom(msgs, d)
    ensures DeliveredFrom(msgs + [m], d)
  {
    var j :| 0 <= j < |msgs| && d == Delivery(msgs[j].inst, msgs[j].paxosval, msgs[j].client);
    assert (msgs + [m])[j] == msgs[j];
  }

  lemma DeliveredFromLast(msgs: seq<Vote>, m: Vote)
    ensures DeliveredFrom(msgs + [m], Delivery(m.inst, m.paxosval, m.client))
  {
    assert (msgs + [m])[|msgs|] == m;
  }

  /** Over any messages in any order, a learner calls the application once for each instance it finishes. */
  lemma {:induction false} DeliveriesAccount(maj: int, maxinst: nat, msgs: seq<Vote>)
    requires InRange(msgs, maxinst)
    ensures Accounts(msgs, HandleAll(maj, InitialStates(maxinst), msgs))
  {
    hide Accounts, HandleOne;
    if msgs == [] {
      NothingDelivered(maxinst);
    } else {
      var n := |msgs| - 1;
      DeliveriesAccount(maj, maxinst, msgs[..n]);
      assert msgs == msgs[..n] + [msgs[n]];
      AccountsOneMore(maj, msgs[..n], HandleAll(maj, InitialStates(maxinst), msgs[..n]), msgs[n]);
    }
  }

  lemma NothingDelivered(maxinst: nat)
    ensures Accounts([], Handled(InitialStates(maxinst), []))
  {}
}
