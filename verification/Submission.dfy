/** How messages enter the system: the proposer's datagram and the coordinator's numbering. */
module Submission {
  import opened Messages

  // struct request: the timestamp occupies these bytes of the value
  const TS_FROM: nat := 8
  const TS_TO: nat := 24

  /** A value whose last byte is the terminator, as `submit` leaves it. */
  ghost predicate Closed(b: Block) {
    b[PAXOS_VALUE_SIZE - 1] == 0
  }

  lemma {:induction false} ZeroEnds(b: seq<byte>, k: nat)
    requires k < |b| && b[k] == 0
    ensures |CStr(b)| <= k
  {}

  /** The value block of a request of at most 31 bytes, zero behind it. */
  function RequestBlock(request: seq<byte>): (b: Block)
    requires |request| < PAXOS_VALUE_SIZE
    ensures Closed(b) && b[..|request|] == request
    ensures forall k :: |request| <= k < PAXOS_VALUE_SIZE ==> b[k] == 0
  {
    var b := request + Zeros(PAXOS_VALUE_SIZE - |request|);
    ZeroEnds(b, PAXOS_VALUE_SIZE - 1);
    b
  }

  /** A string at the end of a request is read back whole from the block. */
  lemma RequestIsTerminated(request: seq<byte>, j: nat)
    requires j <= |request| < PAXOS_VALUE_SIZE && 0 !in request[j..]
    ensures CStr(RequestBlock(request)[j..]) == request[j..]
  {
    var b := RequestBlock(request);
    var s := request[j..];
    assert b[j..] == s + [0] + b[|request| + 1..] by {
      assert forall k :: j <= k < |request| ==> b[k] == b[..|request|][k];
    }
    CStrOfPrefix(s, b[|request| + 1..]);
  }

  /** The block with a fresh timestamp. */
  function Retimed(b: Block, ts: seq<byte>): (r: Block)
    requires Closed(b) && |ts| == TS_TO - TS_FROM
    ensures Closed(r) && r[..TS_FROM] == b[..TS_FROM] && r[TS_FROM..TS_TO] == ts && r[TS_TO..] == b[TS_TO..]
  {
    var r := b[..TS_FROM] + ts + b[TS_TO..];
    ZeroEnds(r, PAXOS_VALUE_SIZE - 1);
    r
  }

  /** Of the fields of a request, the identifier at 0, the operation at 4, the time at 8, the key at 24 and the value
      at 29, a retry changes the time only. */
  lemma RetryKeepsFields(b: Block, ts: seq<byte>)
    requires Closed(b) && |ts| == 16
    ensures Retimed(b, ts)[0..8] == b[0..8] && Retimed(b, ts)[8..24] == ts
    ensures Retimed(b, ts)[24..29] == b[24..29] && Retimed(b, ts)[29..32] == b[29..32]
  {
    var r := Retimed(b, ts);
    assert r[24..29] == r[24..][0..5] && r[29..32] == r[24..][5..8] && r[0..8] == r[..8];
    assert b[24..29] == b[24..][0..5] && b[29..32] == b[24..][5..8] && b[0..8] == b[..8];
  }

  /** A phase 2a of round 0 with the instance left to the coordinator. */
  function Stamped(i: u32, b: Block, client: Address): Message {
    Message(i, 0, 0, 0, PHASE2A, b, client)
  }

  /** The header of a submission on the wire: the instance, round 0 in both fields, no acceptor, and type 3. */
  lemma SubmissionHeader(i: u32, b: Block, client: Address)
    ensures Header(Packed(Stamped(i, b, client))) == BigEndian32(i) + [0, 0] + [0, 0] + [0, 0] + [0, 3]
  {
    hide Header, Packed, BigEndian32, CStr;
    PackedHeader(Stamped(i, b, client));
  }

  class Proposer {
    const mine: Address
    const outstanding: nat
    /** The message part of the datagram; nothing is sent before the first submit has filled it. */
    var datagram: Message
    var filled: bool

    constructor (mine: Address, outstanding: nat)
      ensures this.mine == mine && this.outstanding == outstanding && !filled
    {
      this.mine := mine;
      this.outstanding := outstanding;
      datagram := Blank();
      filled := false;
    }

    ghost predicate Valid()
      reads this
    {
      filled ==> Closed(datagram.paxosval) && datagram == Packed(Stamped(0, datagram.paxosval, mine))
    }

    /** `submit`: the request, with its timestamp in place, goes out as a round-0 phase 2a. */
    method Submit(request: seq<byte>) returns (sent: Message)
      requires Valid() && |request| < PAXOS_VALUE_SIZE
      modifies this
      ensures Valid() && filled && datagram == sent
      ensures sent == Packed(Stamped(0, RequestBlock(request), mine))
    {
      hide CStr, Packed, RequestBlock, Retimed;
      var m := new Message[1](_ => Blank());
      Initialize(m, 0, PHASE2A);
      m[0] := m[0].(paxosval := RequestBlock(request));
      m[0] := m[0].(client := mine);
      assert m[..] == [Stamped(0, RequestBlock(request), mine)];
      Pack(m, 0);
      assert m[..][0] == m[0];
      PackedValueIs(0, RequestBlock(request), mine);
      datagram := m[0];
      filled := true;
      sent := datagram;
    }

    /** `retry`: the same datagram again, `outstanding` times, each with the time of sending. */
    method Retry(times: seq<seq<byte>>) returns (sent: seq<Message>)
      requires Valid() && |times| == outstanding && forall k :: 0 <= k < |times| ==> |times[k]| == TS_TO - TS_FROM
      modifies this
      ensures Valid() && filled == old(filled)
      ensures !filled ==> sent == []
      ensures filled ==> |sent| == outstanding && forall k :: 0 <= k < |sent| ==>
                sent[k] == Packed(Stamped(0, Retimed(old(datagram.paxosval), times[k]), mine))
      ensures datagram == if sent == [] then old(datagram) else sent[|sent| - 1]
    {
      hide CStr, Packed, Retimed, Closed;
      sent := [];
      if filled {
        ghost var b0 := datagram.paxosval;
        for i := 0 to outstanding
          invariant Valid() && filled && |sent| == i
          invariant SameButTime(b0, datagram.paxosval)
          invariant datagram == if sent == [] then old(datagram) else sent[i - 1]
          invariant forall k :: 0 <= k < i ==> sent[k] == Packed(Stamped(0, Retimed(b0, times[k]), mine))
        {
          RetimedAgain(b0, datagram.paxosval, times[i]);
          PackedValue(datagram.paxosval, Retimed(datagram.paxosval, times[i]), mine);
          PackedValueIs(0, Retimed(datagram.paxosval, times[i]), mine);
          datagram := datagram.(paxosval := Retimed(datagram.paxosval, times[i]));
          sent := sent + [datagram];
        }
      }
    }
  }

  /** The two blocks differ in the timestamp at most. */
  ghost predicate SameButTime(b: Block, b': Block) {
    Closed(b) && Closed(b') && b[..TS_FROM] == b'[..TS_FROM] && b[TS_TO..] == b'[TS_TO..]
  }

  lemma RetimedAgain(b: Block, b': Block, ts: seq<byte>)
    requires SameButTime(b, b') && |ts| == TS_TO - TS_FROM
    ensures Retimed(b', ts) == Retimed(b, ts) && SameButTime(b, Retimed(b', ts))
  {
    hide CStr;
  }

  lemma PackedValueIs(i: u32, b: Block, client: Address)
    ensures Packed(Stamped(i, b, client)).paxosval == b && Packed(Stamped(i, b, client)).client == client
  {}

  lemma PackedValue(b: Block, b': Block, client: Address)
    ensures Packed(Stamped(0, b, client)).(paxosval := b') == Packed(Stamped(0, b', client))
  {}

  /** Overwriting the first word of a packed message is setting the instance of the message. */
  lemma StampSetsInstance(i: u32, b: Block, client: Address)
    ensures Packed(Stamped(0, b, client)).(inst := Swap32(i)) == Packed(Stamped(i, b, client))
  {}

  class Coordinator {
    var cur_inst: nat
    var msg_in: Message

    constructor ()
      ensures cur_inst == 0
    {
      cur_inst := 0;
      msg_in := Blank();
    }

    /** `on_value`: whatever arrives, also the same datagram again, goes on under the next instance number. */
    method OnValue(received: Message) returns (sent: Message)
      requires cur_inst < 0x7fff_ffff
      modifies this
      ensures cur_inst == old(cur_inst) + 1 && sent == received.(inst := Swap32(old(cur_inst)))
      ensures Unpacked(sent) == Unpacked(received).(inst := old(cur_inst))
    {
      msg_in := received;
      msg_in := msg_in.(inst := Swap32(cur_inst));
      sent := msg_in;
      Swap32Involutive(cur_inst);
      cur_inst := cur_inst + 1;
    }
  }
}
