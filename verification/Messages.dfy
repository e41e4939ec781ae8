/** The message structure, its byte order on the wire, and the C strings kept in value buffers. */
module Messages {

  newtype byte = x: int | 0 <= x < 0x100
  type u16 = x: int | 0 <= x < 0x1_0000
  type u32 = x: int | 0 <= x < 0x1_0000_0000

  const PAXOS_VALUE_SIZE: nat := 32

  // enum paxos_type
  const PHASE1A: u16 := 1
  const PHASE1B: u16 := 2
  const PHASE2A: u16 := 3
  const PHASE2B: u16 := 4

  /** The fixed 32-byte value field of a message.  Every copy of a value between messages and states goes
      through string functions, so a value has to end inside its field; the proposer sees to that. */
  type Block = b: seq<byte> | |b| == PAXOS_VALUE_SIZE && |CStr(b)| < PAXOS_VALUE_SIZE
    witness Zeros(PAXOS_VALUE_SIZE)

  /** A socket address is carried around and never looked into. */
  type Address = nat

  datatype Message = Message(
    inst: u32,
    rnd: u16,
    vrnd: u16,
    acptid: u16,
    msgtype: u16,
    paxosval: Block,
    client: Address
  )

  /** A message buffer before anything is written to it. */
  function Blank(): Message {
    Message(0, 0, 0, 0, 0, Zeros(PAXOS_VALUE_SIZE), 0)
  }

  // ---------- C strings in buffers ----------

  /** A buffer after bzero. */
  function Zeros(n: nat): (b: seq<byte>)
    ensures |b| == n && forall k :: 0 <= k < n ==> b[k] == 0
  {
    seq(n, _ => 0)
  }

  /** The C string starting at the front of `b`: the bytes before the first NUL. */
  function CStr(b: seq<byte>): (s: seq<byte>)
    ensures |s| <= |b| && s == b[..|s|] && 0 !in s
    ensures |s| < |b| ==> b[|s|] == 0
  {
    if b == [] || b[0] == 0 then [] else [b[0]] + CStr(b[1..])
  }

  /** The destination after `strcpy(dst, src)`: it holds the same string as the source, whatever it held before,
      and what lies behind the copied NUL is left as it was. */
  function StrCpy(dst: seq<byte>, src: seq<byte>): (r: seq<byte>)
    requires |CStr(src)| < |dst|
    ensures |r| == |dst| && CStr(r) == CStr(src)
    ensures r[..|CStr(src)| + 1] == CStr(src) + [0] && r[|CStr(src)| + 1..] == dst[|CStr(src)| + 1..]
  {
    CStrOfPrefix(CStr(src), dst[|CStr(src)| + 1..]);
    CStr(src) + [0] + dst[|CStr(src)| + 1..]
  }

  lemma {:induction false} CStrOfPrefix(s: seq<byte>, rest: seq<byte>)
    requires 0 !in s
    ensures CStr(s + [0] + rest) == s
  {
    var b := s + [0] + rest;
    if s != [] {
      CStrOfPrefix(s[1..], rest);
      assert b[1..] == s[1..] + [0] + rest;
    }
  }

  // ---------- Byte order (little-endian host, big-endian wire) ----------

  /** htons and ntohs. */
  function Swap16(x: u16): u16 {
    x % 0x100 * 0x100 + x / 0x100
  }

  /** htonl and ntohl. */
  function Swap32(x: u32): u32 {
    Swap16(x % 0x1_0000) * 0x1_0000 + Swap16(x / 0x1_0000)
  }

  lemma Swap16Involutive(x: u16)
    ensures Swap16(Swap16(x)) == x
  {
    var lo, hi := x % 0x100, x / 0x100;
    assert Swap16(x) % 0x100 == hi && Swap16(x) / 0x100 == lo;
  }

  lemma Swap32Involutive(x: u32)
    ensures Swap32(Swap32(x)) == x
  {
    var lo, hi := x % 0x1_0000, x / 0x1_0000;
    var y := Swap32(x);
    assert y % 0x1_0000 == Swap16(hi) && y / 0x1_0000 == Swap16(lo);
    Swap16Involutive(lo);
    Swap16Involutive(hi);
  }

  /** The bytes of a word change places. */
  lemma Swap16Bytes(b0: nat, b1: nat)
    requires b0 < 0x100 && b1 < 0x100
    ensures Swap16(b0 + 0x100 * b1) == b1 + 0x100 * b0
  {
    var x: u16 := b0 + 0x100 * b1;
    assert x % 0x100 == b0 && x / 0x100 == b1;
  }

  lemma Swap32Bytes(b0: nat, b1: nat, b2: nat, b3: nat)
    requires b0 < 0x100 && b1 < 0x100 && b2 < 0x100 && b3 < 0x100
    ensures Swap32(b0 + 0x100 * b1 + 0x1_0000 * b2 + 0x100_0000 * b3)
         == b3 + 0x100 * b2 + 0x1_0000 * b1 + 0x100_0000 * b0
  {
    var lo: u16, hi: u16 := b0 + 0x100 * b1, b2 + 0x100 * b3;
    var x: u32 := lo + 0x1_0000 * hi;
    assert x % 0x1_0000 == lo && x / 0x1_0000 == hi;
    Swap16Bytes(b0, b1);
    Swap16Bytes(b2, b3);
  }

  function Packed(m: Message): Message {
    m.(inst := Swap32(m.inst), rnd := Swap16(m.rnd), vrnd := Swap16(m.vrnd),
       acptid := Swap16(m.acptid), msgtype := Swap16(m.msgtype))
  }

  function Unpacked(m: Message): Message {
    m.(inst := Swap32(m.inst), rnd := Swap16(m.rnd), vrnd := Swap16(m.vrnd),
       acptid := Swap16(m.acptid), msgtype := Swap16(m.msgtype))
  }

  /** Packing and unpacking undo each other, in both orders. */
  lemma PackRoundTrip(m: Message)
    ensures Unpacked(Packed(m)) == m && Packed(Unpacked(m)) == m
  {
    Swap32Involutive(m.inst);
    Swap16Involutive(m.rnd);
    Swap16Involutive(m.vrnd);
    Swap16Involutive(m.acptid);
    Swap16Involutive(m.msgtype);
  }

  // What the five header fields occupy in memory, and what they should be on the wire.

  function Memory16(x: u16): seq<byte> {
    [(x % 0x100) as byte, (x / 0x100) as byte]
  }

  function Memory32(x: u32): seq<byte> {
    [(x % 0x100) as byte, (x / 0x100 % 0x100) as byte, (x / 0x1_0000 % 0x100) as byte, (x / 0x100_0000) as byte]
  }

  function BigEndian16(x: u16): seq<byte> {
    [(x / 0x100) as byte, (x % 0x100) as byte]
  }

  function BigEndian32(x: u32): seq<byte> {
    [(x / 0x100_0000) as byte, (x / 0x1_0000 % 0x100) as byte, (x / 0x100 % 0x100) as byte, (x % 0x100) as byte]
  }

  /** The first twelve bytes of a message. */
  function Header(m: Message): seq<byte> {
    Memory32(m.inst) + Memory16(m.rnd) + Memory16(m.vrnd) + Memory16(m.acptid) + Memory16(m.msgtype)
  }

  lemma Wire16(x: u16)
    ensures Memory16(Swap16(x)) == BigEndian16(x)
  {
    Swap16Bytes(x % 0x100, x / 0x100);
  }

  lemma Digits(b0: nat, b1: nat, b2: nat, b3: nat)
    requires b0 < 0x100 && b1 < 0x100 && b2 < 0x100 && b3 < 0x100
    ensures var x: u32 := b0 + 0x100 * b1 + 0x1_0000 * b2 + 0x100_0000 * b3;
            Memory32(x) == [b0 as byte, b1 as byte, b2 as byte, b3 as byte]
            && BigEndian32(x) == [b3 as byte, b2 as byte, b1 as byte, b0 as byte]
  {
    var x: u32 := b0 + 0x100 * b1 + 0x1_0000 * b2 + 0x100_0000 * b3;
    assert x / 0x100 == b1 + 0x100 * b2 + 0x1_0000 * b3;
    assert x / 0x1_0000 == b2 + 0x100 * b3;
  }

  /** Every word is made of four bytes. */
  lemma FourBytes(x: u32) returns (b0: nat, b1: nat, b2: nat, b3: nat)
    ensures b0 < 0x100 && b1 < 0x100 && b2 < 0x100 && b3 < 0x100
    ensures x == b0 + 0x100 * b1 + 0x1_0000 * b2 + 0x100_0000 * b3
  {
    var y := x / 0x100;
    var z := y / 0x100;
    b0, b1, b2, b3 := x % 0x100, y % 0x100, z % 0x100, z / 0x100;
  }

  lemma Wire32(x: u32)
    ensures Memory32(Swap32(x)) == BigEndian32(x)
  {
    hide Swap32, Memory32, BigEndian32;
    var b0, b1, b2, b3 := FourBytes(x);
    Swap32Bytes(b0, b1, b2, b3);
    Digits(b0, b1, b2, b3);
    Digits(b3, b2, b1, b0);
  }

  /** A packed message has its header fields on the wire in network byte order, one after the other. */
  lemma PackedHeader(m: Message)
    ensures Header(Packed(m)) ==
            BigEndian32(m.inst) + BigEndian16(m.rnd) + BigEndian16(m.vrnd) + BigEndian16(m.acptid)
            + BigEndian16(m.msgtype)
    ensures Packed(m).paxosval == m.paxosval && Packed(m).client == m.client
  {
    hide Swap16, Swap32, Memory16, Memory32, BigEndian16, BigEndian32;
    Wire32(m.inst);
    Wire16(m.rnd);
    Wire16(m.vrnd);
    Wire16(m.acptid);
    Wire16(m.msgtype);
  }

  /** A packed message whose type is one of the enum's never looks like an unpacked one. */
  lemma PackedTypeIsForeign(m: Message)
    requires 0 < m.msgtype <= PHASE2B
    ensures Packed(m).msgtype > PHASE2B
  {}

  // The wire routines work in place on a buffer of messages.

  method Pack(bufs: array<Message>, i: nat)
    requires i < bufs.Length
    modifies bufs
    ensures bufs[..] == old(bufs[..])[i := Packed(old(bufs[i]))]
  {
    bufs[i] := bufs[i].(inst := Swap32(bufs[i].inst));
    bufs[i] := bufs[i].(rnd := Swap16(bufs[i].rnd));
    bufs[i] := bufs[i].(vrnd := Swap16(bufs[i].vrnd));
    bufs[i] := bufs[i].(acptid := Swap16(bufs[i].acptid));
    bufs[i] := bufs[i].(msgtype := Swap16(bufs[i].msgtype));
  }

  /** `initialize_message`; the client is left to the caller. */
  method Initialize(bufs: array<Message>, i: nat, msgtype: u16)
    requires i < bufs.Length
    modifies bufs
    ensures bufs[..] == old(bufs[..])[i := Blank().(msgtype := msgtype, client := old(bufs[i].client))]
  {
    hide CStr;
    var b := bufs[i].(inst := 0, rnd := 0, vrnd := 0, acptid := 0, msgtype := msgtype);
    bufs[i] := b.(paxosval := Blank().paxosval);
  }

  method Unpack(bufs: array<Message>, i: nat)
    requires i < bufs.Length
    modifies bufs
    ensures bufs[..] == old(bufs[..])[i := Unpacked(old(bufs[i]))]
  {
    bufs[i] := bufs[i].(inst := Swap32(bufs[i].inst));
    bufs[i] := bufs[i].(rnd := Swap16(bufs[i].rnd));
    bufs[i] := bufs[i].(vrnd := Swap16(bufs[i].vrnd));
    bufs[i] := bufs[i].(acptid := Swap16(bufs[i].acptid));
    bufs[i] := bufs[i].(msgtype := Swap16(bufs[i].msgtype));
  }

  /** strcpy */
  method StrCpyInto(dst: array<byte>, src: seq<byte>)
    requires |CStr(src)| < dst.Length && |CStr(src)| < |src|
    modifies dst
    ensures dst[..] == StrCpy(old(dst[..]), src)
  {
    var i := 0;
    assert forall k :: 0 <= k < |CStr(src)| ==> src[k] != 0;
    while src[i] != 0
      invariant 0 <= i <= |CStr(src)|
      invariant dst[..i] == src[..i]
      invariant dst[i..] == old(dst[..])[i..]
      decreases |CStr(src)| - i
    {
      assert i < |CStr(src)| by { assert src[|CStr(src)|] == 0; }
      dst[i] := src[i];
      i := i + 1;
      assert dst[..i] == src[..i];
    }
    dst[i] := 0;
  }

  /** memcpy of a whole value field */
  method MemCpyInto(dst: array<byte>, src: Block)
    requires dst.Length == PAXOS_VALUE_SIZE
    modifies dst
    ensures dst[..] == src
  {
    for i := 0 to PAXOS_VALUE_SIZE
      invariant dst[..i] == src[..i]
    {
      dst[i] := src[i];
      assert dst[..i + 1] == src[..i + 1];
    }
  }

  // ---------- Batches of received datagrams ----------

  ghost predicate InRange(msgs: seq<Message>, maxinst: nat) {
    forall k :: 0 <= k < |msgs| ==> msgs[k].inst < maxinst
  }

  ghost function UnpackAll(ms: seq<Message>): (r: seq<Message>)
    ensures |r| == |ms| && forall k :: 0 <= k < |ms| ==> r[k] == Unpacked(ms[k])
  {
    seq(|ms|, k requires 0 <= k < |ms| => Unpacked(ms[k]))
  }

  /** How many messages come before the first one whose instance is out of range. */
  ghost function InRangePrefix(msgs: seq<Message>, maxinst: nat): (n: nat)
    ensures n <= |msgs| && InRange(msgs[..n], maxinst)
    ensures n < |msgs| ==> msgs[n].inst >= maxinst
  {
    hide CStr;
    if msgs == [] || msgs[0].inst >= maxinst then 0 else
      var n := 1 + InRangePrefix(msgs[1..], maxinst);
      assert msgs[..n] == [msgs[0]] + msgs[1..][..n - 1];
      n
  }

  lemma InRangePrefixIs(msgs: seq<Message>, maxinst: nat, n: nat)
    requires n <= |msgs| && InRange(msgs[..n], maxinst)
    requires n < |msgs| ==> msgs[n].inst >= maxinst
    ensures InRangePrefix(msgs, maxinst) == n
  {}
}
