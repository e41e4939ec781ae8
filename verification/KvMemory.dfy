/** The key-value store: a hash table whose keys are pointers into the buffers of the learner that delivered them. */
module KvMemory {
  import opened Messages
  import opened Sequences
  import opened LearnerSpec
  import opened Learner
  import opened HashEntries
  import opened HashTable
  import opened HashClient

  // enum command_t
  const PUT: byte := 1
  const GET: byte := 2
  const DELETE: byte := 3

  /** char value[10] */
  const VALUE_SIZE: nat := 10

  // a request: op, key size, value size, key, value
  const KEY_AT: nat := 3

  // enum return_code
  datatype ReturnCode = SUCCESS | GOT_VALUE | NOT_FOUND | INVALID_OP | FAILED

  /** What `deliver` returns, and the datagram it sends to the client, if any. */
  datatype Answer = Answer(code: ReturnCode, reply: Option<seq<byte>>)

  function KeySize(request: Block): nat {
    request[1] as nat
  }

  function ValueSize(request: Block): nat {
    request[2] as nat
  }

  /** What the request names lies inside it: the string at the key ends there, and of a put also the key and the value,
      which fits its field. */
  predicate InBounds(request: Block) {
    && (request[0] in {PUT, GET, DELETE} ==> 0 in request[KEY_AT..])
    && (request[0] == PUT ==>
          KEY_AT + KeySize(request) + ValueSize(request) <= PAXOS_VALUE_SIZE && ValueSize(request) <= VALUE_SIZE)
  }

  function KeyBytes(request: Block): Key
    requires InBounds(request) && request[0] == PUT
  {
    request[KEY_AT..KEY_AT + KeySize(request)]
  }

  function ValueBytes(request: Block): Value
    requires InBounds(request) && request[0] == PUT
  {
    request[KEY_AT + KeySize(request)..KEY_AT + KeySize(request) + ValueSize(request)]
  }

  /** What HASH_FIND_STR looks up: the string that begins at the key, not the `ksize` bytes of it. */
  function Sought(request: Block): Key {
    CStr(request[KEY_AT..])
  }

  /** A `char *` into the value buffer of an instance, with a length. */
  datatype KeyPointer = KeyPointer(inst: nat, offset: nat, ksize: nat)

  // ---------- What a request does ----------

  /** An entry as the application sees it. */
  datatype Record = Record(key: Key, value: Value, pointer: KeyPointer)

  ghost predicate HasKey(rs: seq<Record>, key: Key) {
    exists i :: 0 <= i < |rs| && rs[i].key == key
  }

  /** A new record with the request's key, its pointer into the delivered buffer, and the value at the front of the
      value field, the rest of which is whatever the memory held. */
  ghost predicate NewRecord(request: Block, inst: nat, r: Record)
    requires InBounds(request) && request[0] == PUT
  {
    && r.key == KeyBytes(request) && r.pointer == KeyPointer(inst, KEY_AT, KeySize(request))
    && |r.value| == VALUE_SIZE && ValueBytes(request) <= r.value
  }

  /** The records and the answer after one request.  Of several records with the sought key one is meant; the byte sent
      back for an unknown operation, and for a delete that finds nothing, is never set. */
  ghost predicate Executes(was: seq<Record>, request: Block, inst: nat, ans: Answer, now: seq<Record>)
    requires InBounds(request)
  {
    var key := Sought(request);
    if request[0] == 0 then ans == Answer(FAILED, None) && now == was
    else if request[0] == PUT then
      ans == Answer(SUCCESS, Some([0])) &&
      if HasKey(was, key) then
        exists i :: 0 <= i < |was| && was[i].key == key && now == was[i := Overwritten(was[i], ValueBytes(request))]
      else
        |now| == |was| + 1 && now[..|was|] == was && NewRecord(request, inst, now[|was|])
    else if request[0] == GET then
      now == was &&
      if HasKey(was, key) then
        ans.code == GOT_VALUE && exists i :: 0 <= i < |was| && was[i].key == key && Shows(ans, was[i])
      else
        ans == Answer(NOT_FOUND, Some([2]))
    else if request[0] == DELETE && HasKey(was, key) then
      ans == Answer(SUCCESS, Some([0])) &&
      exists i :: 0 <= i < |was| && was[i].key == key && now == Without(was, i)
    else
      ans.code == INVALID_OP && ans.reply.Some? && |ans.reply.value| == 1 && now == was
  }

  function Overwritten(r: Record, value: Value): Record {
    r.(value := value + if |value| <= |r.value| then r.value[|value|..] else [])
  }

  /** The reply to a get is the string in the value field, where it ends inside it. */
  ghost predicate Shows(ans: Answer, r: Record) {
    ans.reply.Some? && (0 in r.value ==> ans.reply.value == CStr(r.value))
  }

  /** One answer for each delivery, each from the records the one before has left. */
  ghost predicate Traces(ds: seq<Delivery>, answers: seq<Answer>, states: seq<seq<Record>>) {
    && |answers| == |ds| && |states| == |ds| + 1
    && forall k :: 0 <= k < |ds| ==>
         InBounds(ds[k].value) && Executes(states[k], ds[k].value, ds[k].inst, answers[k], states[k + 1])
  }

  lemma TracesOneMore(ds: seq<Delivery>, answers: seq<Answer>, states: seq<seq<Record>>, d: Delivery, ans: Answer,
                      now: seq<Record>)
    requires Traces(ds, answers, states) && InBounds(d.value)
    requires Executes(states[|ds|], d.value, d.inst, ans, now)
    ensures Traces(ds + [d], answers + [ans], states + [now])
  {
    hide Executes, InBounds;
  }

  // ---------- What handling messages leaves alone ----------

  lemma SettledOneMore(maj: int, h: Handled, m: Vote)
    requires Settled(h) && m.inst < |h.states|
    ensures Settled(HandleOne(maj, h, m))
  {
    hide Accept;
    AcceptFacts(maj, h.states[m.inst], m);
  }

  /** One message leaves finished instances whole, and delivers at most its own value. */
  lemma OneMessage(maj: int, h: Handled, m: Vote)
    requires m.inst < |h.states|
    ensures |HandleOne(maj, h, m).states| == |h.states|
    ensures forall i :: 0 <= i < |h.states| && h.states[i].finished ==> HandleOne(maj, h, m).states[i] == h.states[i]
    ensures HandleOne(maj, h, m).deliveries in {h.deliveries, h.deliveries + [Delivery(m.inst, m.paxosval, m.client)]}
  {
    hide Accept;
    AcceptFacts(maj, h.states[m.inst], m);
    assert h.deliveries + [] == h.deliveries;
  }

  // ---------- The application ----------

  class Application {
    const learner: LearnerCtx
    const hashmap: Table
    /** The `key` field of each entry of the table. */
    var pointers: map<Entry, KeyPointer>
    /** How many of the learner's deliveries `deliver` has seen. */
    var seen: nat

    constructor (learner: LearnerCtx, hash: Key -> nat, with_bloom: bool, bloom_nbits: nat)
      requires learner.Valid() && learner.delivered == []
      ensures Valid() && this.learner == learner && fresh(hashmap) && hashmap.app == [] && seen == 0
    {
      var table := new Table(hash, with_bloom, bloom_nbits);
      this.learner, hashmap := learner, table;
      pointers, seen := map[], 0;
    }

    /** The pointer goes into the buffer of a finished instance, where the key is. */
    ghost predicate PointsTo(p: KeyPointer, key: Key)
      reads learner`view
    {
      && p.inst < |learner.view| && learner.view[p.inst].finished && p.offset + p.ksize <= PAXOS_VALUE_SIZE
      && learner.view[p.inst].paxosval[p.offset..p.offset + p.ksize] == key
    }

    /** Every entry's pointer leads to the bytes the table has hashed and compares. */
    ghost predicate KeysOk(ps: map<Entry, KeyPointer>, s: seq<Entry>)
      reads learner`view, Elems(s)`key, Elems(s)`value
    {
      forall e :: e in s ==> e in ps && PointsTo(ps[e], e.key) && |e.value| == VALUE_SIZE
    }

    /** The table shares no memory with the learner's states. */
    ghost predicate Apart()
      reads hashmap`buckets, hashmap`bloom, hashmap`app
    {
      && this !in learner.Repr && hashmap !in learner.Repr && hashmap.buckets !in learner.Repr
      && (hashmap.bloom != null ==> hashmap.bloom !in learner.Repr && hashmap.bloom.bv !in learner.Repr)
      && forall e :: e in hashmap.app ==> e !in learner.Repr
    }

    ghost predicate LearnerOk()
      reads learner, learner.states, learner.Repr, this`seen
    {
      learner.Valid() && Settled(learner.Now()) && seen <= |learner.delivered|
    }

    ghost predicate Valid()
      reads this, learner, learner.states, learner.Repr
      reads hashmap, hashmap.buckets, Elems(hashmap.app), hashmap.bloom
      reads if hashmap.bloom == null then {} else {hashmap.bloom.bv}
    {
      LearnerOk() && hashmap.Valid() && Apart() && KeysOk(pointers, hashmap.app)
    }

    ghost function PointerOf(ps: map<Entry, KeyPointer>, e: Entry): KeyPointer {
      if e in ps then ps[e] else KeyPointer(0, 0, 0)
    }

    /** The entries of `s` as records. */
    ghost function RecordsOf(ps: map<Entry, KeyPointer>, s: seq<Entry>): (rs: seq<Record>)
      reads Elems(s)`key, Elems(s)`value
      ensures |rs| == |s|
      ensures forall i :: 0 <= i < |s| ==> rs[i] == Record(s[i].key, s[i].value, PointerOf(ps, s[i]))
    {
      if s == [] then [] else
        var n := |s| - 1;
        RecordsOf(ps, s[..n]) + [Record(s[n].key, s[n].value, PointerOf(ps, s[n]))]
    }

    ghost function Records(): seq<Record>
      reads this`pointers, hashmap`app, Elems(hashmap.app)`key, Elems(hashmap.app)`value
    {
      RecordsOf(pointers, hashmap.app)
    }

    /** The entries that were there and still are have the keys and pointers they had. */
    twostate predicate KeysStay()
      reads hashmap`app, this`pointers, Elems(hashmap.app)`key
    {
      forall e :: e in old(hashmap.app) && e in hashmap.app ==>
        e.key == old(e.key) && PointerOf(pointers, e) == old(PointerOf(pointers, e))
    }

    /** Instances that were finished are as they were. */
    ghost predicate Whole(was: seq<LState>)
      reads learner`view
    {
      |was| == |learner.view| && forall i :: 0 <= i < |was| && was[i].finished ==> learner.view[i] == was[i]
    }

    lemma BufferIs(i: nat)
      requires learner.Valid() && i < |learner.view|
      ensures |learner.view| == learner.states.Length && learner.states[i].paxosval[..] == learner.view[i].paxosval
    {
      assert learner.states[i].Is(learner.view[i]);
    }

    lemma BufferAt(i: nat)
      requires LearnerOk() && i < |learner.view|
      ensures |learner.view| == learner.states.Length && learner.states[i].paxosval[..] == learner.view[i].paxosval
    {
      BufferIs(i);
    }

    /** Reading a stored key through its pointer gives the bytes it had when its entry was added. */
    method KeyOf(e: Entry) returns (key: Key)
      requires Valid() && e in hashmap.app
      ensures key == e.key
    {
      hide LearnerCtx.Valid, Table.Valid;
      var p := pointers[e];
      BufferIs(p.inst);
      key := learner.states[p.inst].paxosval[..][p.offset..p.offset + p.ksize];
    }

    /** `malloc`: the value field holds whatever the memory held. */
    method BlankEntry() returns (s: Entry)
      ensures fresh(s) && |s.value| == VALUE_SIZE
    {
      s := new Entry();
      var junk := new byte[VALUE_SIZE];
      s.value := junk[..];
    }

    /** The case of `add_entry` in which the key is new. */
    method NewEntry(p: KeyPointer, key: Key) returns (s: Entry)
      requires Valid() && PointsTo(p, key)
      modifies this`pointers, hashmap, hashmap.buckets, hashmap.bloom
      modifies if hashmap.bloom == null then {} else {hashmap.bloom.bv}
      modifies Elems(hashmap.app)`next, Elems(hashmap.app)`hh_prev, Elems(hashmap.app)`hh_next
      ensures Valid() && fresh(s) && hashmap.app == old(hashmap.app) + [s]
      ensures s.key == key && pointers == old(pointers)[s := p] && OldOrFresh(hashmap)
    {
      hide LearnerOk, Table.Valid, PointsTo, KeysOk;
      ghost var was := hashmap.app;
      s := BlankEntry();
      MorePointers(pointers, was, s, p);
      pointers := pointers[s := p];
      hashmap.Add(s, key);
      assert KeysOk(pointers, was);
      KeysGrow(pointers, was, s);
    }

    lemma MorePointers(ps: map<Entry, KeyPointer>, was: seq<Entry>, s: Entry, p: KeyPointer)
      requires KeysOk(ps, was) && s !in was
      ensures KeysOk(ps[s := p], was)
    {}

    lemma KeysGrow(ps: map<Entry, KeyPointer>, was: seq<Entry>, s: Entry)
      requires KeysOk(ps, was) && s in ps && PointsTo(ps[s], s.key) && |s.value| == VALUE_SIZE
      ensures KeysOk(ps, was + [s])
    {}

    /** `memcpy` into the value field of an entry. */
    method CopyValue(s: Entry, value: Value)
      requires Valid() && s in hashmap.app && |value| <= VALUE_SIZE
      modifies s`value
      ensures Valid() && s.value == value + old(s.value)[|value|..]
    {
      hide LearnerOk, Table.ListOk, Table.IndexOk, PointsTo;
      s.value := value + s.value[|value|..];
    }

    lemma AppIsUnique()
      requires hashmap.Valid()
      ensures Unique(hashmap.app)
    {}

    lemma KeyAmongRecords(key: Key)
      ensures HasKey(Records(), key) <==> exists e :: e in hashmap.app && e.key == key
    {
      if HasKey(Records(), key) {
        var i :| 0 <= i < |Records()| && Records()[i].key == key;
        assert hashmap.app[i].key == key;
      }
    }

    /** The records after `add_entry`. */
    ghost predicate Added(was: seq<Record>, p: KeyPointer, key: Key, sought: Key, value: Value, now: seq<Record>) {
      if HasKey(was, sought) then
        exists i :: 0 <= i < |was| && was[i].key == sought && now == was[i := Overwritten(was[i], value)]
      else
        && |now| == |was| + 1 && now[..|was|] == was
        && now[|was|].key == key && now[|was|].pointer == p && |now[|was|].value| == VALUE_SIZE
        && value <= now[|was|].value
    }

    /** The case of `add_entry` in which the key is there. */
    method UpdateEntry(e: Entry, value: Value)
      requires Valid() && e in hashmap.app && |value| <= VALUE_SIZE
      modifies e`value
      ensures Valid() && OldOrFresh(hashmap) && KeysStay()
      ensures exists i :: 0 <= i < |old(Records())| && old(Records())[i].key == e.key
                     && Records() == old(Records())[i := Overwritten(old(Records())[i], value)]
    {
      hide LearnerOk, Table.Valid, PointsTo, Apart, RecordsOf;
      AppIsUnique();
      ghost var was := Records();
      ghost var i :| 0 <= i < |hashmap.app| && hashmap.app[i] == e;
      assert |e.value| == VALUE_SIZE;
      CopyValue(e, value);
      assert Records() == was[i := Overwritten(was[i], value)];
    }

    /** The records after a new entry. */
    lemma RecordsGrow(ps: map<Entry, KeyPointer>, was: seq<Entry>, s: Entry, p: KeyPointer)
      requires s !in was
      ensures RecordsOf(ps[s := p], was + [s]) == RecordsOf(ps, was) + [Record(s.key, s.value, p)]
    {
      hide RecordsOf;
      assert forall i :: 0 <= i < |was| ==> (was + [s])[i] == was[i] && was[i] in was;
    }

    method InsertEntry(p: KeyPointer, key: Key, value: Value)
      requires Valid() && |value| <= VALUE_SIZE && PointsTo(p, key)
      modifies this`pointers, hashmap, hashmap.buckets, hashmap.bloom
      modifies if hashmap.bloom == null then {} else {hashmap.bloom.bv}
      modifies Elems(hashmap.app)`next, Elems(hashmap.app)`hh_prev, Elems(hashmap.app)`hh_next
      ensures Valid() && OldOrFresh(hashmap) && KeysStay()
      ensures exists r: Record :: r.key == key && r.pointer == p && |r.value| == VALUE_SIZE && value <= r.value
                               && Records() == old(Records()) + [r]
    {
      hide LearnerOk, Table.Valid, PointsTo, Apart, LearnerCtx.Valid, RecordsOf;
      ghost var was, ps := hashmap.app, pointers;
      var s := NewEntry(p, key);
      assert s in hashmap.app && |s.value| == VALUE_SIZE;
      hide KeysOk;
      CopyValue(s, value);
      assert RecordsOf(ps, was) == old(Records());
      RecordsGrow(ps, was, s, p);
      assert Records() == old(Records()) + [Record(s.key, s.value, p)];
    }

    /** `add_entry` */
    method AddEntry(p: KeyPointer, ghost key: Key, sought: Key, value: Value)
      requires Valid() && |value| <= VALUE_SIZE && PointsTo(p, key)
      modifies this`pointers, hashmap, hashmap.buckets, hashmap.bloom
      modifies if hashmap.bloom == null then {} else {hashmap.bloom.bv}
      modifies Elems(hashmap.app)`next, Elems(hashmap.app)`hh_prev, Elems(hashmap.app)`hh_next, Elems(hashmap.app)`value
      ensures Valid() && OldOrFresh(hashmap) && KeysStay()
      ensures Added(old(Records()), p, key, sought, value, Records())
    {
      hide LearnerOk, Table.Valid, KeysOk, Apart, LearnerCtx.Valid, Records;
      KeyAmongRecords(sought);
      var e := hashmap.Find(sought);
      if e == null {
        BufferAt(p.inst);
        InsertEntry(p, learner.states[p.inst].paxosval[..][p.offset..p.offset + p.ksize], value);
      } else {
        UpdateEntry(e, value);
      }
    }

    /** `delete_entry` */
    method DeleteEntry(entry: Entry)
      requires Valid() && entry in hashmap.app
      modifies hashmap, hashmap.buckets
      modifies Elems(hashmap.app)`prev, Elems(hashmap.app)`next, Elems(hashmap.app)`hh_prev, Elems(hashmap.app)`hh_next
      ensures Valid() && OldOrFresh(hashmap) && KeysStay()
      ensures exists k :: 0 <= k < |old(hashmap.app)| && old(hashmap.app)[k] == entry
                     && hashmap.app == Without(old(hashmap.app), k) && Records() == Without(old(Records()), k)
    {
      hide LearnerOk, Table.Valid, PointsTo, RecordsOf;
      ghost var was := Records();
      ghost var k := hashmap.Delete(entry);
      assert forall e :: e in hashmap.app ==> e in old(hashmap.app);
      assert Records() == Without(was, k);
    }

    method DoPut(request: Block, inst: nat) returns (ans: Answer)
      requires Valid() && InBounds(request) && request[0] == PUT && inst < |learner.view|
      requires learner.view[inst].finished && learner.view[inst].paxosval == request
      modifies this`pointers, hashmap, hashmap.buckets, hashmap.bloom
      modifies (if hashmap.bloom == null then {} else {hashmap.bloom.bv}), Elems(hashmap.app)
      ensures Valid() && OldOrFresh(hashmap) && KeysStay()
      ensures Executes(old(Records()), request, inst, ans, Records())
    {
      hide LearnerOk, Table.Valid, KeysOk, Apart, LearnerCtx.Valid, CStr, Records, KeysStay;
      AddEntry(KeyPointer(inst, KEY_AT, KeySize(request)), KeyBytes(request), Sought(request), ValueBytes(request));
      ans := Answer(SUCCESS, Some([0]));
    }

    method DoGet(request: Block, ghost inst: nat) returns (ans: Answer)
      requires Valid() && InBounds(request) && request[0] == GET
      ensures Executes(Records(), request, inst, ans, Records())
    {
      hide LearnerOk, Table.Valid, KeysOk, Apart, LearnerCtx.Valid, CStr, RecordsOf;
      KeyAmongRecords(Sought(request));
      var entry := hashmap.Find(Sought(request));
      if entry == null {
        ans := Answer(NOT_FOUND, Some([2]));
      } else {
        ghost var i :| 0 <= i < |hashmap.app| && hashmap.app[i] == entry;
        ans := Answer(GOT_VALUE, Some(if 0 in entry.value then CStr(entry.value) else entry.value));
        assert Records()[i].key == Sought(request) && Shows(ans, Records()[i]);
      }
    }

    method DoDelete(request: Block, ghost inst: nat) returns (ans: Answer)
      requires Valid() && InBounds(request) && request[0] == DELETE
      modifies hashmap, hashmap.buckets, Elems(hashmap.app)
      ensures Valid() && OldOrFresh(hashmap) && KeysStay()
      ensures Executes(old(Records()), request, inst, ans, Records())
    {
      hide LearnerOk, Table.Valid, KeysOk, Apart, LearnerCtx.Valid, CStr, Without, RecordsOf;
      KeyAmongRecords(Sought(request));
      var entry := hashmap.Find(Sought(request));
      if entry == null {
        ans := Unset();
      } else {
        DeleteEntry(entry);
        ans := Answer(SUCCESS, Some([0]));
      }
    }

    /** The answer in which the byte sent back is never set. */
    method Unset() returns (ans: Answer)
      ensures ans.code == INVALID_OP && ans.reply.Some? && |ans.reply.value| == 1
    {
      var res := new byte[1];
      ans := Answer(INVALID_OP, Some(res[..]));
    }

    /** The switch of `deliver`, on the bytes of the delivered buffer. */
    method Execute(request: Block, inst: nat) returns (ans: Answer)
      requires Valid() && InBounds(request) && inst < |learner.view|
      requires learner.view[inst].finished && learner.view[inst].paxosval == request
      modifies this`pointers, hashmap, hashmap.buckets, hashmap.bloom
      modifies (if hashmap.bloom == null then {} else {hashmap.bloom.bv}), Elems(hashmap.app)
      ensures Valid() && OldOrFresh(hashmap) && KeysStay()
      ensures Executes(old(Records()), request, inst, ans, Records())
    {
      hide LearnerOk, Table.Valid, KeysOk, Apart, LearnerCtx.Valid, CStr, Records;
      if request[0] == 0 {
        ans := Answer(FAILED, None);
      } else if request[0] == PUT {
        ans := DoPut(request, inst);
      } else if request[0] == GET {
        ans := DoGet(request, inst);
      } else if request[0] == DELETE {
        ans := DoDelete(request, inst);
      } else {
        ans := Unset();
      }
    }

    /** What `deliver` is handed: the buffer of the delivered instance, which holds the delivered value. */
    lemma Handed(k: nat)
      requires LearnerOk() && k < |learner.delivered|
      ensures learner.delivered[k].inst < |learner.view| == learner.states.Length
      ensures learner.view[learner.delivered[k].inst].finished
      ensures learner.view[learner.delivered[k].inst].paxosval == learner.delivered[k].value
      ensures learner.states[learner.delivered[k].inst].paxosval[..] == learner.delivered[k].value
    {
      var i := learner.delivered[k].inst;
      assert Settled(learner.Now()) && i < |learner.Now().states|;
      BufferIs(i);
    }

    method Advance()
      requires Valid() && seen < |learner.delivered|
      modifies this`seen
      ensures Valid() && seen == old(seen) + 1 && Records() == old(Records())
    {
      hide Table.Valid, KeysOk, LearnerCtx.Valid, Settled;
      // the application is none of its entries
      ghost var entries: set<object> := Elems(hashmap.app);
      assert this !in entries;
      seen := seen + 1;
    }

    /** `deliver`, on the next delivery: the application is handed the buffer of the delivered instance. */
    method Deliver() returns (ans: Answer)
      requires Valid() && seen < |learner.delivered| && InBounds(learner.delivered[seen].value)
      modifies this, hashmap, hashmap.buckets, hashmap.bloom
      modifies (if hashmap.bloom == null then {} else {hashmap.bloom.bv}), Elems(hashmap.app)
      ensures Valid() && seen == old(seen) + 1 && OldOrFresh(hashmap) && KeysStay()
      ensures var d := old(learner.delivered[seen]); Executes(old(Records()), d.value, d.inst, ans, Records())
    {
      hide Table.Valid, KeysOk, LearnerOk, Apart, LearnerCtx.Valid, CStr, Settled, Executes, InBounds;
      Handed(seen);
      var inst := learner.delivered[seen].inst;
      var request := learner.states[inst].paxosval;
      ans := Execute(request[..], inst);
      Advance();
    }

    lemma ViewSize()
      requires LearnerOk()
      ensures |learner.view| == learner.states.Length && learner.Valid() && Settled(learner.Now())
    {}

    /** A message reaches the learner: every stored key keeps its bytes. */
    method Hear(bufs: array<Message>, i: nat, ghost m: Vote) returns (stop: bool)
      requires Valid() && i < bufs.Length == learner.out_bufs.Length && bufs != learner.out_bufs
        && bufs !in learner.Repr
      requires m == Unpacked(bufs[i])
      modifies learner`view, learner`num_packets, learner`delivered, learner.out_bufs, learner.Repr
      ensures Valid() && (stop <==> m.inst >= learner.states.Length) && Whole(old(learner.view))
      ensures learner.Now() == if stop then old(learner.Now()) else HandleOne(learner.maj, old(learner.Now()), m)
      ensures Records() == old(Records())
    {
      hide LearnerCtx.Valid, Table.Valid, Settled, Unpacked, HandleOne, RecordsOf;
      ghost var h := learner.Now();
      ViewSize();
      ghost var entries: set<object> := Elems(hashmap.app);
      assert learner !in entries && learner.out_bufs !in entries;
      stop := learner.Turn(bufs, i, m);
      assert hashmap.Valid();
      assert Apart();
      if !stop {
        OneMessage(learner.maj, h, m);
        SettledOneMore(learner.maj, h, m);
      }
    }

    /** One turn of the learner's batch loop, with the call of `deliver` where the handler makes it. */
    method Turn(bufs: array<Message>, i: nat, ghost m: Vote) returns (stop: bool, answers: seq<Answer>)
      requires Valid() && seen == |learner.delivered| && InBounds(m.paxosval)
      requires i < bufs.Length == learner.out_bufs.Length && bufs != learner.out_bufs && bufs !in learner.Repr
      requires m == Unpacked(bufs[i])
      modifies learner`view, learner`num_packets, learner`delivered, learner.out_bufs, learner.Repr
      modifies this, hashmap, hashmap.buckets, hashmap.bloom
      modifies (if hashmap.bloom == null then {} else {hashmap.bloom.bv}), Elems(hashmap.app)
      ensures Valid() && seen == |learner.delivered| && OldOrFresh(hashmap)
      ensures KeysStay() && Whole(old(learner.view))
      ensures stop <==> m.inst >= learner.states.Length
      ensures learner.Now() == if stop then old(learner.Now()) else HandleOne(learner.maj, old(learner.Now()), m)
      ensures if learner.delivered == old(learner.delivered) then answers == [] && Records() == old(Records())
              else learner.delivered == old(learner.delivered) + [Delivery(m.inst, m.paxosval, m.client)]
                   && |answers| == 1 && Executes(old(Records()), m.paxosval, m.inst, answers[0], Records())
    {
      hide LearnerCtx.Valid, Table.Valid, Settled, LearnerOk, KeysOk, Unpacked, HandleOne, Executes, InBounds;
      hide Records;
      ghost var h := learner.Now();
      answers := [];
      ViewSize();
      stop := Hear(bufs, i, m);
      if !stop {
        OneMessage(learner.maj, h, m);
      }
      if seen < |learner.delivered| {
        var ans := Deliver();
        answers := [ans];
      }
    }

    /** The learner's `on_value` with this application behind it: the learner does what it does by itself, every
        delivery is executed in order on what the one before has left, the entries that stay keep their keys and
        pointers, the buffers these lead into keep their bytes, and so every key still is where its pointer leads. */
    method OnValue(bufs: array<Message>, retval: nat, ghost msgs: seq<Vote>)
      returns (halted: bool, answers: seq<Answer>, ghost states: seq<seq<Record>>)
      requires Valid() && seen == |learner.delivered| && forall k :: 0 <= k < |msgs| ==> InBounds(msgs[k].paxosval)
      requires retval <= bufs.Length == learner.out_bufs.Length && bufs != learner.out_bufs && bufs !in learner.Repr
      requires msgs == UnpackAll(bufs[..retval])
      modifies learner`view, learner`num_packets, learner`delivered, learner.out_bufs, learner.Repr
      modifies this, hashmap, hashmap.buckets, hashmap.bloom
      modifies (if hashmap.bloom == null then {} else {hashmap.bloom.bv}), Elems(hashmap.app)
      ensures Valid() && seen == |learner.delivered| && KeysStay() && Whole(old(learner.view))
      ensures var n := InRangePrefix(msgs, learner.states.Length);
              var h := HandleAll(learner.maj, old(learner.view), msgs[..n]);
              && (halted <==> n < retval)
              && learner.view == h.states && learner.delivered == old(learner.delivered) + h.deliveries
              && Traces(h.deliveries, answers, states)
      ensures states[0] == old(Records()) && states[|states| - 1] == Records()
    {
      hide LearnerCtx.Valid, Table.Valid, Settled, LearnerOk, KeysOk, Apart, Unpacked, HandleOne, HandleAll;
      hide InRangePrefix, InBounds, Executes, Records, Progress;
      ghost var was, rs := learner.Now(), Records();
      ViewSize();
      answers, states := [], [rs];
      NoProgress(learner.maj, was, msgs, rs);
      for i := 0 to retval
        invariant Valid() && seen == |learner.delivered| && OldOrFresh(hashmap)
        invariant KeysStay() && Whole(was.states) && bufs[..] == old(bufs[..])
        invariant Progress(learner.maj, was, msgs, i, learner.Now(), answers, states, rs, Records())
      {
        ghost var now, mid := learner.Now(), Records();
        var stop, more := Turn(bufs, i, msgs[i]);
        if stop {
          ProgressEnds(learner.maj, was, msgs, i, now, answers, states, rs, mid);
          return true, answers, states;
        }
        ProgressStep(learner.maj, was, msgs, i, now, learner.Now(), answers, states, rs, mid, more, Records());
        answers := answers + more;
        if more != [] {
          states := states + [Records()];
        }
      }
      ProgressEnds(learner.maj, was, msgs, retval, learner.Now(), answers, states, rs, Records());
      halted := false;
    }
  }

  // ---------- What has been handled and executed of a batch ----------

  /** After `i` messages the learner is in `now`, and the deliveries among them have been executed from `rs` on. */
  ghost predicate Progress(maj: int, was: Handled, msgs: seq<Vote>, i: nat, now: Handled, answers: seq<Answer>,
                           states: seq<seq<Record>>, rs: seq<Record>, mid: seq<Record>)
  {
    && i <= |msgs| && InRange(msgs[..i], |was.states|)
    && var h := HandleAll(maj, was.states, msgs[..i]);
    && now == Handled(h.states, was.deliveries + h.deliveries) && Traces(h.deliveries, answers, states)
    && states[0] == rs && states[|h.deliveries|] == mid
  }

  lemma NoProgress(maj: int, was: Handled, msgs: seq<Vote>, rs: seq<Record>)
    ensures Progress(maj, was, msgs, 0, was, [], [rs], rs, rs)
  {
    HandleNothing(maj, was.states);
    assert was.deliveries + [] == was.deliveries;
  }

  lemma ProgressStep(maj: int, was: Handled, msgs: seq<Vote>, i: nat, now: Handled, now': Handled, answers: seq<Answer>,
                     states: seq<seq<Record>>, rs: seq<Record>, mid: seq<Record>, more: seq<Answer>, mid': seq<Record>)
    requires Progress(maj, was, msgs, i, now, answers, states, rs, mid)
    requires i < |msgs| && msgs[i].inst < |was.states| && now' == HandleOne(maj, now, msgs[i])
      && InBounds(msgs[i].paxosval)
    requires if now'.deliveries == now.deliveries then more == [] && mid' == mid
             else now'.deliveries == now.deliveries + [Delivery(msgs[i].inst, msgs[i].paxosval, msgs[i].client)]
                  && |more| == 1 && Executes(mid, msgs[i].paxosval, msgs[i].inst, more[0], mid')
    ensures Progress(maj, was, msgs, i + 1, now', answers + more, if more == [] then states else states + [mid'],
                     rs, mid')
  {
    hide HandleAll, HandleOne, Executes, InBounds;
    var h := HandleAll(maj, was.states, msgs[..i]);
    assert InRange(msgs[..i + 1], |was.states|);
    HandleAllAppend(maj, was.states, msgs, i);
    HandleOneAfter(maj, was.deliveries, h, msgs[i]);
    var d := Delivery(msgs[i].inst, msgs[i].paxosval, msgs[i].client);
    var ds := HandleAll(maj, was.states, msgs[..i + 1]).deliveries;
    TracesExtended(was.deliveries, h.deliveries, ds, d, answers, states, more, mid');
  }

  lemma ProgressEnds(maj: int, was: Handled, msgs: seq<Vote>, i: nat, now: Handled, answers: seq<Answer>,
                     states: seq<seq<Record>>, rs: seq<Record>, mid: seq<Record>)
    requires Progress(maj, was, msgs, i, now, answers, states, rs, mid)
    requires i < |msgs| ==> msgs[i].inst >= |was.states|
    ensures i == InRangePrefix(msgs, |was.states|)
    ensures var h := HandleAll(maj, was.states, msgs[..i]);
            && now == Handled(h.states, was.deliveries + h.deliveries) && Traces(h.deliveries, answers, states)
            && states[0] == rs && states[|states| - 1] == mid
  {
    hide HandleAll;
    InRangePrefixIs(msgs, |was.states|, i);
  }

  /** The trace after a turn, which delivers nothing or `d`. */
  lemma TracesExtended(base: seq<Delivery>, ds: seq<Delivery>, ds': seq<Delivery>, d: Delivery, answers: seq<Answer>,
                       states: seq<seq<Record>>, more: seq<Answer>, now: seq<Record>)
    requires Traces(ds, answers, states) && InBounds(d.value)
    requires if more == [] then base + ds' == base + ds && now == states[|ds|]
             else base + ds' == base + ds + [d] && |more| == 1 && Executes(states[|ds|], d.value, d.inst, more[0], now)
    ensures Traces(ds', answers + more, if more == [] then states else states + [now])
  {
    hide Executes, InBounds;
    assert ds' == (base + ds')[|base|..];
    if more == [] {
      assert ds == (base + ds)[|base|..] && answers + more == answers;
    } else {
      assert ds + [d] == (base + ds + [d])[|base|..] && answers + more == answers + [more[0]];
      TracesOneMore(ds, answers, states, d, more[0], now);
    }
  }

  lemma NothingTraced(rs: seq<Record>)
    ensures Traces([], [], [rs])
  {}
}
