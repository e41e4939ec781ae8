/** What requests to the key-value store mean, told from their bytes. */
module KvLaws {
  import opened Messages
  import opened HashEntries
  import opened HashClient
  import opened KvMemory

  /** The bytes of a put: the operation, the two sizes, the key, the value, and whatever follows. */
  predicate IsPut(request: Block, k: Key, v: Value, rest: seq<byte>) {
    |k| < 0x100 && |v| < 0x100 && request == [1, |k| as byte, |v| as byte] + k + v + rest
  }

  /** The bytes of another request: the operation, two sizes that are not read, and the key with its NUL. */
  predicate IsAbout(request: Block, op: byte, k: Key, rest: seq<byte>) {
    exists x: byte, y: byte :: request == [op, x, y] + k + [0] + rest
  }

  lemma Slices<T>(s: seq<T>, a: seq<T>, b: seq<T>, c: seq<T>, d: seq<T>)
    requires s == a + b + c + d
    ensures s[..|a|] == a && s[|a|..] == b + c + d
    ensures s[|a|..|a| + |b|] == b && s[|a| + |b|..|a| + |b| + |c|] == c
  {}

  /** A put is taken apart where it was put together; the lookup reads on past the key up to a NUL. */
  lemma PutLayout(request: Block, k: Key, v: Value, rest: seq<byte>)
    requires IsPut(request, k, v, rest) && InBounds(request)
    ensures request[0] == PUT && KeyBytes(request) == k && ValueBytes(request) == v
    ensures Sought(request) == CStr(k + v + rest)
  {
    hide CStr;
    var head: seq<byte> := [1, |k| as byte, |v| as byte];
    Slices(request, head, k, v, rest);
    assert request[0] == request[..3][0] && request[1] == request[..3][1] && request[2] == request[..3][2];
  }

  lemma KeyLayout(request: Block, op: byte, k: Key, rest: seq<byte>)
    requires IsAbout(request, op, k, rest) && 0 !in k
    ensures request[0] == op && Sought(request) == k
  {
    hide CStr;
    var x: byte, y: byte :| request == [op, x, y] + k + [0] + rest;
    assert request[3..] == k + [0] + rest;
    CStrOfPrefix(k, rest);
  }

  ghost predicate WholeFields(rs: seq<Record>) {
    forall i :: 0 <= i < |rs| ==> |rs[i].value| == 10
  }

  /** A put where the sought string is no key adds one record: the key, a pointer to it behind the three bytes of the
      head, and the value at the front of the field. */
  lemma PutAdds(was: seq<Record>, request: Block, inst: nat, ans: Answer, now: seq<Record>, k: Key, v: Value,
                rest: seq<byte>)
    requires IsPut(request, k, v, rest) && InBounds(request) && Executes(was, request, inst, ans, now)
    requires forall i :: 0 <= i < |was| ==> was[i].key != CStr(k + v + rest)
    ensures ans.code == SUCCESS && ans.reply == Some([0]) && |now| == |was| + 1 && now[..|was|] == was
    ensures var r := now[|was|];
            r.key == k && r.pointer == KeyPointer(inst, 3, |k|) && |v| <= 10 == |r.value| && r.value[..|v|] == v
  {
    hide CStr;
    PutLayout(request, k, v, rest);
    assert KeySize(request) == |KeyBytes(request)|;
  }

  /** A put where it is a key writes the value over the front of the field of one record with that key, and leaves the
      rest of the field, that record's key and pointer, and all other records as they were. */
  lemma PutOverwrites(was: seq<Record>, request: Block, inst: nat, ans: Answer, now: seq<Record>, k: Key, v: Value,
                      rest: seq<byte>) returns (i: nat)
    requires IsPut(request, k, v, rest) && InBounds(request) && Executes(was, request, inst, ans, now)
    requires WholeFields(was)
    requires exists i :: 0 <= i < |was| && was[i].key == CStr(k + v + rest)
    ensures ans.code == SUCCESS && ans.reply == Some([0]) && i < |was| == |now| && was[i].key == CStr(k + v + rest)
    ensures now[i].key == was[i].key && now[i].pointer == was[i].pointer && |v| <= 10 == |now[i].value|
    ensures now[i].value[..|v|] == v && now[i].value[|v|..] == was[i].value[|v|..]
    ensures forall j :: 0 <= j < |was| && j != i ==> now[j] == was[j]
  {
    hide CStr;
    PutLayout(request, k, v, rest);
    i :| 0 <= i < |was| && was[i].key == Sought(request) && now == was[i := Overwritten(was[i], v)];
  }

  lemma {:induction false} PrefixOfString(v: seq<byte>, b: seq<byte>)
    requires v <= b && 0 !in v
    ensures v <= CStr(b)
  {
    if v != [] {
      PrefixOfString(v[1..], b[1..]);
    }
  }

  /** A get answers with the string of a record that has the key, and says so, or that there is none. */
  lemma GetAnswers(rs: seq<Record>, request: Block, inst: nat, ans: Answer, now: seq<Record>, k: Key, rest: seq<byte>)
    requires IsAbout(request, 2, k, rest) && 0 !in k && InBounds(request) && Executes(rs, request, inst, ans, now)
    ensures now == rs
    ensures (forall i :: 0 <= i < |rs| ==> rs[i].key != k) ==> ans.code == NOT_FOUND && ans.reply == Some([2])
    ensures (exists i :: 0 <= i < |rs| && rs[i].key == k) ==>
              ans.code == GOT_VALUE && ans.reply.Some? &&
              exists i :: 0 <= i < |rs| && rs[i].key == k && (0 in rs[i].value ==> ans.reply.value == CStr(rs[i].value))
  {
    hide CStr;
    KeyLayout(request, 2, k, rest);
    if i :| 0 <= i < |rs| && rs[i].key == k {
      assert HasKey(rs, k);
      var j :| 0 <= j < |rs| && rs[j].key == k && Shows(ans, rs[j]);
    }
  }

  lemma OnlyOne(was: seq<Record>, mid: seq<Record>, k: Key)
    requires |mid| == |was| + 1 && mid[..|was|] == was && mid[|was|].key == k
    requires forall i :: 0 <= i < |was| ==> was[i].key != k
    ensures forall i :: 0 <= i < |mid| && mid[i].key == k ==> i == |was|
  {
    forall i | 0 <= i < |was|
      ensures mid[i].key != k
    {
      assert mid[..|was|][i] == mid[i];
    }
  }

  /** The value of a new key is what the next get of it sends, followed by what was in the memory up to a NUL. */
  lemma PutThenGet(was: seq<Record>, put: Block, inst: nat, a: Answer, mid: seq<Record>, k: Key, v: Value,
                   rest: seq<byte>,
                   get: Block, inst': nat, a': Answer, now: seq<Record>, rest': seq<byte>)
    requires IsPut(put, k, v, rest) && InBounds(put) && Executes(was, put, inst, a, mid)
    requires IsAbout(get, 2, k, rest') && InBounds(get) && Executes(mid, get, inst', a', now)
    requires 0 !in k && 0 !in v && forall i :: 0 <= i < |was| ==> was[i].key != k && was[i].key != CStr(k + v + rest)
    ensures a'.code == GOT_VALUE && (0 in now[|now| - 1].value ==> v <= a'.reply.value)
  {
    hide CStr, Executes, InBounds, IsPut, IsAbout;
    PutAdds(was, put, inst, a, mid, k, v, rest);
    GetAnswers(mid, get, inst', a', now, k, rest');
    OnlyOne(was, mid, k);
    assert v <= mid[|was|].value;
    PrefixOfString(v, mid[|was|].value);
  }

  /** A delete of a key that one record has leaves the others, in their order, and no record with the key. */
  lemma DeleteRemoves(was: seq<Record>, request: Block, inst: nat, ans: Answer, now: seq<Record>, k: Key,
                      rest: seq<byte>, i: nat)
    requires IsAbout(request, 3, k, rest) && 0 !in k && InBounds(request) && Executes(was, request, inst, ans, now)
    requires i < |was| && was[i].key == k && forall j :: 0 <= j < |was| && j != i ==> was[j].key != k
    ensures ans.code == SUCCESS && ans.reply == Some([0]) && now == was[..i] + was[i + 1..]
    ensures forall j :: 0 <= j < |now| ==> now[j].key != k
  {
    hide CStr;
    KeyLayout(request, 3, k, rest);
    assert HasKey(was, k);
  }

  /** A delete of a key that no record has changes nothing. */
  lemma DeleteOfNothing(was: seq<Record>, request: Block, inst: nat, ans: Answer, now: seq<Record>, k: Key,
                        rest: seq<byte>)
    requires IsAbout(request, 3, k, rest) && 0 !in k && InBounds(request) && Executes(was, request, inst, ans, now)
    requires forall j :: 0 <= j < |was| ==> was[j].key != k
    ensures ans.code == INVALID_OP && now == was
  {
    hide CStr;
    KeyLayout(request, 3, k, rest);
  }
}
