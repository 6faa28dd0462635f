/** `OZReadServiceHandler`: how the results of single and batch reads become replies. */
module ReadService {
  import opened Bytes
  import opened Records
  import opened Index
  import opened OzMerge
  import opened OzWrite
  import opened OzRead
  import opened OzGets
  import opened EndToEnd

  datatype Reply = Value(bytes: Bytes) | Throws(why: string)

  /** The reply to `get`. */
  ghost function ReplyOf(a: Answer): Reply {
    match a
    case Missing => Throws("key not found")
    case Unreadable => Throws("get value fail")
    case Found(v) => Value(v)
  }

  /** What `string::assign(const char*)` takes of a value: everything before the first NUL. */
  function UpToNul(v: Bytes): (r: Bytes)
    ensures r <= v && 0 !in r && (|r| < |v| ==> v[|r|] == 0)
  {
    if v == [] || v[0] == 0 then [] else [v[0]] + UpToNul(v[1..])
  }

  lemma {:induction false} UpToNulWhole(v: Bytes)
    ensures UpToNul(v) == v <==> 0 !in v
  {
    if v != [] {
      UpToNulWhole(v[1..]);
      assert v == [v[0]] + v[1..];
    }
  }

  /** The string `gets` pushes for one key: missing and unreadable values become empty. */
  ghost function PushedFor(a: Answer): Bytes {
    if a.Found? then UpToNul(a.value) else []
  }

  /** `gets` replies with what `get` would if and only if the value holds no NUL. */
  lemma GetsAgreesWithGet(v: Bytes)
    ensures Value(PushedFor(Found(v))) == ReplyOf(Found(v)) <==> 0 !in v
  {
    UpToNulWhole(v);
  }

  /** A value with a NUL in it: `get` replies all three bytes, `gets` the first. */
  lemma NulCutsValue()
    ensures ReplyOf(Found([1, 0, 2])) == Value([1, 0, 2]) && PushedFor(Found([1, 0, 2])) == [1]
  {
    assert UpToNul([1, 0, 2]) == [1] + UpToNul([0, 2]) && UpToNul([0, 2]) == [];
  }

  /** The three replies, case by case: a value if and only if the lookup has found one, and the text of each failure. */
  lemma RepliesOf(a: Answer)
    ensures forall v :: ReplyOf(a) == Value(v) <==> a == Found(v)
    ensures ReplyOf(Missing) == Throws("key not found") && ReplyOf(Unreadable) == Throws("get value fail")
  {
  }

  /** What is pushed, case by case. */
  lemma PushesOf(v: Bytes)
    ensures PushedFor(Missing) == [] && PushedFor(Unreadable) == []
    ensures var r := PushedFor(Found(v)); r <= v && 0 !in r && (|r| < |v| ==> v[|r|] == 0)
  {
  }

  method Get(handle: OZRead, key: Bytes) returns (r: Reply)
    requires StrictlySorted(handle.recs[..]) && AllReadable(handle.recs[..])
    modifies handle`pos, handle`seeks
    ensures r == ReplyOf(Lookup(handle.recs[..], handle.valueFile, key))
    ensures forall v :: r == Value(v) <==> Lookup(handle.recs[..], handle.valueFile, key) == Found(v)
    ensures !Has(handle.recs[..], key) ==> r == Throws("key not found")
  {
    var ret, value, len := handle.Get(key);
    match ret
    case 0 => r := Value(value[..len]);
    case 1 => r := Throws("invalid handle");
    case 2 => r := Throws("invalid param");
    case 3 => r := Throws("key not found");
    case 4 => r := Throws("get value fail");
    case 5 => r := Throws("malloc for value fail");
    case _ => r := Throws("unknown error");
  }

  /** Copies a C string out of a buffer. */
  method Assign(buf: array<byte>) returns (s: Bytes)
    requires 0 in buf[..]
    ensures s == UpToNul(buf[..])
  {
    s := [];
    var i := 0;
    while buf[i] != 0
      invariant i < buf.Length && 0 in buf[i..]
      invariant UpToNul(buf[..]) == s + UpToNul(buf[i..])
      decreases buf.Length - i
    {
      assert buf[i..] == [buf[i]] + buf[i + 1..];
      ConcatAssociative(s, [buf[i]], UpToNul(buf[i + 1..]));
      s := s + [buf[i]];
      i := i + 1;
    }
  }

  lemma {:induction false} UpToNulTerminated(v: Bytes)
    ensures UpToNul(v + [0]) == UpToNul(v)
  {
    if v != [] {
      UpToNulTerminated(v[1..]);
      assert (v + [0])[1..] == v[1..] + [0];
    }
  }

  method Gets(handle: OZRead, keys: seq<Bytes>) returns (replies: seq<Bytes>)
    requires StrictlySorted(handle.recs[..]) && AllReadable(handle.recs[..])
    modifies handle`pos, handle`seeks
    ensures |replies| == |keys|
    ensures forall i :: 0 <= i < |keys| ==>
      replies[i] == PushedFor(Lookup(handle.recs[..], handle.valueFile, keys[i]))
  {
    hide Lookup, AllReadable, StrictlySorted, Answers, Hits, OzGets.Offsets, UpToNul;
    var given := seq(|keys|, i requires 0 <= i < |keys| => Some(keys[i]));
    var gets := new OzGets.Gets(given);
    ghost var index := handle.recs[..];
    var _ := ReadBatch(handle, gets);
    assert handle.recs[..] == index;
    replies := [];
    for i := 0 to |keys|
      modifies {}
      invariant |replies| == i
      invariant forall k :: 0 <= k < i ==> replies[k] == PushedFor(Lookup(index, handle.valueFile, keys[k]))
    {
      assert SameAsGet(gets.values[i], gets.keys[i], index, handle.valueFile);
      var str := [];
      var buf := gets.values[i];
      if buf != null {
        PushedFrom(buf, Lookup(index, handle.valueFile, keys[i]));
        str := Assign(buf);
      }
      replies := replies + [str];
    }
  }

  lemma PushedFrom(buf: array<byte>, a: Answer)
    requires (a.Found? && HoldsValue(buf, a.value)) || (a.Unreadable? && buf.Length > 0 && buf[0] == 0)
    ensures 0 in buf[..] && UpToNul(buf[..]) == PushedFor(a)
  {
    if a.Found? {
      assert buf[..] == a.value + [0];
      UpToNulTerminated(a.value);
    } else {
      assert buf[..][0] == 0;
    }
  }

  /** A table made of a log, opened for reading. */
  method OpenLog(calls: seq<PutCall>) returns (open: int, handle: OZRead)
    requires Servable(Run(EMPTY_STORE, calls), LogOf(calls))
    ensures open == if |LogOf(calls)| < 20480000 then 0 else 2
    ensures open == 0 ==> fresh(handle) && StrictlySorted(handle.recs[..]) && AllReadable(handle.recs[..])
    ensures open == 0 ==> forall key ::
      Lookup(handle.recs[..], handle.valueFile, key)
      == (if key != [] && key[0] < 126 then Expected(LogOf(calls), key) else Missing)
  {
    hide Stored, ValidLog, LogOf, Run, StrCmp, Expected, Lookup, Below, IsIndex, Addresses, AllReadable, Parse;
    hide AllValid;
    ghost var log := LogOf(calls);
    var ow := WriteAll(calls);
    RunStored(calls);
    ghost var recs := Parse(ow.keyFile);
    ServableLog(ow.Files(), log);
    StoredFacts(ow.Files(), recs, log);
    open, handle := Open(ow.Files(), recs, log);
    if open == 0 {
      ghost var index := handle.recs[..];
      IndexSorted(index, Below(Elements(recs)));
      forall key
        ensures Lookup(index, ow.valueFile, key) == if key != [] && key[0] < 126 then Expected(log, key) else Missing
      {
        LookupByFirstByte(ow.valueFile, recs, log, index, key);
      }
    }
  }

  /**
   * The service end to end: after any run of puts, successful or not, `get` replies the last value of a key whose first
   * byte is below "~", and throws "key not found" exactly when there is none.
   */
  method PutsThenServiceGet(calls: seq<PutCall>, key: Bytes) returns (open: int, r: Reply)
    requires Servable(Run(EMPTY_STORE, calls), LogOf(calls))
    ensures open == if |LogOf(calls)| < 20480000 then 0 else 2
    ensures open == 0 ==>
      r == if key != [] && key[0] < 126 && LastPut(LogOf(calls), key).Some? then Value(LastPut(LogOf(calls), key).value)
           else Throws("key not found")
  {
    hide Servable, LogOf, Run, Lookup, AllReadable, StrictlySorted, LastPut, Has;
    var handle;
    open, handle := OpenLog(calls);
    r := Throws("");
    if open == 0 {
      r := Get(handle, key);
    }
  }

  /**
   * The batch end to end: after any run of puts, successful or not, each key whose first byte is below "~" is answered
   * with its last value up to the first NUL, and every other key with an empty string.
   */
  method PutsThenGets(calls: seq<PutCall>, keys: seq<Bytes>) returns (open: int, replies: seq<Bytes>)
    requires Servable(Run(EMPTY_STORE, calls), LogOf(calls))
    ensures open == if |LogOf(calls)| < 20480000 then 0 else 2
    ensures open == 0 ==> |replies| == |keys|
    ensures open == 0 ==> forall i :: 0 <= i < |keys| ==>
      if keys[i] != [] && keys[i][0] < 126 && LastPut(LogOf(calls), keys[i]).Some? then
        var v := LastPut(LogOf(calls), keys[i]).value;
        replies[i] <= v && 0 !in replies[i] && (|replies[i]| < |v| ==> v[|replies[i]|] == 0)
      else replies[i] == []
  {
    hide Servable, LogOf, Run, Lookup, AllReadable, StrictlySorted, LastPut, Has;
    var handle;
    open, handle := OpenLog(calls);
    replies := [];
    if open == 0 {
      replies := Gets(handle, keys);
    }
  }

  lemma IndexSorted(index: seq<Record>, rs: set<Record>)
    requires IsIndex(index, rs)
    ensures StrictlySorted(index)
  {
  }
}
