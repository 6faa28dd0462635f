/** The whole store: puts, sort, load and read together answer with the last value put under a key. */
module EndToEnd {
  import opened Bytes
  import opened Records
  import opened Index
  import opened OzWrite
  import opened OzMerge
  import opened OzSort
  import opened OzRead

  /** The value of the last successful put under a key. */
  function LastPut(log: seq<Entry>, key: Bytes): Option<Bytes> {
    if log == [] then None
    else
      var last := log[|log| - 1];
      if last.key == key then Some(last.value) else LastPut(log[..|log| - 1], key)
  }

  ghost function Expected(log: seq<Entry>, key: Bytes): Answer {
    match LastPut(log, key)
    case None => Missing
    case Some(v) => Found(v)
  }

  /** The last entry for a key, by position. */
  lemma {:induction false} LastPutAt(log: seq<Entry>, key: Bytes) returns (i: nat)
    ensures if LastPut(log, key).None? then forall e <- log :: e.key != key
            else i < |log| && log[i] == Entry(key, LastPut(log, key).value)
                 && forall j :: i < j < |log| ==> log[j].key != key
  {
    i := 0;
    if log != [] {
      var n := |log| - 1;
      if log[n].key == key {
        i := n;
      } else {
        i := LastPutAt(log[..n], key);
        assert log == log[..n] + [log[n]];
      }
    }
  }

  /** Records of a log differ in offset, so the index of a log is unique. */
  lemma LogOffsetsTell(v: Bytes, recs: seq<Record>, log: seq<Entry>)
    requires Addresses(v, recs, log)
    ensures OffsetsTell(Elements(recs))
  {
    forall r, s | r in recs && s in recs && r.key == s.key && r.offset == s.offset
      ensures r == s
    {
      var i :| 0 <= i < |recs| && recs[i] == r;
      var j :| 0 <= j < |recs| && recs[j] == s;
      assert Holds(v, recs[i], log[i]) && Holds(v, recs[j], log[j]);
      assert i == j;
    }
  }

  /** Chunk size, the order of ties and the order of the merge leave no trace: a log has one sorted table. */
  lemma SortedTableIsUnique(v: Bytes, recs: seq<Record>, log: seq<Entry>, a: seq<Record>, b: seq<Record>)
    requires Addresses(v, recs, log)
    requires IsIndex(a, Below(Elements(recs))) && IsIndex(b, Below(Elements(recs)))
    ensures a == b
  {
    LogOffsetsTell(v, recs, log);
    hide StrCmp, StrictlySorted;
    IndexUnique(a, b, Below(Elements(recs)));
  }

  /**
   * Of the index that the sorter makes of a log, a lookup answers the last put of every key below the sentinel,
   * and nothing for any other key.
   */
  lemma LookupIsLastPut(v: Bytes, recs: seq<Record>, log: seq<Entry>, index: seq<Record>, key: Bytes)
    requires Addresses(v, recs, log) && |v| < TWO63
    requires IsIndex(index, Below(Elements(recs)))
    ensures Lookup(index, v, key) == if StrCmp(key, SENTINEL) < 0 then Expected(log, key) else Missing
  {
    var n := LastPutAt(log, key);
    hide StrCmp;
    if LastPut(log, key).None? || StrCmp(key, SENTINEL) >= 0 {
      forall r | r in index
        ensures r.key != key
      {
        assert r in Below(Elements(recs));
        var i :| 0 <= i < |recs| && recs[i] == r;
        assert Holds(v, recs[i], log[i]) && log[i] in log;
      }
    } else {
      NewestIsLast(v, recs, log, index, key, n);
      RecordOfIs(index, recs[n]);
      assert Holds(v, recs[n], log[n]);
    }
  }

  lemma NewestIsLast(v: Bytes, recs: seq<Record>, log: seq<Entry>, index: seq<Record>, key: Bytes, n: nat)
    requires Addresses(v, recs, log) && IsIndex(index, Below(Elements(recs)))
    requires n < |log| && log[n].key == key && StrCmp(key, SENTINEL) < 0
    requires forall j :: n < j < |log| ==> log[j].key != key
    ensures recs[n] in index && recs[n].key == key
  {
    hide StrCmp;
    var r := recs[n];
    assert Holds(v, r, log[n]);
    assert r in Below(Elements(recs)) && Newer(index, r);
    var m :| m in index && m.key == r.key && m.offset >= r.offset;
    assert m in Below(Elements(recs));
    var i :| 0 <= i < |recs| && recs[i] == m;
    assert Holds(v, recs[i], log[i]);
    assert i == n;
  }

  /** The store answers a key as its puts demand if and only if the key is below the sentinel or was never put. */
  lemma AnswersAsPutIff(v: Bytes, recs: seq<Record>, log: seq<Entry>, index: seq<Record>, key: Bytes)
    requires Addresses(v, recs, log) && |v| < TWO63
    requires IsIndex(index, Below(Elements(recs)))
    ensures Lookup(index, v, key) == Expected(log, key) <==> StrCmp(key, SENTINEL) < 0 || LastPut(log, key).None?
  {
    LookupIsLastPut(v, recs, log, index, key);
  }

  /** In terms of what was put: the loader gets the whole table if and only if no key below the sentinel holds 0xFF. */
  lemma TableIsWhole(v: Bytes, recs: seq<Record>, log: seq<Entry>, index: seq<Record>)
    requires Addresses(v, recs, log) && IsIndex(index, Below(Elements(recs)))
    ensures UpToFF(Text(index)) == Text(index)
       <==> forall e <- log :: StrCmp(e.key, SENTINEL) < 0 ==> 255 !in e.key
  {
    hide StrCmp, UpToFF, Text, IsIndex;
    CopyIsWhole(index, recs);
    forall i | 0 <= i < |log|
      ensures recs[i].key == log[i].key && recs[i] in recs && log[i] in log
    {
      assert Holds(v, recs[i], log[i]);
    }
    assert forall r <- recs :: exists i :: 0 <= i < |recs| && recs[i] == r;
    assert forall e <- log :: exists i :: 0 <= i < |log| && log[i] == e;
  }

  // ----- the limits

  /** The value that a get of the key would read leaves room for its terminator. */
  predicate LastFits(log: seq<Entry>, key: Bytes) {
    match LastPut(log, key)
    case None => true
    case Some(v) => |v| < TWO32 - 1
  }

  lemma ShortValuesFit(log: seq<Entry>, key: Bytes)
    requires forall e <- log :: |e.value| < TWO32 - 1
    ensures LastFits(log, key)
  {
    var n := LastPutAt(log, key);
    if n < |log| { assert log[n] in log; }
  }

  /** What the files must satisfy for a reader to be opened on them. */
  ghost predicate Servable(s: Store, log: seq<Entry>) {
    && ValidLog(s, log)
    && (forall e <- log :: StrCmp(e.key, SENTINEL) < 0 ==> 255 !in e.key && LastFits(log, e.key))
    && (exists e <- log :: StrCmp(e.key, SENTINEL) < 0)
  }

  /** The sorter gives up at exactly 20480000 lines. */
  lemma SplitLimit(n: nat)
    ensures FilesNeeded(n, PER_LINE) == n / 204800 + 1 && MAX_SPLITS == 100
    ensures FilesNeeded(n, PER_LINE) <= MAX_SPLITS <==> n < 20480000
  {
    assert PER_LINE == 204800;
    assert FilesNeeded(n, PER_LINE) == n / 204800 + 1;
  }

  lemma IndexFacts(s: Store, recs: seq<Record>, log: seq<Entry>, index: seq<Record>)
    requires Stored(s, recs, log) && Servable(s, log) && AllValid(recs)
    requires IsIndex(index, Below(Elements(recs)))
    ensures AllValid(index) && NoFF(index) && AllReadable(index) && index != [] && |index| <= |recs|
  {
    hide StrCmp, Text, StrictlySorted, ValidKey, LastPut, LastFits, Readable;
    forall r | r in index
      ensures r in recs && ValidRecord(r) && 255 !in r.key && Readable(r)
    {
      assert r in Below(Elements(recs));
      var i :| 0 <= i < |recs| && recs[i] == r;
      assert Holds(s.valueFile, recs[i], log[i]) && log[i] in log;
      IndexedIsReadable(s, recs, log, index, i);
    }
    IndexSize(index, recs);
    BelowNotEmpty(s, recs, log);
    var r :| r in Below(Elements(recs));
    assert Newer(index, r);
  }

  /** A record that is in the index is the last one under its key. */
  lemma IndexedIsReadable(s: Store, recs: seq<Record>, log: seq<Entry>, index: seq<Record>, i: nat)
    requires Addresses(s.valueFile, recs, log) && |s.valueFile| < TWO63
    requires IsIndex(index, Below(Elements(recs)))
    requires i < |recs| && recs[i] in index && LastFits(log, recs[i].key)
    ensures Readable(recs[i])
  {
    hide StrCmp, StrictlySorted, LastPut, IsIndex;
    var key := recs[i].key;
    assert Holds(s.valueFile, recs[i], log[i]) && log[i] in log;
    var n := LastPutAt(log, key);
    IndexedIsBelow(index, recs, recs[i]);
    NewestIsLast(s.valueFile, recs, log, index, key, n);
    SameKeyInIndex(index, recs, recs[i], recs[n]);
    assert Holds(s.valueFile, recs[n], log[n]);
  }

  lemma IndexedIsBelow(index: seq<Record>, recs: seq<Record>, r: Record)
    requires IsIndex(index, Below(Elements(recs))) && r in index
    ensures StrCmp(r.key, SENTINEL) < 0
  {
    assert r in Below(Elements(recs));
  }

  lemma SameKeyInIndex(index: seq<Record>, recs: seq<Record>, r: Record, q: Record)
    requires IsIndex(index, Below(Elements(recs))) && r in index && q in index && r.key == q.key
    ensures r == q
  {
    KeyAppearsOnce(index, r, q);
  }

  lemma BelowNotEmpty(s: Store, recs: seq<Record>, log: seq<Entry>)
    requires Stored(s, recs, log) && Servable(s, log)
    ensures Below(Elements(recs)) != {}
  {
    hide StrCmp, Text, ValidLog;
    var e :| e in log && StrCmp(e.key, SENTINEL) < 0;
    var i :| 0 <= i < |log| && log[i] == e;
    assert Holds(s.valueFile, recs[i], log[i]);
    assert recs[i] in Below(Elements(recs));
  }

  // ----- the whole run

  /** The writer's side of a run: an `ozwrite_put` for every call, whatever it returns. */
  method WriteAll(calls: seq<PutCall>) returns (ow: OZWrite)
    ensures fresh(ow) && ow.Files() == Run(EMPTY_STORE, calls)
  {
    ow := new OZWrite(EMPTY_STORE);
    for i := 0 to |calls|
      invariant fresh(ow) && Run(ow.Files(), calls[i..]) == Run(EMPTY_STORE, calls)
    {
      assert calls[i..][1..] == calls[i + 1..];
      var _ := ow.Put(calls[i].key, calls[i].value, calls[i].io);
    }
  }

  /** `ozread_open`: sort, load, open the value file. It fails exactly when the log is too long to split. */
  method Open(s: Store, ghost recs: seq<Record>, ghost log: seq<Entry>) returns (ret: int, handle: OZRead)
    requires Stored(s, recs, log) && Servable(s, log)
    ensures fresh(handle) && handle.valueFile == s.valueFile
    ensures ret == if |log| < 20480000 then 0 else 2
    ensures ret == 0 ==>
      && IsIndex(handle.recs[..], Below(Elements(recs)))
      && AllReadable(handle.recs[..])
  {
    hide *;
    ServableLog(s, log);
    StoredFacts(s, recs, log);
    StoredIsParsed(s, recs, log);
    TextRoundTrip(recs);
    BelowNotEmpty(s, recs, log);
    SplitLimit(|recs|);
    var stdout;
    ghost var index;
    stdout, index := OZoneSort(s.keyFile);
    handle := new OZRead(s.valueFile);
    if |recs| < 20480000 {
      IndexFacts(s, recs, log, index);
      CopyIsWhole(index, recs);
      KeysOfIndex(index, recs);
    } else {
      index := [];
    }
    PrintedIs(stdout, index);
    ret := handle.OpenKeyFile(stdout, index);
  }

  lemma StoredFacts(s: Store, recs: seq<Record>, log: seq<Entry>)
    requires Stored(s, recs, log) && ValidLog(s, log)
    ensures |recs| == |log| && s.keyFile == Text(recs)
    ensures Addresses(s.valueFile, recs, log) && |s.valueFile| < TWO63
    ensures 20480000 < TWO63
  {
  }

  lemma ServableLog(s: Store, log: seq<Entry>)
    requires Servable(s, log)
    ensures ValidLog(s, log)
  {
  }

  lemma PrintedIs(stdout: Bytes, index: seq<Record>)
    requires stdout == (if index == [] then PRINTED_FAILURE else Decimal(|index|) + [NL] + Text(index))
    ensures stdout == Printed(index) && (index == [] ==> AllValid(index))
  {
  }

  lemma EmptyKeyNeverPut(v: Bytes, recs: seq<Record>, log: seq<Entry>)
    requires Addresses(v, recs, log)
    ensures LastPut(log, []) == None
  {
    forall i | 0 <= i < |log|
      ensures log[i].key != []
    {
      assert Holds(v, recs[i], log[i]);
    }
    var n := LastPutAt(log, []);
  }

  /** The lookup in terms of the bytes of the key. */
  lemma LookupByFirstByte(v: Bytes, recs: seq<Record>, log: seq<Entry>, index: seq<Record>, key: Bytes)
    requires Addresses(v, recs, log) && |v| < TWO63
    requires IsIndex(index, Below(Elements(recs)))
    ensures Lookup(index, v, key) == if key != [] && key[0] < 126 then Expected(log, key) else Missing
    ensures StrictlySorted(index)
  {
    hide Lookup, StrCmp, Addresses;
    LookupIsLastPut(v, recs, log, index, key);
    FirstByteDecides(key);
    EmptyKeyNeverPut(v, recs, log);
  }

  lemma Terminated(buf: array<byte>, value: Bytes)
    requires HoldsValue(buf, value)
    ensures buf[..] == value + [0]
  {
  }

  /**
   * End to end: after any run of puts, successful or not, a single get returns exactly the bytes of the last
   * successful put under its key, and 3 exactly when there was none or the key starts with "~" or a byte above it.
   */
  method PutsThenGet(calls: seq<PutCall>, key: Bytes) returns (open: int, ret: int, value: array?<byte>)
    requires Servable(Run(EMPTY_STORE, calls), LogOf(calls))
    ensures open == if |LogOf(calls)| < 20480000 then 0 else 2
    ensures open == 0 ==>
      ret == if key != [] && key[0] < 126 && LastPut(LogOf(calls), key).Some? then 0 else 3
    ensures open == 0 && ret == 0 ==> value != null && value[..] == LastPut(LogOf(calls), key).value + [0]
  {
    hide Servable, Lookup, LastPut, Stored, LogOf, HoldsValue, Run, StrCmp, Parse, IsIndex, Below, AllReadable;
    hide Addresses, ValidLog, AllValid, StrictlySorted;
    ghost var log := LogOf(calls);
    var ow := WriteAll(calls);
    ServableLog(ow.Files(), log);
    RunStored(calls);
    ghost var recs := Parse(ow.keyFile);
    StoredFacts(ow.Files(), recs, log);
    var handle;
    open, handle := Open(ow.Files(), recs, log);
    ret, value := 0, null;
    if open == 0 {
      LookupByFirstByte(ow.valueFile, recs, log, handle.recs[..], key);
      var len;
      ret, value, len := handle.Get(key);
      if ret == 0 { Terminated(value, LastPut(log, key).value); }
    }
  }

  // ----- a key that is lost

  /** Two puts, the second under the sentinel itself. */
  const SENTINEL_CALLS: seq<PutCall> := [PutCall([97], [1], Fine), PutCall(SENTINEL, [2], Fine)]

  lemma OnePut(key: Bytes, b: byte)
    requires key != []
    ensures LogAfter([], PutCall(key, [b], Fine)) == [Entry(key, [b])]
  {
    assert EntryOf(PutCall(key, [b], Fine)).value == [b];
  }

  lemma SentinelPuts()
    ensures var s := Run(EMPTY_STORE, SENTINEL_CALLS);
      LogOf(SENTINEL_CALLS) == [Entry([97], [1]), Entry(SENTINEL, [2])] && s.valueFile == [1, 2]
  {
    var calls := SENTINEL_CALLS;
    assert calls[1..] == [calls[1]] && calls[1..][1..] == [];
    OnePut([97], 1);
    OnePut(SENTINEL, 2);
    assert LogOf(calls[1..][1..]) == [];
    assert LogOf(calls[1..]) == [Entry(SENTINEL, [2])] + [];
    var s1 := AfterPut(EMPTY_STORE, calls[0].key, calls[0].value, calls[0].io).1;
    var s2 := AfterPut(s1, calls[1].key, calls[1].value, calls[1].io).1;
    assert Run(s2, calls[1..][1..]) == s2;
    assert Run(s1, calls[1..]) == s2;
  }

  lemma SentinelIsServable()
    ensures Servable(Run(EMPTY_STORE, SENTINEL_CALLS), LogOf(SENTINEL_CALLS))
    ensures LastPut(LogOf(SENTINEL_CALLS), SENTINEL) == Some([2]) && |LogOf(SENTINEL_CALLS)| < 20480000
    ensures StrCmp(SENTINEL, SENTINEL) == 0
  {
    SentinelPuts();
    hide Run, LogOf;
    var log := LogOf(SENTINEL_CALLS);
    assert Entry([97], [1]) in log && log[1].key == SENTINEL;
    ShortValuesFit(log, [97]);
    ShortValuesFit(log, SENTINEL);
    StrCmpZero(SENTINEL, SENTINEL);
  }

  /** The log can be served and its last put succeeded, and yet a get of its key answers that there is none. */
  method GetSentinel() returns (ret: int)
    ensures Servable(Run(EMPTY_STORE, SENTINEL_CALLS), LogOf(SENTINEL_CALLS))
    ensures LastPut(LogOf(SENTINEL_CALLS), SENTINEL) == Some([2]) && ret == 3
  {
    hide Run, LogOf, Servable, LastPut, StrCmp, HoldsValue;
    SentinelIsServable();
    var open, value;
    open, ret, value := PutsThenGet(SENTINEL_CALLS, SENTINEL);
  }
}
