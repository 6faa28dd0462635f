/** `ozwrite_put`: append a value to the value file, then a line that addresses it to the key file. */
module OzWrite {
  import opened Bytes
  import opened Records

  /** The contents of `key.dat` and `value.dat`. */
  datatype Store = Store(keyFile: Bytes, valueFile: Bytes)

  const EMPTY_STORE := Store([], [])

  /** What the operating system does during one put. A short `fwrite` leaves some bytes in the value file. */
  datatype Io = Fine | FtelloFails | ShortWrite(written: nat) | KeyWriteFails

  /** The code `ozwrite_put` returns and the files it leaves. The length is narrowed to 32 bits first. */
  function AfterPut(s: Store, key: Bytes, value: Bytes, io: Io): (int, Store) {
    var len := Low32(|value|);
    if len < 1 then (5, s)
    else if io.FtelloFails? then (4, s)
    else if io.ShortWrite? && io.written < len then
      (3, s.(valueFile := s.valueFile + value[..io.written]))
    else
      var s1 := s.(valueFile := s.valueFile + value[..Low32(|value|)]);
      if |key| < 1 then (6, s1)
      else if io.KeyWriteFails? then (2, s1)
      else (0, s1.(keyFile := s.keyFile + Line(Record(key, |s.valueFile|, len))))
  }

  /** The two files opened for appending, written step by step. */
  class OZWrite {
    var keyFile: Bytes
    var valueFile: Bytes

    function Files(): Store
      reads this
    {
      Store(keyFile, valueFile)
    }

    constructor (s: Store)
      ensures Files() == s
    {
      keyFile, valueFile := s.keyFile, s.valueFile;
    }

    method Put(key: Bytes, value: Bytes, io: Io) returns (ret: int)
      modifies this
      ensures (ret, Files()) == AfterPut(old(Files()), key, value, io)
    {
      var len := Low32(|value|);
      if len < 1 {
        return 5;
      }
      if io.FtelloFails? {
        return 4;
      }
      var off := |valueFile|;
      if io.ShortWrite? && io.written < len {
        valueFile := valueFile + value[..io.written];
        return 3;
      }
      valueFile := valueFile + value[..len];
      if |key| < 1 {
        return 6;
      }
      if io.KeyWriteFails? {
        return 2;
      }
      keyFile := keyFile + Line(Record(key, off, len));
      return 0;
    }
  }

  /** Which code each failure has, in the order in which they are looked for, and what it leaves in the files. */
  lemma CodesOfPut(s: Store, key: Bytes, value: Bytes, io: Io)
    ensures var n := |value| % 4294967296;
      var (ret, s') := AfterPut(s, key, value, io);
      var short := io.ShortWrite? && io.written < n;
      && (ret == 5 <==> n == 0)
      && (ret == 4 <==> n > 0 && io == FtelloFails)
      && (ret == 3 <==> n > 0 && short)
      && (ret == 6 <==> n > 0 && io != FtelloFails && !short && key == [])
      && (ret == 2 <==> n > 0 && io == KeyWriteFails && key != [])
      && (ret == 0 <==> n > 0 && io != FtelloFails && !short && key != [] && io != KeyWriteFails)
      && (ret == 5 || ret == 4 ==> s' == s)
      && (ret == 3 ==> s' == Store(s.keyFile, s.valueFile + value[..io.written]))
      && (ret == 6 || ret == 2 ==> s' == Store(s.keyFile, s.valueFile + value[..n]))
      && (ret == 0 ==> s' == Store(s.keyFile + Line(Record(key, |s.valueFile|, n)), s.valueFile + value[..n]))
  {
    hide Line;
  }

  // ----- the log that the files store

  /** A put that succeeded: its key and the bytes stored for it. */
  datatype Entry = Entry(key: Bytes, value: Bytes)

  /** A put as its caller asks for it, with what the system does to it. */
  datatype PutCall = PutCall(key: Bytes, value: Bytes, io: Io)

  predicate Succeeds(c: PutCall) {
    && c.key != [] && Low32(|c.value|) >= 1
    && (c.io.Fine? || (c.io.ShortWrite? && c.io.written >= Low32(|c.value|)))
  }

  function EntryOf(c: PutCall): Entry {
    Entry(c.key, c.value[..Low32(|c.value|)])
  }

  /** The stored value is the value that was put, except when its size does not fit 32 bits. */
  lemma StoresWholeValue(c: PutCall)
    ensures EntryOf(c).value == c.value <==> |c.value| < TWO32
  {
    assert c.value[..|c.value|] == c.value;
    assert |EntryOf(c).value| < TWO32;
  }

  /** One byte more than 32 bits can count: the put succeeds and stores the first byte. */
  lemma LongValueIsCut(key: Bytes, value: Bytes)
    requires key != [] && |value| == TWO32 + 1
    ensures var c := PutCall(key, value, Fine);
      Succeeds(c) && EntryOf(c) == Entry(key, value[..1]) && EntryOf(c).value != value
  {
  }

  /**
   * Record i addresses a range of the value file that holds precisely value i; the ranges are disjoint and in
   * file order.
   */
  ghost predicate Addresses(valueFile: Bytes, recs: seq<Record>, log: seq<Entry>) {
    && |recs| == |log|
    && (forall i :: 0 <= i < |recs| ==> Holds(valueFile, recs[i], log[i]))
    && (forall i, j :: 0 <= i < j < |recs| ==> recs[i].offset + recs[i].length <= recs[j].offset)
  }

  lemma SameLength(valueFile: Bytes, recs: seq<Record>, log: seq<Entry>)
    requires Addresses(valueFile, recs, log)
    ensures |recs| == |log|
  {
  }

  ghost predicate Holds(valueFile: Bytes, r: Record, e: Entry) {
    && r.key == e.key && r.key != []
    && 1 <= r.length == |e.value| < TWO32
    && r.offset + r.length <= |valueFile|
    && valueFile[r.offset..r.offset + r.length] == e.value
  }

  ghost predicate Stored(s: Store, recs: seq<Record>, log: seq<Entry>) {
    s.keyFile == Text(recs) && Addresses(s.valueFile, recs, log)
  }

  /** The log and index after one more call: longer by one exactly when the call succeeded. */
  function LogAfter(log: seq<Entry>, c: PutCall): seq<Entry> {
    if Succeeds(c) then log + [EntryOf(c)] else log
  }

  function IndexAfter(recs: seq<Record>, valueFile: Bytes, c: PutCall): seq<Record> {
    if Succeeds(c) then recs + [Record(c.key, |valueFile|, Low32(|c.value|))] else recs
  }

  lemma PutReturnsZero(s: Store, c: PutCall)
    ensures AfterPut(s, c.key, c.value, c.io).0 == 0 <==> Succeeds(c)
  {
  }

  /** Every call, successful or not, keeps the log: no earlier record or value changes, a success adds one. */
  lemma PutKeepsLog(s: Store, c: PutCall, recs: seq<Record>, log: seq<Entry>)
    requires Stored(s, recs, log)
    ensures Stored(AfterPut(s, c.key, c.value, c.io).1, IndexAfter(recs, s.valueFile, c), LogAfter(log, c))
    ensures s.valueFile <= AfterPut(s, c.key, c.value, c.io).1.valueFile
  {
    var s' := AfterPut(s, c.key, c.value, c.io).1;
    AddressesGrow(s.valueFile, s'.valueFile, recs, log);
    if Succeeds(c) {
      var r, e := Record(c.key, |s.valueFile|, Low32(|c.value|)), EntryOf(c);
      TextAppend(recs, r);
      assert s'.valueFile[r.offset..r.offset + r.length] == e.value;
      AddressesAppend(s'.valueFile, recs, log, |s.valueFile|, r, e);
    }
  }

  lemma AddressesGrow(v: Bytes, v': Bytes, recs: seq<Record>, log: seq<Entry>)
    requires v <= v' && Addresses(v, recs, log)
    ensures Addresses(v', recs, log)
    ensures forall i :: 0 <= i < |recs| ==> recs[i].offset + recs[i].length <= |v|
  {
    forall i | 0 <= i < |recs|
      ensures Holds(v', recs[i], log[i]) && recs[i].offset + recs[i].length <= |v|
    {
      var r := recs[i];
      assert Holds(v, r, log[i]);
      assert v'[r.offset..r.offset + r.length] == v[r.offset..r.offset + r.length];
    }
  }

  lemma AddressesAppend(v: Bytes, recs: seq<Record>, log: seq<Entry>, end: nat, r: Record, e: Entry)
    requires Addresses(v, recs, log) && Holds(v, r, e) && r.offset == end
    requires forall i :: 0 <= i < |recs| ==> recs[i].offset + recs[i].length <= end
    ensures Addresses(v, recs + [r], log + [e])
  {
  }

  // ----- whole runs

  function Run(s: Store, calls: seq<PutCall>): Store
    decreases |calls|
  {
    if calls == [] then s
    else
      var c := calls[0];
      Run(AfterPut(s, c.key, c.value, c.io).1, calls[1..])
  }

  function LogOf(calls: seq<PutCall>): seq<Entry> {
    if calls == [] then []
    else LogAfter([], calls[0]) + LogOf(calls[1..])
  }

  /** The log of a run: an entry for every put that returned 0, in order, with the bytes that were written. */
  lemma {:induction false} LogOfSnoc(calls: seq<PutCall>, c: PutCall, s: Store)
    ensures LogOf(calls + [c]) == LogOf(calls) +
      if AfterPut(s, c.key, c.value, c.io).0 == 0 then [Entry(c.key, c.value[..|c.value| % 4294967296])] else []
    decreases |calls|
  {
    if calls != [] {
      assert (calls + [c])[1..] == calls[1..] + [c];
      LogOfSnoc(calls[1..], c, s);
    } else {
      assert calls + [c] == [c] && [c][1..] == [];
      PutReturnsZero(s, c);
    }
  }

  ghost predicate ValidLog(s: Store, log: seq<Entry>) {
    && |s.valueFile| < TWO63
    && forall e <- log :: ValidKey(e.key)
  }

  /**
   * After any run of puts, what the key file parses to addresses, in put order, the values of exactly the puts
   * that succeeded.
   */
  lemma RunStored(calls: seq<PutCall>)
    requires ValidLog(Run(EMPTY_STORE, calls), LogOf(calls))
    ensures Stored(Run(EMPTY_STORE, calls), Parse(Run(EMPTY_STORE, calls).keyFile), LogOf(calls))
    ensures AllValid(Parse(Run(EMPTY_STORE, calls).keyFile))
  {
    var recs := RunIndex(EMPTY_STORE, calls, [], []);
    assert [] + LogOf(calls) == LogOf(calls);
    StoredIsParsed(Run(EMPTY_STORE, calls), recs, LogOf(calls));
  }

  lemma {:induction false} RunIndex(s: Store, calls: seq<PutCall>, recs: seq<Record>, log: seq<Entry>)
    returns (recs': seq<Record>)
    requires Stored(s, recs, log)
    ensures Stored(Run(s, calls), recs', log + LogOf(calls))
    decreases |calls|
  {
    if calls == [] {
      recs' := recs;
      assert log + LogOf(calls) == log;
    } else {
      var c := calls[0];
      PutKeepsLog(s, c, recs, log);
      recs' := RunIndex(AfterPut(s, c.key, c.value, c.io).1, calls[1..],
                        IndexAfter(recs, s.valueFile, c), LogAfter(log, c));
      LogOfStep(log, calls);
    }
  }

  lemma LogOfStep(log: seq<Entry>, calls: seq<PutCall>)
    requires calls != []
    ensures LogAfter(log, calls[0]) + LogOf(calls[1..]) == log + LogOf(calls)
  {
    assert LogAfter(log, calls[0]) == log + LogAfter([], calls[0]);
    ConcatAssociative(log, LogAfter([], calls[0]), LogOf(calls[1..]));
  }

  lemma StoredIsParsed(s: Store, recs: seq<Record>, log: seq<Entry>)
    requires Stored(s, recs, log) && ValidLog(s, log)
    ensures AllValid(recs) && Parse(s.keyFile) == recs
  {
    forall r | r in recs
      ensures ValidRecord(r)
    {
      var i :| 0 <= i < |recs| && recs[i] == r;
      assert Holds(s.valueFile, recs[i], log[i]) && log[i] in log;
    }
    TextRoundTrip(recs);
  }
}
