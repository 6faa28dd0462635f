/**
 * The write service as a state machine: any number of threads in `put` and `puts`, one mutex, a shared key buffer
 * and counter, and restarts at any moment.
 */
module WriteProtocol {
  import opened Bytes
  import opened Records
  import opened Index
  import opened OzWrite
  import opened OzMerge
  import opened OzRead
  import opened EndToEnd
  import opened WriteService

  /** Where a thread is: asking for the lock, between two values, or with a fresh key in the shared buffer. */
  datatype Pc = Waiting(job: seq<Item>) | Running(job: seq<Item>) | Keyed(job: seq<Item>)

  datatype Sys = Sys(store: Store, id: nat, key: Bytes, lock: Option<nat>, threads: map<nat, Pc>)

  datatype Event = Call(t: nat, job: seq<Item>) | Acquire(t: nat) | MakeKey(t: nat) | DoPut(t: nat) | Release(t: nat)
                 | Restart

  const START := Sys(EMPTY_STORE, Recovered([]), [], None, map[])

  predicate Enabled(s: Sys, e: Event) {
    match e
    case Call(t, _) => t !in s.threads
    case Acquire(t) => t in s.threads && s.threads[t].Waiting? && s.lock.None?
    case MakeKey(t) => t in s.threads && s.threads[t].Running? && s.threads[t].job != []
    case DoPut(t) => t in s.threads && s.threads[t].Keyed? && s.threads[t].job != []
    case Release(t) => t in s.threads && s.threads[t].Running? && s.threads[t].job == []
    case Restart => true
  }

  /** A restart loses the threads and the counter, and recovers the counter from the key file. */
  function Step(s: Sys, e: Event): Sys
    requires Enabled(s, e)
  {
    match e
    case Call(t, job) => s.(threads := s.threads[t := Waiting(job)])
    case Acquire(t) => s.(lock := Some(t), threads := s.threads[t := Running(s.threads[t].job)])
    case MakeKey(t) => s.(key := KeyText(s.id), id := s.id + 1, threads := s.threads[t := Keyed(s.threads[t].job)])
    case DoPut(t) =>
      var item := s.threads[t].job[0];
      s.(store := AfterPut(s.store, s.key, item.value, item.io).1,
         threads := s.threads[t := Running(s.threads[t].job[1..])])
    case Release(t) => s.(lock := None, threads := s.threads - {t})
    case Restart => Sys(s.store, Recovered(s.store.keyFile), [], None, map[])
  }

  /** The counter is in the range of `atoi`, file positions in that of `off_t`. */
  ghost predicate InRange(s: Sys) {
    s.id <= TWO31 && |s.store.valueFile| < TWO63
  }

  ghost predicate ValidRun(s: Sys, events: seq<Event>)
    decreases |events|
  {
    InRange(s) && (events == [] || (Enabled(s, events[0]) && ValidRun(Step(s, events[0]), events[1..])))
  }

  ghost function After(s: Sys, events: seq<Event>): Sys
    requires ValidRun(s, events)
    decreases |events|
  {
    if events == [] then s else After(Step(s, events[0]), events[1..])
  }

  // ----- what the clients have put

  /** What a step puts: the entry of a successful `ozwrite_put`, and nothing otherwise. */
  ghost function PutOf(s: Sys, e: Event): seq<Entry>
    requires Enabled(s, e)
  {
    if e.DoPut? then LogAfter([], PutCall(s.key, s.threads[e.t].job[0].value, s.threads[e.t].job[0].io)) else []
  }

  /** The successful puts of a run, in their order. */
  ghost function PutsOf(s: Sys, events: seq<Event>): seq<Entry>
    requires ValidRun(s, events)
    decreases |events|
  {
    if events == [] then [] else PutOf(s, events[0]) + PutsOf(Step(s, events[0]), events[1..])
  }

  // ----- the invariant

  /** Only the thread that holds the lock is past asking for it. */
  ghost predicate Exclusive(s: Sys) {
    && (forall t <- s.threads :: s.threads[t].Waiting? || s.lock == Some(t))
    && (s.lock.Some? ==> s.lock.value in s.threads && !s.threads[s.lock.value].Waiting?)
    && (forall t <- s.threads :: s.threads[t].Keyed? ==> s.threads[t].job != [])
  }

  /** A fresh key is in the shared buffer and not yet in the key file. */
  ghost predicate InFlight(s: Sys) {
    s.lock.Some? && s.lock.value in s.threads && s.threads[s.lock.value].Keyed?
  }

  /** The number a decimal key stands for. */
  function NumberOf(key: Bytes): nat {
    if forall i :: 0 <= i < |key| ==> IsDigit(key[i]) then DigitsValue(key) else 0
  }

  /** The keys are decimal numbers below the bound, growing from line to line. */
  ghost predicate Numbered(recs: seq<Record>, bound: nat) {
    && (forall i :: 0 <= i < |recs| ==> recs[i].key == Decimal(NumberOf(recs[i].key)) && NumberOf(recs[i].key) < bound)
    && (forall i, j :: 0 <= i < j < |recs| ==> NumberOf(recs[i].key) < NumberOf(recs[j].key))
  }

  ghost predicate Inv(s: Sys, recs: seq<Record>, log: seq<Entry>) {
    && s.id <= TWO31
    && Exclusive(s)
    && Stored(s.store, recs, log)
    && (if InFlight(s) then s.id >= 1 && s.key == Decimal(s.id - 1) && Numbered(recs, s.id - 1)
        else Numbered(recs, s.id))
  }

  lemma NumberOfDecimal(n: nat)
    ensures NumberOf(Decimal(n)) == n
  {
    DecimalRoundTrip(n);
  }

  lemma NumberedSnoc(recs: seq<Record>, r: Record, n: nat)
    requires Numbered(recs, n) && r.key == Decimal(n)
    ensures Numbered(recs + [r], n + 1)
  {
    NumberOfDecimal(n);
  }

  lemma NumberedValid(recs: seq<Record>, bound: nat)
    requires Numbered(recs, bound) && bound <= TWO31
    ensures forall r <- recs :: ValidKey(r.key)
  {
    forall r | r in recs
      ensures ValidKey(r.key)
    {
      var i :| 0 <= i < |recs| && recs[i] == r;
      KeyTextWhole(NumberOf(r.key));
      ServiceKeysAreServable(NumberOf(r.key));
    }
  }

  /** After a restart the counter is again above every number in the key file. */
  lemma RecoveredIsFresh(keyFile: Bytes, recs: seq<Record>, bound: nat)
    requires AllValid(recs) && keyFile == Text(recs) && Numbered(recs, bound) && bound <= TWO31
    ensures Numbered(recs, Recovered(keyFile)) && Recovered(keyFile) <= TWO31
  {
    KeysReadText([], recs);
    assert [] + Text(recs) == Text(recs);
    hide KeysRead, Text, Atoi;
    forall i | 0 <= i < |recs|
      ensures NumberOf(recs[i].key) < Recovered(keyFile)
    {
      KeysAt(recs, i);
      AtoiDecimal(NumberOf(recs[i].key));
    }
  }

  lemma StoredValid(s: Sys, recs: seq<Record>, log: seq<Entry>)
    requires Inv(s, recs, log) && InRange(s)
    ensures AllValid(recs) && ValidLog(s.store, log) && Parse(s.store.keyFile) == recs
  {
    NumberedValid(recs, if InFlight(s) then s.id - 1 else s.id);
    forall e | e in log
      ensures ValidKey(e.key)
    {
      var i :| 0 <= i < |log| && log[i] == e;
      assert Holds(s.store.valueFile, recs[i], log[i]) && recs[i] in recs;
    }
    StoredIsParsed(s.store, recs, log);
  }

  /** Who may change what: the counter and the buffer move with a new key, the files with a put of it. */
  lemma ExclusiveStep(s: Sys, e: Event)
    requires Exclusive(s) && Enabled(s, e)
    ensures Exclusive(Step(s, e))
    ensures InFlight(Step(s, e)) == if e.MakeKey? then true else if e.DoPut? || e.Restart? then false else InFlight(s)
    ensures e.MakeKey? ==> !InFlight(s)
    ensures e.DoPut? ==> InFlight(s)
  {
    hide AfterPut, KeyText, Recovered;
  }

  lemma DataStep(s: Sys, e: Event)
    requires Exclusive(s) && Enabled(s, e)
    ensures !e.DoPut? ==> Step(s, e).store == s.store
    ensures !e.MakeKey? && !e.Restart? ==> Step(s, e).id == s.id && Step(s, e).key == s.key
    ensures e.MakeKey? ==> Step(s, e).id == s.id + 1 && Step(s, e).key == KeyText(s.id)
    ensures e.Restart? ==> Step(s, e).id == Recovered(s.store.keyFile)
    ensures e.DoPut? ==> var item := s.threads[e.t].job[0];
      Step(s, e).store == AfterPut(s.store, s.key, item.value, item.io).1
  {
    hide AfterPut, KeyText, Recovered;
  }

  lemma NumberedMore(recs: seq<Record>, n: nat)
    requires Numbered(recs, n)
    ensures Numbered(recs, n + 1)
  {
  }

  lemma PutNumbered(s: Store, n: nat, item: Item, recs: seq<Record>, log: seq<Entry>)
    returns (recs': seq<Record>, log': seq<Entry>)
    requires Stored(s, recs, log) && Numbered(recs, n)
    ensures Stored(AfterPut(s, Decimal(n), item.value, item.io).1, recs', log') && Numbered(recs', n + 1)
    ensures log' == LogAfter(log, PutCall(Decimal(n), item.value, item.io))
  {
    var c := PutCall(Decimal(n), item.value, item.io);
    PutKeepsLog(s, c, recs, log);
    recs', log' := IndexAfter(recs, s.valueFile, c), LogAfter(log, c);
    hide Stored, AfterPut, Succeeds, LogAfter, Numbered;
    NumberedSnoc(recs, Record(c.key, |s.valueFile|, Low32(|c.value|)), n);
    NumberedMore(recs, n);
  }

  /** A fresh key: its number is above all in the file. */
  lemma KeyMade(s: Sys, e: Event, recs: seq<Record>, log: seq<Entry>)
    requires Inv(s, recs, log) && Enabled(s, e) && InRange(s) && e.MakeKey? && s.id < TWO31
    ensures Inv(Step(s, e), recs, log)
  {
    hide Step, Exclusive, InFlight, Stored, Numbered, KeyText, AfterPut, Enabled, Recovered;
    ExclusiveStep(s, e);
    DataStep(s, e);
    KeyTextWhole(s.id);
  }

  lemma PutDone(s: Sys, e: Event, recs: seq<Record>, log: seq<Entry>) returns (recs': seq<Record>, log': seq<Entry>)
    requires Inv(s, recs, log) && Enabled(s, e) && e.DoPut?
    ensures Inv(Step(s, e), recs', log') && log' == log + PutOf(s, e)
  {
    hide Step, Exclusive, InFlight, Stored, Numbered, AfterPut, KeyText, Recovered, Succeeds;
    ExclusiveStep(s, e);
    DataStep(s, e);
    recs', log' := PutNumbered(s.store, s.id - 1, s.threads[e.t].job[0], recs, log);
  }

  lemma Restarted(s: Sys, e: Event, recs: seq<Record>, log: seq<Entry>)
    requires Inv(s, recs, log) && Enabled(s, e) && InRange(s) && e.Restart?
    ensures Inv(Step(s, e), recs, log)
  {
    hide Step, Exclusive, InFlight, Numbered, AfterPut, KeyText, Recovered, Enabled, Parse, Text;
    ExclusiveStep(s, e);
    DataStep(s, e);
    StoredValid(s, recs, log);
    RecoveredIsFresh(s.store.keyFile, recs, if InFlight(s) then s.id - 1 else s.id);
  }

  /** Every step of every thread, and a restart at any moment, keeps the invariant. */
  lemma InvStep(s: Sys, e: Event, recs: seq<Record>, log: seq<Entry>) returns (recs': seq<Record>, log': seq<Entry>)
    requires Inv(s, recs, log) && Enabled(s, e) && InRange(s) && Step(s, e).id <= TWO31
    ensures Inv(Step(s, e), recs', log') && log' == log + PutOf(s, e)
  {
    hide Step, Exclusive, InFlight, Stored, Numbered, AfterPut, KeyText, Recovered, Enabled;
    recs', log' := recs, log;
    if e.MakeKey? {
      DataStep(s, e);
      KeyMade(s, e, recs, log);
    } else if e.DoPut? {
      recs', log' := PutDone(s, e, recs, log);
    } else if e.Restart? {
      Restarted(s, e, recs, log);
    } else {
      ExclusiveStep(s, e);
      DataStep(s, e);
    }
  }

  // ----- whole runs

  lemma InvStarts()
    ensures Inv(START, [], [])
  {
    hide Recovered, Parse, NumberOf, Decimal;
    NothingRecovered();
    assert START.threads == map[];
  }

  lemma NothingRecovered()
    ensures Recovered([]) == 1
  {
    assert ScanOpen([]) == Eof;
  }

  lemma {:induction false} InvRun(s: Sys, events: seq<Event>, recs: seq<Record>, log: seq<Entry>)
    returns (recs': seq<Record>, log': seq<Entry>)
    requires Inv(s, recs, log) && ValidRun(s, events)
    ensures Inv(After(s, events), recs', log') && log' == log + PutsOf(s, events)
    decreases |events|
  {
    hide Inv, Step, PutOf, InRange, Enabled;
    recs', log' := recs, log;
    if events != [] {
      NextInRange(s, events);
      recs', log' := InvStep(s, events[0], recs, log);
      ConcatAssociative(log, PutOf(s, events[0]), PutsOf(Step(s, events[0]), events[1..]));
      recs', log' := InvRun(Step(s, events[0]), events[1..], recs', log');
    }
  }

  ghost predicate DistinctKeys(recs: seq<Record>) {
    forall i, j :: 0 <= i < j < |recs| ==> recs[i].key != recs[j].key
  }

  lemma NextInRange(s: Sys, events: seq<Event>)
    requires ValidRun(s, events) && events != []
    ensures InRange(s) && Enabled(s, events[0]) && Step(s, events[0]).id <= TWO31
    ensures ValidRun(Step(s, events[0]), events[1..])
  {
    hide Step, Enabled;
  }

  /**
   * Over every run, with failing puts, interleaved threads and restarts: the files store exactly the successful puts of
   * the run, no two lines of the key file share a key, and the counter is above every number in the file.
   */
  lemma IdsAreUnique(events: seq<Event>) returns (recs: seq<Record>)
    requires ValidRun(START, events)
    ensures var s := After(START, events);
      && recs == Parse(s.store.keyFile) && Stored(s.store, recs, PutsOf(START, events))
      && DistinctKeys(recs) && AllValid(recs) && ValidLog(s.store, PutsOf(START, events))
      && forall r <- recs :: r.key == Decimal(NumberOf(r.key)) && NumberOf(r.key) < s.id
  {
    hide Stored, Exclusive, Parse, Decimal, PutsOf, After, AllValid, ValidLog, ValidRun, InFlight;
    InvStarts();
    var s := After(START, events);
    var log;
    recs, log := InvRun(START, events, [], []);
    EmptyConcat(PutsOf(START, events));
    EndInRange(START, events);
    StoredValid(s, recs, log);
    forall i, j | 0 <= i < j < |recs|
      ensures recs[i].key != recs[j].key
    {
      assert NumberOf(recs[i].key) < NumberOf(recs[j].key);
    }
  }

  lemma {:induction false} EndInRange(s: Sys, events: seq<Event>)
    requires ValidRun(s, events)
    ensures InRange(After(s, events))
    decreases |events|
  {
    if events != [] {
      hide Step, InRange;
      EndInRange(Step(s, events[0]), events[1..]);
    }
  }

  /** When keys are distinct the index has an entry for every line. */
  lemma DistinctIndex(index: seq<Record>, recs: seq<Record>)
    requires IsIndex(index, Elements(recs)) && DistinctKeys(recs)
    ensures Elements(index) == Elements(recs) && |index| == |recs|
  {
    hide StrictlySorted;
    forall r | r in recs
      ensures r in index
    {
      assert r in Elements(recs) && Newer(index, r);
      var m :| m in index && m.key == r.key && m.offset >= r.offset;
      assert m in Elements(recs);
      var i :| 0 <= i < |recs| && recs[i] == r;
      var j :| 0 <= j < |recs| && recs[j] == m;
      assert i == j;
    }
    DistinctSize(index);
    DistinctElements(recs);
    assert Elements(index) == Elements(recs);
  }

  lemma {:induction false} DistinctElements(recs: seq<Record>)
    requires DistinctKeys(recs)
    ensures |Elements(recs)| == |recs|
  {
    if recs != [] {
      DistinctElements(recs[1..]);
      assert recs == [recs[0]] + recs[1..];
      assert recs[0] !in recs[1..];
      assert Elements(recs) == Elements(recs[1..]) + {recs[0]};
    }
  }

  /** With distinct keys nothing is overwritten: every entry is the last one under its key. */
  lemma {:induction false} NothingOverwritten(s: Store, recs: seq<Record>, log: seq<Entry>, i: nat)
    requires Stored(s, recs, log) && DistinctKeys(recs) && i < |log|
    ensures LastPut(log, log[i].key) == Some(log[i].value)
  {
    var n := LastPutAt(log, log[i].key);
    assert Holds(s.valueFile, recs[i], log[i]);
    assert log[i] in log;
    assert Holds(s.valueFile, recs[n], log[n]);
    assert n == i;
  }

  /** The keys of a run, as the sorter and the loader see them. */
  lemma RunKeys(events: seq<Event>, i: nat)
    requires ValidRun(START, events) && i < |PutsOf(START, events)|
    ensures var e := PutsOf(START, events)[i];
      StrCmp(e.key, SENTINEL) < 0 && 255 !in e.key && NumberOf(e.key) < TWO31
  {
    hide Parse, After, PutsOf, ValidRun, DistinctKeys, AllValid, ValidLog, Decimal, StrCmp, Text, NumberOf, KeyText;
    var recs := IdsAreUnique(events);
    var s, puts := After(START, events), PutsOf(START, events);
    EndInRange(START, events);
    assert Holds(s.store.valueFile, recs[i], puts[i]) && recs[i] in recs;
    KeyTextWhole(NumberOf(puts[i].key));
    ServiceKeysAreServable(NumberOf(puts[i].key));
  }

  lemma NoneDropped(recs: seq<Record>, puts: seq<Entry>, v: Bytes)
    requires Addresses(v, recs, puts)
    requires forall i :: 0 <= i < |puts| ==> StrCmp(puts[i].key, SENTINEL) < 0
    ensures Below(Elements(recs)) == Elements(recs)
  {
    hide StrCmp;
    forall r | r in recs
      ensures BelowSentinel(r)
    {
      var i :| 0 <= i < |recs| && recs[i] == r;
      assert Holds(v, recs[i], puts[i]);
    }
  }

  /**
   * After every run of the service the sorter's table has exactly as many entries as there were successful puts, and
   * a lookup finds each of them, by its key, with its value.
   */
  lemma EveryPutIsServed(events: seq<Event>, index: seq<Record>)
    requires ValidRun(START, events)
    requires IsIndex(index, Below(Elements(Parse(After(START, events).store.keyFile))))
    ensures |index| == |PutsOf(START, events)|
    ensures forall i :: 0 <= i < |PutsOf(START, events)| ==>
      var e := PutsOf(START, events)[i];
      Lookup(index, After(START, events).store.valueFile, e.key) == Found(e.value)
  {
    hide Parse, After, PutsOf, ValidRun, DistinctKeys, AllValid, StrCmp, Text, Addresses, IsIndex, Below, Lookup,
         LastPut, Decimal, NumberOf, ValidKey;
    var recs := IdsAreUnique(events);
    var s, puts := After(START, events), PutsOf(START, events);
    forall i | 0 <= i < |puts|
      ensures StrCmp(puts[i].key, SENTINEL) < 0
    {
      RunKeys(events, i);
    }
    NoneDropped(recs, puts, s.store.valueFile);
    DistinctIndex(index, recs);
    SameLength(s.store.valueFile, recs, puts);
    forall i | 0 <= i < |puts|
      ensures Lookup(index, s.store.valueFile, puts[i].key) == Found(puts[i].value)
    {
      NothingOverwritten(s.store, recs, puts, i);
      LookupIsLastPut(s.store.valueFile, recs, puts, index, puts[i].key);
    }
  }

  lemma RunIsServable(events: seq<Event>)
    requires ValidRun(START, events) && PutsOf(START, events) != []
    requires forall e <- PutsOf(START, events) :: |e.value| < TWO32 - 1
    ensures Servable(After(START, events).store, PutsOf(START, events))
  {
    hide After, PutsOf, ValidRun, ValidLog, StrCmp, Stored, AllValid, DistinctKeys, Parse, Decimal, NumberOf;
    var recs := IdsAreUnique(events);
    var puts := PutsOf(START, events);
    forall e | e in puts
      ensures StrCmp(e.key, SENTINEL) < 0 && 255 !in e.key
    {
      var i :| 0 <= i < |puts| && puts[i] == e;
      RunKeys(events, i);
    }
    assert puts[0] in puts;
    forall e | e in puts
      ensures LastFits(puts, e.key)
    {
      ShortValuesFit(puts, e.key);
    }
  }

  /** A reader opened on the files of a run, sorter and loader included, has a table in which every put is found. */
  method OpenAfterRun(s: Store, ghost events: seq<Event>) returns (ret: int, handle: OZRead)
    requires ValidRun(START, events) && s == After(START, events).store && PutsOf(START, events) != []
    requires forall e <- PutsOf(START, events) :: |e.value| < TWO32 - 1
    ensures fresh(handle) && ret == if |PutsOf(START, events)| < 20480000 then 0 else 2
    ensures ret == 0 ==> handle.recs.Length == |PutsOf(START, events)|
    ensures ret == 0 ==> forall i :: 0 <= i < |PutsOf(START, events)| ==>
      var e := PutsOf(START, events)[i];
      Lookup(handle.recs[..], handle.valueFile, e.key) == Found(e.value)
  {
    hide *;
    RunIsServable(events);
    ghost var recs := IdsAreUnique(events);
    ret, handle := Open(s, recs, PutsOf(START, events));
    if ret == 0 {
      EveryPutIsServed(events, handle.recs[..]);
    }
  }

  /**
   * Exactly when recovery is safe: the recovered counter is above every number in the key file if and only if all
   * of them are in the range of `int`.
   */
  lemma RecoveryExact(recs: seq<Record>)
    requires AllValid(recs) && forall r <- recs :: r.key == Decimal(NumberOf(r.key))
    ensures (forall r <- recs :: NumberOf(r.key) < Recovered(Text(recs)))
       <==> (forall r <- recs :: NumberOf(r.key) < TWO31)
  {
    KeysReadText([], recs);
    EmptyConcat(Text(recs));
    hide KeysRead, Text, Atoi, NumberOf, Decimal;
    if forall r <- recs :: NumberOf(r.key) < TWO31 {
      forall r | r in recs
        ensures NumberOf(r.key) < Recovered(Text(recs))
      {
        var i :| 0 <= i < |recs| && recs[i] == r;
        KeysAt(recs, i);
        AtoiDecimal(NumberOf(r.key));
      }
    }
  }

  /** A key file with the one id 2^31, which `atoi` takes for a negative number: the counter starts again at 1. */
  lemma IdBeyondIntIsForgotten()
    ensures Recovered(Text([Record(Decimal(TWO31), 0, 1)])) == 1
  {
    hide KeysRead, Keys, MaxId, Text, Atoi, Decimal, AllValid;
    var r := Record(Decimal(TWO31), 0, 1);
    BigIdIsValid();
    KeysReadText([], [r]);
    EmptyConcat(Text([r]));
    AtoiDecimal(TWO31);
    OnlyKey(r);
  }

  lemma OnlyKey(r: Record)
    requires Atoi(r.key) <= 0
    ensures MaxId(Keys([r])) == 0
  {
    hide Atoi;
    assert Keys([r]) == [r.key] && [r.key][..0] == [] && MaxId([]) == 0;
  }

  lemma BigIdIsValid()
    ensures AllValid([Record(Decimal(TWO31), 0, 1)])
  {
    assert Pow10(10) == 10_000_000_000;
    DecimalLength(TWO31, 10);
    var d := Decimal(TWO31);
    forall i | 0 <= i < |d|
      ensures !IsSpace(d[i]) && d[i] != 0
    {
      assert IsDigit(d[i]);
    }
  }

  /** While a thread holds the lock, no step of another thread touches the files, the counter or the key buffer. */
  lemma LockExcludes(s: Sys, e: Event, t: nat)
    requires Exclusive(s) && s.lock == Some(t) && Enabled(s, e) && !e.Restart? && e.t != t
    ensures Step(s, e).store == s.store && Step(s, e).id == s.id && Step(s, e).key == s.key
    ensures Step(s, e).lock == Some(t) && Step(s, e).threads[t] == s.threads[t]
  {
  }

  /** The steps of the thread that holds the lock, one pair for each value. */
  function StepsOf(t: nat, n: nat): seq<Event> {
    if n == 0 then [] else [MakeKey(t), DoPut(t)] + StepsOf(t, n - 1)
  }

  ghost predicate Runs(s: Sys, events: seq<Event>)
    decreases |events|
  {
    events == [] || (Enabled(s, events[0]) && Runs(Step(s, events[0]), events[1..]))
  }

  ghost function RunOn(s: Sys, events: seq<Event>): Sys
    requires Runs(s, events)
    decreases |events|
  {
    if events == [] then s else RunOn(Step(s, events[0]), events[1..])
  }

  /** The critical section of a thread is the loop of `puts`. */
  lemma {:induction false} CriticalSectionIsLoop(s: Sys, t: nat, job: seq<Item>)
    requires t in s.threads && s.threads[t] == Running(job)
    ensures Runs(s, StepsOf(t, |job|))
    ensures var s' := RunOn(s, StepsOf(t, |job|));
      (s'.store, s'.id) == RunJob(s.store, s.id, job) && t in s'.threads && s'.threads[t] == Running([])
    decreases |job|
  {
    if job != [] {
      var s1 := Step(s, MakeKey(t));
      var s2 := Step(s1, DoPut(t));
      var es := StepsOf(t, |job|);
      assert es[1..][1..] == StepsOf(t, |job| - 1);
      hide AfterPut, KeyText;
      CriticalSectionIsLoop(s2, t, job[1..]);
      assert Runs(s1, es[1..]) && Runs(s, es);
      assert RunOn(s, es) == RunOn(s1, es[1..]) == RunOn(s2, es[1..][1..]);
    }
  }
}
