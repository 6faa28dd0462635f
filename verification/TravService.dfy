/** `OZTravServiceHandler`: one cursor, guarded by a mutex, answers every client. */
module TravService {
  import opened Bytes
  import opened Records
  import opened OzWrite
  import opened OzRead
  import opened OzTrav
  import opened EndToEnd
  import opened Index
  import opened OzMerge

  /** The answer of `next_kv`: a pair with the next position, or the exception at the end. */
  datatype Reply = Reply(key: Bytes, value: Bytes, cur: int) | EndOfRecords

  /** Conversion of a `long` position to the `i32` of the reply. */
  function ToI32(n: nat): int
    requires n < TWO32
  {
    if n < TWO31 then n else n - TWO32
  }

  /** A failed read is answered with an empty pair, not with an exception. */
  function ReplyTo(recs: seq<Record>, file: Bytes, acur: nat): Reply
    requires acur < TWO31
  {
    match StepAt(recs, file, acur)
    case End => EndOfRecords
    case Fails => Reply([], [], 0)
    case Pair(k, v) => Reply(k, v, ToI32(acur + 1))
  }

  class TravServiceHandler {
    const ot: OZTrav
    const cur: Cursor

    constructor (ot: OZTrav)
      ensures this.ot == ot && fresh(cur) && cur.Valid() && cur.Buffers() == {}
    {
      this.ot := ot;
      cur := new Cursor();
    }

    /** `next_kv`, run under the mutex: the answer depends on the request alone. */
    method NextKv(acur: nat) returns (r: Reply)
      requires cur.Valid() && acur < TWO31
      requires forall r <- ot.recs[..] :: Readable(r) && |r.key| < TWO32 - 1
      modifies cur, cur.Buffers()
      ensures cur.Valid() && ot.recs[..] == old(ot.recs[..])
      ensures fresh(cur.Buffers() - old(cur.Buffers()))
      ensures r == ReplyTo(ot.recs[..], ot.valueFile, acur)
      ensures acur >= ot.recs.Length <==> r == EndOfRecords
    {
      cur.cur := acur;
      var ret := cur.Next(ot);
      if ret == 0 {
        r := Reply(cur.key[..cur.keyLen], cur.value[..cur.valueLen], ToI32(cur.cur));
      } else if ret == 1 {
        r := EndOfRecords;
      } else {
        r := Reply([], [], 0);
      }
    }

    /** Serves requests in the order in which the clients get hold of the mutex. */
    method Serve(schedule: seq<nat>, positions: map<nat, nat>) returns (replies: seq<(nat, Reply)>)
      requires cur.Valid() && |ot.recs[..]| < TWO31
      requires forall r <- ot.recs[..] :: Readable(r) && |r.key| < TWO32 - 1
      requires forall c <- positions :: positions[c] < TWO31
      modifies cur, cur.Buffers()
      ensures ot.recs[..] == old(ot.recs[..])
      ensures replies == Session(ot.recs[..], ot.valueFile, schedule, positions)
    {
      hide Readable, StepAt;
      ghost var recs := ot.recs[..];
      var at: map<nat, nat> := positions;
      replies := [];
      for i := 0 to |schedule|
        invariant cur.Valid() && ot.recs[..] == recs
        invariant fresh(cur.Buffers() - old(cur.Buffers()))
        invariant forall c <- at :: at[c] < TWO31
        invariant Session(recs, ot.valueFile, schedule, positions)
               == replies + Session(recs, ot.valueFile, schedule[i..], at)
      {
        var c := schedule[i];
        var r := NextKv(PositionOf(at, c));
        ConcatAssociative(replies, [(c, r)], Session(recs, ot.valueFile, schedule[i + 1..], Moved(at, c, r)));
        assert schedule[i..][1..] == schedule[i + 1..];
        replies := replies + [(c, r)];
        at := Moved(at, c, r);
      }
    }
  }

  // ----- any interleaving of clients

  function PositionOf(positions: map<nat, nat>, client: nat): nat {
    if client in positions then positions[client] else 0
  }

  /** A client goes on from the position in its last reply, and stays where it is at the end. */
  function Moved(positions: map<nat, nat>, client: nat, r: Reply): map<nat, nat> {
    if r.Reply? && r.cur >= 0 then positions[client := r.cur] else positions
  }

  /** What a schedule of clients is answered, each asking for its own position. */
  function Session(recs: seq<Record>, file: Bytes, schedule: seq<nat>, positions: map<nat, nat>): seq<(nat, Reply)>
    requires |recs| < TWO31 && forall c <- positions :: positions[c] < TWO31
    decreases |schedule|
  {
    if schedule == [] then []
    else
      var c := schedule[0];
      var r := ReplyTo(recs, file, PositionOf(positions, c));
      [(c, r)] + Session(recs, file, schedule[1..], Moved(positions, c, r))
  }

  /** The replies one client sees. */
  function SeenBy(client: nat, replies: seq<(nat, Reply)>): seq<Reply> {
    if replies == [] then []
    else (if replies[0].0 == client then [replies[0].1] else []) + SeenBy(client, replies[1..])
  }

  function Turns(client: nat, schedule: seq<nat>): nat {
    if schedule == [] then 0 else (if schedule[0] == client then 1 else 0) + Turns(client, schedule[1..])
  }

  /** The log from a position on, in put order, then the end again and again. */
  function Replay(log: seq<Entry>, from: nat, turns: nat): seq<Reply>
    decreases turns
  {
    if turns == 0 then []
    else if from < |log| then [Reply(log[from].key, log[from].value, from + 1)] + Replay(log, from + 1, turns - 1)
    else [EndOfRecords] + Replay(log, from, turns - 1)
  }

  lemma ReplyIsEntry(recs: seq<Record>, file: Bytes, log: seq<Entry>, acur: nat)
    requires Addresses(file, recs, log) && |file| < TWO63 && |log| < TWO31 && acur < TWO31
    ensures ReplyTo(recs, file, acur)
         == if acur < |log| then Reply(log[acur].key, log[acur].value, acur + 1) else EndOfRecords
  {
    if acur < |log| {
      assert Holds(file, recs[acur], log[acur]);
    }
  }

  /**
   * For every interleaving, a client sees exactly the log from where it started, in put order, as if it were
   * alone; a client that starts at 0 sees the whole log and then the end.
   */
  lemma {:induction false} ClientsDoNotInterfere(recs: seq<Record>, file: Bytes, log: seq<Entry>, client: nat,
                                                 schedule: seq<nat>, positions: map<nat, nat>)
    requires Addresses(file, recs, log) && |file| < TWO63 && |log| < TWO31
    requires forall c <- positions :: positions[c] < TWO31
    ensures SeenBy(client, Session(recs, file, schedule, positions))
         == Replay(log, PositionOf(positions, client), Turns(client, schedule))
    decreases |schedule|
  {
    hide Addresses;
    SameLength(file, recs, log);
    if schedule != [] {
      var c := schedule[0];
      var p := PositionOf(positions, c);
      var r := ReplyTo(recs, file, p);
      ReplyIsEntry(recs, file, log, p);
      hide ReplyTo;
      var rest := Session(recs, file, schedule[1..], Moved(positions, c, r));
      ClientsDoNotInterfere(recs, file, log, client, schedule[1..], Moved(positions, c, r));
      assert Session(recs, file, schedule, positions)[1..] == rest;
    }
  }

  /** Turn i of a client that starts at 0. */
  lemma {:induction false} ReplayAt(log: seq<Entry>, from: nat, turns: nat, i: nat)
    requires i < turns
    ensures |Replay(log, from, turns)| == turns
    ensures Replay(log, from, turns)[i]
         == if from + i < |log| then Reply(log[from + i].key, log[from + i].value, from + i + 1) else EndOfRecords
    decreases turns
  {
    if turns > 1 {
      var next := if from < |log| then from + 1 else from;
      ReplayAt(log, next, turns - 1, if i > 0 then i - 1 else 0);
    }
  }

  // ----- the traversal and the index tell the same

  /** A client that keeps the last value it was sent for each key. */
  function Collect(replies: seq<Reply>): map<Bytes, Bytes> {
    if replies == [] then map[]
    else
      var m := Collect(replies[..|replies| - 1]);
      var r := replies[|replies| - 1];
      if r.Reply? then m[r.key := r.value] else m
  }

  lemma ReplaySnoc(log: seq<Entry>, turns: nat)
    requires turns < |log|
    ensures Replay(log, 0, turns + 1) == Replay(log, 0, turns) + [Reply(log[turns].key, log[turns].value, turns + 1)]
  {
    ReplayAt(log, 0, turns + 1, turns);
    if turns > 0 { ReplayAt(log, 0, turns, 0); }
    forall i | 0 <= i < turns
      ensures |Replay(log, 0, turns)| == turns && Replay(log, 0, turns + 1)[i] == Replay(log, 0, turns)[i]
    {
      ReplayAt(log, 0, turns + 1, i);
      ReplayAt(log, 0, turns, i);
    }
  }

  /** Collecting a whole replay keeps the last put of every key. */
  lemma {:induction false} CollectIsLastPut(log: seq<Entry>, n: nat, key: Bytes)
    requires n <= |log|
    ensures var m := Collect(Replay(log, 0, n));
      LastPut(log[..n], key) == if key in m then Some(m[key]) else None
  {
    if n > 0 {
      CollectIsLastPut(log, n - 1, key);
      ReplaySnoc(log, n - 1);
      var rs := Replay(log, 0, n);
      assert rs[..|rs| - 1] == Replay(log, 0, n - 1);
      assert log[..n][..n - 1] == log[..n - 1];
    }
  }

  /**
   * The two views of a log agree: for every key below the sentinel, a lookup in the sorted table finds exactly what a
   * client that replays the whole log has collected for the key.
   */
  lemma TraversalAgreesWithTable(v: Bytes, recs: seq<Record>, log: seq<Entry>, index: seq<Record>, key: Bytes)
    requires Addresses(v, recs, log) && |v| < TWO63
    requires IsIndex(index, Below(Elements(recs))) && StrCmp(key, SENTINEL) < 0
    ensures var m := Collect(Replay(log, 0, |log|));
      Lookup(index, v, key) == if key in m then Found(m[key]) else Missing
  {
    hide Lookup, Collect, Replay, IsIndex, Below, StrCmp, LastPut, Addresses;
    LookupIsLastPut(v, recs, log, index, key);
    CollectIsLastPut(log, |log|, key);
    assert log[..|log|] == log;
  }

  /** The first turn of a session: its reply, and where every client stands behind it. */
  lemma FirstTurn(recs: seq<Record>, file: Bytes, log: seq<Entry>, schedule: seq<nat>, positions: map<nat, nat>)
    returns (next: map<nat, nat>)
    requires Addresses(file, recs, log) && |file| < TWO63 && |log| < TWO31 && |recs| == |log|
    requires forall c <- positions :: positions[c] < TWO31
    requires schedule != []
    ensures forall c <- next :: next[c] < TWO31
    ensures var c := schedule[0];
      var p := PositionOf(positions, c);
      && Session(recs, file, schedule, positions)
         == [(c, if p < |log| then Reply(log[p].key, log[p].value, p + 1) else EndOfRecords)]
            + Session(recs, file, schedule[1..], next)
      && forall x :: PositionOf(next, x) == if x == c && p < |log| then p + 1 else PositionOf(positions, x)
  {
    hide Addresses;
    var p := PositionOf(positions, schedule[0]);
    ReplyIsEntry(recs, file, log, p);
    next := Moved(positions, schedule[0], ReplyTo(recs, file, p));
    hide ReplyTo;
  }

  /** Turn i of a session, by counting: a client that has had m turns before is m entries behind its start. */
  lemma {:induction false} SessionAt(recs: seq<Record>, file: Bytes, log: seq<Entry>, schedule: seq<nat>,
                                     positions: map<nat, nat>, i: nat)
    requires Addresses(file, recs, log) && |file| < TWO63 && |log| < TWO31 && |recs| == |log|
    requires forall c <- positions :: positions[c] < TWO31
    requires i < |schedule| == |Session(recs, file, schedule, positions)|
    ensures var c := schedule[i];
      var pos := PositionOf(positions, c) + multiset(schedule[..i])[c];
      Session(recs, file, schedule, positions)[i]
      == (c, if pos < |log| then Reply(log[pos].key, log[pos].value, pos + 1) else EndOfRecords)
    decreases |schedule|
  {
    hide Addresses, Session, PositionOf;
    var next := FirstTurn(recs, file, log, schedule, positions);
    if i > 0 {
      SessionAt(recs, file, log, schedule[1..], next, i - 1);
      assert schedule[..i] == [schedule[0]] + schedule[1..][..i - 1];
    }
  }

  lemma {:induction false} SessionLength(recs: seq<Record>, file: Bytes, schedule: seq<nat>, positions: map<nat, nat>)
    requires |recs| < TWO31 && forall c <- positions :: positions[c] < TWO31
    ensures |Session(recs, file, schedule, positions)| == |schedule|
    decreases |schedule|
  {
    hide StepAt;
    if schedule != [] {
      var r := ReplyTo(recs, file, PositionOf(positions, schedule[0]));
      SessionLength(recs, file, schedule[1..], Moved(positions, schedule[0], r));
    }
  }

  /** All turns of a session. */
  lemma SessionReplies(recs: seq<Record>, file: Bytes, log: seq<Entry>, schedule: seq<nat>, positions: map<nat, nat>)
    requires Addresses(file, recs, log) && |file| < TWO63 && |log| < TWO31 && |recs| == |log|
    requires forall c <- positions :: positions[c] < TWO31
    ensures |Session(recs, file, schedule, positions)| == |schedule|
    ensures forall i :: 0 <= i < |schedule| ==>
      var c := schedule[i];
      var pos := (if c in positions then positions[c] else 0) + multiset(schedule[..i])[c];
      Session(recs, file, schedule, positions)[i]
      == (c, if pos < |log| then Reply(log[pos].key, log[pos].value, pos + 1) else EndOfRecords)
  {
    hide Addresses, Session;
    SessionLength(recs, file, schedule, positions);
    forall i | 0 <= i < |schedule|
      ensures var c := schedule[i];
        var pos := (if c in positions then positions[c] else 0) + multiset(schedule[..i])[c];
        Session(recs, file, schedule, positions)[i]
        == (c, if pos < |log| then Reply(log[pos].key, log[pos].value, pos + 1) else EndOfRecords)
    {
      SessionAt(recs, file, log, schedule, positions, i);
    }
  }

  lemma LogIsReadable(s: Store, recs: seq<Record>, log: seq<Entry>)
    requires Stored(s, recs, log) && ValidLog(s, log) && forall e <- log :: |e.value| < TWO32 - 1
    ensures |recs| == |log| && forall r <- recs :: Readable(r) && |r.key| < TWO32 - 1
  {
    hide Text;
    forall r | r in recs
      ensures Readable(r) && |r.key| < TWO32 - 1
    {
      var i :| 0 <= i < |recs| && recs[i] == r;
      assert Holds(s.valueFile, recs[i], log[i]) && log[i] in log;
    }
  }

  /**
   * Traversal from the puts on: after any run of puts, and for any interleaving of clients, each client sees the
   * successful puts in their order, from where it starts, and then the end. The second form says it reply by reply.
   */
  method PutsThenServe(calls: seq<PutCall>, schedule: seq<nat>, positions: map<nat, nat>)
    returns (open: int, replies: seq<(nat, Reply)>)
    requires ValidLog(Run(EMPTY_STORE, calls), LogOf(calls)) && |LogOf(calls)| < TWO31
    requires forall e <- LogOf(calls) :: |e.value| < TWO32 - 1
    requires forall c <- positions :: positions[c] < TWO31
    ensures open == if LogOf(calls) == [] then 2 else 0
    ensures open == 0 ==> forall c ::
      SeenBy(c, replies) == Replay(LogOf(calls), PositionOf(positions, c), Turns(c, schedule))
    ensures open == 0 ==> |replies| == |schedule|
    ensures open == 0 ==> forall i :: 0 <= i < |schedule| ==>
      var c, log := schedule[i], LogOf(calls);
      var pos := (if c in positions then positions[c] else 0) + multiset(schedule[..i])[c];
      replies[i] == (c, if pos < |log| then Reply(log[pos].key, log[pos].value, pos + 1) else EndOfRecords)
  {
    hide LogOf, Run, ValidLog, Stored, Parse, AllValid, Session, Replay, SeenBy, Turns, PositionOf, Addresses;
    ghost var log := LogOf(calls);
    var ow := WriteAll(calls);
    RunStored(calls);
    ghost var recs := Parse(ow.keyFile);
    LogIsReadable(ow.Files(), recs, log);
    var ot := new OZTrav(ow.valueFile);
    open := ot.OpenKeyFile(ow.keyFile);
    replies := [];
    if open == 0 {
      var handler := new TravServiceHandler(ot);
      replies := handler.Serve(schedule, positions);
      StoredFacts(ow.Files(), recs, log);
      forall c
        ensures SeenBy(c, replies) == Replay(log, PositionOf(positions, c), Turns(c, schedule))
      {
        ClientsDoNotInterfere(recs, ow.valueFile, log, c, schedule, positions);
      }
      SessionReplies(recs, ow.valueFile, log, schedule, positions);
    }
  }
}
