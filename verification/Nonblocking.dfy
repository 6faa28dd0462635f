/**
 * The Python non-blocking server, one connection of it: a machine that the main loop drives with whatever the kernel
 * has ready, and whose answers worker threads hand back.
 */
module Nonblocking {
  import opened Bytes
  import opened Bits
  import opened Wire
  import opened Frames
  import B = Binary
  import M = Messages
  import opened WireBytes

  datatype Status = WaitLen | WaitMessage | WaitProcess | SendAnswer | Closed

  /**
   * A connection, its socket and what has passed through it: all bytes the client ever sends, how many have been
   * received, all bytes sent back, the messages queued for the workers and the answers they gave.
   */
  datatype World = World(status: Status, len: int, message: Bytes, stream: Bytes, pos: nat, sent: Bytes,
                         tasks: seq<Bytes>, answers: seq<Bytes>)

  /**
   * The socket is readable or writable, and the kernel passes at most k bytes, or fails; or a worker is done.
   */
  datatype Event = Readable(k: Option<nat>) | Writable(k: Option<nat>) | Done(ok: bool, answer: Bytes)

  // ----- one step

  /** The assertions of `read`, `write` and `ready`, and what `pack` accepts. */
  predicate Enabled(w: World, e: Event) {
    match e
    case Readable(_) => w.status == WaitLen || w.status == WaitMessage
    case Writable(_) => w.status == SendAnswer
    case Done(_, answer) => w.status == WaitProcess && |answer| < TWO31
  }

  /** There is always at least one byte to ask for, so an empty result means that the client has closed. */
  predicate Shape(w: World) {
    && w.pos <= |w.stream|
    && (w.status == WaitLen ==> |w.message| < 4)
    && (w.status == WaitMessage ==> |w.message| < w.len < TWO31)
  }

  /** How many bytes `recv(n)` returns. */
  function Arrived(w: World, n: nat, k: nat): (r: nat)
    requires w.pos <= |w.stream|
    ensures r <= n && w.pos + r <= |w.stream|
    ensures r == 0 ==> n == 0 || k == 0 || w.pos == |w.stream|
  {
    Min(k, Min(n, |w.stream| - w.pos))
  }

  function Receive(w: World, n: nat): World
    requires w.pos + n <= |w.stream|
  {
    w.(pos := w.pos + n, message := w.message + w.stream[w.pos..w.pos + n])
  }

  function Close(w: World): World {
    w.(status := Closed)
  }

  function StepLen(w: World, k: nat): World
    requires Shape(w) && w.status == WaitLen
  {
    var n := Arrived(w, 4 - |w.message|, k);
    if n == 0 then Close(w)
    else
      var w1 := Receive(w, n);
      if |w1.message| < 4 then w1
      else
        var w2 := w1.(len := FrameSize(w1.message));
        if w2.len <= 0 then Close(w2) else w2.(message := [], status := WaitMessage)
  }

  /** A message that is whole is queued at once. */
  function StepMessage(w: World, k: nat): World
    requires Shape(w) && w.status == WaitMessage
  {
    var n := Arrived(w, w.len - |w.message|, k);
    if n == 0 then Close(w)
    else
      var w1 := Receive(w, n);
      if |w1.message| < w1.len then w1 else w1.(status := WaitProcess, tasks := w1.tasks + [w1.message])
  }

  function StepWrite(w: World, k: nat): World {
    var n := Min(k, |w.message|);
    var w1 := w.(sent := w.sent + w.message[..n]);
    if n == |w.message| then w1.(status := WaitLen, message := [], len := 0)
    else w1.(message := w.message[n..])
  }

  /** A failed request closes; an empty answer belongs to a one-way call, which gets none. */
  function StepReady(w: World, ok: bool, answer: Bytes): World {
    if !ok then Close(w)
    else
      var w1 := w.(len := 0, answers := w.answers + [answer]);
      if answer == [] then w1.(message := [], status := WaitLen)
      else w1.(message := Framed(answer), status := SendAnswer)
  }

  function Step(w: World, e: Event): World
    requires Shape(w) && Enabled(w, e)
  {
    match e
    case Readable(None) => Close(w)
    case Readable(Some(k)) => if w.status == WaitLen then StepLen(w, k) else StepMessage(w, k)
    case Writable(None) => Close(w)
    case Writable(Some(k)) => StepWrite(w, k)
    case Done(ok, answer) => StepReady(w, ok, answer)
  }

  /** What closes a connection, and nothing else does: a failure, the end of the stream, a size that is not positive. */
  lemma ClosesExactly(w: World, e: Event)
    requires Shape(w) && Enabled(w, e)
    ensures Step(w, e).status == Closed <==>
      match e
      case Readable(None) => true
      case Writable(None) => true
      case Done(ok, _) => !ok
      case Writable(Some(_)) => false
      case Readable(Some(k)) =>
        var n := Min(k, Min(if w.status == WaitLen then 4 - |w.message| else w.len - |w.message|, |w.stream| - w.pos));
        var head := w.message + w.stream[w.pos..w.pos + n];
        n == 0 || (w.status == WaitLen && |head| == 4 && (head[0] >= 128 || head == [0, 0, 0, 0]))
  {
    hide FrameSize, Framed;
    match e
    case Readable(Some(k)) =>
      if w.status == WaitLen {
        var n := Arrived(w, 4 - |w.message|, k);
        var head := Receive(w, n).message;
        if |head| == 4 { NotPositive(head); }
      }
    case _ =>
  }

  lemma NotPositive(head: Bytes)
    requires |head| == 4
    ensures FrameSize(head) <= 0 <==> head[0] >= 128 || head == [0, 0, 0, 0]
  {
    FrameSizeIs(head);
    hide FrameSize;
  }

  /** What a worker's answer leads to: four bytes of size and the answer to be sent, or the next request. */
  lemma AnswerBytes(w: World, answer: Bytes)
    requires Shape(w) && w.status == WaitProcess && |answer| < TWO31
    ensures var w' := Step(w, Done(true, answer));
      if answer == [] then w'.status == WaitLen && w'.message == []
      else
        var n := |answer|;
        w'.status == SendAnswer && w'.message == [n / 16777216, n / 65536 % 256, n / 256 % 256, n % 256] + answer
  {
    hide Framed;
    FrameBytes(answer);
  }

  // ----- what every step keeps

  /** The bytes received since the last whole message. */
  function Partial(w: World): Bytes {
    match w.status
    case WaitLen => w.message
    case WaitMessage => B.PutInt(w.len, 4) + w.message
    case _ => []
  }

  /** The answers as they go over the wire. */
  function Replies(answers: seq<Bytes>): Bytes {
    if answers == [] then []
    else
      var init, last := answers[..|answers| - 1], answers[|answers| - 1];
      if last == [] then Replies(init) else Replies(init) + Framed(last)
  }

  /** Nothing is received beyond the message in hand, and every message received is queued. */
  predicate InOrder(w: World)
    requires w.pos <= |w.stream|
  {
    && (forall m | m in w.tasks :: ValidFrame(m))
    && (w.status == Closed ==> Parse(w.stream[..w.pos]) == w.tasks)
    && (w.status != Closed ==> w.stream[..w.pos] == FramedAll(w.tasks) + Partial(w))
  }

  /**
   * Every request before the one in hand has its answer; the answers have been sent, but for the rest of the last
   * one.
   */
  predicate Answered(w: World) {
    && (w.status != Closed ==> |w.tasks| == |w.answers| + if w.status == WaitProcess then 1 else 0)
    && |w.answers| <= |w.tasks| <= |w.answers| + 1
    && (w.status == WaitProcess ==> w.message == w.tasks[|w.answers|])
    && (forall a | a in w.answers :: |a| < TWO31)
    && (w.status == SendAnswer ==> w.sent + w.message == Replies(w.answers))
    && (w.status != SendAnswer && w.status != Closed ==> w.sent == Replies(w.answers))
    && w.sent <= Replies(w.answers)
  }

  predicate Inv(w: World) {
    Shape(w) && InOrder(w) && Answered(w)
  }

  function Start(stream: Bytes): World {
    World(WaitLen, 0, [], stream, 0, [], [], [])
  }

  lemma InvStart(stream: Bytes)
    ensures Inv(Start(stream))
  {
  }

  /** Received bytes extend the consumed part of the stream. */
  lemma ReceiveExtends(w: World, n: nat)
    requires w.pos + n <= |w.stream|
    ensures Receive(w, n).stream[..w.pos + n] == w.stream[..w.pos] + w.stream[w.pos..w.pos + n]
  {
  }

  /** Less than a whole frame parses to nothing. */
  lemma PartialParses(w: World)
    requires Shape(w) && w.status != Closed
    ensures Parse(Partial(w)) == []
  {
    if w.status == WaitMessage {
      hide B.PutInt, FrameSize;
      SizeOfHead(w.len);
      assert Partial(w)[..4] == B.PutInt(w.len, 4);
    }
  }

  lemma ClosedInOrder(w: World)
    requires Inv(w) && w.status != Closed
    ensures Parse(w.stream[..w.pos]) == w.tasks
  {
    hide Parse, Partial;
    PartialParses(w);
    ParseFramedAll(w.tasks, Partial(w));
  }

  /** A size that is not positive is where parsing stops, whatever comes behind. */
  lemma BadSizeParses(head: Bytes, rest: Bytes)
    requires |head| == 4 && FrameSize(head) <= 0
    ensures Parse(head + rest) == []
  {
    hide FrameSize;
    assert (head + rest)[..4] == head;
  }

  /** What has been received of a size belongs behind the messages. */
  lemma SizeGrows(w: World, k: nat) returns (w1: World)
    requires Inv(w) && w.status == WaitLen
    ensures w1 == Receive(w, Arrived(w, 4 - |w.message|, k))
    ensures w1.pos <= |w1.stream| && |w1.message| <= 4
    ensures w1.stream[..w1.pos] == FramedAll(w1.tasks) + w1.message
  {
    hide Parse, FrameSize, FramedAll, Answered;
    var n := Arrived(w, 4 - |w.message|, k);
    w1 := Receive(w, n);
    ReceiveExtends(w, n);
    ConcatAssociative(FramedAll(w.tasks), w.message, w.stream[w.pos..w.pos + n]);
  }

  /** A whole size: of a message, or one at which the stream ends. */
  lemma SizeWhole(tasks: seq<Bytes>, head: Bytes)
    requires |head| == 4 && forall m | m in tasks :: ValidFrame(m)
    ensures FrameSize(head) > 0 ==> B.PutInt(FrameSize(head), 4) + [] == head && FrameSize(head) < TWO31
    ensures FrameSize(head) <= 0 ==> Parse(FramedAll(tasks) + head) == tasks
  {
    hide *;
    assert head + [] == head;
    if FrameSize(head) > 0 {
      HeadOfSize(head);
    } else {
      BadSizeParses(head, []);
      ParseFramedAll(tasks, head);
    }
  }

  lemma InOrderStepLen(w: World, k: nat)
    requires Inv(w) && w.status == WaitLen
    ensures Shape(StepLen(w, k)) && InOrder(StepLen(w, k))
  {
    hide Parse, FrameSize, FramedAll, B.PutInt, Answered, Arrived, Receive;
    ClosedInOrder(w);
    var w1 := SizeGrows(w, k);
    ReceiveKeeps(w, Arrived(w, 4 - |w.message|, k));
    if |w1.message| == 4 { SizeWhole(w.tasks, w1.message); }
  }

  lemma ReceiveKeeps(w: World, n: nat)
    requires w.pos + n <= |w.stream|
    ensures var w1 := Receive(w, n);
      w1 == w.(pos := w.pos + n, message := w1.message) && |w1.message| == |w.message| + n
  {
  }

  lemma InOrderStepMessage(w: World, k: nat)
    requires Inv(w) && w.status == WaitMessage
    ensures Shape(StepMessage(w, k)) && InOrder(StepMessage(w, k))
  {
    hide Parse, FrameSize, FramedAll, B.PutInt, Answered;
    ClosedInOrder(w);
    var n := Arrived(w, w.len - |w.message|, k);
    if n > 0 {
      var w1 := Receive(w, n);
      var read := w.stream[w.pos..w.pos + n];
      ReceiveExtends(w, n);
      ConcatAssociative(FramedAll(w.tasks), Partial(w), read);
      ConcatAssociative(B.PutInt(w.len, 4), w.message, read);
      if |w1.message| == w1.len {
        FramedSnoc(w.tasks, w1.message);
      }
    }
  }

  lemma InvStepRead(w: World, k: nat)
    requires Inv(w) && (w.status == WaitLen || w.status == WaitMessage)
    ensures Inv(Step(w, Readable(Some(k))))
  {
    hide InOrder, FrameSize, Replies;
    if w.status == WaitLen { InOrderStepLen(w, k); } else { InOrderStepMessage(w, k); }
  }

  lemma InvStepWrite(w: World, k: nat)
    requires Inv(w) && w.status == SendAnswer
    ensures Inv(StepWrite(w, k))
  {
    hide Parse, FrameSize, FramedAll, Replies;
    var n := Min(k, |w.message|);
    assert w.message == w.message[..n] + w.message[n..];
    ConcatAssociative(w.sent, w.message[..n], w.message[n..]);
  }

  lemma RepliesSnoc(answers: seq<Bytes>, answer: Bytes)
    ensures Replies(answers + [answer]) == if answer == [] then Replies(answers) else Replies(answers) + Framed(answer)
  {
    assert (answers + [answer])[..|answers|] == answers;
  }

  lemma InvStepReady(w: World, ok: bool, answer: Bytes)
    requires Inv(w) && w.status == WaitProcess && |answer| < TWO31
    ensures Inv(StepReady(w, ok, answer))
  {
    hide Parse, FrameSize, FramedAll, Replies;
    ClosedInOrder(w);
    RepliesSnoc(w.answers, answer);
  }

  /** Every step keeps the invariant, however many bytes the kernel passes and whatever fails. */
  lemma InvStep(w: World, e: Event)
    requires Inv(w) && Enabled(w, e)
    ensures Inv(Step(w, e))
  {
    hide Inv, InOrder, Answered, StepLen, StepMessage, StepWrite, StepReady;
    match e
    case Readable(Some(k)) => InvStepRead(w, k);
    case Writable(Some(k)) => InvStepWrite(w, k);
    case Done(ok, answer) => InvStepReady(w, ok, answer);
    case _ => InvClose(w);
  }

  lemma InvClose(w: World)
    requires Inv(w) && w.status != Closed
    ensures Inv(Close(w))
  {
    hide Parse, FramedAll, Replies;
    ClosedInOrder(w);
  }

  // ----- whole runs

  /** Only enabled events happen. */
  predicate Possible(w: World, events: seq<Event>)
    requires Inv(w)
    decreases events
  {
    events == [] || (Enabled(w, events[0]) && (InvStep(w, events[0]); Possible(Step(w, events[0]), events[1..])))
  }

  function Run(w: World, events: seq<Event>): (w': World)
    requires Inv(w) && Possible(w, events)
    ensures Inv(w') && w'.stream == w.stream
    decreases events
  {
    if events == [] then w
    else
      InvStep(w, events[0]);
      StepKeepsStream(w, events[0]);
      Run(Step(w, events[0]), events[1..])
  }

  /**
   * Under every chunking of what is received and sent, and every failure: the messages queued are those that the bytes
   * received hold, so they are the first messages of the stream, and all of them once the stream is used up; no byte
   * behind the message in hand has been taken; what was sent is a prefix of the framed answers, in request order.
   */
  lemma FramesReassembled(stream: Bytes, events: seq<Event>)
    requires Inv(Start(stream)) && Possible(Start(stream), events)
    ensures var w := Run(Start(stream), events);
      && w.tasks == Parse(stream[..w.pos])
      && w.tasks <= Parse(stream)
      && (w.pos == |stream| ==> w.tasks == Parse(stream))
      && (w.status == WaitProcess || w.status == SendAnswer ==> stream[..w.pos] == FramedAll(w.tasks))
      && w.sent <= Replies(w.answers) && |w.answers| <= |w.tasks|
  {
    hide Parse, FramedAll, Replies, Run, Possible;
    var w := Run(Start(stream), events);
    if w.status != Closed {
      ClosedInOrder(w);
      assert FramedAll(w.tasks) + [] == FramedAll(w.tasks);
    }
    ParseGrows(stream[..w.pos], stream[w.pos..]);
    assert stream[..w.pos] + stream[w.pos..] == stream;
    if w.pos == |stream| { assert stream[..w.pos] == stream; }
  }

  /** What a client has framed arrives, message by message, and nothing else does. */
  lemma ClientMessagesArrive(ms: seq<Bytes>, events: seq<Event>)
    requires forall m | m in ms :: ValidFrame(m)
    requires Inv(Start(FramedAll(ms))) && Possible(Start(FramedAll(ms)), events)
    ensures var w := Run(Start(FramedAll(ms)), events);
      w.tasks <= ms && (w.pos == |FramedAll(ms)| ==> w.tasks == ms)
  {
    hide Parse, FramedAll, Replies, Run, Possible;
    FramesReassembled(FramedAll(ms), events);
    FramesRoundTrip(ms);
  }

  /** The connection closes by itself only at the end of the stream or at a bad size: no message is left behind. */
  lemma ClosesAtTheEnd(w: World, k: nat)
    requires Inv(w) && (w.status == WaitLen || w.status == WaitMessage) && k >= 1
    requires Step(w, Readable(Some(k))).status == Closed
    ensures w.tasks == Parse(w.stream) && Step(w, Readable(Some(k))).tasks == w.tasks
  {
    hide Parse, FramedAll, Replies, FrameSize;
    ClosedInOrder(w);
    if w.pos == |w.stream| {
      assert w.stream[..w.pos] == w.stream;
    } else {
      BadSizeAhead(w, k);
    }
  }

  lemma BadSizeAhead(w: World, k: nat)
    requires Inv(w) && w.status == WaitLen && k >= 1 && w.pos < |w.stream|
    requires StepLen(w, k).status == Closed
    ensures w.tasks == Parse(w.stream)
  {
    hide Parse, FramedAll, Replies, FrameSize;
    var n := Arrived(w, 4 - |w.message|, k);
    var w1 := Receive(w, n);
    var rest := w.stream[w1.pos..];
    ReceiveExtends(w, n);
    ConcatAssociative(FramedAll(w.tasks), w.message, w.stream[w.pos..w1.pos]);
    assert w.stream == w.stream[..w1.pos] + rest;
    ConcatAssociative(FramedAll(w.tasks), w1.message, rest);
    BadSizeParses(w1.message, rest);
    ParseFramedAll(w.tasks, w1.message + rest);
  }

  /** The answers that are sent: those of one-way calls are not. */
  function NonEmpty(answers: seq<Bytes>): seq<Bytes> {
    if answers == [] then []
    else
      var init, last := answers[..|answers| - 1], answers[|answers| - 1];
      if last == [] then NonEmpty(init) else NonEmpty(init) + [last]
  }

  lemma {:induction false} RepliesAreFrames(answers: seq<Bytes>)
    requires forall a | a in answers :: |a| < TWO31
    ensures Replies(answers) == FramedAll(NonEmpty(answers))
    ensures forall a | a in NonEmpty(answers) :: ValidFrame(a)
  {
    hide Framed, FramedAll;
    if answers == [] {
      assert FramedAll([]) == [] by { NoFrames(); }
    } else {
      var init, last := answers[..|answers| - 1], answers[|answers| - 1];
      RepliesAreFrames(init);
      FramedSnoc(NonEmpty(init), last);
    }
  }

  lemma NoFrames()
    ensures FramedAll([]) == []
  {
  }

  /** At every moment what the client has got holds the first answers, in request order, and nothing else. */
  lemma AnswersArrive(w: World)
    requires Inv(w)
    ensures Parse(w.sent) <= NonEmpty(w.answers)
    ensures w.status == WaitLen || w.status == WaitMessage || w.status == WaitProcess ==>
      Parse(w.sent) == NonEmpty(w.answers)
  {
    hide Parse, FramedAll, Replies, Framed, InOrder;
    RepliesAreFrames(w.answers);
    ParseFramedAll(NonEmpty(w.answers), []);
    NothingParsed([]);
    var all := Replies(w.answers);
    assert all + [] == all;
    ParseGrows(w.sent, all[|w.sent|..]);
    assert w.sent + all[|w.sent|..] == all;
  }

  // ----- the objects

  class Socket {
    const stream: Bytes
    var pos: nat
    var sent: Bytes

    constructor (stream: Bytes)
      ensures this.stream == stream && pos == 0 && sent == []
    {
      this.stream, pos, sent := stream, 0, [];
    }

    /** At most n bytes, of which the kernel has k; nothing if it fails. */
    method Recv(n: nat, k: Option<nat>) returns (read: Option<Bytes>)
      requires pos <= |stream|
      modifies `pos
      ensures k == None ==> read == None && pos == old(pos)
      ensures k.Some? ==>
        pos == old(pos) + Min(k.value, Min(n, |stream| - old(pos))) && read == Some(stream[old(pos)..pos])
    {
      if k == None {
        return None;
      }
      var m := Min(k.value, Min(n, |stream| - pos));
      read := Some(stream[pos..pos + m]);
      pos := pos + m;
    }

    /** Takes a front part of the data, and returns its length. */
    method Send(data: Bytes, k: Option<nat>) returns (n: Option<nat>)
      modifies `sent
      ensures k == None ==> n == None && sent == old(sent)
      ensures k.Some? ==> n == Some(Min(k.value, |data|)) && sent == old(sent) + data[..n.value]
    {
      if k == None {
        return None;
      }
      n := Some(Min(k.value, |data|));
      sent := sent + data[..n.value];
    }
  }

  /** A connection. `len` is a number here where `ready` sets it to an empty string, which is never looked at. */
  class Connection {
    const socket: Socket
    var status: Status
    var len: int
    var message: Bytes

    constructor (socket: Socket)
      ensures this.socket == socket && status == WaitLen && len == 0 && message == []
    {
      this.socket, status, len, message := socket, WaitLen, 0, [];
    }

    function View(tasks: seq<Bytes>, answers: seq<Bytes>): World
      reads this, socket
    {
      World(status, len, message, socket.stream, socket.pos, socket.sent, tasks, answers)
    }

    method CloseIt()
      modifies `status
      ensures status == Closed
    {
      status := Closed;
    }

    method ReadLen(k: Option<nat>)
      requires Shape(View([], [])) && status == WaitLen
      modifies `status, `len, `message, socket`pos
      ensures View([], []) == Step(old(View([], [])), Readable(k))
    {
      hide FrameSize;
      var read := socket.Recv(4 - |message|, k);
      if read == None {
        CloseIt();
        return;
      }
      if |read.value| == 0 {
        CloseIt();
        return;
      }
      message := message + read.value;
      if |message| == 4 {
        len := FrameSize(message);
        if len < 0 {
          CloseIt();
        } else if len == 0 {
          CloseIt();
        } else {
          message := [];
          status := WaitMessage;
        }
      }
    }

    /** `read`; the message is queued by the caller. */
    method Read(k: Option<nat>)
      requires Shape(View([], [])) && (status == WaitLen || status == WaitMessage)
      modifies `status, `len, `message, socket`pos
      ensures View(if status == WaitProcess then [message] else [], []) == Step(old(View([], [])), Readable(k))
    {
      hide FrameSize;
      if status == WaitLen {
        ReadLen(k);
      } else {
        var read := socket.Recv(len - |message|, k);
        if read == None {
          CloseIt();
          return;
        }
        if |read.value| == 0 {
          CloseIt();
          return;
        }
        message := message + read.value;
        if |message| == len {
          status := WaitProcess;
        }
      }
    }

    method Write(k: Option<nat>)
      requires status == SendAnswer && socket.pos <= |socket.stream|
      modifies `status, `len, `message, socket`sent
      ensures View([], []) == Step(old(View([], [])), Writable(k))
    {
      var sent := socket.Send(message, k);
      if sent == None {
        CloseIt();
      } else if sent.value == |message| {
        status := WaitLen;
        message := [];
        len := 0;
      } else {
        message := message[sent.value..];
      }
    }

    method Ready(ok: bool, answer: Bytes)
      requires status == WaitProcess && |answer| < TWO31 && socket.pos <= |socket.stream|
      modifies `status, `len, `message
      ensures View([], if ok then [answer] else []) == Step(old(View([], [])), Done(ok, answer))
    {
      hide M.Pack, B.PutInt;
      if !ok {
        CloseIt();
        return;
      }
      len := 0;
      if |answer| == 0 {
        message := [];
        status := WaitLen;
      } else {
        PackedSize(answer);
        message := M.Pack(|answer|, 4) + answer;
        status := SendAnswer;
      }
    }
  }

  lemma PackedSize(m: Bytes)
    requires |m| < TWO31
    ensures M.Pack(|m|, 4) + m == Framed(m)
  {
    Widths();
    hide Pow2, M.Pack, B.PutInt;
    M.PackIs(|m|, 4);
  }

  /** What a step adds to the queue and to the answers does not depend on what is there. */
  lemma StepAdds(w: World, e: Event)
    requires Shape(w) && Enabled(w, e)
    ensures var w' := Step(w.(tasks := [], answers := []), e);
      Step(w, e) == w'.(tasks := w.tasks + w'.tasks, answers := w.answers + w'.answers)
  {
    hide FrameSize, Framed, StepLen, StepMessage, StepWrite, StepReady;
    match e
    case Readable(Some(k)) => if w.status == WaitLen { StepLenAdds(w, k); } else { StepMessageAdds(w, k); }
    case Writable(Some(k)) => StepWriteAdds(w, k);
    case Done(ok, answer) => StepReadyAdds(w, ok, answer);
    case _ =>
  }

  lemma StepLenAdds(w: World, k: nat)
    requires Shape(w) && w.status == WaitLen
    ensures StepLen(w, k) == StepLen(w.(tasks := [], answers := []), k).(tasks := w.tasks, answers := w.answers)
    ensures StepLen(w.(tasks := [], answers := []), k).tasks == StepLen(w.(tasks := [], answers := []), k).answers == []
  {
    hide FrameSize;
  }

  lemma StepMessageAdds(w: World, k: nat)
    requires Shape(w) && w.status == WaitMessage
    ensures var w' := StepMessage(w.(tasks := [], answers := []), k);
      w'.answers == [] && StepMessage(w, k) == w'.(tasks := w.tasks + w'.tasks, answers := w.answers)
  {
  }

  lemma StepWriteAdds(w: World, k: nat)
    ensures StepWrite(w, k) == StepWrite(w.(tasks := [], answers := []), k).(tasks := w.tasks, answers := w.answers)
    ensures StepWrite(w.(tasks := [], answers := []), k).tasks == []
    ensures StepWrite(w.(tasks := [], answers := []), k).answers == []
  {
  }

  lemma StepReadyAdds(w: World, ok: bool, answer: Bytes)
    ensures var w' := StepReady(w.(tasks := [], answers := []), ok, answer);
      w'.tasks == [] && StepReady(w, ok, answer) == w'.(tasks := w.tasks, answers := w.answers + w'.answers)
  {
    hide Framed;
  }

  lemma StepKeepsStream(w: World, e: Event)
    requires Shape(w) && Enabled(w, e)
    ensures Step(w, e).stream == w.stream
  {
    hide FrameSize, Framed;
  }

  /** The main loop's and the workers' work on one connection. */
  class Server {
    const connection: Connection
    var tasks: seq<Bytes>
    ghost var answers: seq<Bytes>

    constructor (connection: Connection)
      ensures this.connection == connection && tasks == [] && answers == []
    {
      this.connection, tasks, answers := connection, [], [];
    }

    ghost function View(): World
      reads this, connection, connection.socket
    {
      connection.View(tasks, answers)
    }

    /** The read half of `handle`: a connection that now waits for processing puts its message into the queue. */
    method HandleReadable(k: Option<nat>)
      requires Inv(View()) && Enabled(View(), Readable(k))
      modifies `tasks, connection, connection.socket`pos
      ensures View() == Step(old(View()), Readable(k)) && Inv(View())
    {
      hide FrameSize, InOrder, Answered, Step;
      InvStep(View(), Readable(k));
      StepAdds(View(), Readable(k));
      connection.Read(k);
      if connection.status == WaitProcess {
        tasks := tasks + [connection.message];
      }
    }

    method HandleWritable(k: Option<nat>)
      requires Inv(View()) && Enabled(View(), Writable(k))
      modifies connection, connection.socket`sent
      ensures View() == Step(old(View()), Writable(k)) && Inv(View())
    {
      hide FrameSize, InOrder, Answered, Step;
      InvStep(View(), Writable(k));
      StepAdds(View(), Writable(k));
      connection.Write(k);
    }

    /** A worker hands back the answer, or the failure, of the request in hand. */
    method Callback(ok: bool, answer: Bytes)
      requires Inv(View()) && Enabled(View(), Done(ok, answer))
      modifies `answers, connection
      ensures View() == Step(old(View()), Done(ok, answer)) && Inv(View())
    {
      hide FrameSize, InOrder, Answered, Step;
      InvStep(View(), Done(ok, answer));
      StepAdds(View(), Done(ok, answer));
      connection.Ready(ok, answer);
      if ok { answers := answers + [answer]; }
    }
  }

  // ----- serving to the end

  function Rank(status: Status): nat {
    match status
    case WaitProcess => 3
    case SendAnswer => 2
    case Closed => 0
    case _ => 1
  }

  /** Every step in which the kernel passes a byte or the stream has ended brings the connection nearer to its end. */
  lemma Progress(w: World, e: Event)
    requires Inv(w) && Enabled(w, e)
    requires match e case Readable(Some(k)) => k >= 1 case Writable(Some(k)) => k >= 1 case _ => true
    ensures var w' := Step(w, e);
      || w'.pos > w.pos
      || (w'.pos == w.pos && Rank(w'.status) < Rank(w.status))
      || (w'.pos == w.pos && Rank(w'.status) == Rank(w.status) && |w'.message| < |w.message|)
  {
    hide Parse, FramedAll, Replies, FrameSize, Framed, InOrder;
  }

  /** The answers given are the processor's, for the requests in order. */
  predicate AnsweredBy(process: Bytes -> Option<Bytes>, w: World) {
    |w.answers| <= |w.tasks| && forall i | 0 <= i < |w.answers| :: process(w.tasks[i]) == Some(w.answers[i])
  }

  /** The processor has failed on the last message queued, and the answers before it have been sent. */
  predicate Failed(process: Bytes -> Option<Bytes>, w: World) {
    |w.tasks| == |w.answers| + 1 && process(w.tasks[|w.answers|]) == None && w.sent == Replies(w.answers)
  }

  /** All messages of the stream are queued and answered, and the answers sent. */
  predicate Finished(w: World) {
    w.tasks == Parse(w.stream) && |w.answers| == |w.tasks| && w.sent == Replies(w.answers)
  }

  lemma ClosingFinishes(w: World, k: nat)
    requires Inv(w) && Enabled(w, Readable(Some(k))) && k >= 1
    ensures Step(w, Readable(Some(k))).status == Closed ==> Finished(Step(w, Readable(Some(k))))
    ensures Step(w, Readable(Some(k))).answers == w.answers && w.tasks <= Step(w, Readable(Some(k))).tasks
    ensures Step(w, Readable(Some(k))).stream == w.stream && w.pos <= Step(w, Readable(Some(k))).pos <= |w.stream|
  {
    hide Parse, FramedAll, Replies, FrameSize;
    if Step(w, Readable(Some(k))).status == Closed {
      ClosesAtTheEnd(w, k);
    }
  }

  lemma SendingKeeps(w: World, e: Event)
    requires Inv(w) && Enabled(w, e) && (e.Writable? || e.Done?) && (e.Writable? ==> e.k.Some?) && (e.Done? ==> e.ok)
    ensures var w' := Step(w, e);
      && w'.status != Closed && w'.tasks == w.tasks && w'.stream == w.stream && w'.pos == w.pos
      && w'.answers == w.answers + (if e.Done? then [e.answer] else [])
      && (e.Done? ==> |w.tasks| == |w.answers| + 1 && w.message == w.tasks[|w.answers|])
  {
    hide Parse, FramedAll, Replies, FrameSize, Framed, InOrder;
  }

  lemma FailureCloses(process: Bytes -> Option<Bytes>, w: World)
    requires Inv(w) && w.status == WaitProcess && process(w.message) == None
    ensures var w' := Step(w, Done(false, []));
      && Failed(process, w') && w'.status == Closed
      && w'.tasks == w.tasks && w'.answers == w.answers && w'.stream == w.stream && w'.pos == w.pos
  {
    hide Parse, FramedAll, Replies, FrameSize, Framed, InOrder;
  }

  lemma TasksComeFirst(w: World)
    requires Inv(w)
    ensures w.tasks <= Parse(w.stream)
  {
    hide Parse, FramedAll, Replies, FrameSize, Framed, Answered;
    if w.status != Closed { ClosedInOrder(w); }
    ParseGrows(w.stream[..w.pos], w.stream[w.pos..]);
    assert w.stream[..w.pos] + w.stream[w.pos..] == w.stream;
  }

  /**
   * A client that sends the stream and then closes, any processor, and a kernel that passes at least one byte a time:
   * whatever the chunks are, the messages of the stream are processed once each, in order, up to the first on which the
   * processor fails, and the client receives exactly the framed answers.
   */
  method Serve(server: Server, chunk: nat -> nat, process: Bytes -> Option<Bytes>)
    requires server.View() == Start(server.connection.socket.stream)
    requires forall m :: process(m).Some? ==> |process(m).value| < TWO31
    modifies server, server.connection, server.connection.socket
    ensures AnsweredBy(process, server.View()) && server.View().tasks <= Parse(server.View().stream)
    ensures Finished(server.View()) || Failed(process, server.View())
    ensures server.View().status == Closed
  {
    hide Inv, InOrder, Answered, Step, Parse, Replies, FramedAll, Finished, Failed;
    InvStart(server.connection.socket.stream);
    var connection, turn := server.connection, 0;
    ghost var stream := connection.socket.stream;
    while connection.status != Closed
      invariant Inv(server.View()) && AnsweredBy(process, server.View())
      invariant server.View().stream == stream && connection.socket.pos <= |stream|
      invariant connection.status == Closed ==> Finished(server.View()) || Failed(process, server.View())
      decreases |stream| - connection.socket.pos, Rank(connection.status), |connection.message|
    {
      var k := Some(chunk(turn) + 1);
      ghost var w := server.View();
      turn := turn + 1;
      if connection.status == WaitProcess {
        match process(connection.message) {
          case Some(answer) =>
            Progress(w, Done(true, answer));
            SendingKeeps(w, Done(true, answer));
            server.Callback(true, answer);
          case None =>
            Progress(w, Done(false, []));
            FailureCloses(process, w);
            server.Callback(false, []);
        }
      } else if connection.status == SendAnswer {
        Progress(w, Writable(k));
        SendingKeeps(w, Writable(k));
        server.HandleWritable(k);
      } else {
        Progress(w, Readable(k));
        ClosingFinishes(w, k.value);
        server.HandleReadable(k);
      }
    }
    TasksComeFirst(server.View());
  }

  lemma {:induction false} NonEmptyAll(answers: seq<Bytes>)
    requires [] !in answers
    ensures NonEmpty(answers) == answers
  {
    if answers != [] {
      NonEmptyAll(answers[..|answers| - 1]);
    }
  }

  lemma AllAnswered(w: World, ms: seq<Bytes>, process: Bytes -> Option<Bytes>)
    requires forall m | m in ms :: 0 < |m| < 2147483648
    requires forall m :: process(m).Some? && 0 < |process(m).value| < 2147483648
    requires w.stream == FramedAll(ms) && AnsweredBy(process, w) && (Finished(w) || Failed(process, w))
    ensures w.sent == FramedAll(w.answers) && Parse(w.sent) == w.answers && |w.answers| == |ms|
    ensures forall i :: 0 <= i < |ms| ==> w.answers[i] == process(ms[i]).value
  {
    hide Parse, Replies, FramedAll;
    FramesRoundTrip(ms);
    forall a | a in w.answers
      ensures 0 < |a| < TWO31
    {
      var i :| 0 <= i < |w.answers| && w.answers[i] == a;
      assert process(w.tasks[i]) == Some(a);
    }
    RepliesAreFrames(w.answers);
    NonEmptyAll(w.answers);
    FramesRoundTrip(w.answers);
  }

  /**
   * From client to client: framed messages go in, in pieces of any size, and out come the frames of the processor's
   * answers, one for each message, in order.
   */
  method ServeMessages(ms: seq<Bytes>, chunk: nat -> nat, process: Bytes -> Option<Bytes>)
    returns (sent: Bytes)
    requires forall m | m in ms :: 0 < |m| < 2147483648
    requires forall m :: process(m).Some? && 0 < |process(m).value| < 2147483648
    ensures sent == FramedAll(Parse(sent)) && |Parse(sent)| == |ms|
    ensures forall i :: 0 <= i < |ms| ==> Parse(sent)[i] == process(ms[i]).value
  {
    hide Parse, FramedAll, AnsweredBy, Finished, Failed;
    var stream := Stream(ms);
    var socket := new Socket(stream);
    var connection := new Connection(socket);
    var server := new Server(connection);
    Serve(server, chunk, process);
    AllAnswered(server.View(), ms, process);
    sent := socket.sent;
  }

  /** What a client sends. */
  method Stream(ms: seq<Bytes>) returns (stream: Bytes)
    requires forall m | m in ms :: 0 < |m| < 2147483648
    ensures stream == FramedAll(ms)
  {
    hide Framed, M.Pack;
    stream := [];
    for i := 0 to |ms|
      invariant stream == FramedAll(ms[..i])
    {
      FramedSnoc(ms[..i], ms[i]);
      assert ms[..i + 1] == ms[..i] + [ms[i]] && ms[i] in ms;
      PackedSize(ms[i]);
      stream := stream + (M.Pack(|ms[i]|, 4) + ms[i]);
    }
    assert ms[..|ms|] == ms;
  }
}
