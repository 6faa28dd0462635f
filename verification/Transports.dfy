/** The Python client's transports: reading exactly so many bytes through layers that each return what they have. */
module Transports {
  import opened Bytes
  import opened Wire
  import opened Frames
  import opened TProtocols
  import B = Binary
  import M = Messages
  import N = Nonblocking

  /**
   * What a stream delivers was asked for from its front: some bytes at most, at least one if there is one and any was
   * asked for.
   */
  predicate Delivers(before: Bytes, sz: nat, ret: Bytes, after: Bytes) {
    before == ret + after && |ret| <= sz && (ret == [] ==> sz == 0 || before == [])
  }

  /** `readAll` returns the next bytes, all of them, if and only if there are so many. */
  predicate AllOrEof(before: Bytes, sz: nat, r: Outcome<Bytes>, after: Bytes) {
    if sz <= |before| then r == Returns(before[..sz]) && after == before[sz..] else r == Throws(EndOfFile)
  }

  /** Another chunk of what `readAll` collects. */
  lemma Collected(all: Bytes, buff: Bytes, chunk: Bytes, rest: Bytes)
    requires all == buff + (chunk + rest)
    ensures all == (buff + chunk) + rest && |buff| + |chunk| <= |all|
  {
    ConcatAssociative(buff, chunk, rest);
  }

  lemma AllThere(all: Bytes, buff: Bytes, rest: Bytes)
    requires all == buff + rest
    ensures buff == all[..|buff|] && rest == all[|buff|..]
  {
  }

  /**
   * A socket: each call passes as many of the bytes to come as the kernel has, by a schedule of which nothing is
   * known.
   */
  class TSocket {
    var data: Bytes
    var written: Bytes
    const chunk: nat -> nat
    var turn: nat

    constructor (data: Bytes, chunk: nat -> nat)
      ensures this.data == data && written == []
    {
      this.data, this.chunk, written, turn := data, chunk, [], 0;
    }

    method Read(sz: nat) returns (ret: Bytes)
      modifies `data, `turn
      ensures Delivers(old(data), sz, ret, data)
    {
      var n := Min(Min(sz, |data|), chunk(turn) + 1);
      turn := turn + 1;
      ret := data[..n];
      data := data[n..];
    }

    method ReadAll(sz: nat) returns (r: Outcome<Bytes>)
      modifies `data, `turn
      ensures AllOrEof(old(data), sz, r, data)
    {
      var buff: Bytes, have := [], 0;
      while have < sz
        invariant have == |buff| <= sz && old(data) == buff + data
      {
        ghost var before := data;
        var part := Read(sz - have);
        Collected(old(data), buff, part, data);
        have := have + |part|;
        buff := buff + part;
        if |part| == 0 {
          return Throws(EndOfFile);
        }
      }
      AllThere(old(data), buff, data);
      return Returns(buff);
    }

    method Write(buf: Bytes)
      modifies `written
      ensures written == old(written) + buf
    {
      written := written + buf;
    }
  }

  class TBufferedTransport {
    const trans: TSocket
    const rbufSize: nat
    var rbuf: Bytes
    var wbuf: Bytes

    constructor (trans: TSocket, rbufSize: nat)
      ensures this.trans == trans && rbuf == [] && wbuf == []
    {
      this.trans, this.rbufSize, rbuf, wbuf := trans, rbufSize, [], [];
    }

    /** The bytes that can still be read. */
    function Ahead(): Bytes
      reads this, trans
    {
      rbuf + trans.data
    }

    /**
     * Asked for nothing it still goes to the layer below, and whatever was buffered is lost.
     */
    method Read(sz: nat) returns (ret: Bytes)
      modifies `rbuf, trans`data, trans`turn
      ensures sz > 0 || old(rbuf) == [] ==> Delivers(old(Ahead()), sz, ret, Ahead())
      ensures sz == 0 ==> ret == [] && Ahead() == old(trans.data)
    {
      ret := rbuf[..Min(sz, |rbuf|)];
      if |ret| != 0 {
        AllAhead(rbuf, |ret|, trans.data);
        rbuf := rbuf[|ret|..];
        return;
      }
      assert rbuf + trans.data == trans.data || sz == 0;
      var got := trans.Read(if sz >= rbufSize then sz else rbufSize);
      ret := got[..Min(sz, |got|)];
      rbuf := got[|ret|..];
      AllAhead(got, |ret|, trans.data);
    }

    method ReadAll(sz: nat) returns (r: Outcome<Bytes>)
      modifies `rbuf, trans`data, trans`turn
      ensures AllOrEof(old(Ahead()), sz, r, Ahead())
    {
      var buff: Bytes, have := [], 0;
      while have < sz
        invariant have == |buff| <= sz && old(Ahead()) == buff + Ahead()
      {
        var part := Read(sz - have);
        Collected(old(Ahead()), buff, part, Ahead());
        have := have + |part|;
        buff := buff + part;
        if |part| == 0 {
          return Throws(EndOfFile);
        }
      }
      AllThere(old(Ahead()), buff, Ahead());
      return Returns(buff);
    }

    method Write(buf: Bytes)
      modifies `wbuf
      ensures wbuf == old(wbuf) + buf
    {
      wbuf := wbuf + buf;
    }

    method Flush()
      modifies `wbuf, trans`written
      ensures trans.written == old(trans.written) + old(wbuf) && wbuf == []
    {
      var out := wbuf;
      wbuf := [];
      trans.Write(out);
    }
  }

  lemma AllAhead(buf: Bytes, n: nat, data: Bytes)
    requires n <= |buf|
    ensures buf + data == buf[..n] + (buf[n..] + data)
  {
    assert buf == buf[..n] + buf[n..];
  }

  // ----- frames

  function Concat(ms: seq<Bytes>): Bytes {
    if ms == [] then [] else ms[0] + Concat(ms[1..])
  }

  class TFramedTransport {
    const trans: TSocket
    var rbuf: Bytes
    var wbuf: Bytes

    constructor (trans: TSocket)
      ensures this.trans == trans && rbuf == [] && wbuf == []
    {
      this.trans, rbuf, wbuf := trans, [], [];
    }

    /** The bytes that can still be read: the rest of this frame, then the frames of the stream, up to a bad one. */
    function Ahead(): Bytes
      reads this, trans
    {
      rbuf + Concat(Parse(trans.data))
    }

    /** `readAll` of a negative size gives nothing. */
    method ReadFrame() returns (r: Outcome<()>)
      modifies `rbuf, trans`data, trans`turn
      ensures Complete(old(trans.data)) ==>
        r.Returns? && rbuf != [] && Parse(old(trans.data)) == [rbuf] + Parse(trans.data)
      ensures r.Returns? && !Complete(old(trans.data)) ==> rbuf == []
      ensures Complete(old(trans.data)) ==> old(trans.data) == Framed(rbuf) + trans.data
      ensures r.Throws? <==> |old(trans.data)| < 4 || FrameSize(old(trans.data)[..4]) > |old(trans.data)| - 4
      ensures r.Throws? ==> r.error == EndOfFile && rbuf == old(rbuf)
      ensures r.Returns? && !Complete(old(trans.data)) ==> trans.data == old(trans.data)[4..]
    {
      hide FrameSize, Parse;
      ghost var s := trans.data;
      var buff :- trans.ReadAll(4);
      var sz := FrameSize(buff);
      assert s[..4] == buff;
      if Complete(s) { FirstFrame(s); }
      var frame :- trans.ReadAll(if sz < 0 then 0 else sz);
      rbuf := frame;
      return Returns(());
    }

    /**
     * A frame that is not whole raises; an empty one gives nothing. Asked for nothing it drops the rest of its frame.
     */
    method Read(sz: nat) returns (r: Outcome<Bytes>)
      modifies `rbuf, trans`data, trans`turn
      ensures sz > 0 && r.Returns? && r.val != [] ==> Delivers(old(Ahead()), sz, r.val, Ahead())
      ensures sz > 0 && (r.Throws? || r.val == []) ==> old(Ahead()) == []
      ensures sz == 0 && r.Returns? ==> r.val == []
      ensures sz == 0 && Complete(old(trans.data)) ==> r == Returns([]) && Ahead() == Concat(Parse(old(trans.data)))
      ensures sz == 0 && !Complete(old(trans.data)) && r.Returns? ==>
        rbuf == [] && |old(trans.data)| >= 4 && trans.data == old(trans.data)[4..]
      ensures r.Throws? ==> r.error == EndOfFile
    {
      hide FrameSize, Parse, Complete, Concat;
      var ret := rbuf[..Min(sz, |rbuf|)];
      if |ret| != 0 {
        AllAhead(rbuf, |ret|, Concat(Parse(trans.data)));
        rbuf := rbuf[|ret|..];
        return Returns(ret);
      }
      BadEnds(trans.data);
      EmptyConcat(Concat(Parse(trans.data)));
      var _ :- ReadFrame();
      ret := rbuf[..Min(sz, |rbuf|)];
      AllAhead(rbuf, |ret|, Concat(Parse(trans.data)));
      ConcatCons(rbuf, Parse(trans.data));
      rbuf := rbuf[|ret|..];
      return Returns(ret);
    }

    /** Across frames: as many bytes as asked for, if the whole frames of the stream hold them. */
    method ReadAll(sz: nat) returns (r: Outcome<Bytes>)
      modifies `rbuf, trans`data, trans`turn
      ensures AllOrEof(old(Ahead()), sz, r, Ahead())
    {
      hide FrameSize, Parse, Concat;
      var buff: Bytes, have := [], 0;
      while have < sz
        invariant have == |buff| <= sz && old(Ahead()) == buff + Ahead()
      {
        var part :- Read(sz - have);
        if part != [] { Collected(old(Ahead()), buff, part, Ahead()); }
        have := have + |part|;
        buff := buff + part;
        if |part| == 0 {
          return Throws(EndOfFile);
        }
      }
      AllThere(old(Ahead()), buff, Ahead());
      return Returns(buff);
    }

    method Write(buf: Bytes)
      modifies `wbuf
      ensures wbuf == old(wbuf) + buf
    {
      wbuf := wbuf + buf;
    }

    method Flush()
      requires |wbuf| < TWO31
      modifies `wbuf, trans`written
      ensures trans.written == old(trans.written) + Framed(old(wbuf)) && wbuf == []
    {
      hide M.Pack, B.PutInt;
      var wout := wbuf;
      var wsz := |wout|;
      wbuf := [];
      N.PackedSize(wout);
      var buf := M.Pack(wsz, 4) + wout;
      trans.Write(buf);
    }
  }

  /** The frame at the front, by the sizes of its parts. */
  lemma FirstFrame(s: Bytes)
    requires Complete(s)
    ensures var n := FrameSize(s[..4]);
      && n <= |s[4..]| && s == Framed(s[4..][..n]) + s[4..][n..]
      && Parse(s) == [s[4..][..n]] + Parse(s[4..][n..])
  {
    hide FrameSize, B.PutInt, Parse;
    var n := FrameSize(s[..4]);
    ParseStep(s);
    HeadOfSize(s[..4]);
    assert s[4..][n..] == s[4 + n..] && s[4..][..n] == s[4..4 + n];
    assert s == s[..4] + s[4..4 + n] + s[4 + n..];
  }

  lemma ConcatCons(m: Bytes, ms: seq<Bytes>)
    ensures Concat([m] + ms) == m + Concat(ms)
  {
  }

  lemma BadEnds(s: Bytes)
    ensures !Complete(s) ==> Concat(Parse(s)) == []
  {
    hide FrameSize;
  }

  /**
   * Messages flushed one by one are read back in full, as one stream, however many bytes each layer passes at a time.
   */
  lemma FlushedIsRead(ms: seq<Bytes>)
    requires forall m | m in ms :: ValidFrame(m)
    ensures Concat(Parse(FramedAll(ms))) == Concat(ms)
  {
    FramesRoundTrip(ms);
  }

  lemma OneFrame(m: Bytes)
    requires |m| < TWO31
    ensures Complete(Framed(m)) <==> m != []
    ensures m != [] ==> Parse(Framed(m)) == [m]
  {
    hide FrameSize, Parse, B.PutInt;
    SizeOfHead(|m|);
    assert Framed(m)[..4] == B.PutInt(|m|, 4);
    if m != [] {
      ParseFramed(m, []);
      NothingParsed([]);
      assert Framed(m) + [] == Framed(m);
    }
  }

  /** `readFrame` gives back what `flush` sent. */
  method FlushThenReadFrame(m: Bytes, chunk: nat -> nat) returns (got: Bytes)
    requires |m| < TWO31
    ensures got == m
  {
    hide Complete, Parse, Framed;
    var near := new TSocket([], chunk);
    var writer := new TFramedTransport(near);
    writer.Write(m);
    writer.Flush();
    EmptyConcat(Framed(m));
    EmptyConcat(m);
    OneFrame(m);
    var far := new TSocket(near.written, chunk);
    var reader := new TFramedTransport(far);
    var r := reader.ReadFrame();
    got := reader.rbuf;
    if m != [] { assert ([got] + Parse(far.data))[0] == got; }
  }

  /** What has been written and flushed is what `readAll` reads, whatever the sizes of buffer and chunks. */
  method WriteThenReadAll(m: Bytes, rbufSize: nat, chunk: nat -> nat) returns (r: Outcome<Bytes>)
    ensures r == Returns(m)
  {
    var near := new TSocket([], chunk);
    var writer := new TBufferedTransport(near, rbufSize);
    writer.Write(m);
    writer.Flush();
    assert near.written == m;
    var far := new TSocket(near.written, chunk);
    var reader := new TBufferedTransport(far, rbufSize);
    assert reader.Ahead() == m;
    r := reader.ReadAll(|m|);
    assert m[..|m|] == m;
  }
}
