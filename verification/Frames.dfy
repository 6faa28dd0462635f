/** Length-prefixed frames: what a stream of bytes means as a sequence of messages. */
module Frames {
  import opened Bytes
  import opened Bits
  import opened Wire
  import B = Binary

  predicate ValidFrame(m: Bytes) {
    0 < |m| < TWO31
  }

  /** A message behind its length. */
  function Framed(m: Bytes): Bytes {
    B.PutInt(|m|, 4) + m
  }

  function FramedAll(ms: seq<Bytes>): Bytes {
    if ms == [] then [] else Framed(ms[0]) + FramedAll(ms[1..])
  }

  function FrameSize(head: Bytes): int {
    ToSigned(FromBigEndian(head), 32)
  }

  /** A whole frame of positive size stands at the front. */
  predicate Complete(s: Bytes) {
    |s| >= 4 && 0 < FrameSize(s[..4]) <= |s| - 4
  }

  /** The messages of a stream; nothing is taken from a frame that is not whole or has no positive size. */
  function Parse(s: Bytes): seq<Bytes>
    decreases |s|
  {
    if Complete(s) then
      var n := FrameSize(s[..4]);
      [s[4..4 + n]] + Parse(s[4 + n..])
    else []
  }

  // ----- sizes

  /** The four bytes of a positive size are its encoding. */
  lemma HeadOfSize(head: Bytes)
    requires |head| == 4 && FrameSize(head) > 0
    ensures B.PutInt(FrameSize(head), 4) == head && FrameSize(head) < TWO31
  {
    Widths();
    BigEndianOfItself(head);
    var n := FromBigEndian(head);
    Signed(n, 32);
    Unsigned(n, 32);
    hide BigEndian, FromBigEndian, ToSigned, ToUnsigned, Pow2;
  }

  lemma SizeOfHead(n: nat)
    requires n < TWO31
    ensures FrameSize(B.PutInt(n, 4)) == n
  {
    Widths();
    Unsigned(n, 32);
    BigEndianRoundTrip(n, 4);
    Signed(n, 32);
    hide BigEndian, FromBigEndian, ToSigned, ToUnsigned, Pow2;
  }

  // ----- parsing inverts framing

  lemma ParseFramed(m: Bytes, rest: Bytes)
    requires ValidFrame(m)
    ensures Parse(Framed(m) + rest) == [m] + Parse(rest)
  {
    hide B.PutInt, FrameSize;
    var s, head := Framed(m) + rest, B.PutInt(|m|, 4);
    SizeOfHead(|m|);
    assert s == head + (m + rest) by { ConcatAssociative(head, m, rest); }
    assert s[..4] == head && s[4..4 + |m|] == m && s[4 + |m|..] == rest;
  }

  lemma {:induction false} ParseFramedAll(ms: seq<Bytes>, rest: Bytes)
    requires forall m | m in ms :: ValidFrame(m)
    ensures Parse(FramedAll(ms) + rest) == ms + Parse(rest)
  {
    hide Parse, Framed;
    if ms == [] {
      EmptyConcat(rest);
    } else {
      ConcatAssociative(Framed(ms[0]), FramedAll(ms[1..]), rest);
      ParseFramed(ms[0], FramedAll(ms[1..]) + rest);
      ParseFramedAll(ms[1..], rest);
    }
  }

  /** A stream of framed messages gives them back if and only if none is empty. */
  lemma {:induction false} FramesRoundTrip(ms: seq<Bytes>)
    requires forall m | m in ms :: |m| < TWO31
    ensures Parse(FramedAll(ms)) == ms <==> [] !in ms
  {
    hide Parse, Framed;
    if ms == [] {
      NothingParsed([]);
    } else if ms[0] == [] {
      EmptyFrameEnds(FramedAll(ms[1..]));
    } else {
      ParseFramed(ms[0], FramedAll(ms[1..]));
      FramesRoundTrip(ms[1..]);
      ConsInjective(ms[0], Parse(FramedAll(ms[1..])), ms);
    }
  }

  lemma ConsInjective(m: Bytes, tail: seq<Bytes>, ms: seq<Bytes>)
    requires ms != [] && ms[0] == m
    ensures [m] + tail == ms <==> tail == ms[1..]
  {
    assert ([m] + tail)[1..] == tail;
    assert ms == [ms[0]] + ms[1..];
  }

  lemma NothingParsed(s: Bytes)
    requires |s| < 4
    ensures Parse(s) == []
  {
  }

  /** Nothing is read past an empty frame. */
  lemma EmptyFrameEnds(rest: Bytes)
    ensures Parse(Framed([]) + rest) == []
  {
    hide B.PutInt, FrameSize;
    SizeOfHead(0);
    var s := Framed([]) + rest;
    assert s[..4] == B.PutInt(0, 4);
  }

  // ----- more of the stream

  lemma CompleteStays(s: Bytes, more: Bytes)
    requires Complete(s)
    ensures Complete(s + more)
    ensures var n := FrameSize(s[..4]);
      && FrameSize((s + more)[..4]) == n && (s + more)[4..4 + n] == s[4..4 + n]
      && (s + more)[4 + n..] == s[4 + n..] + more
  {
    hide FrameSize;
    var t, n := s + more, FrameSize(s[..4]);
    assert t[..4] == s[..4];
    assert t[4..4 + n] == s[4..4 + n] && t[4 + n..] == s[4 + n..] + more;
  }

  lemma ParseStep(s: Bytes)
    requires Complete(s)
    ensures var n := FrameSize(s[..4]);
      Parse(s) == [s[4..4 + n]] + Parse(s[4 + n..])
  {
    hide FrameSize;
  }

  /** Bytes that arrive later do not change the messages already there. */
  lemma {:induction false} ParseGrows(s: Bytes, more: Bytes)
    ensures Parse(s) <= Parse(s + more)
    decreases |s|
  {
    if Complete(s) {
      hide Parse, FrameSize;
      var n := FrameSize(s[..4]);
      CompleteStays(s, more);
      ParseStep(s);
      ParseStep(s + more);
      ParseGrows(s[4 + n..], more);
    }
  }

  lemma {:induction false} FramedSnoc(ms: seq<Bytes>, m: Bytes)
    ensures FramedAll(ms + [m]) == FramedAll(ms) + Framed(m)
  {
    hide Framed;
    if ms == [] {
      EmptyConcat(Framed(m));
      assert FramedAll([m]) == Framed(m) + FramedAll([]);
    } else {
      assert (ms + [m])[1..] == ms[1..] + [m];
      FramedSnoc(ms[1..], m);
      ConcatAssociative(Framed(ms[0]), FramedAll(ms[1..]), Framed(m));
    }
  }
}
