/** What the readers refuse, byte by byte, and what they make of input that no writer has made. */
module Refusals {
  import opened Bytes
  import opened Bits
  import opened Wire
  import opened Varints
  import opened Protocols
  import opened PyReading
  import opened Messages
  import opened WireBytes
  import C = Compact
  import B = Binary

  /** Nothing to read. */
  lemma EmptyInput(p: Protocol, t: TType, s: RState)
    requires s.input == [] && s.pending == None && t.OfValue()
    ensures Decode(p, t, s) == Fail(EndOfFile) && Protocols.Skip(p, t, s) == Fail(EndOfFile)
  {
    EmptyVarint(s);
    hide ReadVarint, FromZigzagCpp, ToSigned, ToUnsigned, FromBigEndian, FromLittleEndian;
  }

  lemma EmptyVarint(s: RState)
    requires s.input == []
    ensures ReadVarint(s) == Fail(EndOfFile) && ReadVarintPy(s) == Fail(EndOfFile)
  {
  }

  /** `skip` takes nothing for a type that it does not know. */
  lemma UnknownTypesAreNotSkipped(p: Protocol, t: TType, s: RState)
    requires t.Stop? || t.Other?
    ensures Protocols.Skip(p, t, s) == Ok((), s)
  {
  }

  // ----- varints

  /** A byte with the high bit passes the reading on. */
  lemma MoreToCome(s: RState, got: nat, val: nat)
    requires s.input != [] && s.input[0] >= 128
    ensures VarintLoop(s, got, val) == if got + 1 >= 10 then Fail(InvalidData)
      else VarintLoop(s.(input := s.input[1..]), got + 1, Or(val, (s.input[0] % 128) * Pow2(7 * got) % TWO64))
  {
    hide Or, Pow2;
  }

  /** Ten bytes with the high bit are no number, and fewer of them with nothing behind are cut off. */
  lemma {:induction false} EndlessVarint(s: RState, got: nat, val: nat)
    requires got < 10 && forall i :: 0 <= i < |s.input| && i < 10 - got ==> s.input[i] >= 128
    ensures VarintLoop(s, got, val) == if |s.input| >= 10 - got then Fail(InvalidData) else Fail(EndOfFile)
    decreases 10 - got
  {
    hide Or, Pow2;
    if s.input != [] {
      hide VarintLoop;
      MoreToCome(s, got, val);
      if got + 1 < 10 {
        EndlessVarint(s.(input := s.input[1..]), got + 1, Or(val, (s.input[0] % 128) * Pow2(7 * got) % TWO64));
      }
    }
  }

  lemma LongVarintsRefused(s: RState)
    requires |s.input| >= 10 && forall i :: 0 <= i < 10 ==> s.input[i] >= 128
    ensures ReadVarint(s) == Fail(InvalidData)
  {
    hide VarintLoop;
    EndlessVarint(s, 0, 0);
  }

  // ----- sizes

  /** A compact size of 2^31 or more is negative for C++. */
  lemma CompactSizesRefused(s: RState, n: nat, rest: Bytes)
    requires 0x8000_0000 <= n < 0x1_0000_0000 && s.input == Varint(n) + rest
    ensures C.ReadString(s) == Fail(NegativeSize)
    ensures C.ReadMapHead(s) == if rest == [] then Fail(EndOfFile) else Fail(NegativeSize)
  {
    Widths();
    hide ReadVarint, Varint, ToSigned, Pow2, C.TypeOfCType;
    VarintRoundTrip(s, n, rest);
    Signed(n, 32);
  }

  lemma CompactListSizesRefused(s: RState, code: nat, n: nat, rest: Bytes)
    requires 0x8000_0000 <= n < 0x1_0000_0000 && code <= 15 && s.input == [0xf0 + code] + (Varint(n) + rest)
    ensures C.ReadListHead(s) == Fail(NegativeSize)
  {
    Widths();
    hide ReadVarint, Varint, ToSigned, Pow2, C.TypeOfCType;
    C.ReadUByteOf(s, 0xf0 + code, Varint(n) + rest);
    VarintRoundTrip(s.(input := Varint(n) + rest), n, rest);
    Signed(n, 32);
  }

  /** A binary number is negative exactly when its first byte is 128 or more. */
  lemma FourByteSign(s: Bytes)
    requires |s| == 4
    ensures ToSigned(FromBigEndian(s), 32) < 0 <==> s[0] >= 128
  {
    hide FromBigEndian, BigEndian, Pow2, ToSigned;
    Widths();
    FourBytesValue(s);
    Signed(FromBigEndian(s), 32);
  }

  /** So is a size, which is then refused. */
  lemma BinarySizesRefused(s: RState)
    requires |s.input| >= 4 && s.input[0] >= 128
    ensures B.ReadString(s) == Fail(NegativeSize)
  {
    hide ToSigned, FromBigEndian;
    FourByteSign(s.input[..4]);
  }

  lemma BinaryListSizesRefused(s: RState)
    requires |s.input| >= 5 && s.input[1] >= 128
    ensures B.ReadListHead(s) == Fail(NegativeSize)
  {
    hide ToSigned, FromBigEndian;
    assert s.input[1..][..4] == s.input[1..5];
    FourByteSign(s.input[1..5]);
  }

  // ----- types and field ids

  /** Compact codes above 12 are refused by both languages. */
  lemma UnknownCodesRefused(s: RState)
    requires s.input != [] && s.input[0] % 16 >= 13 && 1 <= s.input[0] / 16 <= 14
    ensures C.ReadFieldHead(s) == Fail(UnknownType) && C.ReadListHead(s) == Fail(UnknownType)
    ensures ReadFieldHeadPy(s) == Fail(UnknownType) && ReadListHeadPy(s) == Fail(UnknownType)
  {
    hide C.ReadI16, C.ReadSize, ReadZigzagPy, ReadVarintPy, ToSigned;
  }

  /** A delta beyond 32767 wraps around in C++ and does not in Python. */
  lemma FieldIdsWrap(s: RState, rest: Bytes)
    requires s.last == 32767 && s.input == [0x15] + rest
    ensures C.ReadFieldHead(s) == Ok((I32, -32768), s.(input := rest, last := -32768))
    ensures ReadFieldHeadPy(s) == Ok((I32, 32768), s.(input := rest, last := 32768))
  {
    hide ToSigned, Pow2, C.ReadI16, ReadZigzagPy, Wire.ReadUByte;
    Wraps();
    C.ReadUByteOf(s, 0x15, rest);
  }

  lemma Wraps()
    ensures ToSigned(32768, 16) == -32768
  {
    hide ToSigned, Pow2;
    Widths();
    Signed(32768, 16);
  }

  // ----- message headers

  /** A compact message begins with 0x82 and has version 1 in the low five bits of the second byte. */
  lemma CompactHeadersRefused(s: RState)
    requires s.input != [] && (s.input[0] != 0x82 || (|s.input| >= 2 && s.input[1] % 32 != 1))
    ensures ReadCompactCpp(s) == Fail(BadVersion) && ReadCompactPy(s) == Fail(BadVersion)
  {
    hide And, C.ReadSize, C.ReadString, ReadVarintPy, ReadStringPy, Shr, ToSigned;
    if |s.input| >= 2 { LowBits(s.input[1]); }
  }

  lemma LowBits(b: byte)
    ensures And(b, 0x1f) == b % 32
  {
    SmallPowers();
    hide And, Pow2;
    AndMaskAt(b, 5, 32);
  }

  /** A binary message that begins with a negative number must begin with 0x80 0x01. */
  lemma BinaryHeadersRefused(strictRead: bool, s: RState)
    requires |s.input| >= 4 && s.input[0] >= 128 && (s.input[0] != 0x80 || s.input[1] != 0x01)
    ensures ReadBinaryCpp(strictRead, s) == Fail(BadVersion) && ReadBinaryPy(strictRead, s) == Fail(BadVersion)
  {
    hide And, ToSigned, FromBigEndian, B.ReadString, ReadNamePy;
    FourByteSign(s.input[..4]);
    VersionOf(s.input[..4]);
  }

  /** The upper half of the first word is what is compared with the version. */
  lemma VersionOf(head: Bytes)
    requires |head| == 4 && head[0] >= 128 && (head[0] != 0x80 || head[1] != 0x01)
    ensures And(ToSigned(FromBigEndian(head), 32), ToSigned(0xffff_0000, 32)) != VERSION_1
    ensures And(ToSigned(FromBigEndian(head), 32), PY_VERSION_MASK) != PY_VERSION_1
  {
    Widths();
    Constants();
    UpperHalf(head);
    FourByteSign(head);
    BigEndianOfItself(head);
    hide And, FromBigEndian, BigEndian, Pow2, ToSigned;
    var n: int := FromBigEndian(head);
    Signed(n, 32);
    AndMaskAt(n - 4294967296, 16, 65536);
  }

  lemma UpperHalf(head: Bytes)
    requires |head| == 4
    ensures FromBigEndian(head) / 65536 == (head[0] as int) * 256 + head[1]
  {
    hide FromBigEndian;
    FourBytesValue(head);
  }
}
