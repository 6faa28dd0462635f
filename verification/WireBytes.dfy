/**
 * The bytes themselves: what each header, number and message puts on the wire, with every code written out. Elsewhere
 * the two languages and the two directions share their tables of codes; here the tables are compared with the protocol.
 */
module WireBytes {
  import opened Bytes
  import opened Bits
  import opened Wire
  import opened Varints
  import opened Protocols
  import opened Messages
  import opened Frames
  import C = Compact
  import B = Binary

  // ----- numbers

  lemma OneMoreByte(n: nat, k: nat)
    ensures BigEndian(n, k + 1) == BigEndian(n / 256, k) + [n % 256] && BigEndian(n, 0) == []
  {
  }

  lemma TwoBytes(n: nat)
    ensures BigEndian(n, 2) == [n / 256 % 256, n % 256]
  {
    hide BigEndian;
    OneMoreByte(n / 256, 0);
    OneMoreByte(n, 1);
  }

  lemma FourBytes(n: nat, a: nat, b: nat, c: nat)
    requires a == n / 256 && b == a / 256 && c == b / 256
    ensures BigEndian(n, 4) == [c % 256, b % 256, a % 256, n % 256]
  {
    hide BigEndian;
    TwoBytes(b);
    OneMoreByte(a, 2);
    OneMoreByte(n, 3);
  }

  lemma Quotients(n: nat)
    ensures n / 256 / 256 == n / 65536 && n / 65536 / 256 == n / 16777216
  {
    var a := n / 256;
    var b := a / 256;
    assert n == 256 * a + n % 256 && a == 256 * b + a % 256;
    QuotientIs(n, 65536, b, 256 * (a % 256) + n % 256);
    var c := b / 256;
    assert b == 256 * c + b % 256;
    QuotientIs(n, 16777216, c, 65536 * (b % 256) + 256 * (a % 256) + n % 256);
  }

  /** Network order, by position. */
  lemma NetworkOrder(n: nat)
    ensures BigEndian(n, 4) == [n / 16777216 % 256, n / 65536 % 256, n / 256 % 256, n % 256]
  {
    hide BigEndian;
    var a := n / 256;
    var b := a / 256;
    FourBytes(n, a, b, b / 256);
    Quotients(n);
  }

  /** Byte i of k is the one k-1-i places from the right; the other order is the mirror image. */
  lemma {:induction false} ByteAt(n: nat, k: nat, i: nat)
    requires i < k
    ensures BigEndian(n, k)[k - 1 - i] == n / Pow2(8 * i) % 256 && LittleEndian(n, k)[i] == n / Pow2(8 * i) % 256
  {
    if i > 0 {
      ByteAt(n / 256, k - 1, i - 1);
      Pow2Byte(i - 1);
      DivideTwice(n, 256, Pow2(8 * (i - 1)));
    }
  }

  lemma DivideTwice(n: nat, a: int, b: int)
    requires a > 0 && b > 0
    ensures n / a / b == n / (a * b)
  {
    var q, r := n / a / b, n / a % b;
    assert n / a == b * q + r && n == a * (n / a) + n % a;
    assert n == a * (b * q + r) + n % a;
    assert a * (b * q + r) == (a * b) * q + a * r;
    assert 0 <= a * r <= a * (b - 1);
    assert a * (b - 1) == a * b - a;
    ModUnique(n, a * b, q);
    assert (a * b) * (n / (a * b)) == (a * b) * q;
    SmallMultiple(n / (a * b) - q, a * b);
  }

  /** An integer of one, two or four bytes; negative numbers as their remainder. */
  lemma IntBytes(i: int)
    ensures B.PutInt(i, 1) == [i % 256]
    ensures var u := i % 65536; B.PutInt(i, 2) == [u / 256, u % 256]
    ensures var u := i % 4294967296; B.PutInt(i, 4) == [u / 16777216, u / 65536 % 256, u / 256 % 256, u % 256]
  {
    Widths();
    hide BigEndian, Pow2;
    OneMoreByte(i % 256, 0);
    TwoBytes(i % 65536);
    NetworkOrder(i % 4294967296);
  }

  lemma SizeBytes(n: nat)
    requires n < 4294967296
    ensures B.PutInt(n, 4) == [n / 16777216, n / 65536 % 256, n / 256 % 256, n % 256]
  {
    hide B.PutInt;
    IntBytes(n);
    assert n % 4294967296 == n;
  }

  /** Byte i of a varint holds seven bits, with the high bit on all but the last. */
  lemma {:induction false} VarintByte(n: nat, i: nat)
    requires i < |Varint(n)|
    ensures Varint(n)[i] == n / Pow128(i) % 128 + (if i < |Varint(n)| - 1 then 128 else 0)
  {
    if i > 0 {
      VarintByte(n / 128, i - 1);
      DivideTwice(n, 128, Pow128(i - 1));
    } else {
      assert Pow128(0) == 1;
    }
  }

  lemma VarintExamples()
    ensures Varint(0) == [0] && Varint(127) == [0x7f] && Varint(128) == [0x80, 0x01] && Varint(300) == [0xac, 0x02]
    ensures Pow128(0) == 1 && Pow128(1) == 128 && Pow128(2) == 16384
  {
    assert Varint(1) == [1] && Varint(2) == [2];
  }

  /** Zigzag counts 0, -1, 1, -2, 2, ... */
  lemma ZigzagBytes(i: int)
    requires -0x8000_0000_0000_0000 <= i < 0x8000_0000_0000_0000
    ensures var z := if i >= 0 then 2 * i else -2 * i - 1;
      && (-0x8000_0000 <= i < 0x8000_0000 ==> C.PutI32(i) == Varint(z))
      && C.PutI64(i) == Varint(z)
  {
    Widths();
    hide ToZigzagCpp, Varint, Pow2;
    ZigzagCppIs(i, 64);
    if -0x8000_0000 <= i < 0x8000_0000 { ZigzagCppIs(i, 32); }
  }

  // ----- the compact protocol

  lemma CompactCodes()
    ensures C.CType(Bool) == 1 && C.CType(Byte) == 3 && C.CType(I16) == 4 && C.CType(I32) == 5 && C.CType(I64) == 6
    ensures C.CType(Double) == 7 && C.CType(String) == 8 && C.CType(List) == 9 && C.CType(Set) == 10
    ensures C.CType(Map) == 11 && C.CType(Struct) == 12
    ensures C.TypeOfCType(0) == Some(Stop) && C.TypeOfCType(1) == Some(Bool) && C.TypeOfCType(2) == Some(Bool)
    ensures C.TypeOfCType(13) == None && C.TypeOfCType(14) == None && C.TypeOfCType(15) == None
  {
  }

  /** A short list header is one byte: the size and the code of the element type. */
  lemma CompactListHeads(n: nat)
    requires n <= 14
    ensures C.PutListHead(Bool, n) == [16 * n + 1] && C.PutListHead(Byte, n) == [16 * n + 3]
    ensures C.PutListHead(I16, n) == [16 * n + 4] && C.PutListHead(I32, n) == [16 * n + 5]
    ensures C.PutListHead(I64, n) == [16 * n + 6] && C.PutListHead(Double, n) == [16 * n + 7]
    ensures C.PutListHead(String, n) == [16 * n + 8] && C.PutListHead(List, n) == [16 * n + 9]
    ensures C.PutListHead(Set, n) == [16 * n + 10] && C.PutListHead(Map, n) == [16 * n + 11]
    ensures C.PutListHead(Struct, n) == [16 * n + 12]
  {
  }

  /** A long one is the byte 0xf0 plus the code, and the size as a varint. */
  lemma CompactLongListHeads(n: nat)
    requires n >= 15
    ensures C.PutListHead(Bool, n) == [0xf1] + Varint(n) && C.PutListHead(Byte, n) == [0xf3] + Varint(n)
    ensures C.PutListHead(I16, n) == [0xf4] + Varint(n) && C.PutListHead(I32, n) == [0xf5] + Varint(n)
    ensures C.PutListHead(I64, n) == [0xf6] + Varint(n) && C.PutListHead(Double, n) == [0xf7] + Varint(n)
    ensures C.PutListHead(String, n) == [0xf8] + Varint(n) && C.PutListHead(List, n) == [0xf9] + Varint(n)
    ensures C.PutListHead(Set, n) == [0xfa] + Varint(n) && C.PutListHead(Map, n) == [0xfb] + Varint(n)
    ensures C.PutListHead(Struct, n) == [0xfc] + Varint(n)
  {
    hide Varint;
  }

  /** The header of a field whose id is at most 15 above the last one; a boolean's code is its value. */
  lemma CompactFieldHeads(last: int, d: int)
    requires 1 <= d <= 15
    ensures EncodeField(CPP_COMPACT, last, Field(last + d, VBool(true))) == [16 * d + 1]
    ensures EncodeField(CPP_COMPACT, last, Field(last + d, VBool(false))) == [16 * d + 2]
    ensures C.PutFieldHead(last, last + d, C.CType(Byte)) == [16 * d + 3]
    ensures C.PutFieldHead(last, last + d, C.CType(I16)) == [16 * d + 4]
    ensures C.PutFieldHead(last, last + d, C.CType(I32)) == [16 * d + 5]
    ensures C.PutFieldHead(last, last + d, C.CType(I64)) == [16 * d + 6]
    ensures C.PutFieldHead(last, last + d, C.CType(Double)) == [16 * d + 7]
    ensures C.PutFieldHead(last, last + d, C.CType(String)) == [16 * d + 8]
    ensures C.PutFieldHead(last, last + d, C.CType(List)) == [16 * d + 9]
    ensures C.PutFieldHead(last, last + d, C.CType(Set)) == [16 * d + 10]
    ensures C.PutFieldHead(last, last + d, C.CType(Map)) == [16 * d + 11]
    ensures C.PutFieldHead(last, last + d, C.CType(Struct)) == [16 * d + 12]
  {
    hide Varint, ToZigzagCpp;
  }

  lemma LongHead(last: int, id: int, code: nat)
    requires -32768 <= id < 32768 && !(1 <= id - last <= 15) && code <= 15
    ensures C.PutFieldHead(last, id, code) == [code] + Varint(if id >= 0 then 2 * id else -2 * id - 1)
  {
    hide Varint, C.PutI32;
    ZigzagBytes(id);
  }

  /** Any other id follows its type as a zigzag varint. */
  lemma CompactLongFieldHeads(last: int, id: int)
    requires -32768 <= id < 32768 && !(1 <= id - last <= 15)
    ensures var z := Varint(if id >= 0 then 2 * id else -2 * id - 1);
      && EncodeField(CPP_COMPACT, last, Field(id, VBool(true))) == [1] + z
      && EncodeField(CPP_COMPACT, last, Field(id, VBool(false))) == [2] + z
      && C.PutFieldHead(last, id, C.CType(Byte)) == [3] + z && C.PutFieldHead(last, id, C.CType(I16)) == [4] + z
      && C.PutFieldHead(last, id, C.CType(I32)) == [5] + z && C.PutFieldHead(last, id, C.CType(I64)) == [6] + z
      && C.PutFieldHead(last, id, C.CType(Double)) == [7] + z && C.PutFieldHead(last, id, C.CType(String)) == [8] + z
      && C.PutFieldHead(last, id, C.CType(List)) == [9] + z && C.PutFieldHead(last, id, C.CType(Set)) == [10] + z
      && C.PutFieldHead(last, id, C.CType(Map)) == [11] + z && C.PutFieldHead(last, id, C.CType(Struct)) == [12] + z
  {
    hide Varint, C.PutFieldHead, C.CType;
    CompactCodes();
    forall code: nat | code <= 12
      ensures C.PutFieldHead(last, id, code) == [code] + Varint(if id >= 0 then 2 * id else -2 * id - 1)
    {
      LongHead(last, id, code);
    }
  }

  /** A map header is its size, and one byte for both types; an empty map is a zero. */
  lemma CompactMapHeads(kt: TType, vt: TType, n: nat)
    ensures C.PutMapHead(kt, vt, 0) == [0]
    ensures n > 0 ==> C.PutMapHead(kt, vt, n) == Varint(n) + [16 * C.CType(kt) + C.CType(vt)]
  {
    hide Varint;
  }

  lemma EmptyStruct(p: Protocol)
    ensures Encode(p, VStruct([])) == [0]
  {
    assert EncodeFields(p, 0, []) == [];
  }

  /** Values in a container, and the end of a struct. */
  lemma CompactValues(p: Protocol, s: Bytes)
    requires p.CompactProtocol?
    ensures Encode(p, VBool(true)) == [1] && Encode(p, VBool(false)) == [2]
    ensures Encode(p, VString(s)) == Varint(|s|) + s
    ensures Encode(p, VStruct([])) == [0]
  {
    hide Varint, EncodeFields, EncodeEntries, EncodeAll;
    EmptyStruct(p);
  }

  // ----- the binary protocol

  lemma BinaryCodes()
    ensures Stop.Code() == 0 && Bool.Code() == 2 && Byte.Code() == 3 && Double.Code() == 4 && I16.Code() == 6
    ensures I32.Code() == 8 && I64.Code() == 10 && String.Code() == 11 && Struct.Code() == 12 && Map.Code() == 13
    ensures Set.Code() == 14 && List.Code() == 15
    ensures TypeOfCode(0) == Stop && TypeOfCode(1) == Other(1) && TypeOfCode(16) == Other(16)
  {
  }

  /** A field header is the type and the id in two bytes. */
  lemma BinaryFieldHeads(id: int)
    ensures var u := id % 65536;
      var i := [u / 256, u % 256];
      && B.PutFieldHead(Bool, id) == [2] + i && B.PutFieldHead(Byte, id) == [3] + i
      && B.PutFieldHead(Double, id) == [4] + i && B.PutFieldHead(I16, id) == [6] + i
      && B.PutFieldHead(I32, id) == [8] + i && B.PutFieldHead(I64, id) == [10] + i
      && B.PutFieldHead(String, id) == [11] + i && B.PutFieldHead(Struct, id) == [12] + i
      && B.PutFieldHead(Map, id) == [13] + i && B.PutFieldHead(Set, id) == [14] + i
      && B.PutFieldHead(List, id) == [15] + i
  {
    hide B.PutInt;
    IntBytes(id);
    OneByteCodes();
  }

  lemma OneByteCodes()
    ensures forall c: nat :: c < 128 ==> B.PutInt(c, 1) == [c]
  {
    hide B.PutInt;
    forall c: nat | c < 128
      ensures B.PutInt(c, 1) == [c]
    {
      IntBytes(c);
    }
  }

  /** A list header is the element type and the size in four bytes; a map header has both types in front. */
  lemma BinaryContainerHeads(n: nat)
    requires n < 4294967296
    ensures var s := [n / 16777216, n / 65536 % 256, n / 256 % 256, n % 256];
      && B.PutListHead(Bool, n) == [2] + s && B.PutListHead(Byte, n) == [3] + s
      && B.PutListHead(Double, n) == [4] + s && B.PutListHead(I16, n) == [6] + s
      && B.PutListHead(I32, n) == [8] + s && B.PutListHead(I64, n) == [10] + s
      && B.PutListHead(String, n) == [11] + s && B.PutListHead(Struct, n) == [12] + s
      && B.PutListHead(Map, n) == [13] + s && B.PutListHead(Set, n) == [14] + s && B.PutListHead(List, n) == [15] + s
    ensures forall kt: TType, vt: TType :: kt.OfValue() ==>
      B.PutMapHead(kt, vt, n) == [kt.Code()] + B.PutListHead(vt, n)
  {
    hide B.PutInt;
    SizeBytes(n);
    OneByteCodes();
  }

  /** Values over the binary protocol, and the end of a struct. */
  lemma BinaryValues(s: Bytes, bits: nat)
    requires |s| < 4294967296
    ensures Encode(BinaryProtocol, VBool(true)) == [1] && Encode(BinaryProtocol, VBool(false)) == [0]
    ensures Encode(BinaryProtocol, VString(s))
         == [|s| / 16777216, |s| / 65536 % 256, |s| / 256 % 256, |s| % 256] + s
    ensures Encode(BinaryProtocol, VStruct([])) == [0]
    ensures Encode(BinaryProtocol, VDouble(bits)) == BigEndian(bits, 8)
    ensures Encode(CPP_COMPACT, VDouble(bits)) == LittleEndian(bits, 8)
    ensures Encode(PY_COMPACT, VDouble(bits)) == BigEndian(bits, 8)
  {
    hide B.PutInt, BigEndian, LittleEndian;
    SizeBytes(|s|);
    EmptyStruct(BinaryProtocol);
  }

  // ----- messages and frames

  /** The first word of a strict header. */
  lemma VersionBytes(mtype: int)
    requires 0 <= mtype < 128
    ensures B.PutInt(Or(mtype, VERSION_1), 4) == [0x80, 0x01, 0x00, mtype]
  {
    hide B.PutInt, Or, And, ToSigned, FitsSigned, Pow2;
    VersionWord(mtype);
    VersionIs();
    IntBytes(VERSION_1 + mtype);
    Remainder(mtype);
  }

  lemma Remainder(mtype: int)
    requires 0 <= mtype < 128
    ensures (0x8001_0000 - 4294967296 + mtype) % 4294967296 == 0x8001_0000 + mtype
  {
  }

  /** A strict header: 0x80 0x01 0x00 and the type, the name behind its size, the sequence number. */
  lemma BinaryMessageBytes(m: Message)
    requires 0 <= m.mtype < 128 && |m.name| < 4294967296
    ensures var n, u := |m.name|, m.seqid % 4294967296;
      var size := [n / 16777216, n / 65536 % 256, n / 256 % 256, n % 256];
      var seqid := [u / 16777216, u / 65536 % 256, u / 256 % 256, u % 256];
      && PutBinaryCpp(true, m) == [0x80, 0x01, 0x00, m.mtype] + (size + m.name + seqid)
      && PutBinaryCpp(false, m) == size + m.name + ([m.mtype] + seqid)
  {
    hide B.PutInt, Or, ToSigned;
    VersionBytes(m.mtype);
    SizeBytes(|m.name|);
    IntBytes(m.seqid);
    OneByteCodes();
  }

  lemma VersionIs()
    ensures VERSION_1 == 0x8001_0000 - 4294967296 && PY_VERSION_1 == VERSION_1
  {
    Constants();
    Widths();
    Signed(0x8001_0000, 32);
    hide ToSigned, Pow2;
  }

  /** 0x82, version 1 with the type in the upper three bits, the sequence number, the name behind its size. */
  lemma CompactMessageBytes(m: Message)
    requires 0 <= m.mtype < 8 && |m.name| < 4294967296
    ensures PutCompactCpp(m)
         == [0x82, 1 + 32 * m.mtype] + (Varint(m.seqid % 4294967296) + (Varint(|m.name|) + m.name))
  {
    hide Varint, And, Or, Pow2;
    Widths();
    VersionByte(m.mtype);
  }

  /** A frame is its size in four bytes, and the message. */
  lemma FrameBytes(m: Bytes)
    requires |m| < 4294967296
    ensures var n := |m|;
      Framed(m) == [n / 16777216, n / 65536 % 256, n / 256 % 256, n % 256] + m
  {
    hide B.PutInt;
    SizeBytes(|m|);
  }

  /** The size that a frame announces, byte by byte. */
  lemma FrameSizeIs(head: Bytes)
    requires |head| == 4
    ensures var n := 16777216 * (head[0] as int) + 65536 * (head[1] as int) + 256 * (head[2] as int) + head[3] as int;
      FrameSize(head) == if head[0] < 128 then n else n - 4294967296
  {
    Widths();
    FourBytesValue(head);
    hide FromBigEndian, ToSigned, Pow2;
    Signed(FromBigEndian(head), 32);
  }

  lemma FourBytesValue(head: Bytes)
    requires |head| == 4
    ensures FromBigEndian(head)
         == 16777216 * (head[0] as int) + 65536 * (head[1] as int) + 256 * (head[2] as int) + head[3] as int
  {
    assert head[..3][..2] == head[..2] && head[..2][..1] == head[..1] && head[..1][..0] == [];
    assert FromBigEndian(head[..1]) == head[0];
    assert FromBigEndian(head[..2]) == 256 * FromBigEndian(head[..1]) + head[1];
    assert FromBigEndian(head[..3]) == 256 * FromBigEndian(head[..2]) + head[2];
    assert FromBigEndian(head) == 256 * FromBigEndian(head[..3]) + head[3];
  }
}
