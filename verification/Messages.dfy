/** Message headers of both protocols, as the C++ server and the Python client write and read them. */
module Messages {
  import opened Bytes
  import opened Bits
  import opened Wire
  import opened Varints
  import C = Compact
  import B = Binary
  import opened PyReading

  datatype Message = Message(name: Bytes, mtype: int, seqid: int)

  /** Call, reply, exception and one-way. */
  predicate Proper(m: Message) {
    1 <= m.mtype <= 4 && FitsSigned(m.seqid, 32) && |m.name| < TWO31
  }

  // ----- the binary protocol in C++

  /** `VERSION_1`, an `int32_t` constant. */
  const VERSION_1: int := ToSigned(0x8001_0000, 32)

  function PutBinaryCpp(strictWrite: bool, m: Message): Bytes {
    if strictWrite then B.PutInt(Or(m.mtype, VERSION_1), 4) + (B.PutString(Narrowed(m.name)) + B.PutInt(m.seqid, 4))
    else B.PutString(Narrowed(m.name)) + (B.PutInt(m.mtype, 1) + B.PutInt(m.seqid, 4))
  }

  function ReadBinaryCpp(strictRead: bool, s: RState): Read<Message> {
    var (sz, s1) :- B.ReadInt(s, 4);
    if sz < 0 then
      if And(sz, ToSigned(0xffff_0000, 32)) != VERSION_1 then Fail(BadVersion)
      else
        var (name, s2) :- B.ReadString(s1);
        var (seqid, s3) :- B.ReadInt(s2, 4);
        Ok(Message(name, And(sz, 0xff), seqid), s3)
    else if strictRead then Fail(BadVersion)
    else
      var (name, s2) :- B.ReadStringBody(s1, sz);
      var (mtype, s3) :- B.ReadInt(s2, 1);
      var (seqid, s4) :- B.ReadInt(s3, 4);
      Ok(Message(name, mtype, seqid), s4)
  }

  // ----- the binary protocol in Python

  const PY_VERSION_1: int := -2147418112
  const PY_VERSION_MASK: int := -65536

  /** `pack` of a signed number in k bytes, most significant first. Numbers that do not fit are refused there. */
  function Pack(i: int, k: nat): Bytes {
    var u := if i >= 0 then i else i + Pow2(8 * k);
    BigEndian(if u >= 0 then u else 0, k)
  }

  function PutBinaryPy(strictWrite: bool, m: Message): Bytes
    requires FitsSigned(m.seqid, 32)
  {
    if strictWrite then Pack(Or(m.mtype, PY_VERSION_1), 4) + (Pack(|m.name|, 4) + m.name + Pack(m.seqid, 4))
    else Pack(|m.name|, 4) + m.name + (Pack(m.mtype, 1) + Pack(m.seqid, 4))
  }

  /** `readAll` of a negative size returns an empty string. */
  function ReadNamePy(s: RState, n: int): (r: Read<Bytes>)
    ensures r.Ok? ==> |r.st.input| <= |s.input| && r.st == s.(input := r.st.input)
  {
    if n <= 0 then Ok([], s) else ReadBytes(s, n)
  }

  function ReadBinaryPy(strictRead: bool, s: RState): Read<Message> {
    var (sz, s1) :- B.ReadInt(s, 4);
    if sz < 0 then
      if And(sz, PY_VERSION_MASK) != PY_VERSION_1 then Fail(BadVersion)
      else
        var (n, s2) :- B.ReadInt(s1, 4);
        var (name, s3) :- ReadNamePy(s2, n);
        var (seqid, s4) :- B.ReadInt(s3, 4);
        Ok(Message(name, And(sz, 0xff), seqid), s4)
    else if strictRead then Fail(BadVersion)
    else
      var (name, s2) :- ReadNamePy(s1, sz);
      var (mtype, s3) :- B.ReadInt(s2, 1);
      var (seqid, s4) :- B.ReadInt(s3, 4);
      Ok(Message(name, mtype, seqid), s4)
  }

  // ----- the same bytes

  lemma PackIs(i: int, k: nat)
    requires k >= 1 && FitsSigned(i, 8 * k)
    ensures Pack(i, k) == B.PutInt(i, k)
  {
    Unsigned(i, 8 * k);
    hide BigEndian, ToUnsigned;
  }

  lemma Constants()
    ensures VERSION_1 == PY_VERSION_1 && ToSigned(0xffff_0000, 32) == PY_VERSION_MASK == -Pow2(16)
  {
    Widths();
    Signed(0x8001_0000, 32);
    Signed(0xffff_0000, 32);
    hide ToSigned, Pow2;
  }

  /** The type or-ed under the version, and both taken apart again. */
  lemma VersionWord(mtype: int)
    requires 0 <= mtype < 256
    ensures Or(mtype, VERSION_1) == VERSION_1 + mtype < 0 && FitsSigned(VERSION_1 + mtype, 32)
    ensures And(VERSION_1 + mtype, ToSigned(0xffff_0000, 32)) == VERSION_1 && And(VERSION_1 + mtype, 0xff) == mtype
  {
    hide Or, And, Pow2, ToSigned;
    Constants();
    Widths();
    OrAboveAt(mtype, -32767, 16, 65536);
    AndMaskAt(VERSION_1 + mtype, 16, 65536);
    AndMaskAt(VERSION_1 + mtype, 8, 256);
  }

  lemma HeaderNumbersFit(m: Message)
    requires Proper(m)
    ensures FitsSigned(|m.name|, 32) && FitsSigned(m.mtype, 8) && FitsSigned(m.seqid, 32)
  {
    hide Pow2;
    Widths();
  }

  /** Both languages write the same header, strict or not. */
  lemma BinaryHeadersAgree(strictWrite: bool, m: Message)
    requires Proper(m)
    ensures PutBinaryPy(strictWrite, m) == PutBinaryCpp(strictWrite, m)
  {
    hide Or, And, Pack, B.PutInt, Pow2, ToSigned, FitsSigned;
    Widths();
    Constants();
    VersionWord(m.mtype);
    HeaderNumbersFit(m);
    PackIs(m.seqid, 4);
    PackIs(|m.name|, 4);
    PackIs(m.mtype, 1);
    PackIs(VERSION_1 + m.mtype, 4);
  }

  // ----- every reader reads every writer

  lemma ReadNamePyOf(s: RState, n: nat, name: Bytes, rest: Bytes)
    requires n == |name| && s.input == name + rest
    ensures ReadNamePy(s, n) == Ok(name, s.(input := rest)) && B.ReadStringBody(s, n) == Ok(name, s.(input := rest))
  {
    ReadBytesOf(s, name, rest);
    EmptyConcat(rest);
  }

  lemma Regroup5(a: Bytes, b: Bytes, c: Bytes, d: Bytes, e: Bytes)
    ensures (a + ((b + c) + d)) + e == a + (b + (c + (d + e)))
  {
    ConcatAssociative(a, (b + c) + d, e);
    ConcatAssociative(b + c, d, e);
    ConcatAssociative(b, c, d + e);
  }

  lemma ReadStrict(m: Message, s: RState, rest: Bytes)
    requires Proper(m) && s.input == PutBinaryCpp(true, m) + rest
    ensures forall strictRead :: ReadBinaryCpp(strictRead, s) == ReadBinaryPy(strictRead, s) == Ok(m, s.(input := rest))
  {
    hide Or, And, B.PutInt, B.ReadInt, Pow2, ToSigned, B.ReadStringBody, ReadNamePy;
    Widths();
    Constants();
    VersionWord(m.mtype);
    var word, size, seqid := B.PutInt(VERSION_1 + m.mtype, 4), B.PutInt(|m.name|, 4), B.PutInt(m.seqid, 4);
    Regroup5(word, size, m.name, seqid, rest);
    B.ReadIntOf(s, VERSION_1 + m.mtype, 4, size + (m.name + (seqid + rest)));
    B.ReadIntOf(s.(input := size + (m.name + (seqid + rest))), |m.name|, 4, m.name + (seqid + rest));
    ReadNamePyOf(s.(input := m.name + (seqid + rest)), |m.name|, m.name, seqid + rest);
    B.ReadIntOf(s.(input := seqid + rest), m.seqid, 4, rest);
  }

  lemma ReadOld(m: Message, s: RState, rest: Bytes)
    requires Proper(m) && s.input == PutBinaryCpp(false, m) + rest
    ensures ReadBinaryCpp(true, s) == ReadBinaryPy(true, s) == Fail(BadVersion)
    ensures ReadBinaryCpp(false, s) == ReadBinaryPy(false, s) == Ok(m, s.(input := rest))
  {
    hide Or, And, B.PutInt, B.ReadInt, Pow2, ToSigned, B.ReadStringBody, ReadNamePy;
    Widths();
    var size, mtype, seqid := B.PutInt(|m.name|, 4), B.PutInt(m.mtype, 1), B.PutInt(m.seqid, 4);
    ConcatAssociative(size + m.name, mtype + seqid, rest);
    ConcatAssociative(mtype, seqid, rest);
    ConcatAssociative(size, m.name, mtype + (seqid + rest));
    B.ReadIntOf(s, |m.name|, 4, m.name + (mtype + (seqid + rest)));
    ReadNamePyOf(s.(input := m.name + (mtype + (seqid + rest))), |m.name|, m.name, mtype + (seqid + rest));
    B.ReadIntOf(s.(input := mtype + (seqid + rest)), m.mtype, 1, seqid + rest);
    B.ReadIntOf(s.(input := seqid + rest), m.seqid, 4, rest);
  }

  /**
   * A header written by either language, strict or not, is read back by either language exactly, except that a
   * strict reader refuses an old one.
   */
  lemma BinaryHeaderRoundTrip(writerPy: bool, readerPy: bool, strictWrite: bool, strictRead: bool, m: Message,
                              s: RState, rest: Bytes)
    requires Proper(m)
    requires s.input == (if writerPy then PutBinaryPy(strictWrite, m) else PutBinaryCpp(strictWrite, m)) + rest
    ensures var r := if readerPy then ReadBinaryPy(strictRead, s) else ReadBinaryCpp(strictRead, s);
      r == if strictRead && !strictWrite then Fail(BadVersion) else Ok(m, s.(input := rest))
  {
    hide *;
    BinaryHeadersAgree(strictWrite, m);
    if strictWrite { ReadStrict(m, s, rest); } else { ReadOld(m, s, rest); }
  }

  // ----- the compact protocol

  const PROTOCOL_ID: byte := 0x82

  /** `(VERSION_N & VERSION_MASK) | ((type << TYPE_SHIFT_AMOUNT) & TYPE_MASK)` */
  function PutCompactCpp(m: Message): Bytes {
    [PROTOCOL_ID, Or(And(1, 0x1f), And(m.mtype * 32, 0xe0)) % 256]
    + (Varint(ToUnsigned(m.seqid, 32)) + C.PutString(Narrowed(m.name)))
  }

  /** The reader keeps two bits of the type. */
  function ReadCompactCpp(s: RState): Read<Message> {
    var (id, s1) :- ReadUByte(s);
    if id != PROTOCOL_ID then Fail(BadVersion)
    else
      var (vt, s2) :- ReadUByte(s1);
      if And(vt, 0x1f) != 1 then Fail(BadVersion)
      else
        var (seqid, s3) :- C.ReadSize(s2);
        var (name, s4) :- C.ReadString(s3);
        Ok(Message(name, And(Shr(ToSigned(vt, 8), 5), 3), seqid), s4)
  }

  /** `VERSION | (type << 5)`, and the sequence number as a varint, which has no end for a negative number. */
  function PutCompactPy(m: Message): Bytes
    requires 0 <= m.mtype < 8 && m.seqid >= 0
  {
    [PROTOCOL_ID, Or(1, m.mtype * 32) % 256] + (Varint(m.seqid) + C.PutString(m.name))
  }

  /** The sequence number is read as it stands, without a width. */
  function ReadCompactPy(s: RState): Read<Message> {
    var (id, s1) :- ReadUByte(s);
    if id != PROTOCOL_ID then Fail(BadVersion)
    else
      var (vt, s2) :- ReadUByte(s1);
      if And(vt, 0x1f) != 1 then Fail(BadVersion)
      else
        var (seqid, s3) :- ReadVarintPy(s2);
        var (name, s4) :- ReadStringPy(s3);
        Ok(Message(name, Shr(And(vt, 0xe0), 5), seqid), s4)
  }

  /** For a negative number the exit test of `writeVarint` fails at every turn. */
  lemma NegativeVarintNeverEnds(n: int, turns: nat)
    requires n < 0
    ensures Shr(n, 7 * turns) < 0 && And(Shr(n, 7 * turns), -128) != 0
  {
    var p, k := Pow2(7 * turns), Shr(n, 7 * turns);
    assert n == p * (n / p) + n % p;
    NegativeFactor(p, n / p);
    Widths();
    hide And, Pow2;
    AndMaskAt(k, 7, 128);
  }

  lemma NegativeFactor(p: int, q: int)
    requires p > 0 && p * q < 0
    ensures q < 0
  {
  }

  lemma SmallPowers()
    ensures Pow2(2) == 4 && Pow2(3) == 8 && Pow2(5) == 32
  {
    assert Pow2(2) == 4 && Pow2(5) == 8 * Pow2(2);
  }

  lemma VersionByte(mtype: int)
    requires 0 <= mtype < 8
    ensures Or(And(1, 0x1f), And(mtype * 32, 0xe0)) == Or(1, mtype * 32) == 1 + mtype * 32 < 256
    ensures And(1 + mtype * 32, 0x1f) == 1 && And(Shr(ToSigned(1 + mtype * 32, 8), 5), 3) == mtype % 4
    ensures And(1 + mtype * 32, 0xe0) == mtype * 32
  {
    hide And, Or, Pow2, ToSigned, Shr;
    SmallPowers();
    OrAboveAt(1, mtype, 5, 32);
    AndMaskAt(1, 5, 32);
    TypeBits(mtype, 0);
    TypeBits(mtype, 1);
    AndMaskAt(1 + mtype * 32, 5, 32);
    AndMaskAt(Shr(ToSigned(1 + mtype * 32, 8), 5), 2, 4);
    SignedShift(mtype);
  }

  /** The shift of the signed byte keeps the low bits of the type. */
  lemma SignedShift(mtype: int)
    requires 0 <= mtype < 8
    ensures Shr(ToSigned(1 + mtype * 32, 8), 5) % 4 == mtype % 4
  {
    hide Pow2, ToSigned;
    Widths();
    SmallPowers();
    Signed(1 + mtype * 32, 8);
  }

  /** `0xe0` keeps the three highest bits of a byte. */
  lemma TypeBits(mtype: int, low: nat)
    requires 0 <= mtype < 8 && low < 32
    ensures And(mtype * 32 + low, 0xe0) == mtype * 32
  {
    hide And, Pow2;
    SmallPowers();
    AndShifted(mtype * 32 + low, 7, 5, 32);
    AndMaskAt(mtype, 3, 8);
  }

  // ----- what the compact header loses

  lemma ReadCompactCppOf(m: Message, s: RState, rest: Bytes)
    requires 0 <= m.mtype < 8 && FitsSigned(m.seqid, 32) && |m.name| < TWO31
    requires s.input == PutCompactCpp(m) + rest
    ensures ReadCompactCpp(s) == Ok(m.(mtype := m.mtype % 4), s.(input := rest))
  {
    hide And, Or, Pow2, ToSigned, ToUnsigned, ReadVarint, C.ReadString, C.PutString, Varint, Shr;
    Widths();
    VersionByte(m.mtype);
    Unsigned(1 + m.mtype * 32, 8);
    Unsigned(m.seqid, 32);
    B.SignedOfUnsigned(m.seqid, 32);
    var seqid, name := Varint(ToUnsigned(m.seqid, 32)), C.PutString(m.name);
    var vt: byte := 1 + m.mtype * 32;
    HeadBytes(vt, seqid + name, s, rest);
    ConcatAssociative(seqid, name, rest);
    VarintRoundTrip(s.(input := seqid + (name + rest)), ToUnsigned(m.seqid, 32), name + rest);
    C.ReadStringOf(s.(input := name + rest), m.name, rest);
  }

  /** The two bytes at the front of a compact message. */
  lemma HeadBytes(vt: byte, body: Bytes, s: RState, rest: Bytes)
    requires s.input == [PROTOCOL_ID, vt] + body + rest
    ensures ReadUByte(s) == Ok(PROTOCOL_ID, s.(input := [vt] + (body + rest)))
    ensures ReadUByte(s.(input := [vt] + (body + rest))) == Ok(vt, s.(input := body + rest))
  {
    assert s.input == [PROTOCOL_ID] + ([vt] + (body + rest));
    assert s.input[1..] == [vt] + (body + rest);
    assert ([vt] + (body + rest))[1..] == body + rest;
  }

  /** The C++ reader gives back a header it wrote if and only if the type needs no third bit: one-way calls change. */
  lemma CompactHeaderExact(m: Message, s: RState, rest: Bytes)
    requires 0 <= m.mtype < 8 && FitsSigned(m.seqid, 32) && |m.name| < TWO31
    requires s.input == PutCompactCpp(m) + rest
    ensures ReadCompactCpp(s) == Ok(m, s.(input := rest)) <==> m.mtype < 4
  {
    hide ReadCompactCpp, PutCompactCpp, FitsSigned;
    ReadCompactCppOf(m, s, rest);
  }

  /** A one-way call without a name: the C++ reader takes the type for 0. */
  lemma OneWayIsLost(s: RState, rest: Bytes)
    requires s.input == PutCompactCpp(Message([], 4, 7)) + rest
    ensures ReadCompactCpp(s) == Ok(Message([], 0, 7), s.(input := rest))
  {
    hide ReadCompactCpp, PutCompactCpp, Pow2;
    Widths();
    ReadCompactCppOf(Message([], 4, 7), s, rest);
  }

  /** The sequence number -1, which the Python reader takes for a large number. */
  lemma NegativeSeqidIsLost(s: RState, rest: Bytes)
    requires s.input == PutCompactCpp(Message([], 1, -1)) + rest
    ensures ReadCompactPy(s) == Ok(Message([], 1, TWO32 - 1), s.(input := rest))
  {
    hide ReadCompactPy, PutCompactCpp, Pow2, ToUnsigned;
    Widths();
    Unsigned(-1, 32);
    ReadCompactPyOf(Message([], 1, -1), s, rest);
  }

  /**
   * For sequence numbers that are not negative both languages write the same compact header, unless C++ cuts the
   * name.
   */
  lemma CompactHeadersAgree(m: Message)
    requires 0 <= m.mtype < 8 && FitsSigned(m.seqid, 32) && m.seqid >= 0
    ensures |m.name| < TWO32 ==> PutCompactPy(m) == PutCompactCpp(m)
    ensures |m.name| >= TWO32 ==> |PutCompactPy(m)| > |PutCompactCpp(m)|
  {
    Widths();
    VersionByte(m.mtype);
    Unsigned(m.seqid, 32);
    hide And, Or, Pow2, ToUnsigned, C.PutString, Varint, Narrowed;
    if |m.name| >= TWO32 {
      CutIsShorter(m.name);
      var head := [PROTOCOL_ID, Or(1, m.mtype * 32) % 256];
      assert |PutCompactPy(m)| == |head| + (|Varint(m.seqid)| + |C.PutString(m.name)|);
      assert |PutCompactCpp(m)| == |head| + (|Varint(m.seqid)| + |C.PutString(Narrowed(m.name))|);
    }
  }

  lemma CutIsShorter(name: Bytes)
    requires |name| >= TWO32
    ensures |C.PutString(Narrowed(name))| < |C.PutString(name)|
  {
    VarintGrows(|Narrowed(name)|, |name|);
  }

  lemma VarintGrows(a: nat, b: nat)
    requires a <= b
    ensures |Varint(a)| <= |Varint(b)|
  {
    VarintIsShortest(b, |Varint(b)|);
    VarintIsShortest(a, |Varint(b)|);
  }

  lemma ReadCompactPyOf(m: Message, s: RState, rest: Bytes)
    requires 0 <= m.mtype < 8 && FitsSigned(m.seqid, 32) && |m.name| < TWO31
    requires s.input == PutCompactCpp(m) + rest
    ensures ReadCompactPy(s) == Ok(m.(seqid := ToUnsigned(m.seqid, 32)), s.(input := rest))
  {
    hide And, Or, Pow2, ToSigned, ToUnsigned, ReadVarintPy, ReadStringPy, C.PutString, Varint, Shr;
    Widths();
    VersionByte(m.mtype);
    Unsigned(1 + m.mtype * 32, 8);
    ShiftByFive(m.mtype);
    var seqid, name := Varint(ToUnsigned(m.seqid, 32)), C.PutString(m.name);
    var vt: byte := 1 + m.mtype * 32;
    HeadBytes(vt, seqid + name, s, rest);
    ConcatAssociative(seqid, name, rest);
    VarintPyRoundTrip(s.(input := seqid + (name + rest)), ToUnsigned(m.seqid, 32), name + rest);
    ReadStringPyOf(s.(input := name + rest), m.name, rest);
  }

  lemma ShiftByFive(mtype: int)
    ensures Shr(mtype * 32, 5) == mtype
  {
    SmallPowers();
  }

  /**
   * The Python reader gives back a header if and only if the sequence number is not negative. All eight types
   * survive.
   */
  lemma CompactHeaderExactPy(m: Message, s: RState, rest: Bytes)
    requires 0 <= m.mtype < 8 && FitsSigned(m.seqid, 32) && |m.name| < TWO31
    requires s.input == PutCompactCpp(m) + rest
    ensures ReadCompactPy(s) == Ok(m, s.(input := rest)) <==> m.seqid >= 0
  {
    hide ReadCompactPy, PutCompactCpp, ToUnsigned, Pow2;
    Widths();
    ReadCompactPyOf(m, s, rest);
    Unsigned(m.seqid, 32);
  }
}
