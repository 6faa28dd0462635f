/**
 * What the compact protocol puts on the wire for each item, how its C++ reader takes it off, and that one inverts the
 * other.
 */
module Compact {
  import opened Bytes
  import opened Bits
  import opened Wire
  import opened Varints

  const CT_TRUE: nat := 1
  const CT_FALSE: nat := 2

  /** The table `TTypeToCType`. */
  function CType(t: TType): (c: nat)
    ensures c <= 12
  {
    match t
    case Bool => 1 case Byte => 3 case I16 => 4 case I32 => 5 case I64 => 6 case Double => 7 case String => 8
    case List => 9 case Set => 10 case Map => 11 case Struct => 12
    case _ => 0
  }

  /** `getTType`; the codes 13 to 15 are unknown. */
  function TypeOfCType(c: nat): Option<TType> {
    match c
    case 0 => Some(Stop) case 1 => Some(Bool) case 2 => Some(Bool) case 3 => Some(Byte) case 4 => Some(I16)
    case 5 => Some(I32) case 6 => Some(I64) case 7 => Some(Double) case 8 => Some(String) case 9 => Some(List)
    case 10 => Some(Set) case 11 => Some(Map) case 12 => Some(Struct)
    case _ => None
  }

  function GetTType(s: RState, c: nat): (r: Read<TType>)
    ensures r.Ok? ==> r.st == s
  {
    match TypeOfCType(c)
    case None => Fail(UnknownType)
    case Some(t) => Ok(t, s)
  }

  lemma TypeOfItsCType(t: TType)
    requires t.OfValue()
    ensures TypeOfCType(CType(t)) == Some(t) && CType(t) != 0
  {
  }

  /** Every code of a value names a type, and only the two codes of a boolean share one. */
  lemma CodesOfTypes(c: nat)
    requires 1 <= c <= 12
    ensures TypeOfCType(c).Some? && TypeOfCType(c).value.OfValue()
    ensures CType(TypeOfCType(c).value) == if c == CT_FALSE then CT_TRUE else c
  {
  }

  // ----- writing

  function PutI32(i: int): Bytes {
    Varint(ToZigzagCpp(i, 32))
  }

  function PutI64(i: int): Bytes {
    Varint(ToZigzagCpp(i, 64))
  }

  function PutString(s: Bytes): Bytes {
    Varint(|s|) + s
  }

  function PutBool(b: bool): nat {
    if b then CT_TRUE else CT_FALSE
  }

  /** A field id up to 15 above the last one is a delta in the type byte; any other follows as a zigzag varint. */
  function PutFieldHead(last: int, id: int, ctype: nat): Bytes
    requires ctype <= 15
  {
    if last < id <= last + 15 then [(id - last) * 16 + ctype] else [ctype] + PutI32(id)
  }

  function PutListHead(et: TType, n: nat): Bytes {
    if n <= 14 then [n * 16 + CType(et)] else [0xf0 + CType(et)] + Varint(n)
  }

  /** An empty map is a single zero: its types are not written. */
  function PutMapHead(kt: TType, vt: TType, n: nat): Bytes {
    if n == 0 then [0] else Varint(n) + [CType(kt) * 16 + CType(vt)]
  }

  // ----- reading

  function ReadI32(s: RState): (r: Read<int>)
    ensures r.Ok? ==> Advanced(s, r.st)
  {
    var (v, s1) :- ReadVarint(s);
    Ok(FromZigzagCpp(ToUnsigned(v, 32), 32), s1)
  }

  function ReadI16(s: RState): (r: Read<int>)
    ensures r.Ok? ==> Advanced(s, r.st)
  {
    var (v, s1) :- ReadI32(s);
    Ok(ToSigned(v, 16), s1)
  }

  function ReadI64(s: RState): (r: Read<int>)
    ensures r.Ok? ==> Advanced(s, r.st)
  {
    var (v, s1) :- ReadVarint(s);
    Ok(FromZigzagCpp(v % TWO64, 64), s1)
  }

  /** A size is a varint narrowed to `int32_t`. */
  function ReadSize(s: RState): (r: Read<int>)
    ensures r.Ok? ==> Advanced(s, r.st)
  {
    var (v, s1) :- ReadVarint(s);
    Ok(ToSigned(v, 32), s1)
  }

  function ReadString(s: RState): (r: Read<Bytes>)
    ensures r.Ok? ==> Advanced(s, r.st)
  {
    var (n, s1) :- ReadSize(s);
    if n == 0 then Ok([], s1) else if n < 0 then Fail(NegativeSize) else ReadBytes(s1, n)
  }

  function ReadFieldHead(s: RState): (r: Read<(TType, int)>)
    ensures r.Ok? ==> |r.st.input| < |s.input| && r.st.stack == s.stack
    ensures r.Ok? && !r.val.0.Bool? ==> r.st.pending == s.pending
    ensures r.Ok? && r.val.0.Bool? ==> r.st.pending.Some?
    ensures r.Ok? && r.val.0.Stop? ==> r.st.last == s.last
  {
    var (b, s1) :- ReadUByte(s);
    if b % 16 == 0 then Ok((Stop, 0), s1)
    else
      var (id, s2) :- if b / 16 == 0 then ReadI16(s1) else Ok(ToSigned(s.last + b / 16, 16), s1);
      var (t, s3) :- GetTType(s2, b % 16);
      Ok((t, id),
         s3.(last := id,
             pending := if b % 16 == CT_TRUE then Some(true) else if b % 16 == CT_FALSE then Some(false)
                        else s.pending))
  }

  function ReadListHead(s: RState): (r: Read<(TType, nat)>)
    ensures r.Ok? ==> Advanced(s, r.st)
  {
    var (b, s1) :- ReadUByte(s);
    var (n, s2) :- if b / 16 == 15 then ReadSize(s1) else Ok(b / 16, s1);
    if n < 0 then Fail(NegativeSize)
    else
      var (t, s3) :- GetTType(s2, b % 16);
      Ok((t, n), s3)
  }

  function ReadMapHead(s: RState): (r: Read<(TType, TType, nat)>)
    ensures r.Ok? ==> Advanced(s, r.st)
  {
    var (n, s1) :- ReadSize(s);
    var (kv, s2) :- if n != 0 then ReadUByte(s1) else Ok(0, s1);
    if n < 0 then Fail(NegativeSize)
    else
      var (kt, s3) :- GetTType(s2, kv / 16);
      var (vt, s4) :- GetTType(s3, kv % 16);
      Ok((kt, vt, n), s4)
  }

  /** A boolean that came with its field header is taken from there, any other from a byte of its own. */
  function ReadBool(s: RState): (r: Read<bool>)
    ensures r.Ok? ==> |r.st.input| <= |s.input| && r.st == s.(input := r.st.input, pending := None)
  {
    if s.pending.Some? then Ok(s.pending.value, s.(pending := None))
    else
      var (b, s1) :- ReadUByte(s);
      Ok(b == CT_TRUE, s1)
  }

  // ----- reading inverts writing, item by item

  lemma ReadI32Of(s: RState, i: int, rest: Bytes)
    requires FitsSigned(i, 32) && s.input == PutI32(i) + rest
    ensures ReadI32(s) == Ok(i, s.(input := rest))
  {
    Widths();
    ZigzagCppIs(i, 32);
    hide ReadVarint, FromZigzagCpp, ToZigzagCpp, ToUnsigned, Varint, Pow2;
    var z := ToZigzagCpp(i, 32);
    VarintRoundTrip(s, z, rest);
    Unsigned(z, 32);
    ZigzagCppRoundTrip(i, 32);
  }

  lemma ReadI16Of(s: RState, i: int, rest: Bytes)
    requires FitsSigned(i, 16) && s.input == PutI32(i) + rest
    ensures ReadI16(s) == Ok(i, s.(input := rest))
  {
    Widths();
    ReadI32Of(s, i, rest);
    hide ReadI32, ToSigned, PutI32, Pow2;
    Signed(i, 16);
  }

  lemma ReadI64Of(s: RState, i: int, rest: Bytes)
    requires FitsSigned(i, 64) && s.input == PutI64(i) + rest
    ensures ReadI64(s) == Ok(i, s.(input := rest))
  {
    Widths();
    ZigzagCppIs(i, 64);
    hide ReadVarint, FromZigzagCpp, ToZigzagCpp, Varint, Pow2;
    var z := ToZigzagCpp(i, 64);
    VarintRoundTrip(s, z, rest);
    SmallMod(z);
    ZigzagCppRoundTrip(i, 64);
  }

  lemma ReadSizeOf(s: RState, n: nat, rest: Bytes)
    requires n < TWO31 && s.input == Varint(n) + rest
    ensures ReadSize(s) == Ok(n, s.(input := rest))
  {
    Widths();
    VarintRoundTrip(s, n, rest);
    hide ReadVarint, ToSigned, Varint;
    Signed(n, 32);
  }

  lemma ReadStringOf(s: RState, v: Bytes, rest: Bytes)
    requires |v| < TWO31 && s.input == PutString(v) + rest
    ensures ReadString(s) == Ok(v, s.(input := rest))
  {
    ConcatAssociative(Varint(|v|), v, rest);
    ReadSizeOf(s, |v|, v + rest);
    hide ReadSize, Varint;
    ReadBytesOf(s.(input := v + rest), v, rest);
    EmptyConcat(rest);
  }

  lemma ReadUByteOf(s: RState, b: byte, rest: Bytes)
    requires s.input == [b] + rest
    ensures ReadUByte(s) == Ok(b, s.(input := rest))
  {
    assert s.input[1..] == rest;
  }

  /** A field header gives back type and id, remembers the id, and keeps a boolean that it carries. */
  lemma ReadFieldHeadOf(s: RState, t: TType, id: int, ctype: nat, rest: Bytes)
    requires FitsSigned(id, 16) && 1 <= ctype <= 12 && TypeOfCType(ctype) == Some(t)
    requires s.input == PutFieldHead(s.last, id, ctype) + rest
    ensures ReadFieldHead(s) == Ok((t, id), s.(input := rest, last := id,
      pending := if ctype == CT_TRUE then Some(true) else if ctype == CT_FALSE then Some(false) else s.pending))
  {
    hide ToSigned, PutI32, ReadI16, Pow2, TypeOfCType;
    if s.last < id <= s.last + 15 {
      ReadUByteOf(s, (id - s.last) * 16 + ctype, rest);
      Signed(id, 16);
    } else {
      ConcatAssociative([ctype], PutI32(id), rest);
      ReadUByteOf(s, ctype, PutI32(id) + rest);
      ReadI16Of(s.(input := PutI32(id) + rest), id, rest);
    }
  }

  lemma Nibbles(high: nat, low: nat)
    requires high <= 15 && low <= 15
    ensures (high * 16 + low) / 16 == high && (high * 16 + low) % 16 == low
  {
  }

  lemma ReadListHeadOf(s: RState, et: TType, n: nat, rest: Bytes)
    requires et.OfValue() && n < TWO31 && s.input == PutListHead(et, n) + rest
    ensures ReadListHead(s) == Ok((et, n), s.(input := rest))
  {
    TypeOfItsCType(et);
    hide ReadSize, Varint, TypeOfCType, CType;
    var c := CType(et);
    Nibbles(if n <= 14 then n else 15, c);
    if n <= 14 {
      ReadUByteOf(s, n * 16 + c, rest);
    } else {
      ConcatAssociative([0xf0 + c], Varint(n), rest);
      ReadUByteOf(s, 0xf0 + c, Varint(n) + rest);
      ReadSizeOf(s.(input := Varint(n) + rest), n, rest);
    }
  }

  lemma ReadMapHeadOf(s: RState, kt: TType, vt: TType, n: nat, rest: Bytes)
    requires kt.OfValue() && vt.OfValue() && n < TWO31 && s.input == PutMapHead(kt, vt, n) + rest
    ensures ReadMapHead(s) == Ok(if n == 0 then (Stop, Stop, 0) else (kt, vt, n), s.(input := rest))
  {
    if n == 0 {
      EmptyMapHead(s, rest);
    } else {
      TypeOfItsCType(kt);
      TypeOfItsCType(vt);
      hide ReadSize, Varint, TypeOfCType, CType, ReadUByte;
      var kv := CType(kt) * 16 + CType(vt);
      Nibbles(CType(kt), CType(vt));
      ConcatAssociative(Varint(n), [kv], rest);
      ReadSizeOf(s, n, [kv] + rest);
      ReadUByteOf(s.(input := [kv] + rest), kv, rest);
    }
  }

  lemma EmptyMapHead(s: RState, rest: Bytes)
    requires s.input == [0] + rest
    ensures ReadMapHead(s) == Ok((Stop, Stop, 0), s.(input := rest))
  {
    assert Varint(0) == [0];
    ReadSizeOf(s, 0, rest);
    hide ReadSize, Varint;
  }
}
