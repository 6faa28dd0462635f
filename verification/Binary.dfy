/**
 * What the binary protocol puts on the wire for each item, how its reader takes it off, and that one inverts the
 * other.
 */
module Binary {
  import opened Bytes
  import opened Bits
  import opened Wire

  // ----- writing

  /** An integer of k bytes in network order. */
  function PutInt(i: int, k: nat): (s: Bytes)
    ensures |s| == k
  {
    BigEndian(ToUnsigned(i, 8 * k), k)
  }

  function PutString(s: Bytes): Bytes {
    PutInt(|s|, 4) + s
  }

  function PutBool(b: bool): Bytes {
    if b then [1] else [0]
  }

  function PutFieldHead(t: TType, id: int): Bytes {
    PutInt(t.Code(), 1) + PutInt(id, 2)
  }

  function PutListHead(et: TType, n: nat): Bytes {
    PutInt(et.Code(), 1) + PutInt(n, 4)
  }

  function PutMapHead(kt: TType, vt: TType, n: nat): Bytes {
    PutInt(kt.Code(), 1) + (PutInt(vt.Code(), 1) + PutInt(n, 4))
  }

  // ----- reading

  function ReadInt(s: RState, k: nat): (r: Read<int>)
    requires k >= 1
    ensures r.Ok? ==> Advanced(s, r.st)
  {
    var (b, s1) :- ReadBytes(s, k);
    Ok(ToSigned(FromBigEndian(b), 8 * k), s1)
  }

  function ReadSize(s: RState): (r: Read<int>)
    ensures r.Ok? ==> Advanced(s, r.st)
  {
    ReadInt(s, 4)
  }

  function ReadType(s: RState): (r: Read<TType>)
    ensures r.Ok? ==> Advanced(s, r.st)
  {
    var (c, s1) :- ReadInt(s, 1);
    Ok(TypeOfCode(c), s1)
  }

  /** `readStringBody` */
  function ReadStringBody(s: RState, n: int): (r: Read<Bytes>)
    ensures r.Ok? ==> |r.st.input| <= |s.input| && r.st == s.(input := r.st.input)
  {
    if n < 0 then Fail(NegativeSize) else if n == 0 then Ok([], s) else ReadBytes(s, n)
  }

  function ReadString(s: RState): (r: Read<Bytes>)
    ensures r.Ok? ==> Advanced(s, r.st)
  {
    var (n, s1) :- ReadSize(s);
    ReadStringBody(s1, n)
  }

  function ReadBool(s: RState): (r: Read<bool>)
    ensures r.Ok? ==> Advanced(s, r.st)
  {
    var (b, s1) :- ReadUByte(s);
    Ok(b != 0, s1)
  }

  /** The end of a struct is a type byte without an id. */
  function ReadFieldHead(s: RState): (r: Read<(TType, int)>)
    ensures r.Ok? ==> Advanced(s, r.st)
  {
    var (t, s1) :- ReadType(s);
    if t.Stop? then Ok((Stop, 0), s1)
    else
      var (id, s2) :- ReadInt(s1, 2);
      Ok((t, id), s2)
  }

  function ReadListHead(s: RState): (r: Read<(TType, nat)>)
    ensures r.Ok? ==> Advanced(s, r.st)
  {
    var (t, s1) :- ReadType(s);
    var (n, s2) :- ReadSize(s1);
    if n < 0 then Fail(NegativeSize) else Ok((t, n), s2)
  }

  function ReadMapHead(s: RState): (r: Read<(TType, TType, nat)>)
    ensures r.Ok? ==> Advanced(s, r.st)
  {
    var (kt, s1) :- ReadType(s);
    var (vt, s2) :- ReadType(s1);
    var (n, s3) :- ReadSize(s2);
    if n < 0 then Fail(NegativeSize) else Ok((kt, vt, n), s3)
  }

  // ----- reading inverts writing, item by item

  lemma ReadIntOf(s: RState, i: int, k: nat, rest: Bytes)
    requires k >= 1 && FitsSigned(i, 8 * k) && s.input == PutInt(i, k) + rest
    ensures ReadInt(s, k) == Ok(i, s.(input := rest))
  {
    SignedOfUnsigned(i, 8 * k);
    hide ToSigned, ToUnsigned, Pow2, BigEndian, FromBigEndian;
    BigEndianRoundTrip(ToUnsigned(i, 8 * k), k);
    ReadBytesOf(s, PutInt(i, k), rest);
  }

  /** Casting to the unsigned type and back. */
  lemma SignedOfUnsigned(i: int, w: nat)
    requires w >= 1 && FitsSigned(i, w)
    ensures ToUnsigned(i, w) < Pow2(w) && ToSigned(ToUnsigned(i, w), w) == i
  {
    Unsigned(i, w);
    hide ToUnsigned;
    Signed(ToUnsigned(i, w), w);
  }

  lemma ReadTypeOf(s: RState, t: TType, rest: Bytes)
    requires t.OfValue() && s.input == PutInt(t.Code(), 1) + rest
    ensures ReadType(s) == Ok(t, s.(input := rest))
  {
    Widths();
    TypeOfItsCode(t);
    ReadIntOf(s, t.Code(), 1, rest);
    hide ReadInt, PutInt;
  }

  lemma ReadSizeOf(s: RState, n: nat, rest: Bytes)
    requires n < TWO31 && s.input == PutInt(n, 4) + rest
    ensures ReadSize(s) == Ok(n, s.(input := rest))
  {
    Widths();
    ReadIntOf(s, n, 4, rest);
    hide ReadInt, PutInt;
  }

  lemma ReadStringOf(s: RState, v: Bytes, rest: Bytes)
    requires |v| < TWO31 && s.input == PutString(v) + rest
    ensures ReadString(s) == Ok(v, s.(input := rest))
  {
    hide ReadSize, PutInt;
    ConcatAssociative(PutInt(|v|, 4), v, rest);
    ReadSizeOf(s, |v|, v + rest);
    ReadBytesOf(s.(input := v + rest), v, rest);
    EmptyConcat(rest);
  }

  lemma ReadFieldHeadOf(s: RState, t: TType, id: int, rest: Bytes)
    requires t.OfValue() && FitsSigned(id, 16) && s.input == PutFieldHead(t, id) + rest
    ensures ReadFieldHead(s) == Ok((t, id), s.(input := rest))
  {
    hide ReadInt, PutInt, ReadType;
    ConcatAssociative(PutInt(t.Code(), 1), PutInt(id, 2), rest);
    ReadTypeOf(s, t, PutInt(id, 2) + rest);
    ReadIntOf(s.(input := PutInt(id, 2) + rest), id, 2, rest);
  }

  lemma ReadListHeadOf(s: RState, et: TType, n: nat, rest: Bytes)
    requires et.OfValue() && n < TWO31 && s.input == PutListHead(et, n) + rest
    ensures ReadListHead(s) == Ok((et, n), s.(input := rest))
  {
    hide ReadSize, PutInt, ReadType;
    ConcatAssociative(PutInt(et.Code(), 1), PutInt(n, 4), rest);
    ReadTypeOf(s, et, PutInt(n, 4) + rest);
    ReadSizeOf(s.(input := PutInt(n, 4) + rest), n, rest);
  }

  lemma ReadMapHeadOf(s: RState, kt: TType, vt: TType, n: nat, rest: Bytes)
    requires kt.OfValue() && vt.OfValue() && n < TWO31 && s.input == PutMapHead(kt, vt, n) + rest
    ensures ReadMapHead(s) == Ok((kt, vt, n), s.(input := rest))
  {
    hide ReadSize, PutInt, ReadType;
    var b := PutInt(vt.Code(), 1) + PutInt(n, 4);
    ConcatAssociative(PutInt(kt.Code(), 1), b, rest);
    ConcatAssociative(PutInt(vt.Code(), 1), PutInt(n, 4), rest);
    ReadTypeOf(s, kt, b + rest);
    ReadTypeOf(s.(input := b + rest), vt, PutInt(n, 4) + rest);
    ReadSizeOf(s.(input := PutInt(n, 4) + rest), n, rest);
  }
}
