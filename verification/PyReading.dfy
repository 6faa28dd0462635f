/**
 * What the Python compact reader takes off the wire. Its integers have no width to wrap at and its varints no longest
 * length.
 */
module PyReading {
  import opened Bytes
  import opened Bits
  import opened Wire
  import opened Varints
  import C = Compact

  // ----- variable-length integers

  function Shl(x: nat, k: nat): nat {
    assert x * Pow2(k) >= 0;
    x * Pow2(k)
  }

  /** The loop of `readVarint` after `got` bytes. */
  function VarintLoopPy(s: RState, got: nat, val: nat): (r: Read<nat>)
    ensures r.Ok? ==> Advanced(s, r.st)
    decreases |s.input|
  {
    var (b, s1) :- ReadUByte(s);
    var val' := Or(val, Shl(b % 128, 7 * got));
    if b < 128 then Ok(val', s1) else VarintLoopPy(s1, got + 1, val')
  }

  function ReadVarintPy(s: RState): (r: Read<nat>)
    ensures r.Ok? ==> Advanced(s, r.st)
  {
    VarintLoopPy(s, 0, 0)
  }

  lemma GroupAdds(b: byte, got: nat, val: nat)
    requires val < Pow128(got)
    ensures Or(val, Shl(b % 128, 7 * got)) == val + (b % 128) * Pow128(got) < Pow128(got + 1)
  {
    Pow2Is128(got);
    OrAbove(val, b % 128, 7 * got);
    GroupArithmetic(b, Pow128(got), val);
    hide Or, Pow2;
  }

  lemma LoopStep(s: RState, b: byte, s1: RState, got: nat, val: nat)
    requires ReadUByte(s) == Ok(b, s1) && val < Pow128(got)
    ensures var val' := val + (b % 128) * Pow128(got);
      0 <= val' < Pow128(got + 1)
      && VarintLoopPy(s, got, val) == if b < 128 then Ok(val', s1) else VarintLoopPy(s1, got + 1, val')
  {
    hide Or, Pow2, Pow128, Shl;
    GroupAdds(b, got, val);
  }

  lemma {:induction false} VarintLoopPyReads(s: RState, n: nat, got: nat, val: nat, rest: Bytes)
    requires s.input == Varint(n) + rest && val < Pow128(got)
    ensures VarintLoopPy(s, got, val) == Ok(val + n * Pow128(got), s.(input := rest))
    decreases n
  {
    hide *;
    var b, s1 := FirstByte(s, n, rest);
    LoopStep(s, b, s1, got, val);
    Groups(n, got, val);
    if n >= 128 {
      VarintLoopPyReads(s1, n / 128, got + 1, val + (n % 128) * Pow128(got), rest);
    } else {
      Distribute(n, 0, Pow128(got));
    }
  }

  lemma Groups(n: nat, got: nat, val: nat)
    requires val < Pow128(got)
    ensures val + n * Pow128(got) == (val + (n % 128) * Pow128(got)) + (n / 128) * Pow128(got + 1)
  {
    GroupArithmetic(n, Pow128(got), val);
  }

  /** Python reads back a number of any size. */
  lemma VarintPyRoundTrip(s: RState, n: nat, rest: Bytes)
    requires s.input == Varint(n) + rest
    ensures ReadVarintPy(s) == Ok(n, s.(input := rest))
  {
    hide VarintLoopPy, Varint;
    VarintLoopPyReads(s, n, 0, 0, rest);
    assert n * Pow128(0) == n;
  }

  lemma {:induction false} LoopsAgree(s: RState, got: nat, val: nat)
    requires got < 10 && val < Pow128(got) && VarintLoop(s, got, val).Ok?
    ensures var r, r' := VarintLoop(s, got, val), VarintLoopPy(s, got, val);
      r'.Ok? && r'.st == r.st && r.val == r'.val % TWO64
    decreases 10 - got
  {
    hide *;
    var b, s1 := NextByte(s, got, val);
    LoopStep(s, b, s1, got, val);
    if got < 9 {
      NarrowStep(s, b, s1, got, val);
      if b >= 128 {
        LoopsAgree(s1, got + 1, val + (b % 128) * Pow128(got));
      }
    } else {
      LastGroup(s, b, s1, val);
    }
  }

  lemma NextByte(s: RState, got: nat, val: nat) returns (b: byte, s1: RState)
    requires VarintLoop(s, got, val).Ok?
    ensures ReadUByte(s) == Ok(b, s1)
    ensures b >= 128 ==> got + 1 < 10
  {
    hide Or, Pow2;
    var r := ReadUByte(s);
    b, s1 := r.val, r.st;
  }

  /** The first nine groups fit into 64 bits. */
  lemma NarrowStep(s: RState, b: byte, s1: RState, got: nat, val: nat)
    requires ReadUByte(s) == Ok(b, s1) && got < 9 && val < Pow128(got)
    ensures var val' := val + (b % 128) * Pow128(got);
      0 <= val' && val' % TWO64 == val'
      && VarintLoop(s, got, val) == if b < 128 then Ok(val', s1) else VarintLoop(s1, got + 1, val')
  {
    hide Or, Pow2, Pow128, VarintLoop, Shl, ReadUByte;
    VarintLoopStep(s, b, s1, got, val);
    GroupAdds(b, got, val);
    Pow128Grows(got + 1, 9);
    Pow128Nine();
    Pow2Is128(got);
    Shifted(b % 128, got);
    Reduced(b % 128, Pow128(got), val);
  }

  lemma Shifted(x: nat, got: nat)
    ensures Shl(x, 7 * got) == x * Pow128(got)
  {
    Pow2Is128(got);
  }

  lemma Reduced(x: nat, p: nat, val: nat)
    requires val + x * p < TWO64
    ensures (x * p) % TWO64 == x * p && (val + x * p) % TWO64 == val + x * p && x * p >= 0
  {
    assert x * p >= 0;
    SmallMod(x * p);
    SmallMod(val + x * p);
  }

  /** The tenth group has one bit inside the 64. */
  lemma LastGroup(s: RState, b: byte, s1: RState, val: nat)
    requires ReadUByte(s) == Ok(b, s1) && val < Pow128(9) && VarintLoop(s, 9, val).Ok?
    ensures b < 128 && VarintLoop(s, 9, val) == Ok((val + (b % 128) * Pow128(9)) % TWO64, s1)
  {
    hide *;
    VarintLoopStep(s, b, s1, 9, val);
    Pow128Nine();
    Pow2Is128(9);
    OrAbove(val, b % 2, 63);
    OneBit(b, val);
  }

  lemma OneBit(b: nat, val: nat)
    requires val < 0x8000_0000_0000_0000
    ensures (b * 0x8000_0000_0000_0000) % TWO64 == (b % 2) * 0x8000_0000_0000_0000
    ensures (val + b * 0x8000_0000_0000_0000) % TWO64 == val + (b % 2) * 0x8000_0000_0000_0000
  {
    assert b == 2 * (b / 2) + b % 2;
  }

  lemma {:induction false} Pow128Grows(a: nat, b: nat)
    requires a <= b
    ensures Pow128(a) <= Pow128(b)
    decreases b
  {
    if a < b { Pow128Grows(a, b - 1); }
  }

  /** Wherever the C++ reader accepts a varint the Python reader stops at the same byte, with the same low 64 bits. */
  lemma VarintReadersAgree(s: RState)
    requires ReadVarint(s).Ok?
    ensures ReadVarintPy(s).Ok? && ReadVarintPy(s).st == ReadVarint(s).st
    ensures ReadVarint(s).val == ReadVarintPy(s).val % TWO64
  {
    LoopsAgree(s, 0, 0);
  }

  // ----- items

  function ReadZigzagPy(s: RState): (r: Read<int>)
    ensures r.Ok? ==> Advanced(s, r.st)
  {
    var (z, s1) :- ReadVarintPy(s);
    Ok(FromZigzagPy(z), s1)
  }

  function ReadStringPy(s: RState): (r: Read<Bytes>)
    ensures r.Ok? ==> Advanced(s, r.st)
  {
    var (n, s1) :- ReadVarintPy(s);
    ReadBytes(s1, n)
  }

  /** The field id is a sum that does not wrap. */
  function ReadFieldHeadPy(s: RState): (r: Read<(TType, int)>)
    ensures r.Ok? ==> |r.st.input| < |s.input|
    ensures r.Ok? && r.val.0.Bool? ==> r.st.pending.Some?
  {
    var (b, s1) :- ReadUByte(s);
    if b % 16 == 0 then Ok((Stop, 0), s1)
    else
      var (id, s2) :- if b / 16 == 0 then ReadZigzagPy(s1) else Ok(s.last + b / 16, s1);
      var (t, s3) :- C.GetTType(s2, b % 16);
      Ok((t, id),
         s3.(last := id,
             pending := if b % 16 == C.CT_TRUE then Some(true) else if b % 16 == C.CT_FALSE then Some(false)
                        else s.pending))
  }

  function ReadListHeadPy(s: RState): (r: Read<(TType, nat)>)
    ensures r.Ok? ==> Advanced(s, r.st)
  {
    var (b, s1) :- ReadUByte(s);
    var (t, s2) :- C.GetTType(s1, b % 16);
    var (n, s3) :- if b / 16 == 15 then ReadVarintPy(s2) else Ok(b / 16, s2);
    Ok((t, n), s3)
  }

  function ReadMapHeadPy(s: RState): (r: Read<(TType, TType, nat)>)
    ensures r.Ok? ==> Advanced(s, r.st)
  {
    var (n, s1) :- ReadVarintPy(s);
    var (types, s2) :- if n > 0 then ReadUByte(s1) else Ok(0, s1);
    var (vt, s3) :- C.GetTType(s2, types % 16);
    var (kt, s4) :- C.GetTType(s3, types / 16);
    Ok((kt, vt, n), s4)
  }

  // ----- reading inverts writing, item by item

  lemma ReadZigzagPyOf(s: RState, i: int, bits: nat, rest: Bytes)
    requires bits == 16 || bits == 32 || bits == 64
    requires FitsSigned(i, bits) && s.input == (if bits == 64 then C.PutI64(i) else C.PutI32(i)) + rest
    ensures ReadZigzagPy(s) == Ok(i, s.(input := rest))
  {
    hide ReadVarintPy, FromZigzagPy, ToZigzagCpp, Varint, Pow2;
    Widths();
    ZigzagCppIs(i, if bits == 64 then 64 else 32);
    VarintPyRoundTrip(s, Zigzag(i), rest);
    UnzigzagPyIs(Zigzag(i));
    UnzigzagZigzag(i);
  }

  lemma ReadStringPyOf(s: RState, v: Bytes, rest: Bytes)
    requires s.input == C.PutString(v) + rest
    ensures ReadStringPy(s) == Ok(v, s.(input := rest))
  {
    hide ReadVarintPy, Varint;
    ConcatAssociative(Varint(|v|), v, rest);
    VarintPyRoundTrip(s, |v|, v + rest);
    ReadBytesOf(s.(input := v + rest), v, rest);
  }

  lemma ReadFieldHeadPyOf(s: RState, t: TType, id: int, ctype: nat, rest: Bytes)
    requires FitsSigned(id, 16) && 1 <= ctype <= 12 && C.TypeOfCType(ctype) == Some(t)
    requires s.input == C.PutFieldHead(s.last, id, ctype) + rest
    ensures ReadFieldHeadPy(s) == Ok((t, id), s.(input := rest, last := id,
      pending := if ctype == C.CT_TRUE then Some(true) else if ctype == C.CT_FALSE then Some(false) else s.pending))
  {
    hide C.PutI32, ReadZigzagPy, FitsSigned, C.TypeOfCType;
    if s.last < id <= s.last + 15 {
      C.ReadUByteOf(s, (id - s.last) * 16 + ctype, rest);
    } else {
      ConcatAssociative([ctype], C.PutI32(id), rest);
      C.ReadUByteOf(s, ctype, C.PutI32(id) + rest);
      ReadZigzagPyOf(s.(input := C.PutI32(id) + rest), id, 16, rest);
    }
  }

  lemma ReadListHeadPyOf(s: RState, et: TType, n: nat, rest: Bytes)
    requires et.OfValue() && s.input == C.PutListHead(et, n) + rest
    ensures ReadListHeadPy(s) == Ok((et, n), s.(input := rest))
  {
    C.TypeOfItsCType(et);
    hide ReadVarintPy, Varint, C.TypeOfCType, C.CType;
    var c := C.CType(et);
    C.Nibbles(if n <= 14 then n else 15, c);
    if n <= 14 {
      C.ReadUByteOf(s, n * 16 + c, rest);
    } else {
      ConcatAssociative([0xf0 + c], Varint(n), rest);
      C.ReadUByteOf(s, 0xf0 + c, Varint(n) + rest);
      VarintPyRoundTrip(s.(input := Varint(n) + rest), n, rest);
    }
  }

  lemma ReadMapHeadPyOf(s: RState, kt: TType, vt: TType, n: nat, rest: Bytes)
    requires kt.OfValue() && vt.OfValue() && s.input == C.PutMapHead(kt, vt, n) + rest
    ensures ReadMapHeadPy(s) == Ok(if n == 0 then (Stop, Stop, 0) else (kt, vt, n), s.(input := rest))
  {
    if n == 0 {
      assert Varint(0) == [0];
      hide ReadVarintPy, Varint;
      VarintPyRoundTrip(s, 0, rest);
    } else {
      C.TypeOfItsCType(kt);
      C.TypeOfItsCType(vt);
      hide ReadVarintPy, Varint, C.TypeOfCType, C.CType, ReadUByte;
      var kv := C.CType(kt) * 16 + C.CType(vt);
      C.Nibbles(C.CType(kt), C.CType(vt));
      ConcatAssociative(Varint(n), [kv], rest);
      VarintPyRoundTrip(s, n, [kv] + rest);
      C.ReadUByteOf(s.(input := [kv] + rest), kv, rest);
    }
  }
}
