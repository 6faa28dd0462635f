/** The Python binary protocol, the client's side of the wire format that the server speaks. */
module PyBinary {
  import opened Bytes
  import opened Bits
  import opened Wire
  import opened Protocols
  import opened TProtocols
  import B = Binary
  import M = Messages
  import RT = RoundTrip

  const BINARY: Protocol := BinaryProtocol

  class TBinaryProtocol {
    /** Bytes written so far, and bytes not yet read. */
    var out: Bytes
    var input: Bytes
    var strictRead: bool
    var strictWrite: bool

    constructor (input: Bytes, strictRead: bool, strictWrite: bool)
      ensures this.input == input && out == []
      ensures this.strictRead == strictRead && this.strictWrite == strictWrite
    {
      this.out, this.input, this.strictRead, this.strictWrite := [], input, strictRead, strictWrite;
    }

    function Reader(): RState
      reads this
    {
      RState(input, 0, [], None)
    }

    // ----- writing

    /** `writeByte` to `writeI64` differ in the width alone; `pack` refuses a number that does not fit. */
    method WriteInt(i: int, k: nat)
      requires k >= 1 && FitsSigned(i, 8 * k)
      modifies `out
      ensures out == old(out) + B.PutInt(i, k)
    {
      hide M.Pack, B.PutInt, FitsSigned;
      M.PackIs(i, k);
      out := out + M.Pack(i, k);
    }

    method WriteBool(b: bool)
      modifies `out
      ensures out == old(out) + B.PutBool(b)
    {
      hide B.PutInt;
      OneByte(if b then 1 else 0);
      WriteInt(if b then 1 else 0, 1);
    }

    method WriteDouble(bits: nat)
      modifies `out
      ensures out == old(out) + BigEndian(bits, 8)
    {
      out := out + BigEndian(bits, 8);
    }

    method WriteString(s: Bytes)
      requires |s| < TWO31
      modifies `out
      ensures out == old(out) + B.PutString(s)
    {
      hide B.PutInt;
      SizeFits(|s|);
      ConcatAssociative(out, B.PutInt(|s|, 4), s);
      WriteInt(|s|, 4);
      out := out + s;
    }

    method WriteFieldBegin(t: TType, id: int)
      requires t.OfValue() && FitsSigned(id, 16)
      modifies `out
      ensures out == old(out) + B.PutFieldHead(t, id)
    {
      hide B.PutInt, FitsSigned;
      CodeFits(t);
      ConcatAssociative(out, B.PutInt(t.Code(), 1), B.PutInt(id, 2));
      WriteInt(t.Code(), 1);
      WriteInt(id, 2);
    }

    method WriteFieldStop()
      modifies `out
      ensures out == old(out) + STOP
    {
      hide B.PutInt;
      OneByte(0);
      WriteInt(0, 1);
    }

    method WriteListBegin(et: TType, size: nat)
      requires et.OfValue() && size < TWO31
      modifies `out
      ensures out == old(out) + B.PutListHead(et, size)
    {
      hide B.PutInt, FitsSigned;
      CodeFits(et);
      SizeFits(size);
      ConcatAssociative(out, B.PutInt(et.Code(), 1), B.PutInt(size, 4));
      WriteInt(et.Code(), 1);
      WriteInt(size, 4);
    }

    method WriteMapBegin(kt: TType, vt: TType, size: nat)
      requires kt.OfValue() && vt.OfValue() && size < TWO31
      modifies `out
      ensures out == old(out) + B.PutMapHead(kt, vt, size)
    {
      hide B.PutInt, FitsSigned;
      CodeFits(kt);
      ConcatAssociative(out, B.PutInt(kt.Code(), 1), B.PutListHead(vt, size));
      WriteInt(kt.Code(), 1);
      WriteListBegin(vt, size);
    }

    method WriteMessageBegin(m: M.Message)
      requires M.Proper(m)
      modifies `out
      ensures out == old(out) + M.PutBinaryCpp(strictWrite, m)
    {
      hide B.PutInt, FitsSigned, Or, M.PutBinaryCpp;
      M.HeaderNumbersFit(m);
      HeaderForms(m);
      ghost var name, seqid := B.PutString(m.name), B.PutInt(m.seqid, 4);
      if strictWrite {
        ghost var version := B.PutInt(Or(m.mtype, M.PY_VERSION_1), 4);
        ConcatAssociative(out, version, name + seqid);
        ConcatAssociative(out + version, name, seqid);
        WriteInt(Or(m.mtype, M.PY_VERSION_1), 4);
        WriteString(m.name);
      } else {
        ConcatAssociative(out, name, B.PutInt(m.mtype, 1) + seqid);
        ConcatAssociative(out + name, B.PutInt(m.mtype, 1), seqid);
        WriteString(m.name);
        WriteInt(m.mtype, 1);
      }
      WriteInt(m.seqid, 4);
    }

    // ----- reading

    method ReadAll(n: nat) returns (r: Outcome<Bytes>)
      modifies `input
      ensures Agrees(r, Reader(), ReadBytes(old(Reader()), n))
    {
      if |input| < n {
        return Throws(EndOfFile);
      }
      r := Returns(input[..n]);
      input := input[n..];
    }

    method ReadInt(k: nat) returns (r: Outcome<int>)
      requires k >= 1
      modifies `input
      ensures Agrees(r, Reader(), B.ReadInt(old(Reader()), k))
    {
      hide ToSigned, FromBigEndian;
      var buff :- ReadAll(k);
      r := Returns(ToSigned(FromBigEndian(buff), 8 * k));
    }

    method ReadBool() returns (r: Outcome<bool>)
      modifies `input
      ensures match B.ReadInt(old(Reader()), 1)
        case Ok(i, s) => r == Returns(i != 0) && Reader() == s
        case Fail(e) => r == Throws(e)
    {
      hide B.ReadInt;
      var i :- ReadInt(1);
      r := Returns(i != 0);
    }

    method ReadDouble() returns (r: Outcome<nat>)
      modifies `input
      ensures Agrees(r, Reader(), Protocols.ReadDouble(BINARY, old(Reader())))
    {
      hide FromBigEndian;
      var buff :- ReadAll(8);
      r := Returns(FromBigEndian(buff));
    }

    /** Where the C++ reader refuses a negative size, `readAll` returns an empty string. */
    method ReadString() returns (r: Outcome<Bytes>)
      modifies `input
      ensures match B.ReadInt(old(Reader()), 4)
        case Ok(n, s) => Agrees(r, Reader(), M.ReadNamePy(s, n))
        case Fail(e) => r == Throws(e)
    {
      hide B.ReadInt;
      var n :- ReadInt(4);
      if n <= 0 {
        return Returns([]);
      }
      r := ReadAll(n);
    }

    method ReadType() returns (r: Outcome<TType>)
      modifies `input
      ensures Agrees(r, Reader(), B.ReadType(old(Reader())))
    {
      hide B.ReadInt, TypeOfCode;
      var c :- ReadInt(1);
      r := Returns(TypeOfCode(c));
    }

    method ReadFieldBegin() returns (r: Outcome<(TType, int)>)
      modifies `input
      ensures Agrees(r, Reader(), B.ReadFieldHead(old(Reader())))
    {
      hide B.ReadInt, B.ReadType;
      var t :- ReadType();
      if t.Stop? {
        return Returns((Stop, 0));
      }
      var id :- ReadInt(2);
      r := Returns((t, id));
    }

    /** A negative size is returned, and stands for no elements. */
    method ReadListBegin() returns (r: Outcome<(TType, int)>)
      modifies `input
      ensures Agrees(r, Reader(), ReadListHeadPy(old(Reader())))
    {
      hide B.ReadInt, B.ReadType;
      var et :- ReadType();
      var size :- ReadInt(4);
      r := Returns((et, size));
    }

    method ReadMapBegin() returns (r: Outcome<(TType, TType, int)>)
      modifies `input
      ensures Agrees(r, Reader(), ReadMapHeadPy(old(Reader())))
    {
      hide B.ReadInt, B.ReadType;
      var kt :- ReadType();
      var vt :- ReadType();
      var size :- ReadInt(4);
      r := Returns((kt, vt, size));
    }

    method ReadMessageBegin() returns (r: Outcome<M.Message>)
      modifies `input
      ensures Agrees(r, Reader(), M.ReadBinaryPy(strictRead, old(Reader())))
    {
      hide And, B.ReadInt;
      var sz :- ReadInt(4);
      var name, mtype;
      if sz < 0 {
        if And(sz, M.PY_VERSION_MASK) != M.PY_VERSION_1 {
          return Throws(BadVersion);
        }
        mtype := And(sz, 0xff);
        name :- ReadString();
      } else {
        if strictRead {
          return Throws(BadVersion);
        }
        name :- ReadAll(sz);
        mtype :- ReadInt(1);
      }
      var seqid :- ReadInt(4);
      r := Returns(M.Message(name, mtype, seqid));
    }
  }

  // ----- container headers, whatever the size

  function ReadListHeadPy(s: RState): (r: Read<(TType, int)>)
    ensures r.Ok? ==> Advanced(s, r.st)
  {
    var (t, s1) :- B.ReadType(s);
    var (n, s2) :- B.ReadInt(s1, 4);
    Ok((t, n), s2)
  }

  function ReadMapHeadPy(s: RState): (r: Read<(TType, TType, int)>)
    ensures r.Ok? ==> Advanced(s, r.st)
  {
    var (kt, s1) :- B.ReadType(s);
    var (vt, s2) :- B.ReadType(s1);
    var (n, s3) :- B.ReadInt(s2, 4);
    Ok((kt, vt, n), s3)
  }

  /** The C++ reader accepts a header if and only if the Python reader does and the size is not negative. */
  lemma HeadsAgree(s: RState)
    ensures B.ReadListHead(s).Ok? <==> ReadListHeadPy(s).Ok? && ReadListHeadPy(s).val.1 >= 0
    ensures B.ReadListHead(s).Ok? ==>
      ReadListHeadPy(s).val == B.ReadListHead(s).val && ReadListHeadPy(s).st == B.ReadListHead(s).st
    ensures B.ReadMapHead(s).Ok? <==> ReadMapHeadPy(s).Ok? && ReadMapHeadPy(s).val.2 >= 0
    ensures B.ReadMapHead(s).Ok? ==>
      ReadMapHeadPy(s).val == B.ReadMapHead(s).val && ReadMapHeadPy(s).st == B.ReadMapHead(s).st
  {
    hide B.ReadType, B.ReadInt;
  }

  lemma OneByte(b: byte)
    requires b < 128
    ensures B.PutInt(b, 1) == [b] && FitsSigned(b, 8)
  {
    Widths();
    Unsigned(b, 8);
    assert BigEndian(b, 1) == BigEndian(b / 256, 0) + [b % 256];
  }

  lemma SizeFits(n: nat)
    requires n < TWO31
    ensures FitsSigned(n, 32)
  {
    Widths();
  }

  lemma CodeFits(t: TType)
    requires t.OfValue()
    ensures FitsSigned(t.Code(), 8)
  {
    Widths();
  }

  lemma HeaderForms(m: M.Message)
    requires M.Proper(m)
    ensures Or(m.mtype, M.VERSION_1) == Or(m.mtype, M.PY_VERSION_1) && FitsSigned(Or(m.mtype, M.PY_VERSION_1), 32)
    ensures M.PutBinaryCpp(true, m)
         == B.PutInt(Or(m.mtype, M.PY_VERSION_1), 4) + (B.PutString(m.name) + B.PutInt(m.seqid, 4))
    ensures M.PutBinaryCpp(false, m) == B.PutString(m.name) + (B.PutInt(m.mtype, 1) + B.PutInt(m.seqid, 4))
  {
    hide Or, B.PutInt, ToSigned, FitsSigned;
    M.Constants();
    M.VersionWord(m.mtype);
  }

  // ----- what generated code writes

  /** Writing a typed value appends the bytes that the C++ code writes. */
  method WriteValue(oprot: TBinaryProtocol, v: Value)
    requires WellTyped(v)
    modifies oprot`out
    ensures oprot.out == old(oprot.out) + Encode(BINARY, v)
    decreases v, 2
  {
    hide FitsSigned, Pow2, B.PutInt, BigEndian, B.PutString;
    match v
    case VBool(b) => oprot.WriteBool(b);
    case VByte(i) => oprot.WriteInt(i, 1);
    case VI16(i) => oprot.WriteInt(i, 2);
    case VI32(i) => oprot.WriteInt(i, 4);
    case VI64(i) => oprot.WriteInt(i, 8);
    case VDouble(bits) => oprot.WriteDouble(bits);
    case VString(s) => oprot.WriteString(s);
    case VStruct(fields) => WriteStruct(oprot, v);
    case VMap(kt, vt, entries) => WriteMap(oprot, v);
    case VSet(et, elems) => WriteCollection(oprot, v);
    case VList(et, elems) => WriteCollection(oprot, v);
  }

  method WriteCollection(oprot: TBinaryProtocol, v: Value)
    requires (v.VSet? || v.VList?) && WellTyped(v)
    modifies oprot`out
    ensures oprot.out == old(oprot.out) + Encode(BINARY, v)
    decreases v, 1
  {
    hide WellTyped, Encode, B.PutListHead;
    RT.ListParts(BINARY, v);
    var et, elems := v.et, v.elems;
    ghost var before := oprot.out;
    oprot.WriteListBegin(et, |elems|);
    for i := 0 to |elems|
      invariant oprot.out + EncodeAll(BINARY, elems[i..])
             == before + B.PutListHead(et, |elems|) + EncodeAll(BINARY, elems)
    {
      assert elems[i..][1..] == elems[i + 1..];
      ConcatAssociative(oprot.out, Encode(BINARY, elems[i]), EncodeAll(BINARY, elems[i + 1..]));
      WriteValue(oprot, elems[i]);
    }
    ConcatAssociative(before, B.PutListHead(et, |elems|), EncodeAll(BINARY, elems));
  }

  method WriteMap(oprot: TBinaryProtocol, v: Value)
    requires v.VMap? && WellTyped(v)
    modifies oprot`out
    ensures oprot.out == old(oprot.out) + Encode(BINARY, v)
    decreases v, 1
  {
    hide WellTyped, Encode, B.PutMapHead, EncodeEntry;
    RT.MapParts(BINARY, v);
    var kt, vt, entries := v.kt, v.vt, v.entries;
    ghost var before := oprot.out;
    oprot.WriteMapBegin(kt, vt, |entries|);
    for i := 0 to |entries|
      invariant oprot.out + EncodeEntries(BINARY, entries[i..])
             == before + B.PutMapHead(kt, vt, |entries|) + EncodeEntries(BINARY, entries)
    {
      assert entries[i..][1..] == entries[i + 1..];
      ConcatAssociative(oprot.out, EncodeEntry(BINARY, entries[i]), EncodeEntries(BINARY, entries[i + 1..]));
      WriteEntry(oprot, entries[i]);
    }
    ConcatAssociative(before, B.PutMapHead(kt, vt, |entries|), EncodeEntries(BINARY, entries));
  }

  method WriteEntry(oprot: TBinaryProtocol, e: Entry)
    requires WellTyped(e.k) && WellTyped(e.v)
    modifies oprot`out
    ensures oprot.out == old(oprot.out) + EncodeEntry(BINARY, e)
    decreases e, 3
  {
    hide WellTyped, Encode;
    ConcatAssociative(oprot.out, Encode(BINARY, e.k), Encode(BINARY, e.v));
    WriteValue(oprot, e.k);
    WriteValue(oprot, e.v);
  }

  method WriteField(oprot: TBinaryProtocol, f: Field, ghost last: int)
    requires FitsSigned(f.id, 16) && WellTyped(f.val)
    modifies oprot`out
    ensures oprot.out == old(oprot.out) + EncodeField(BINARY, last, f)
    decreases f, 3
  {
    hide WellTyped, Encode, B.PutFieldHead, FitsSigned;
    var t := TypeOf(f.val);
    ConcatAssociative(oprot.out, B.PutFieldHead(t, f.id), Encode(BINARY, f.val));
    oprot.WriteFieldBegin(t, f.id);
    WriteValue(oprot, f.val);
  }

  method WriteStruct(oprot: TBinaryProtocol, v: Value)
    requires v.VStruct? && WellTyped(v)
    modifies oprot`out
    ensures oprot.out == old(oprot.out) + Encode(BINARY, v)
    decreases v, 1
  {
    hide WellTyped, Encode, EncodeField, FitsSigned;
    RT.StructParts(BINARY, v);
    var fields := v.fields;
    ghost var before, last := oprot.out, 0;
    for i := 0 to |fields|
      invariant oprot.out + EncodeFields(BINARY, last, fields[i..]) == before + EncodeFields(BINARY, 0, fields)
    {
      assert fields[i..][1..] == fields[i + 1..];
      ConcatAssociative(oprot.out, EncodeField(BINARY, last, fields[i]),
                        EncodeFields(BINARY, fields[i].id, fields[i + 1..]));
      WriteField(oprot, fields[i], last);
      last := fields[i].id;
    }
    ConcatAssociative(before, EncodeFields(BINARY, 0, fields), STOP);
    oprot.WriteFieldStop();
  }

  // ----- what generated code reads

  /** Reading what either language has written gives the value back and stops at its end. */
  method ReadValue(iprot: TBinaryProtocol, t: TType, ghost v: Value, ghost rest: Bytes) returns (r: Value)
    requires WellTyped(v) && t == TypeOf(v) && iprot.input == Encode(BINARY, v) + rest
    modifies iprot`input
    ensures r == v && iprot.input == rest
    decreases v, 2
  {
    if t.Struct? {
      r := ReadStruct(iprot, v, rest);
    } else if t.Map? {
      r := ReadMap(iprot, v, rest);
    } else if t.Set? || t.List? {
      r := ReadCollection(iprot, t, v, rest);
    } else {
      r := ReadScalar(iprot, t, v, rest);
    }
  }

  lemma BoolAhead(v: Value, s: RState, rest: Bytes)
    requires v.VBool? && s.input == Encode(BINARY, v) + rest
    ensures B.ReadInt(s, 1) == Ok(if v.b then 1 else 0, s.(input := rest))
  {
    var i := if v.b then 1 else 0;
    OneByte(i);
    hide B.ReadInt, B.PutInt, FitsSigned;
    B.ReadIntOf(s, i, 1, rest);
  }

  function Width(t: TType): (k: nat)
    ensures k >= 1
  {
    match t case Byte => 1 case I16 => 2 case I32 => 4 case _ => 8
  }

  lemma NumberAhead(v: Value, s: RState, rest: Bytes)
    requires (v.VByte? || v.VI16? || v.VI32? || v.VI64?) && WellTyped(v) && s.input == Encode(BINARY, v) + rest
    ensures B.ReadInt(s, Width(TypeOf(v))) == Ok(v.i, s.(input := rest))
  {
    hide B.ReadInt, B.PutInt, FitsSigned;
    B.ReadIntOf(s, v.i, Width(TypeOf(v)), rest);
  }

  lemma DoubleAhead(v: Value, s: RState, rest: Bytes)
    requires v.VDouble? && WellTyped(v) && s.input == Encode(BINARY, v) + rest
    ensures Protocols.ReadDouble(BINARY, s) == Ok(v.bits, s.(input := rest))
  {
    hide BigEndian, FromBigEndian, Pow2;
    ReadBytesOf(s, BigEndian(v.bits, 8), rest);
    BigEndianRoundTrip(v.bits, 8);
  }

  lemma StringAhead(v: Value, s: RState, rest: Bytes)
    requires v.VString? && WellTyped(v) && s.input == Encode(BINARY, v) + rest
    ensures B.ReadInt(s, 4) == Ok(|v.s|, s.(input := v.s + rest))
    ensures M.ReadNamePy(s.(input := v.s + rest), |v.s|) == Ok(v.s, s.(input := rest))
  {
    hide B.ReadInt, B.PutInt, FitsSigned, M.ReadNamePy;
    SizeFits(|v.s|);
    ConcatAssociative(B.PutInt(|v.s|, 4), v.s, rest);
    B.ReadIntOf(s, |v.s|, 4, v.s + rest);
    M.ReadNamePyOf(s.(input := v.s + rest), |v.s|, v.s, rest);
  }

  method ReadScalar(iprot: TBinaryProtocol, t: TType, ghost v: Value, ghost rest: Bytes) returns (r: Value)
    requires WellTyped(v) && t == TypeOf(v) && iprot.input == Encode(BINARY, v) + rest
    requires !t.Struct? && !t.Map? && !t.Set? && !t.List?
    modifies iprot`input
    ensures r == v && iprot.input == rest
  {
    hide Encode, WellTyped, B.ReadInt, Protocols.ReadDouble, M.ReadNamePy;
    if t.Bool? {
      BoolAhead(v, iprot.Reader(), rest);
      var b := iprot.ReadBool();
      r := VBool(b.val);
    } else if t.Double? {
      DoubleAhead(v, iprot.Reader(), rest);
      var d := iprot.ReadDouble();
      r := VDouble(d.val);
    } else if t.String? {
      StringAhead(v, iprot.Reader(), rest);
      var s := iprot.ReadString();
      r := VString(s.val);
    } else {
      NumberAhead(v, iprot.Reader(), rest);
      var i := iprot.ReadInt(Width(t));
      r := if t.Byte? then VByte(i.val) else if t.I16? then VI16(i.val) else if t.I32? then VI32(i.val)
           else VI64(i.val);
    }
  }

  lemma ListAhead(v: Value, s: RState, rest: Bytes)
    requires (v.VSet? || v.VList?) && WellTyped(v) && s.input == Encode(BINARY, v) + rest
    ensures ReadListHeadPy(s) == Ok((v.et, |v.elems|), s.(input := EncodeAll(BINARY, v.elems) + rest))
  {
    hide WellTyped, Encode, EncodeAll, B.PutListHead, B.ReadListHead, ReadListHeadPy;
    RT.ListParts(BINARY, v);
    ConcatAssociative(B.PutListHead(v.et, |v.elems|), EncodeAll(BINARY, v.elems), rest);
    B.ReadListHeadOf(s, v.et, |v.elems|, EncodeAll(BINARY, v.elems) + rest);
    HeadsAgree(s);
  }

  lemma MapAhead(v: Value, s: RState, rest: Bytes)
    requires v.VMap? && WellTyped(v) && s.input == Encode(BINARY, v) + rest
    ensures ReadMapHeadPy(s) == Ok((v.kt, v.vt, |v.entries|), s.(input := EncodeEntries(BINARY, v.entries) + rest))
  {
    hide WellTyped, Encode, EncodeEntries, B.PutMapHead, B.ReadMapHead, ReadMapHeadPy;
    RT.MapParts(BINARY, v);
    ConcatAssociative(B.PutMapHead(v.kt, v.vt, |v.entries|), EncodeEntries(BINARY, v.entries), rest);
    B.ReadMapHeadOf(s, v.kt, v.vt, |v.entries|, EncodeEntries(BINARY, v.entries) + rest);
    HeadsAgree(s);
  }

  method ReadCollection(iprot: TBinaryProtocol, t: TType, ghost v: Value, ghost rest: Bytes) returns (r: Value)
    requires WellTyped(v) && t == TypeOf(v) && (t.Set? || t.List?) && iprot.input == Encode(BINARY, v) + rest
    modifies iprot`input
    ensures r == v && iprot.input == rest
    decreases v, 1
  {
    hide WellTyped, Encode, EncodeAll, PutListHead, ReadListHeadPy, RT.Normal, RT.NormalAll;
    RT.ListParts(BINARY, v);
    ListAhead(v, iprot.Reader(), rest);
    ghost var elems := v.elems;
    var head := iprot.ReadListBegin();
    var et, size := head.val.0, head.val.1;
    var read: seq<Value> := [];
    for i := 0 to size
      invariant read == elems[..i] && iprot.input == EncodeAll(BINARY, elems[i..]) + rest
    {
      RT.NextElement(BINARY, elems[i..], rest);
      assert elems[i..][1..] == elems[i + 1..];
      var x := ReadValue(iprot, et, elems[i], EncodeAll(BINARY, elems[i + 1..]) + rest);
      read := read + [x];
    }
    RT.NextElement(BINARY, elems[size..], rest);
    r := if t.Set? then VSet(et, read) else VList(et, read);
  }

  method ReadMap(iprot: TBinaryProtocol, ghost v: Value, ghost rest: Bytes) returns (r: Value)
    requires WellTyped(v) && v.VMap? && iprot.input == Encode(BINARY, v) + rest
    modifies iprot`input
    ensures r == v && iprot.input == rest
    decreases v, 1
  {
    hide WellTyped, Encode, EncodeEntries, PutMapHead, ReadMapHeadPy, RT.Normal, RT.NormalEntries;
    RT.MapParts(BINARY, v);
    MapAhead(v, iprot.Reader(), rest);
    ghost var entries := v.entries;
    var head := iprot.ReadMapBegin();
    var kt, vt, size := head.val.0, head.val.1, head.val.2;
    var read: seq<Entry> := [];
    for i := 0 to size
      invariant read == entries[..i] && iprot.input == EncodeEntries(BINARY, entries[i..]) + rest
    {
      RT.NextEntry(BINARY, entries[i..], rest);
      assert entries[i..][1..] == entries[i + 1..];
      var e := ReadEntry(iprot, kt, vt, entries[i], EncodeEntries(BINARY, entries[i + 1..]) + rest);
      read := read + [e];
    }
    RT.NextEntry(BINARY, entries[size..], rest);
    r := VMap(kt, vt, read);
  }

  method ReadEntry(iprot: TBinaryProtocol, kt: TType, vt: TType, ghost e: Entry, ghost rest: Bytes)
    returns (r: Entry)
    requires WellTyped(e.k) && WellTyped(e.v) && kt == TypeOf(e.k) && vt == TypeOf(e.v)
    requires iprot.input == Encode(BINARY, e.k) + (Encode(BINARY, e.v) + rest)
    modifies iprot`input
    ensures r == e && iprot.input == rest
    decreases e, 3
  {
    hide WellTyped, Encode;
    var k := ReadValue(iprot, kt, e.k, Encode(BINARY, e.v) + rest);
    var v := ReadValue(iprot, vt, e.v, rest);
    r := Entry(k, v);
  }

  /** A field is next: its header, then its value; or the stop. */
  lemma FieldAhead(last: int, fs: seq<Field>, s: RState, rest: Bytes) returns (next: Bytes)
    requires s.input == EncodeFields(BINARY, last, fs) + (STOP + rest)
    requires forall f | f in fs :: FitsSigned(f.id, 16) && WellTyped(f.val)
    ensures fs == [] ==> B.ReadFieldHead(s) == Ok((Stop, 0), s.(input := rest))
    ensures fs != [] ==>
      && next == EncodeFields(BINARY, fs[0].id, fs[1..]) + (STOP + rest)
      && B.ReadFieldHead(s) == Ok((TypeOf(fs[0].val), fs[0].id), s.(input := Encode(BINARY, fs[0].val) + next))
  {
    hide WellTyped, Encode, FitsSigned, B.PutFieldHead, B.ReadFieldHead;
    RT.NextField(BINARY, last, fs, STOP + rest);
    next := [];
    if fs == [] {
      RT.ReadStopOf(BINARY, s, rest);
    } else {
      var f := fs[0];
      next := EncodeFields(BINARY, f.id, fs[1..]) + (STOP + rest);
      ConcatAssociative(B.PutFieldHead(TypeOf(f.val), f.id), Encode(BINARY, f.val), next);
      B.ReadFieldHeadOf(s, TypeOf(f.val), f.id, Encode(BINARY, f.val) + next);
    }
  }

  /** The value behind a field header. */
  method ReadField(iprot: TBinaryProtocol, t: TType, ghost f: Field, ghost rest: Bytes) returns (r: Value)
    requires WellTyped(f.val) && t == TypeOf(f.val) && iprot.input == Encode(BINARY, f.val) + rest
    modifies iprot`input
    ensures r == f.val && iprot.input == rest
    decreases f, 3
  {
    hide WellTyped, Encode;
    r := ReadValue(iprot, t, f.val, rest);
  }

  method ReadStruct(iprot: TBinaryProtocol, ghost v: Value, ghost rest: Bytes) returns (r: Value)
    requires WellTyped(v) && v.VStruct? && iprot.input == Encode(BINARY, v) + rest
    modifies iprot`input
    ensures r == v && iprot.input == rest
    decreases v, 1
  {
    hide WellTyped, Encode, EncodeFields, FitsSigned, B.ReadFieldHead;
    RT.StructParts(BINARY, v);
    ghost var fields, i, last := v.fields, 0, 0;
    ConcatAssociative(EncodeFields(BINARY, 0, fields), STOP, rest);
    var read: seq<Field> := [];
    while true
      invariant i <= |fields| && read == fields[..i]
      invariant iprot.input == EncodeFields(BINARY, last, fields[i..]) + (STOP + rest)
      decreases |fields| - i
    {
      ghost var next := FieldAhead(last, fields[i..], iprot.Reader(), rest);
      assert i < |fields| ==> fields[i..][1..] == fields[i + 1..];
      var head := iprot.ReadFieldBegin();
      if head.val.0.Stop? {
        break;
      }
      var x := ReadField(iprot, head.val.0, fields[i], next);
      read := read + [Field(head.val.1, x)];
      last, i := fields[i].id, i + 1;
    }
    r := VStruct(read);
  }

  // ----- between the languages

  /** A message that either side has written, strict or not; a strict reader refuses an old header. */
  method ReadMessage(iprot: TBinaryProtocol, ghost strictWrite: bool, ghost m: M.Message, ghost body: Value,
                     ghost rest: Bytes) returns (r: Outcome<(M.Message, Value)>)
    requires M.Proper(m) && body.VStruct? && WellTyped(body)
    requires iprot.input == M.PutBinaryCpp(strictWrite, m) + (Encode(BINARY, body) + rest)
    modifies iprot`input
    ensures r == if iprot.strictRead && !strictWrite then Throws(BadVersion) else Returns((m, body))
    ensures r.Returns? ==> iprot.input == rest
  {
    hide Encode, WellTyped, M.Proper, M.PutBinaryCpp, M.ReadBinaryPy, M.PutBinaryPy;
    M.BinaryHeaderRoundTrip(false, true, strictWrite, iprot.strictRead, m, iprot.Reader(), Encode(BINARY, body) + rest);
    var head :- iprot.ReadMessageBegin();
    var v := ReadStruct(iprot, body, rest);
    r := Returns((head, v));
  }

  // ----- skip

  /** Wherever the C++ side skips, so does Python, to the same place. */
  ghost predicate SkippedAs(r: Outcome<()>, left: Bytes, spec: Read<()>) {
    spec.Ok? ==> r.Returns? && left == spec.st.input
  }

  lemma ByteTaken(s: RState)
    ensures B.ReadInt(s, 1).Ok? <==> Wire.ReadUByte(s).Ok?
    ensures B.ReadInt(s, 1).Ok? ==> B.ReadInt(s, 1).st == Wire.ReadUByte(s).st
  {
    hide ToSigned, FromBigEndian;
  }

  lemma StringTaken(s: RState)
    ensures B.ReadString(s).Ok? <==>
      B.ReadInt(s, 4).Ok? && B.ReadInt(s, 4).val >= 0 && M.ReadNamePy(B.ReadInt(s, 4).st, B.ReadInt(s, 4).val).Ok?
    ensures B.ReadString(s).Ok? ==>
      M.ReadNamePy(B.ReadInt(s, 4).st, B.ReadInt(s, 4).val).st == B.ReadString(s).st
  {
    hide B.ReadInt;
  }

  /**
   * `skip` on every byte string: it terminates, and wherever the C++ side accepts what it skips, it stops at the same
   * place; so behind every encoded value.
   */
  method SkipValue(iprot: TBinaryProtocol, t: TType) returns (r: Outcome<()>)
    modifies iprot`input
    ensures SkippedAs(r, iprot.input, Protocols.Skip(BINARY, t, old(iprot.Reader())))
    ensures r.Returns? ==> |iprot.input| <= |old(iprot.input)|
    decreases |iprot.input|, 1
  {
    hide Protocols.Skip;
    match t
    case Struct => r := SkipStruct(iprot);
    case Map => r := SkipMap(iprot);
    case Set => r := SkipCollection(iprot, t);
    case List => r := SkipCollection(iprot, t);
    case _ => r := SkipScalar(iprot, t);
  }

  method SkipScalar(iprot: TBinaryProtocol, t: TType) returns (r: Outcome<()>)
    requires !t.Struct? && !t.Map? && !t.Set? && !t.List?
    modifies iprot`input
    ensures SkippedAs(r, iprot.input, Protocols.Skip(BINARY, t, old(iprot.Reader())))
    ensures r.Returns? ==> |iprot.input| <= |old(iprot.input)|
  {
    hide B.ReadInt, B.ReadString, M.ReadNamePy, Protocols.ReadDouble;
    match t {
      case Bool =>
        ByteTaken(iprot.Reader());
        var _ :- iprot.ReadBool();
      case Byte =>
        var _ :- iprot.ReadInt(1);
      case I16 =>
        var _ :- iprot.ReadInt(2);
      case I32 =>
        var _ :- iprot.ReadInt(4);
      case I64 =>
        var _ :- iprot.ReadInt(8);
      case Double =>
        var _ :- iprot.ReadDouble();
      case String =>
        StringTaken(iprot.Reader());
        var _ :- iprot.ReadString();
      case _ =>
    }
    return Returns(());
  }

  lemma StructSpec(s: RState)
    ensures Protocols.Skip(BINARY, Struct, s).Ok? ==>
      SkipFields(BINARY, s).Ok? && SkipFields(BINARY, s).st == Protocols.Skip(BINARY, Struct, s).st
  {
    hide SkipFields;
  }

  method SkipStruct(iprot: TBinaryProtocol) returns (r: Outcome<()>)
    modifies iprot`input
    ensures SkippedAs(r, iprot.input, Protocols.Skip(BINARY, Struct, old(iprot.Reader())))
    ensures r.Returns? ==> |iprot.input| <= |old(iprot.input)|
    decreases |iprot.input|, 0
  {
    hide B.ReadFieldHead, Protocols.Skip;
    ghost var start := iprot.Reader();
    StructSpec(start);
    while true
      invariant |iprot.input| <= |start.input|
      invariant SkipFields(BINARY, start).Ok? ==> SkipFields(BINARY, iprot.Reader()) == SkipFields(BINARY, start)
      decreases |iprot.input|
    {
      var head :- iprot.ReadFieldBegin();
      if head.0.Stop? {
        break;
      }
      var _ :- SkipValue(iprot, head.0);
    }
    return Returns(());
  }

  lemma CollectionSpec(t: TType, s: RState)
    requires t.Set? || t.List?
    ensures Protocols.Skip(BINARY, t, s).Ok? ==>
      && ReadListHeadPy(s).Ok? && ReadListHeadPy(s).val.1 >= 0
      && SkipAll(BINARY, ReadListHeadPy(s).val.0, ReadListHeadPy(s).val.1, ReadListHeadPy(s).st)
         == Protocols.Skip(BINARY, t, s)
  {
    hide SkipAll, B.ReadListHead, ReadListHeadPy;
    HeadsAgree(s);
  }

  method SkipCollection(iprot: TBinaryProtocol, t: TType) returns (r: Outcome<()>)
    requires t.Set? || t.List?
    modifies iprot`input
    ensures SkippedAs(r, iprot.input, Protocols.Skip(BINARY, t, old(iprot.Reader())))
    ensures r.Returns? ==> |iprot.input| <= |old(iprot.input)|
    decreases |iprot.input|, 0
  {
    hide ReadListHeadPy, Protocols.Skip;
    CollectionSpec(t, iprot.Reader());
    var head :- iprot.ReadListBegin();
    var size := if head.1 < 0 then 0 else head.1;
    ghost var start := iprot.Reader();
    for i := 0 to size
      invariant |iprot.input| <= |start.input|
      invariant SkipAll(BINARY, head.0, size, start).Ok? ==>
        SkipAll(BINARY, head.0, size - i, iprot.Reader()) == SkipAll(BINARY, head.0, size, start)
    {
      var _ :- SkipValue(iprot, head.0);
    }
    return Returns(());
  }

  lemma MapSpec(s: RState)
    ensures Protocols.Skip(BINARY, Map, s).Ok? ==>
      && ReadMapHeadPy(s).Ok? && ReadMapHeadPy(s).val.2 >= 0
      && var h := ReadMapHeadPy(s).val;
         SkipEntries(BINARY, h.0, h.1, h.2, ReadMapHeadPy(s).st) == Protocols.Skip(BINARY, Map, s)
  {
    hide SkipEntries, B.ReadMapHead, ReadMapHeadPy;
    HeadsAgree(s);
  }

  method SkipMap(iprot: TBinaryProtocol) returns (r: Outcome<()>)
    modifies iprot`input
    ensures SkippedAs(r, iprot.input, Protocols.Skip(BINARY, Map, old(iprot.Reader())))
    ensures r.Returns? ==> |iprot.input| <= |old(iprot.input)|
    decreases |iprot.input|, 0
  {
    hide ReadMapHeadPy, Protocols.Skip;
    MapSpec(iprot.Reader());
    var head :- iprot.ReadMapBegin();
    var size := if head.2 < 0 then 0 else head.2;
    ghost var start := iprot.Reader();
    for i := 0 to size
      invariant |iprot.input| <= |start.input|
      invariant SkipEntries(BINARY, head.0, head.1, size, start).Ok? ==>
        SkipEntries(BINARY, head.0, head.1, size - i, iprot.Reader())
        == SkipEntries(BINARY, head.0, head.1, size, start)
    {
      var _ :- SkipValue(iprot, head.0);
      var _ :- SkipValue(iprot, head.1);
    }
    return Returns(());
  }

  /** Skipping what either side has written of a value stops exactly at its end. */
  method SkipWritten(iprot: TBinaryProtocol, ghost v: Value, ghost rest: Bytes, t: TType) returns (r: Outcome<()>)
    requires WellTyped(v) && t == TypeOf(v) && iprot.input == Encode(BINARY, v) + rest
    modifies iprot`input
    ensures r.Returns? && iprot.input == rest
  {
    hide Encode, WellTyped, Protocols.Skip;
    RT.SkipIsExact(BINARY, v, iprot.Reader(), rest);
    r := SkipValue(iprot, t);
  }
}
