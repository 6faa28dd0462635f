/**
 * The Python compact protocol: an explicit machine of nine states with two stacks. Its assertions are the
 * preconditions of the methods here, so the callers below show that generated code never trips one.
 */
module PyCompact {
  import opened Bytes
  import opened Bits
  import opened Wire
  import opened Varints
  import opened Protocols
  import RT = RoundTrip
  import opened DoubleOrder
  import C = Compact
  import M = Messages
  import opened TProtocols
  import opened PyReading

  datatype State = Clear | FieldWrite | ValueWrite | ContainerWrite | BoolWrite
                 | FieldRead | ContainerRead | ValueRead | BoolRead

  /** Python's zigzag varint of any width is the one the C++ code writes. */
  lemma ZigzagSame(i: int, bits: nat)
    requires bits == 16 || bits == 32 || bits == 64
    requires FitsSigned(i, bits)
    ensures ToZigzagPy(i, bits) >= 0
    ensures bits < 64 ==> Varint(ToZigzagPy(i, bits)) == C.PutI32(i)
    ensures bits == 64 ==> Varint(ToZigzagPy(i, bits)) == C.PutI64(i)
  {
    hide ToZigzagPy, ToZigzagCpp, Varint, Pow2;
    Widths();
    ZigzagPyIs(i, bits);
    ZigzagCppIs(i, if bits == 64 then 64 else 32);
  }

  class TCompactProtocol {
    /** Bytes written so far, and bytes not yet read. */
    var out: Bytes
    var input: Bytes
    var state: State
    var lastFid: int
    var boolFid: int
    var boolValue: Option<bool>
    var structs: seq<(State, int)>
    var containers: seq<State>

    constructor (input: Bytes)
      ensures this.input == input && out == []
      ensures state == Clear && lastFid == 0 && structs == [] && containers == []
    {
      this.input := input;
      out, state, lastFid, boolFid, boolValue, structs, containers := [], Clear, 0, 0, None, [], [];
    }

    /** What the reading functions look at. */
    function Reader(): RState
      reads this
    {
      RState(input, lastFid, [], boolValue)
    }

    method WriteVarintOf(n: nat)
      modifies `out
      ensures out == old(out) + Varint(n)
    {
      var buf := WriteVarint(n);
      out := out + buf;
    }

    method WriteUByte(b: byte)
      modifies `out
      ensures out == old(out) + [b]
    {
      out := out + [b];
    }

    method WriteStructBegin()
      requires state in {Clear, ContainerWrite, ValueWrite}
      modifies `state, `lastFid, `structs
      ensures state == FieldWrite && lastFid == 0 && structs == old(structs) + [(old(state), old(lastFid))]
    {
      structs := structs + [(state, lastFid)];
      state := FieldWrite;
      lastFid := 0;
    }

    method WriteStructEnd(ghost below: seq<(State, int)>, ghost outer: (State, int))
      requires state == FieldWrite && structs == below + [outer]
      modifies `state, `lastFid, `structs
      ensures (state, lastFid) == outer && structs == below
    {
      var top := structs[|structs| - 1];
      state, lastFid := top.0, top.1;
      structs := structs[..|structs| - 1];
    }

    method WriteFieldStop()
      modifies `out
      ensures out == old(out) + STOP
    {
      WriteUByte(0);
    }

    method WriteFieldHeader(ctype: nat, fid: int)
      requires ctype <= 15 && FitsSigned(fid, 16)
      modifies `out, `lastFid
      ensures out == old(out) + C.PutFieldHead(old(lastFid), fid, ctype) && lastFid == fid
    {
      hide FitsSigned, Varint, C.PutI32, ToZigzagPy;
      var delta := fid - lastFid;
      if 0 < delta <= 15 {
        WriteUByte(delta * 16 + ctype);
      } else {
        ZigzagSame(fid, 16);
        ConcatAssociative(out, [ctype], C.PutI32(fid));
        WriteUByte(ctype);
        WriteVarintOf(ToZigzagPy(fid, 16));
      }
      lastFid := fid;
    }

    method WriteFieldBegin(t: TType, fid: int)
      requires state == FieldWrite && FitsSigned(fid, 16)
      modifies `out, `state, `lastFid, `boolFid
      ensures t.Bool? ==> state == BoolWrite && boolFid == fid && out == old(out) && lastFid == old(lastFid)
      ensures !t.Bool? ==>
        state == ValueWrite && out == old(out) + C.PutFieldHead(old(lastFid), fid, C.CType(t)) && lastFid == fid
    {
      if t.Bool? {
        state := BoolWrite;
        boolFid := fid;
      } else {
        state := ValueWrite;
        WriteFieldHeader(C.CType(t), fid);
      }
    }

    method WriteFieldEnd()
      requires state in {ValueWrite, BoolWrite}
      modifies `state
      ensures state == FieldWrite
    {
      state := FieldWrite;
    }

    method WriteCollectionBegin(et: TType, size: nat)
      requires state in {ValueWrite, ContainerWrite}
      modifies `out, `state, `containers
      ensures out == old(out) + C.PutListHead(et, size)
      ensures state == ContainerWrite && containers == old(containers) + [old(state)]
    {
      hide Varint, C.CType;
      if size <= 14 {
        WriteUByte(size * 16 + C.CType(et));
      } else {
        ConcatAssociative(out, [0xf0 + C.CType(et)], Varint(size));
        WriteUByte(0xf0 + C.CType(et));
        WriteVarintOf(size);
      }
      containers := containers + [state];
      state := ContainerWrite;
    }

    method WriteMapBegin(kt: TType, vt: TType, size: nat)
      requires state in {ValueWrite, ContainerWrite}
      modifies `out, `state, `containers
      ensures out == old(out) + C.PutMapHead(kt, vt, size)
      ensures state == ContainerWrite && containers == old(containers) + [old(state)]
    {
      hide Varint, C.CType;
      if size == 0 {
        WriteUByte(0);
      } else {
        ConcatAssociative(out, Varint(size), [C.CType(kt) * 16 + C.CType(vt)]);
        WriteVarintOf(size);
        WriteUByte(C.CType(kt) * 16 + C.CType(vt));
      }
      containers := containers + [state];
      state := ContainerWrite;
    }

    method WriteCollectionEnd(ghost below: seq<State>, ghost outer: State)
      requires state == ContainerWrite && containers == below + [outer]
      modifies `state, `containers
      ensures state == outer && containers == below
    {
      state := containers[|containers| - 1];
      containers := containers[..|containers| - 1];
    }

    /** In a field the value completes the header; in a container it is a byte; anything else raises. */
    method WriteBool(b: bool)
      requires state in {BoolWrite, ContainerWrite} && (state == BoolWrite ==> FitsSigned(boolFid, 16))
      modifies `out, `lastFid
      ensures state == BoolWrite ==>
        out == old(out) + C.PutFieldHead(old(lastFid), boolFid, C.PutBool(b)) && lastFid == boolFid
      ensures state == ContainerWrite ==> out == old(out) + PutBool(PY_COMPACT, b) && lastFid == old(lastFid)
    {
      if state == BoolWrite {
        WriteFieldHeader(if b then C.CT_TRUE else C.CT_FALSE, boolFid);
      } else {
        WriteUByte(if b then C.CT_TRUE else C.CT_FALSE);
      }
    }

    method WriteByte(i: int)
      requires state in {ValueWrite, ContainerWrite} && FitsSigned(i, 8)
      modifies `out
      ensures out == old(out) + PutByte(i)
    {
      hide M.Pack, FitsSigned;
      M.PackIs(i, 1);
      out := out + M.Pack(i, 1);
    }

    /** `writeI16`, `writeI32` and `writeI64` differ in the width alone. */
    method WriteNumber(i: int, bits: nat)
      requires state in {ValueWrite, ContainerWrite}
      requires (bits == 16 || bits == 32 || bits == 64) && FitsSigned(i, bits)
      modifies `out
      ensures out == old(out) + if bits == 64 then PutI64(PY_COMPACT, i) else PutI32(PY_COMPACT, i)
    {
      hide ToZigzagPy, Varint, FitsSigned, C.PutI32, C.PutI64;
      ZigzagSame(i, bits);
      WriteVarintOf(ToZigzagPy(i, bits));
    }

    /** Eight bytes, most significant first. */
    method WriteDouble(bits: nat)
      requires state in {ValueWrite, ContainerWrite}
      modifies `out
      ensures out == old(out) + PutDouble(PY_COMPACT, bits)
    {
      out := out + BigEndian(bits, 8);
    }

    method WriteString(s: Bytes)
      requires state in {ValueWrite, ContainerWrite}
      modifies `out
      ensures out == old(out) + PutString(PY_COMPACT, s)
    {
      hide Varint;
      ConcatAssociative(out, Varint(|s|), s);
      WriteVarintOf(|s|);
      out := out + s;
    }

    method WriteMessageBegin(m: M.Message)
      requires state == Clear && 0 <= m.mtype < 8 && m.seqid >= 0
      modifies `out, `state
      ensures out == old(out) + M.PutCompactPy(m) && state == ValueWrite
    {
      hide Varint, Or;
      ghost var head := [M.PROTOCOL_ID, Or(1, m.mtype * 32) % 256];
      WriteUByte(M.PROTOCOL_ID);
      WriteUByte(Or(1, m.mtype * 32) % 256);
      assert out == old(out) + head;
      ConcatAssociative(Varint(m.seqid), Varint(|m.name|), m.name);
      ConcatAssociative(old(out), head, Varint(m.seqid) + C.PutString(m.name));
      ConcatAssociative(old(out) + head, Varint(m.seqid), C.PutString(m.name));
      ConcatAssociative(old(out) + head + Varint(m.seqid), Varint(|m.name|), m.name);
      WriteVarintOf(m.seqid);
      WriteVarintOf(|m.name|);
      out := out + m.name;
      state := ValueWrite;
    }

    method WriteMessageEnd()
      requires state == ValueWrite
      modifies `state
      ensures state == Clear
    {
      state := Clear;
    }

    // ----- reading

    method ReadUByte() returns (r: Outcome<byte>)
      modifies `input
      ensures Agrees(r, Reader(), Wire.ReadUByte(old(Reader())))
    {
      if input == [] {
        return Throws(EndOfFile);
      }
      r := Returns(input[0]);
      input := input[1..];
    }

    method ReadAll(n: nat) returns (r: Outcome<Bytes>)
      modifies `input
      ensures Agrees(r, Reader(), ReadBytes(old(Reader()), n))
    {
      if |input| < n {
        return Throws(EndOfFile);
      }
      r := Returns(input[..n]);
      input := input[n..];
    }

    method ReadVarint() returns (r: Outcome<nat>)
      modifies `input
      ensures Agrees(r, Reader(), ReadVarintPy(old(Reader())))
    {
      hide Or, Shl;
      var result: nat, shift: nat := 0, 0;
      while true
        invariant VarintLoopPy(Reader(), shift, result) == ReadVarintPy(old(Reader()))
        decreases |input|
      {
        var byte :- ReadUByte();
        result := Or(result, Shl(byte % 128, 7 * shift));
        if byte / 128 == 0 {
          return Returns(result);
        }
        shift := shift + 1;
      }
    }

    method ReadZigzag() returns (r: Outcome<int>)
      modifies `input
      ensures Agrees(r, Reader(), ReadZigzagPy(old(Reader())))
    {
      hide ReadVarintPy, FromZigzagPy;
      var n :- ReadVarint();
      r := Returns(FromZigzagPy(n));
    }

    /** `readI16`, `readI32` and `readI64` are one function. */
    method ReadNumber() returns (r: Outcome<int>)
      requires state in {ValueRead, ContainerRead}
      modifies `input
      ensures Agrees(r, Reader(), ReadZigzagPy(old(Reader())))
    {
      r := ReadZigzag();
    }

    method ReadByte() returns (r: Outcome<int>)
      requires state in {ValueRead, ContainerRead}
      modifies `input
      ensures Agrees(r, Reader(), Protocols.ReadByte(old(Reader())))
    {
      hide ToSigned, FromBigEndian;
      var bytes :- ReadAll(1);
      r := Returns(ToSigned(FromBigEndian(bytes), 8));
    }

    method ReadText() returns (r: Outcome<Bytes>)
      modifies `input
      ensures Agrees(r, Reader(), ReadStringPy(old(Reader())))
    {
      hide ReadVarintPy, ReadBytes;
      var n :- ReadVarint();
      r := ReadAll(n);
    }

    method ReadString() returns (r: Outcome<Bytes>)
      requires state in {ValueRead, ContainerRead}
      modifies `input
      ensures Agrees(r, Reader(), ReadStringPy(old(Reader())))
    {
      r := ReadText();
    }

    /** Eight bytes, most significant first. */
    method ReadDouble() returns (r: Outcome<nat>)
      requires state in {ValueRead, ContainerRead}
      modifies `input
      ensures Agrees(r, Reader(), Protocols.ReadDouble(PY_COMPACT, old(Reader())))
    {
      var bytes :- ReadAll(8);
      r := Returns(FromBigEndian(bytes));
    }

    /** In a field the value came with the header; in a container it is a byte; anything else raises. */
    method ReadBool() returns (r: Outcome<bool>)
      requires state in {BoolRead, ContainerRead}
      modifies `input
      ensures state == BoolRead ==> r == Returns(boolValue == Some(true)) && input == old(input)
      ensures state == ContainerRead ==> match Wire.ReadUByte(old(Reader()))
        case Ok(b, s) => r == Returns(b == C.CT_TRUE) && Reader() == s
        case Fail(e) => r == Throws(e)
    {
      if state == BoolRead {
        r := Returns(boolValue == Some(true));
      } else {
        var b :- ReadUByte();
        r := Returns(b == C.CT_TRUE);
      }
    }

    method ReadFieldBegin() returns (r: Outcome<(TType, int)>)
      requires state == FieldRead
      modifies `input, `state, `lastFid, `boolValue
      ensures Agrees(r, Reader(), ReadFieldHeadPy(old(Reader())))
      ensures r.Returns? ==>
        state == if r.val.0.Stop? then FieldRead else if r.val.0.Bool? then BoolRead else ValueRead
    {
      hide ReadZigzagPy;
      var b :- ReadUByte();
      if b % 16 == 0 {
        return Returns((Stop, 0));
      }
      var fid;
      if b / 16 == 0 {
        fid :- ReadZigzag();
      } else {
        fid := lastFid + b / 16;
      }
      lastFid := fid;
      var ctype := b % 16;
      if ctype == C.CT_TRUE {
        state, boolValue := BoolRead, Some(true);
      } else if ctype == C.CT_FALSE {
        state, boolValue := BoolRead, Some(false);
      } else {
        state := ValueRead;
      }
      match C.TypeOfCType(ctype)
      case None => return Throws(UnknownType);
      case Some(t) => return Returns((t, fid));
    }

    method ReadFieldEnd()
      requires state in {ValueRead, BoolRead}
      modifies `state
      ensures state == FieldRead
    {
      state := FieldRead;
    }

    method ReadStructBegin()
      requires state in {Clear, ContainerRead, ValueRead}
      modifies `state, `lastFid, `structs
      ensures state == FieldRead && lastFid == 0 && structs == old(structs) + [(old(state), old(lastFid))]
    {
      structs := structs + [(state, lastFid)];
      state := FieldRead;
      lastFid := 0;
    }

    method ReadStructEnd(ghost below: seq<(State, int)>, ghost outer: (State, int))
      requires state == FieldRead && structs == below + [outer]
      modifies `state, `lastFid, `structs
      ensures (state, lastFid) == outer && structs == below
    {
      var top := structs[|structs| - 1];
      state, lastFid := top.0, top.1;
      structs := structs[..|structs| - 1];
    }

    method ReadCollectionBegin() returns (r: Outcome<(TType, nat)>)
      requires state in {ValueRead, ContainerRead}
      modifies `input, `state, `containers
      ensures Agrees(r, Reader(), ReadListHeadPy(old(Reader())))
      ensures r.Returns? ==> state == ContainerRead && containers == old(containers) + [old(state)]
    {
      hide ReadVarintPy;
      var sizeType :- ReadUByte();
      var size: nat := sizeType / 16;
      var t := C.TypeOfCType(sizeType % 16);
      if t == None {
        return Throws(UnknownType);
      }
      if size == 15 {
        size :- ReadVarint();
      }
      containers := containers + [state];
      state := ContainerRead;
      r := Returns((t.value, size));
    }

    method ReadMapBegin() returns (r: Outcome<(TType, TType, nat)>)
      requires state in {ValueRead, ContainerRead}
      modifies `input, `state, `containers
      ensures Agrees(r, Reader(), ReadMapHeadPy(old(Reader())))
      ensures r.Returns? ==> state == ContainerRead && containers == old(containers) + [old(state)]
    {
      hide ReadVarintPy;
      var size :- ReadVarint();
      var types: byte := 0;
      if size > 0 {
        types :- ReadUByte();
      }
      var vtype, ktype := C.TypeOfCType(types % 16), C.TypeOfCType(types / 16);
      if vtype == None || ktype == None {
        return Throws(UnknownType);
      }
      containers := containers + [state];
      state := ContainerRead;
      r := Returns((ktype.value, vtype.value, size));
    }

    method ReadCollectionEnd(ghost below: seq<State>, ghost outer: State)
      requires state == ContainerRead && containers == below + [outer]
      modifies `state, `containers
      ensures state == outer && containers == below
    {
      state := containers[|containers| - 1];
      containers := containers[..|containers| - 1];
    }

    /** Reading a message leaves the state as it is. */
    method ReadMessageBegin() returns (r: Outcome<M.Message>)
      requires state == Clear
      modifies `input
      ensures Agrees(r, Reader(), M.ReadCompactPy(old(Reader())))
    {
      hide ReadVarintPy, ReadStringPy, And;
      var id :- ReadUByte();
      if id != M.PROTOCOL_ID {
        return Throws(BadVersion);
      }
      var verType :- ReadUByte();
      if And(verType, 0x1f) != 1 {
        return Throws(BadVersion);
      }
      var seqid :- ReadVarint();
      var name :- ReadText();
      r := Returns(M.Message(name, Shr(And(verType, 0xe0), 5), seqid));
    }

    method ReadMessageEnd()
      requires state == Clear && structs == []
    {
    }
  }

  // ----- generated code, writing

  /** The states in which a value of a type may be written. */
  predicate MayWrite(state: State, v: Value) {
    if v.VBool? then state == ContainerWrite else state == ValueWrite || state == ContainerWrite
  }

  /** Writing any typed value trips no assertion, appends its encoding, and restores the machine. */
  method WriteValue(oprot: TCompactProtocol, v: Value)
    requires WellTyped(v) && MayWrite(oprot.state, v)
    modifies oprot`out, oprot`state, oprot`lastFid, oprot`boolFid, oprot`structs, oprot`containers
    ensures oprot.out == old(oprot.out) + Encode(PY_COMPACT, v)
    ensures oprot.state == old(oprot.state) && oprot.lastFid == old(oprot.lastFid)
    ensures oprot.structs == old(oprot.structs) && oprot.containers == old(oprot.containers)
    decreases v, 2
  {
    hide FitsSigned, Pow2, C.PutI32, C.PutI64, C.PutString, BigEndian;
    match v
    case VBool(b) => oprot.WriteBool(b);
    case VByte(i) => oprot.WriteByte(i);
    case VI16(i) => oprot.WriteNumber(i, 16);
    case VI32(i) => oprot.WriteNumber(i, 32);
    case VI64(i) => oprot.WriteNumber(i, 64);
    case VDouble(bits) => oprot.WriteDouble(bits);
    case VString(s) => oprot.WriteString(s);
    case VStruct(fields) => WriteStruct(oprot, v);
    case VMap(kt, vt, entries) => WriteMap(oprot, v);
    case VSet(et, elems) => WriteCollection(oprot, v);
    case VList(et, elems) => WriteCollection(oprot, v);
  }

  method WriteCollection(oprot: TCompactProtocol, v: Value)
    requires (v.VSet? || v.VList?) && WellTyped(v) && oprot.state in {ValueWrite, ContainerWrite}
    modifies oprot`out, oprot`state, oprot`lastFid, oprot`boolFid, oprot`structs, oprot`containers
    ensures oprot.out == old(oprot.out) + Encode(PY_COMPACT, v)
    ensures oprot.state == old(oprot.state) && oprot.lastFid == old(oprot.lastFid)
    ensures oprot.structs == old(oprot.structs) && oprot.containers == old(oprot.containers)
    decreases v, 1
  {
    hide WellTyped, Encode, C.PutListHead;
    RT.ListParts(PY_COMPACT, v);
    var et, elems := v.et, v.elems;
    ghost var before := oprot.out;
    oprot.WriteCollectionBegin(et, |elems|);
    for i := 0 to |elems|
      invariant oprot.state == ContainerWrite && oprot.lastFid == old(oprot.lastFid)
      invariant oprot.structs == old(oprot.structs) && oprot.containers == old(oprot.containers) + [old(oprot.state)]
      invariant oprot.out + EncodeAll(PY_COMPACT, elems[i..])
             == before + C.PutListHead(et, |elems|) + EncodeAll(PY_COMPACT, elems)
    {
      assert elems[i..][1..] == elems[i + 1..];
      ConcatAssociative(oprot.out, Encode(PY_COMPACT, elems[i]), EncodeAll(PY_COMPACT, elems[i + 1..]));
      WriteValue(oprot, elems[i]);
    }
    ConcatAssociative(before, C.PutListHead(et, |elems|), EncodeAll(PY_COMPACT, elems));
    oprot.WriteCollectionEnd(old(oprot.containers), old(oprot.state));
  }

  method WriteMap(oprot: TCompactProtocol, v: Value)
    requires v.VMap? && WellTyped(v) && oprot.state in {ValueWrite, ContainerWrite}
    modifies oprot`out, oprot`state, oprot`lastFid, oprot`boolFid, oprot`structs, oprot`containers
    ensures oprot.out == old(oprot.out) + Encode(PY_COMPACT, v)
    ensures oprot.state == old(oprot.state) && oprot.lastFid == old(oprot.lastFid)
    ensures oprot.structs == old(oprot.structs) && oprot.containers == old(oprot.containers)
    decreases v, 1
  {
    hide WellTyped, Encode, C.PutMapHead, EncodeEntry;
    RT.MapParts(PY_COMPACT, v);
    var kt, vt, entries := v.kt, v.vt, v.entries;
    ghost var before := oprot.out;
    oprot.WriteMapBegin(kt, vt, |entries|);
    for i := 0 to |entries|
      invariant oprot.state == ContainerWrite && oprot.lastFid == old(oprot.lastFid)
      invariant oprot.structs == old(oprot.structs) && oprot.containers == old(oprot.containers) + [old(oprot.state)]
      invariant oprot.out + EncodeEntries(PY_COMPACT, entries[i..])
             == before + C.PutMapHead(kt, vt, |entries|) + EncodeEntries(PY_COMPACT, entries)
    {
      assert entries[i..][1..] == entries[i + 1..];
      ConcatAssociative(oprot.out, EncodeEntry(PY_COMPACT, entries[i]), EncodeEntries(PY_COMPACT, entries[i + 1..]));
      WriteEntry(oprot, entries[i]);
    }
    ConcatAssociative(before, C.PutMapHead(kt, vt, |entries|), EncodeEntries(PY_COMPACT, entries));
    oprot.WriteCollectionEnd(old(oprot.containers), old(oprot.state));
  }

  method WriteEntry(oprot: TCompactProtocol, e: Entry)
    requires WellTyped(e.k) && WellTyped(e.v) && oprot.state == ContainerWrite
    modifies oprot`out, oprot`state, oprot`lastFid, oprot`boolFid, oprot`structs, oprot`containers
    ensures oprot.out == old(oprot.out) + EncodeEntry(PY_COMPACT, e)
    ensures oprot.state == old(oprot.state) && oprot.lastFid == old(oprot.lastFid)
    ensures oprot.structs == old(oprot.structs) && oprot.containers == old(oprot.containers)
    decreases e, 3
  {
    hide WellTyped, Encode;
    ConcatAssociative(oprot.out, Encode(PY_COMPACT, e.k), Encode(PY_COMPACT, e.v));
    WriteValue(oprot, e.k);
    WriteValue(oprot, e.v);
  }

  method WriteField(oprot: TCompactProtocol, f: Field)
    requires FitsSigned(f.id, 16) && WellTyped(f.val) && oprot.state == FieldWrite
    modifies oprot`out, oprot`state, oprot`lastFid, oprot`boolFid, oprot`structs, oprot`containers
    ensures oprot.out == old(oprot.out) + EncodeField(PY_COMPACT, old(oprot.lastFid), f)
    ensures oprot.state == FieldWrite && oprot.lastFid == f.id
    ensures oprot.structs == old(oprot.structs) && oprot.containers == old(oprot.containers)
    decreases f, 3
  {
    hide WellTyped, Encode, C.PutFieldHead, FitsSigned;
    ghost var last, before := oprot.lastFid, oprot.out;
    oprot.WriteFieldBegin(TypeOf(f.val), f.id);
    if f.val.VBool? {
      oprot.WriteBool(f.val.b);
    } else {
      ConcatAssociative(before, C.PutFieldHead(last, f.id, C.CType(TypeOf(f.val))), Encode(PY_COMPACT, f.val));
      WriteValue(oprot, f.val);
    }
    oprot.WriteFieldEnd();
  }

  method WriteStruct(oprot: TCompactProtocol, v: Value)
    requires v.VStruct? && WellTyped(v) && oprot.state in {Clear, ValueWrite, ContainerWrite}
    modifies oprot`out, oprot`state, oprot`lastFid, oprot`boolFid, oprot`structs, oprot`containers
    ensures oprot.out == old(oprot.out) + Encode(PY_COMPACT, v)
    ensures oprot.state == old(oprot.state) && oprot.lastFid == old(oprot.lastFid)
    ensures oprot.structs == old(oprot.structs) && oprot.containers == old(oprot.containers)
    decreases v, 1
  {
    hide WellTyped, Encode, EncodeField, FitsSigned;
    RT.StructParts(PY_COMPACT, v);
    var fields := v.fields;
    ghost var before := oprot.out;
    oprot.WriteStructBegin();
    for i := 0 to |fields|
      invariant oprot.state == FieldWrite
      invariant oprot.structs == old(oprot.structs) + [(old(oprot.state), old(oprot.lastFid))]
      invariant oprot.containers == old(oprot.containers)
      invariant oprot.out + EncodeFields(PY_COMPACT, oprot.lastFid, fields[i..])
             == before + EncodeFields(PY_COMPACT, 0, fields)
    {
      assert fields[i..][1..] == fields[i + 1..];
      ConcatAssociative(oprot.out, EncodeField(PY_COMPACT, oprot.lastFid, fields[i]),
                        EncodeFields(PY_COMPACT, fields[i].id, fields[i + 1..]));
      WriteField(oprot, fields[i]);
    }
    ConcatAssociative(before, EncodeFields(PY_COMPACT, 0, fields), STOP);
    oprot.WriteFieldStop();
    oprot.WriteStructEnd(old(oprot.structs), (old(oprot.state), old(oprot.lastFid)));
  }

  /**
   * A whole message, an argument or result struct between its begin and its end: from Clear back to Clear with both
   * stacks empty, and byte for byte what the C++ code writes if and only if the doubles in it are symmetric and the
   * name is short enough for C++.
   */
  method WriteMessage(oprot: TCompactProtocol, m: M.Message, body: Value)
    requires oprot.state == Clear && oprot.structs == [] && oprot.containers == []
    requires 0 <= m.mtype < 8 && FitsSigned(m.seqid, 32) && m.seqid >= 0 && body.VStruct? && WellTyped(body)
    modifies oprot`out, oprot`state, oprot`lastFid, oprot`boolFid, oprot`structs, oprot`containers
    ensures oprot.out == old(oprot.out) + (M.PutCompactPy(m) + Encode(PY_COMPACT, body))
    ensures oprot.out == old(oprot.out) + (M.PutCompactCpp(m) + Encode(CPP_COMPACT, body))
       <==> Symmetric(body) && |m.name| < TWO32
    ensures oprot.state == Clear && oprot.structs == [] && oprot.containers == []
  {
    hide WellTyped, Encode, M.PutCompactCpp, M.PutCompactPy, FitsSigned, Symmetric;
    M.CompactHeadersAgree(m);
    ConcatAssociative(oprot.out, M.PutCompactPy(m), Encode(PY_COMPACT, body));
    BytesAgree(body);
    SamePrefix(oprot.out, M.PutCompactPy(m), Encode(PY_COMPACT, body), Encode(CPP_COMPACT, body));
    if |m.name| >= TWO32 {
      assert |oprot.out + (M.PutCompactPy(m) + Encode(PY_COMPACT, body))|
           > |oprot.out + (M.PutCompactCpp(m) + Encode(CPP_COMPACT, body))|;
    }
    oprot.WriteMessageBegin(m);
    WriteStruct(oprot, body);
    oprot.WriteMessageEnd();
  }

  lemma SamePrefix(a: Bytes, b: Bytes, c: Bytes, d: Bytes)
    ensures a + (b + c) == a + (b + d) <==> c == d
  {
    if a + (b + c) == a + (b + d) {
      assert (a + (b + c))[|a|..] == b + c && (a + (b + d))[|a|..] == b + d;
      assert (b + c)[|b|..] == c && (b + d)[|b|..] == d;
    }
  }
}
