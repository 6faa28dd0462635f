/** What generated Python code does with the compact machine when it reads: typed messages, and skipping of anything. */
module PyGenerated {
  import opened Bytes
  import opened Bits
  import opened Wire
  import opened Protocols
  import opened TProtocols
  import opened PyReading
  import opened PyCompact
  import opened DoubleOrder
  import RT = RoundTrip
  import B = Binary
  import C = Compact
  import M = Messages

  // ----- reading a value of a known type

  /** Everything but the input and the leftover boolean. */
  datatype Machine = Machine(state: State, lastFid: int, structs: seq<(State, int)>, containers: seq<State>)

  function MachineOf(iprot: TCompactProtocol): Machine
    reads iprot
  {
    Machine(iprot.state, iprot.lastFid, iprot.structs, iprot.containers)
  }

  /** The machine may read v, and v is what comes next: behind its field header, or as bytes. */
  predicate Ahead(m: Machine, s: RState, v: Value, rest: Bytes) {
    if m.state == BoolRead then v.VBool? && s.pending == Some(v.b) && s.input == rest
    else
      && (m.state == ContainerRead || (m.state == ValueRead && !v.VBool?))
      && s.input == Encode(PY_COMPACT, v) + rest
  }

  lemma ByteOf(v: Value, s: RState, rest: Bytes)
    requires v.VByte? && WellTyped(v) && s.input == Encode(PY_COMPACT, v) + rest
    ensures Protocols.ReadByte(s) == Ok(v.i, s.(input := rest))
  {
    hide B.ReadInt, B.PutInt, FitsSigned;
    B.ReadIntOf(s, v.i, 1, rest);
  }

  lemma NumberOf(v: Value, s: RState, rest: Bytes)
    requires (v.VI16? || v.VI32? || v.VI64?) && WellTyped(v) && s.input == Encode(PY_COMPACT, v) + rest
    ensures ReadZigzagPy(s) == Ok(v.i, s.(input := rest))
  {
    hide C.PutI32, C.PutI64, FitsSigned, ReadZigzagPy;
    ReadZigzagPyOf(s, v.i, if v.VI16? then 16 else if v.VI32? then 32 else 64, rest);
  }

  lemma StringOf(v: Value, s: RState, rest: Bytes)
    requires v.VString? && s.input == Encode(PY_COMPACT, v) + rest
    ensures ReadStringPy(s) == Ok(v.s, s.(input := rest))
  {
    hide C.PutString, ReadStringPy;
    ReadStringPyOf(s, v.s, rest);
  }

  lemma DoubleOf(v: Value, s: RState, rest: Bytes)
    requires v.VDouble? && WellTyped(v) && s.input == Encode(PY_COMPACT, v) + rest
    ensures Protocols.ReadDouble(PY_COMPACT, s) == Ok(v.bits, s.(input := rest))
  {
    hide BigEndian, FromBigEndian, Pow2;
    ReadBytesOf(s, BigEndian(v.bits, 8), rest);
    BigEndianRoundTrip(v.bits, 8);
  }

  lemma BoolOf(v: Value, s: RState, rest: Bytes)
    requires v.VBool? && s.input == Encode(PY_COMPACT, v) + rest
    ensures Wire.ReadUByte(s) == Ok(C.PutBool(v.b), s.(input := rest))
  {
    C.ReadUByteOf(s, C.PutBool(v.b), rest);
  }

  /**
   * Reading a typed value trips no assertion, returns the value, takes exactly its bytes and leaves the machine in the
   * state it was in.
   */
  method ReadValue(iprot: TCompactProtocol, t: TType, ghost v: Value, ghost rest: Bytes) returns (r: Value)
    requires WellTyped(v) && t == TypeOf(v) && Ahead(MachineOf(iprot), iprot.Reader(), v, rest)
    modifies iprot`input, iprot`state, iprot`lastFid, iprot`boolValue, iprot`structs, iprot`containers
    ensures r == RT.Normal(PY_COMPACT, v) && iprot.input == rest && MachineOf(iprot) == old(MachineOf(iprot))
    decreases v, 2
  {
    if t.Struct? {
      r := ReadStruct(iprot, v, rest);
    } else if t.Map? {
      r := ReadMap(iprot, v, rest);
    } else if t.Set? || t.List? {
      r := ReadCollection(iprot, t, v, rest);
    } else {
      r := ReadScalar(iprot, t, v, rest);
    }
  }

  method ReadScalar(iprot: TCompactProtocol, t: TType, ghost v: Value, ghost rest: Bytes) returns (r: Value)
    requires WellTyped(v) && t == TypeOf(v) && Ahead(MachineOf(iprot), iprot.Reader(), v, rest)
    requires !t.Struct? && !t.Map? && !t.Set? && !t.List?
    modifies iprot`input
    ensures r == RT.Normal(PY_COMPACT, v) && iprot.input == rest
  {
    hide Encode, ReadZigzagPy, ReadStringPy, Protocols.ReadByte, Protocols.ReadDouble, FitsSigned, Wire.ReadUByte;
    if t.Bool? {
      if iprot.state == ContainerRead { BoolOf(v, iprot.Reader(), rest); }
      var b := iprot.ReadBool();
      r := VBool(b.val);
    } else if t.Byte? {
      ByteOf(v, iprot.Reader(), rest);
      var i := iprot.ReadByte();
      r := VByte(i.val);
    } else if t.Double? {
      DoubleOf(v, iprot.Reader(), rest);
      var d := iprot.ReadDouble();
      r := VDouble(d.val);
    } else if t.String? {
      StringOf(v, iprot.Reader(), rest);
      var s := iprot.ReadString();
      r := VString(s.val);
    } else {
      NumberOf(v, iprot.Reader(), rest);
      var i := iprot.ReadNumber();
      r := if t.I16? then VI16(i.val) else if t.I32? then VI32(i.val) else VI64(i.val);
    }
  }

  method ReadCollection(iprot: TCompactProtocol, t: TType, ghost v: Value, ghost rest: Bytes) returns (r: Value)
    requires WellTyped(v) && t == TypeOf(v) && (t.Set? || t.List?) && Ahead(MachineOf(iprot), iprot.Reader(), v, rest)
    modifies iprot`input, iprot`state, iprot`lastFid, iprot`boolValue, iprot`structs, iprot`containers
    ensures r == RT.Normal(PY_COMPACT, v) && iprot.input == rest && MachineOf(iprot) == old(MachineOf(iprot))
    decreases v, 1
  {
    hide WellTyped, Encode, RT.Normal, C.PutListHead, ReadListHeadPy, EncodeAll, RT.NormalAll;
    RT.ListParts(PY_COMPACT, v);
    ConcatAssociative(C.PutListHead(v.et, |v.elems|), EncodeAll(PY_COMPACT, v.elems), rest);
    ghost var elems, m := v.elems, MachineOf(iprot);
    ReadListHeadPyOf(iprot.Reader(), v.et, |elems|, EncodeAll(PY_COMPACT, elems) + rest);
    var head := iprot.ReadCollectionBegin();
    var et, size := head.val.0, head.val.1;
    var read: seq<Value> := [];
    for i := 0 to size
      invariant MachineOf(iprot) == m.(state := ContainerRead, containers := m.containers + [m.state])
      invariant iprot.input == EncodeAll(PY_COMPACT, elems[i..]) + rest
      invariant read + RT.NormalAll(PY_COMPACT, elems[i..]) == RT.NormalAll(PY_COMPACT, elems)
    {
      RT.NextElement(PY_COMPACT, elems[i..], rest);
      assert elems[i..][1..] == elems[i + 1..];
      var x := ReadValue(iprot, et, elems[i], EncodeAll(PY_COMPACT, elems[i + 1..]) + rest);
      ConcatAssociative(read, [x], RT.NormalAll(PY_COMPACT, elems[i + 1..]));
      read := read + [x];
    }
    RT.NextElement(PY_COMPACT, elems[size..], rest);
    iprot.ReadCollectionEnd(m.containers, m.state);
    r := if t.Set? then VSet(et, read) else VList(et, read);
  }

  method ReadMap(iprot: TCompactProtocol, ghost v: Value, ghost rest: Bytes) returns (r: Value)
    requires WellTyped(v) && v.VMap? && Ahead(MachineOf(iprot), iprot.Reader(), v, rest)
    modifies iprot`input, iprot`state, iprot`lastFid, iprot`boolValue, iprot`structs, iprot`containers
    ensures r == RT.Normal(PY_COMPACT, v) && iprot.input == rest && MachineOf(iprot) == old(MachineOf(iprot))
    decreases v, 1
  {
    hide WellTyped, Encode, RT.Normal, C.PutMapHead, ReadMapHeadPy, EncodeEntries, RT.NormalEntries;
    RT.MapParts(PY_COMPACT, v);
    ConcatAssociative(C.PutMapHead(v.kt, v.vt, |v.entries|), EncodeEntries(PY_COMPACT, v.entries), rest);
    ghost var entries, m := v.entries, MachineOf(iprot);
    ReadMapHeadPyOf(iprot.Reader(), v.kt, v.vt, |entries|, EncodeEntries(PY_COMPACT, entries) + rest);
    var head := iprot.ReadMapBegin();
    var kt, vt, size := head.val.0, head.val.1, head.val.2;
    var read: seq<Entry> := [];
    for i := 0 to size
      invariant MachineOf(iprot) == m.(state := ContainerRead, containers := m.containers + [m.state])
      invariant iprot.input == EncodeEntries(PY_COMPACT, entries[i..]) + rest
      invariant read + RT.NormalEntries(PY_COMPACT, entries[i..]) == RT.NormalEntries(PY_COMPACT, entries)
    {
      RT.NextEntry(PY_COMPACT, entries[i..], rest);
      assert entries[i..][1..] == entries[i + 1..];
      var e := ReadEntry(iprot, kt, vt, entries[i], EncodeEntries(PY_COMPACT, entries[i + 1..]) + rest);
      ConcatAssociative(read, [e], RT.NormalEntries(PY_COMPACT, entries[i + 1..]));
      read := read + [e];
    }
    RT.NextEntry(PY_COMPACT, entries[size..], rest);
    iprot.ReadCollectionEnd(m.containers, m.state);
    r := VMap(kt, vt, read);
  }

  method ReadEntry(iprot: TCompactProtocol, kt: TType, vt: TType, ghost e: Entry, ghost rest: Bytes)
    returns (r: Entry)
    requires WellTyped(e.k) && WellTyped(e.v) && kt == TypeOf(e.k) && vt == TypeOf(e.v) && iprot.state == ContainerRead
    requires iprot.input == Encode(PY_COMPACT, e.k) + (Encode(PY_COMPACT, e.v) + rest)
    modifies iprot`input, iprot`state, iprot`lastFid, iprot`boolValue, iprot`structs, iprot`containers
    ensures r == Entry(RT.Normal(PY_COMPACT, e.k), RT.Normal(PY_COMPACT, e.v))
    ensures iprot.input == rest && MachineOf(iprot) == old(MachineOf(iprot))
    decreases e, 3
  {
    hide WellTyped, Encode, RT.Normal;
    var k := ReadValue(iprot, kt, e.k, Encode(PY_COMPACT, e.v) + rest);
    var v := ReadValue(iprot, vt, e.v, rest);
    r := Entry(k, v);
  }

  // ----- structs

  /** The header of a field, and what is ahead behind it. */
  lemma FieldAhead(f: Field, s: RState, rest: Bytes) returns (s1: RState)
    requires FitsSigned(f.id, 16) && WellTyped(f.val) && s.input == EncodeField(PY_COMPACT, s.last, f) + rest
    ensures ReadFieldHeadPy(s) == Ok((TypeOf(f.val), f.id), s1) && s1.last == f.id && TypeOf(f.val).OfValue()
    ensures f.val.VBool? ==> s1.pending == Some(f.val.b) && s1.input == rest
    ensures !f.val.VBool? ==> s1.input == Encode(PY_COMPACT, f.val) + rest
  {
    hide Encode, WellTyped, ReadFieldHeadPy, C.PutFieldHead, FitsSigned;
    var t := TypeOf(f.val);
    if f.val.VBool? {
      s1 := s.(input := rest, last := f.id, pending := Some(f.val.b));
      ReadFieldHeadPyOf(s, t, f.id, C.PutBool(f.val.b), rest);
    } else {
      s1 := s.(input := Encode(PY_COMPACT, f.val) + rest, last := f.id);
      C.TypeOfItsCType(t);
      ConcatAssociative(C.PutFieldHead(s.last, f.id, C.CType(t)), Encode(PY_COMPACT, f.val), rest);
      ReadFieldHeadPyOf(s, t, f.id, C.CType(t), s1.input);
    }
  }

  lemma StopAhead(s: RState, rest: Bytes)
    requires s.input == STOP + rest
    ensures ReadFieldHeadPy(s) == Ok((Stop, 0), s.(input := rest))
  {
    hide ReadZigzagPy, ToSigned, C.TypeOfCType;
    C.ReadUByteOf(s, 0, rest);
  }

  /** The body of the field loop behind the header. */
  method ReadField(iprot: TCompactProtocol, t: TType, ghost f: Field, ghost rest: Bytes) returns (r: Value)
    requires WellTyped(f.val) && t == TypeOf(f.val) && iprot.state == (if t.Bool? then BoolRead else ValueRead)
    requires Ahead(MachineOf(iprot), iprot.Reader(), f.val, rest)
    modifies iprot`input, iprot`state, iprot`lastFid, iprot`boolValue, iprot`structs, iprot`containers
    ensures r == RT.Normal(PY_COMPACT, f.val) && iprot.input == rest
    ensures MachineOf(iprot) == old(MachineOf(iprot)).(state := FieldRead)
    decreases f, 3
  {
    hide Encode, WellTyped, RT.Normal, Ahead;
    r := ReadValue(iprot, t, f.val, rest);
    iprot.ReadFieldEnd();
  }

  method ReadStruct(iprot: TCompactProtocol, ghost v: Value, ghost rest: Bytes) returns (r: Value)
    requires WellTyped(v) && v.VStruct? && iprot.state in {Clear, ValueRead, ContainerRead}
    requires iprot.input == Encode(PY_COMPACT, v) + rest
    modifies iprot`input, iprot`state, iprot`lastFid, iprot`boolValue, iprot`structs, iprot`containers
    ensures r == RT.Normal(PY_COMPACT, v) && iprot.input == rest && MachineOf(iprot) == old(MachineOf(iprot))
    decreases v, 1
  {
    hide WellTyped, Encode, EncodeField, EncodeFields, FitsSigned, RT.Normal, RT.NormalFields, ReadFieldHeadPy;
    RT.StructParts(PY_COMPACT, v);
    ConcatAssociative(EncodeFields(PY_COMPACT, 0, v.fields), STOP, rest);
    ghost var fields, m, i := v.fields, MachineOf(iprot), 0;
    iprot.ReadStructBegin();
    var read: seq<Field> := [];
    while true
      invariant i <= |fields|
      invariant iprot.state == FieldRead && iprot.structs == m.structs + [(m.state, m.lastFid)]
      invariant iprot.containers == m.containers
      invariant iprot.input == EncodeFields(PY_COMPACT, iprot.lastFid, fields[i..]) + (STOP + rest)
      invariant read + RT.NormalFields(PY_COMPACT, fields[i..]) == RT.NormalFields(PY_COMPACT, fields)
      decreases |fields| - i
    {
      ghost var after := if i < |fields| then EncodeFields(PY_COMPACT, fields[i].id, fields[i + 1..]) + (STOP + rest)
                         else rest;
      if i < |fields| {
        RT.NextField(PY_COMPACT, iprot.lastFid, fields[i..], STOP + rest);
        assert fields[i..][1..] == fields[i + 1..];
        var s1 := FieldAhead(fields[i], iprot.Reader(), after);
      } else {
        RT.NextField(PY_COMPACT, iprot.lastFid, [], STOP + rest);
        StopAhead(iprot.Reader(), rest);
      }
      var head := iprot.ReadFieldBegin();
      if head.val.0.Stop? {
        break;
      }
      var x := ReadField(iprot, head.val.0, fields[i], after);
      ghost var f := Field(head.val.1, x);
      ConcatAssociative(read, [f], RT.NormalFields(PY_COMPACT, fields[i + 1..]));
      read := read + [Field(head.val.1, x)];
      i := i + 1;
    }
    assert read == RT.NormalFields(PY_COMPACT, fields);
    iprot.ReadStructEnd(m.structs, (m.state, m.lastFid));
    r := VStruct(read);
  }

  // ----- a message

  /** What Python makes of a value in the bytes of either language: doubles from C++ come out reversed. */
  function Seen(p: Protocol, v: Value): Value {
    RT.Normal(PY_COMPACT, if LowByteFirst(p) then Swapped(v) else v)
  }

  lemma SeenAhead(p: Protocol, v: Value) returns (w: Value)
    requires WellTyped(v) && p.CompactProtocol?
    ensures WellTyped(w) && TypeOf(w) == TypeOf(v)
    ensures Encode(p, v) == Encode(PY_COMPACT, w) && Seen(p, v) == RT.Normal(PY_COMPACT, w)
  {
    hide Encode, WellTyped, Swapped, RT.Normal;
    w := if LowByteFirst(p) then Swapped(v) else v;
    SwappedEncodes(v);
  }

  /**
   * A message written by either language, of any type, sequence number and body: from Clear back to Clear with empty
   * stacks, a negative sequence number read without its sign.
   */
  method ReadMessage(iprot: TCompactProtocol, ghost p: Protocol, ghost m: M.Message, ghost body: Value,
                     ghost rest: Bytes) returns (h: M.Message, r: Value)
    requires p.CompactProtocol? && body.VStruct? && WellTyped(body)
    requires 0 <= m.mtype < 8 && FitsSigned(m.seqid, 32) && |m.name| < TWO31
    requires iprot.state == Clear && iprot.structs == [] && iprot.containers == []
    requires iprot.input == M.PutCompactCpp(m) + Encode(p, body) + rest
    modifies iprot`input, iprot`state, iprot`lastFid, iprot`boolValue, iprot`structs, iprot`containers
    ensures h == m.(seqid := ToUnsigned(m.seqid, 32)) && r == Seen(p, body) && iprot.input == rest
    ensures iprot.state == Clear && iprot.structs == [] && iprot.containers == []
  {
    hide Encode, WellTyped, FitsSigned, M.PutCompactCpp, M.ReadCompactPy, RT.Normal, ToUnsigned, Seen;
    ghost var w := SeenAhead(p, body);
    ConcatAssociative(M.PutCompactCpp(m), Encode(p, body), rest);
    M.ReadCompactPyOf(m, iprot.Reader(), Encode(p, body) + rest);
    var head := iprot.ReadMessageBegin();
    h := head.val;
    r := ReadStruct(iprot, w, rest);
    iprot.ReadMessageEnd();
  }

  /** What Python writes, Python reads. */
  method WriteThenRead(m: M.Message, body: Value) returns (h: M.Message, r: Value)
    requires 0 <= m.mtype < 8 && FitsSigned(m.seqid, 32) && m.seqid >= 0 && |m.name| < TWO31
    requires body.VStruct? && WellTyped(body)
    ensures h == m && r == RT.Normal(PY_COMPACT, body)
  {
    hide Encode, WellTyped, M.PutCompactCpp, M.PutCompactPy, RT.Normal, Symmetric, FitsSigned, ToUnsigned;
    SeqidKept(m.seqid);
    M.CompactHeadersAgree(m);
    var oprot := new TCompactProtocol([]);
    WriteMessage(oprot, m, body);
    var iprot := new TCompactProtocol(oprot.out);
    ghost var sent := M.PutCompactCpp(m) + Encode(PY_COMPACT, body);
    EmptyConcat(sent);
    h, r := ReadMessage(iprot, PY_COMPACT, m, body, []);
  }

  lemma SeqidKept(n: int)
    requires FitsSigned(n, 32) && n >= 0
    ensures ToUnsigned(n, 32) == n
  {
    Widths();
    Unsigned(n, 32);
  }

  // ----- skipping anything

  /** What comes next is this value. */
  predicate Known(m: Machine, s: RState, t: TType, v: Option<Value>, rest: Bytes) {
    v.Some? && WellTyped(v.value) && TypeOf(v.value) == t && Ahead(m, s, v.value, rest)
  }

  /** The states in which generated code may come upon a value of a type. */
  predicate MayRead(state: State, t: TType) {
    if t.Bool? then state == BoolRead || state == ContainerRead else state == ValueRead || state == ContainerRead
  }

  lemma KnownScalar(m: Machine, s: RState, t: TType, v: Value, rest: Bytes)
    requires Known(m, s, t, Some(v), rest)
    ensures t.Bool? && m.state == ContainerRead ==> Wire.ReadUByte(s).Ok? && Wire.ReadUByte(s).st.input == rest
    ensures t.Bool? && m.state == BoolRead ==> s.input == rest
    ensures t.Byte? ==> Protocols.ReadByte(s).Ok? && Protocols.ReadByte(s).st.input == rest
    ensures t.I16? || t.I32? || t.I64? ==> ReadZigzagPy(s).Ok? && ReadZigzagPy(s).st.input == rest
    ensures t.String? ==> ReadStringPy(s).Ok? && ReadStringPy(s).st.input == rest
    ensures t.Double? ==>
      Protocols.ReadDouble(PY_COMPACT, s).Ok? && Protocols.ReadDouble(PY_COMPACT, s).st.input == rest
    ensures !t.Stop? && !t.Other?
  {
    hide ReadZigzagPy, ReadStringPy, Protocols.ReadByte, Protocols.ReadDouble, Encode, Wire.ReadUByte, FitsSigned;
    if t.Bool? {
      if m.state == ContainerRead { BoolOf(v, s, rest); }
    } else if t.Byte? {
      ByteOf(v, s, rest);
    } else if t.I16? || t.I32? || t.I64? {
      NumberOf(v, s, rest);
    } else if t.Double? {
      DoubleOf(v, s, rest);
    } else if t.String? {
      StringOf(v, s, rest);
    }
  }

  /**
   * `skip` on every byte string: it terminates, it never trips an assertion, and unless the input runs out or names an
   * unknown type it leaves the machine as it was. If a typed value of the type comes next, it stops at its end.
   */
  method Skip(iprot: TCompactProtocol, t: TType, ghost v: Option<Value>, ghost rest: Bytes) returns (r: Outcome<()>)
    requires MayRead(iprot.state, t)
    modifies iprot`input, iprot`state, iprot`lastFid, iprot`boolValue, iprot`structs, iprot`containers
    ensures r.Returns? ==> MachineOf(iprot) == old(MachineOf(iprot)) && |iprot.input| <= |old(iprot.input)|
    ensures old(Known(MachineOf(iprot), iprot.Reader(), t, v, rest)) ==> r.Returns? && iprot.input == rest
    decreases |iprot.input|, 1
  {
    hide Known;
    match t
    case Struct => r := SkipStruct(iprot, v, rest);
    case Map => r := SkipMap(iprot, v, rest);
    case Set => r := SkipCollection(iprot, t, v, rest);
    case List => r := SkipCollection(iprot, t, v, rest);
    case _ => r := SkipScalar(iprot, t, v, rest);
  }

  method SkipScalar(iprot: TCompactProtocol, t: TType, ghost v: Option<Value>, ghost rest: Bytes)
    returns (r: Outcome<()>)
    requires MayRead(iprot.state, t) && !t.Struct? && !t.Map? && !t.Set? && !t.List?
    modifies iprot`input
    ensures r.Returns? ==> |iprot.input| <= |old(iprot.input)|
    ensures old(Known(MachineOf(iprot), iprot.Reader(), t, v, rest)) ==> r.Returns? && iprot.input == rest
  {
    hide ReadZigzagPy, ReadStringPy, Protocols.ReadByte, Protocols.ReadDouble, Known;
    if Known(MachineOf(iprot), iprot.Reader(), t, v, rest) {
      KnownIsSome(MachineOf(iprot), iprot.Reader(), t, v, rest);
      KnownScalar(MachineOf(iprot), iprot.Reader(), t, v.value, rest);
    }
    match t {
      case Bool =>
        var b :- iprot.ReadBool();
      case Byte =>
        var i :- iprot.ReadByte();
      case I16 =>
        var i :- iprot.ReadNumber();
      case I32 =>
        var i :- iprot.ReadNumber();
      case I64 =>
        var i :- iprot.ReadNumber();
      case Double =>
        var d :- iprot.ReadDouble();
      case String =>
        var s :- iprot.ReadString();
      case _ =>
    }
    return Returns(());
  }

  lemma KnownIsSome(m: Machine, s: RState, t: TType, v: Option<Value>, rest: Bytes)
    requires Known(m, s, t, v, rest)
    ensures v.Some? && TypeOf(v.value) == t && WellTyped(v.value)
    ensures !v.value.VBool? ==> s.input == Encode(PY_COMPACT, v.value) + rest
  {
    hide WellTyped, Encode;
  }

  lemma IsKnown(m: Machine, s: RState, v: Value, rest: Bytes)
    requires WellTyped(v) && Ahead(m, s, v, rest)
    ensures Known(m, s, TypeOf(v), Some(v), rest)
  {
    hide WellTyped, Ahead;
  }

  method SkipCollection(iprot: TCompactProtocol, t: TType, ghost v: Option<Value>, ghost rest: Bytes)
    returns (r: Outcome<()>)
    requires iprot.state in {ValueRead, ContainerRead} && (t.Set? || t.List?)
    modifies iprot`input, iprot`state, iprot`lastFid, iprot`boolValue, iprot`structs, iprot`containers
    ensures r.Returns? ==> MachineOf(iprot) == old(MachineOf(iprot)) && |iprot.input| <= |old(iprot.input)|
    ensures old(Known(MachineOf(iprot), iprot.Reader(), t, v, rest)) ==> r.Returns? && iprot.input == rest
    decreases |iprot.input|, 0
  {
    hide ReadListHeadPy, Known, WellTyped, Encode, EncodeAll, C.PutListHead, RT.Normal, RT.NormalAll;
    ghost var m, known := MachineOf(iprot), Known(MachineOf(iprot), iprot.Reader(), t, v, rest);
    ghost var elems: seq<Value> := [];
    if known {
      KnownIsSome(m, iprot.Reader(), t, v, rest);
      elems := v.value.elems;
      RT.ListParts(PY_COMPACT, v.value);
      ConcatAssociative(C.PutListHead(v.value.et, |v.value.elems|), EncodeAll(PY_COMPACT, v.value.elems), rest);
      ReadListHeadPyOf(iprot.Reader(), v.value.et, |elems|, EncodeAll(PY_COMPACT, elems) + rest);
    }
    var head :- iprot.ReadCollectionBegin();
    for i := 0 to head.1
      invariant MachineOf(iprot) == m.(state := ContainerRead, containers := m.containers + [m.state])
      invariant |iprot.input| < |old(iprot.input)|
      invariant known ==> |elems| == head.1 && iprot.input == EncodeAll(PY_COMPACT, elems[i..]) + rest
    {
      ghost var e, after := None, [];
      if known {
        e, after := Some(elems[i]), EncodeAll(PY_COMPACT, elems[i + 1..]) + rest;
        RT.NextElement(PY_COMPACT, elems[i..], rest);
        assert elems[i..][1..] == elems[i + 1..];
        IsKnown(MachineOf(iprot), iprot.Reader(), elems[i], after);
      }
      var skipped :- Skip(iprot, head.0, e, after);
    }
    if known { RT.NextElement(PY_COMPACT, elems[head.1..], rest); }
    iprot.ReadCollectionEnd(m.containers, m.state);
    return Returns(());
  }

  method SkipMap(iprot: TCompactProtocol, ghost v: Option<Value>, ghost rest: Bytes) returns (r: Outcome<()>)
    requires iprot.state in {ValueRead, ContainerRead}
    modifies iprot`input, iprot`state, iprot`lastFid, iprot`boolValue, iprot`structs, iprot`containers
    ensures r.Returns? ==> MachineOf(iprot) == old(MachineOf(iprot)) && |iprot.input| <= |old(iprot.input)|
    ensures old(Known(MachineOf(iprot), iprot.Reader(), Map, v, rest)) ==> r.Returns? && iprot.input == rest
    decreases |iprot.input|, 0
  {
    hide ReadMapHeadPy, Known, WellTyped, Encode, EncodeEntries, C.PutMapHead, RT.Normal, RT.NormalEntries;
    ghost var m, known := MachineOf(iprot), Known(MachineOf(iprot), iprot.Reader(), Map, v, rest);
    ghost var entries: seq<Entry> := [];
    if known {
      KnownIsSome(m, iprot.Reader(), Map, v, rest);
      entries := v.value.entries;
      RT.MapParts(PY_COMPACT, v.value);
      ConcatAssociative(C.PutMapHead(v.value.kt, v.value.vt, |v.value.entries|),
                        EncodeEntries(PY_COMPACT, v.value.entries), rest);
      ReadMapHeadPyOf(iprot.Reader(), v.value.kt, v.value.vt, |entries|, EncodeEntries(PY_COMPACT, entries) + rest);
    }
    var head :- iprot.ReadMapBegin();
    for i := 0 to head.2
      invariant MachineOf(iprot) == m.(state := ContainerRead, containers := m.containers + [m.state])
      invariant |iprot.input| < |old(iprot.input)|
      invariant known ==> |entries| == head.2 && iprot.input == EncodeEntries(PY_COMPACT, entries[i..]) + rest
    {
      ghost var k, v, afterKey, after := None, None, [], [];
      if known {
        k, v, after := Some(entries[i].k), Some(entries[i].v), EncodeEntries(PY_COMPACT, entries[i + 1..]) + rest;
        afterKey := Encode(PY_COMPACT, entries[i].v) + after;
        RT.NextEntry(PY_COMPACT, entries[i..], rest);
        assert entries[i..][1..] == entries[i + 1..];
        IsKnown(MachineOf(iprot), iprot.Reader(), entries[i].k, afterKey);
      }
      var _ :- Skip(iprot, head.0, k, afterKey);
      if known {
        IsKnown(MachineOf(iprot), iprot.Reader(), entries[i].v, after);
      }
      var _ :- Skip(iprot, head.1, v, after);
    }
    if known { RT.NextEntry(PY_COMPACT, entries[head.2..], rest); }
    iprot.ReadCollectionEnd(m.containers, m.state);
    return Returns(());
  }

  /** The rest of a struct is next. */
  predicate FieldsNext(fs: seq<Field>, last: int, input: Bytes, rest: Bytes) {
    && (forall f | f in fs :: FitsSigned(f.id, 16) && WellTyped(f.val))
    && input == EncodeFields(PY_COMPACT, last, fs) + (STOP + rest)
  }

  /** Of the rest of a struct the header comes first: the stop, or one behind which a value is known. */
  lemma HeaderNext(fs: seq<Field>, s: RState, rest: Bytes) returns (v: Option<Value>, after: Bytes)
    requires FieldsNext(fs, s.last, s.input, rest)
    ensures ReadFieldHeadPy(s).Ok? && (ReadFieldHeadPy(s).val.0.Stop? <==> fs == [])
    ensures fs == [] ==> ReadFieldHeadPy(s).st.input == rest
    ensures fs != [] ==>
      && ReadFieldHeadPy(s).st.last == fs[0].id && FieldsNext(fs[1..], fs[0].id, after, rest)
      && forall m: Machine :: m.state == (if ReadFieldHeadPy(s).val.0.Bool? then BoolRead else ValueRead) ==>
           Known(m, ReadFieldHeadPy(s).st, ReadFieldHeadPy(s).val.0, v, after)
  {
    hide WellTyped, Encode, EncodeField, EncodeFields, FitsSigned, ReadFieldHeadPy, RT.Normal, RT.NormalFields;
    v, after := None, [];
    RT.NextField(PY_COMPACT, s.last, fs, STOP + rest);
    if fs == [] {
      StopAhead(s, rest);
    } else {
      v, after := Some(fs[0].val), EncodeFields(PY_COMPACT, fs[0].id, fs[1..]) + (STOP + rest);
      var s1 := FieldAhead(fs[0], s, after);
    }
  }

  lemma StructNext(m: Machine, s: RState, v: Value, rest: Bytes)
    requires Known(m, s, Struct, Some(v), rest)
    ensures v.VStruct? && FieldsNext(v.fields, 0, s.input, rest)
  {
    hide WellTyped, Encode, EncodeFields, FitsSigned;
    RT.StructParts(PY_COMPACT, v);
    ConcatAssociative(EncodeFields(PY_COMPACT, 0, v.fields), STOP, rest);
  }

  method SkipStruct(iprot: TCompactProtocol, ghost v: Option<Value>, ghost rest: Bytes) returns (r: Outcome<()>)
    requires iprot.state in {ValueRead, ContainerRead}
    modifies iprot`input, iprot`state, iprot`lastFid, iprot`boolValue, iprot`structs, iprot`containers
    ensures r.Returns? ==> MachineOf(iprot) == old(MachineOf(iprot)) && |iprot.input| <= |old(iprot.input)|
    ensures old(Known(MachineOf(iprot), iprot.Reader(), Struct, v, rest)) ==> r.Returns? && iprot.input == rest
    decreases |iprot.input|, 0
  {
    hide ReadFieldHeadPy, Known, FieldsNext;
    ghost var m, known := MachineOf(iprot), Known(MachineOf(iprot), iprot.Reader(), Struct, v, rest);
    ghost var fields: seq<Field> := [];
    if known {
      KnownIsSome(m, iprot.Reader(), Struct, v, rest);
      StructNext(m, iprot.Reader(), v.value, rest);
      fields := v.value.fields;
    }
    iprot.ReadStructBegin();
    while true
      invariant iprot.state == FieldRead && iprot.structs == m.structs + [(m.state, m.lastFid)]
      invariant iprot.containers == m.containers && |iprot.input| <= |old(iprot.input)|
      invariant known ==> FieldsNext(fields, iprot.lastFid, iprot.input, rest)
      decreases |iprot.input|
    {
      ghost var f, after := None, [];
      if known { f, after := HeaderNext(fields, iprot.Reader(), rest); }
      var head :- iprot.ReadFieldBegin();
      if head.0.Stop? {
        break;
      }
      var _ :- Skip(iprot, head.0, f, after);
      iprot.ReadFieldEnd();
      fields := if known then fields[1..] else fields;
    }
    iprot.ReadStructEnd(m.structs, (m.state, m.lastFid));
    return Returns(());
  }
}
