/** The template `skip` run on a protocol object, and the calls by which generated code writes a value. */
module Skipping {
  import opened Bytes
  import opened Wire
  import opened Protocols
  import opened TProtocols
  import C = Compact
  import RT = RoundTrip

  // ----- skip

  /** The outcome of skipping: the specification's end state and the number of bytes taken, or its exception. */
  ghost predicate Skipped(r: Outcome<nat>, st: RState, before: RState, spec: Read<()>) {
    match spec
    case Ok(_, s) => st == s && r.Returns? && Took(r.val, before.input, st.input)
    case Fail(e) => r == Throws(e)
  }

  method SkipScalar(prot: TProtocol, t: TType) returns (r: Outcome<nat>)
    requires !t.Struct? && !t.Map? && !t.Set? && !t.List?
    modifies prot`input, prot`boolValue
    ensures Skipped(r, prot.State(), old(prot.State()), Skip(prot.protocol, t, old(prot.State())))
  {
    hide Protocols.ReadBool, Protocols.ReadByte, Protocols.ReadI16, Protocols.ReadI32, Protocols.ReadI64,
         Protocols.ReadDouble, Protocols.ReadString;
    var n := 0;
    match t {
      case Bool =>
        var boolv;
        boolv, n :- prot.ReadBool();
      case Byte =>
        var bytev;
        bytev, n :- prot.ReadByte();
      case I16 =>
        var i16;
        i16, n :- prot.ReadI16();
      case I32 =>
        var i32;
        i32, n :- prot.ReadI32();
      case I64 =>
        var i64;
        i64, n :- prot.ReadI64();
      case Double =>
        var dub;
        dub, n :- prot.ReadDouble();
      case String =>
        var str;
        str, n :- prot.ReadString();
      case _ =>
    }
    return Returns(n);
  }

  /**
   * `skip`: on every byte string it terminates, and it stops where the specification stops, returning the number of
   * bytes taken, or throws.
   */
  method SkipValue(prot: TProtocol, t: TType) returns (r: Outcome<nat>)
    modifies prot`input, prot`lastFieldId, prot`lastField, prot`boolValue
    ensures Skipped(r, prot.State(), old(prot.State()), Skip(prot.protocol, t, old(prot.State())))
    decreases |prot.input|, 1
  {
    hide Skip;
    match t
    case Struct => r := SkipStruct(prot);
    case Map => r := SkipMap(prot);
    case Set => r := SkipCollection(prot, t);
    case List => r := SkipCollection(prot, t);
    case _ => r := SkipScalar(prot, t);
  }

  method SkipStruct(prot: TProtocol) returns (r: Outcome<nat>)
    modifies prot`input, prot`lastFieldId, prot`lastField, prot`boolValue
    ensures Skipped(r, prot.State(), old(prot.State()), Skip(prot.protocol, Struct, old(prot.State())))
    decreases |prot.input|, 0, 1
  {
    hide SkipFields, StructBegin, StructEnd;
    var n := prot.ReadStructBegin();
    StackPushed(prot.protocol, old(prot.State()));
    var m :- SkipFieldLoop(prot);
    var l := prot.ReadStructEnd();
    r := Returns(n + m + l);
  }

  method SkipMap(prot: TProtocol) returns (r: Outcome<nat>)
    modifies prot`input, prot`lastFieldId, prot`lastField, prot`boolValue
    ensures Skipped(r, prot.State(), old(prot.State()), Skip(prot.protocol, Map, old(prot.State())))
    decreases |prot.input|, 0, 1
  {
    hide Protocols.ReadMapHead, SkipEntries;
    var h, n :- prot.ReadMapBegin();
    var m :- SkipMapLoop(prot, h.0, h.1, h.2);
    r := Returns(n + m);
  }

  method SkipCollection(prot: TProtocol, t: TType) returns (r: Outcome<nat>)
    requires t.Set? || t.List?
    modifies prot`input, prot`lastFieldId, prot`lastField, prot`boolValue
    ensures Skipped(r, prot.State(), old(prot.State()), Skip(prot.protocol, t, old(prot.State())))
    decreases |prot.input|, 0, 1
  {
    hide Protocols.ReadListHead, SkipAll;
    var h, n :- prot.ReadListBegin();
    var m :- SkipListLoop(prot, h.0, h.1);
    r := Returns(n + m);
  }

  lemma StackPushed(p: Protocol, s: RState)
    ensures p.CompactProtocol? ==> StructBegin(p, s).stack != []
    ensures StructBegin(p, s).input == s.input
  {
  }

  /** The field loop. */
  method SkipFieldLoop(prot: TProtocol) returns (r: Outcome<nat>)
    modifies prot`input, prot`lastFieldId, prot`lastField, prot`boolValue
    ensures Skipped(r, prot.State(), old(prot.State()), SkipFields(prot.protocol, old(prot.State())))
    decreases |prot.input|, 0, 0
  {
    hide Protocols.ReadFieldHead, Skip;
    var result := 0;
    while true
      invariant SkipFields(prot.protocol, prot.State()) == SkipFields(prot.protocol, old(prot.State()))
      invariant Took(result, old(prot.input), prot.input)
      decreases |prot.input|
    {
      var h, n :- prot.ReadFieldBegin();
      result := result + n;
      if h.0.Stop? {
        break;
      }
      var m :- SkipValue(prot, h.0);
      result := result + m;
    }
    return Returns(result);
  }

  method SkipListLoop(prot: TProtocol, elemType: TType, size: nat) returns (r: Outcome<nat>)
    modifies prot`input, prot`lastFieldId, prot`lastField, prot`boolValue
    ensures Skipped(r, prot.State(), old(prot.State()), SkipAll(prot.protocol, elemType, size, old(prot.State())))
    decreases |prot.input|, 2
  {
    hide Skip;
    ghost var start := prot.State();
    var result, i := 0, 0;
    while i < size
      invariant i <= size && Took(result, start.input, prot.input)
      invariant SkipAll(prot.protocol, elemType, size - i, prot.State())
             == SkipAll(prot.protocol, elemType, size, start)
    {
      var n :- SkipValue(prot, elemType);
      result := result + n;
      i := i + 1;
    }
    return Returns(result);
  }

  method SkipMapLoop(prot: TProtocol, keyType: TType, valType: TType, size: nat) returns (r: Outcome<nat>)
    modifies prot`input, prot`lastFieldId, prot`lastField, prot`boolValue
    ensures Skipped(r, prot.State(), old(prot.State()),
                    SkipEntries(prot.protocol, keyType, valType, size, old(prot.State())))
    decreases |prot.input|, 2
  {
    hide Skip;
    ghost var start := prot.State();
    var result, i := 0, 0;
    while i < size
      invariant i <= size && Took(result, start.input, prot.input)
      invariant SkipEntries(prot.protocol, keyType, valType, size - i, prot.State())
             == SkipEntries(prot.protocol, keyType, valType, size, start)
    {
      var n :- SkipValue(prot, keyType);
      var m :- SkipValue(prot, valType);
      result := result + n + m;
      i := i + 1;
    }
    return Returns(result);
  }

  // ----- writing values

  /** The calls that write a value: what they append is its encoding, and the object's state is as before. */
  method WriteValue(oprot: TProtocol, v: Value) returns (xfer: nat)
    requires WellTyped(v)
    requires oprot.booleanField == None
    modifies oprot`out, oprot`lastFieldId, oprot`lastField, oprot`booleanField
    ensures oprot.out == old(oprot.out) + Encode(oprot.protocol, v) && xfer == |oprot.out| - |old(oprot.out)|
    ensures oprot.booleanField == None
    ensures oprot.lastFieldId == old(oprot.lastFieldId) && oprot.lastField == old(oprot.lastField)
    decreases v, 2
  {
    hide C.PutI32, C.PutI64, C.PutString, BigEndian, PutListHead, PutMapHead, Narrowed;
    match v
    case VBool(b) => xfer := oprot.WriteBool(b);
    case VByte(i) => xfer := oprot.WriteByte(i);
    case VI16(i) => xfer := oprot.WriteI16(i);
    case VI32(i) => xfer := oprot.WriteI32(i);
    case VI64(i) => xfer := oprot.WriteI64(i);
    case VDouble(bits) => xfer := oprot.WriteDouble(bits);
    case VString(s) => xfer := oprot.WriteString(s);
    case VStruct(fields) => xfer := WriteStruct(oprot, fields);
    case VMap(kt, vt, entries) =>
      xfer := oprot.WriteMapBegin(kt, vt, |entries|);
      ConcatAssociative(old(oprot.out), PutMapHead(oprot.protocol, kt, vt, |entries|),
                        EncodeEntries(oprot.protocol, entries));
      var n := WriteEntries(oprot, entries);
      xfer := xfer + n;
    case VSet(et, elems) => xfer := WriteElements(oprot, et, elems);
    case VList(et, elems) => xfer := WriteElements(oprot, et, elems);
  }

  method WriteElements(oprot: TProtocol, et: TType, elems: seq<Value>) returns (xfer: nat)
    requires |elems| < TWO31 && forall e | e in elems :: WellTyped(e)
    requires oprot.booleanField == None
    modifies oprot`out, oprot`lastFieldId, oprot`lastField, oprot`booleanField
    ensures oprot.out
         == old(oprot.out) + (PutListHead(oprot.protocol, et, |elems|) + EncodeAll(oprot.protocol, elems))
    ensures xfer == |oprot.out| - |old(oprot.out)|
    ensures oprot.booleanField == None
    ensures oprot.lastFieldId == old(oprot.lastFieldId) && oprot.lastField == old(oprot.lastField)
    decreases elems, 1
  {
    hide Encode, PutListHead;
    ghost var p, before := oprot.protocol, oprot.out;
    xfer := oprot.WriteListBegin(et, |elems|);
    for i := 0 to |elems|
      invariant oprot.booleanField == None
      invariant oprot.lastFieldId == old(oprot.lastFieldId) && oprot.lastField == old(oprot.lastField)
      invariant xfer == |oprot.out| - |before|
      invariant oprot.out + EncodeAll(p, elems[i..])
             == before + PutListHead(p, et, |elems|) + EncodeAll(p, elems)
    {
      assert elems[i..][1..] == elems[i + 1..];
      ConcatAssociative(oprot.out, Encode(p, elems[i]), EncodeAll(p, elems[i + 1..]));
      var n := WriteValue(oprot, elems[i]);
      xfer := xfer + n;
    }
    ConcatAssociative(before, PutListHead(p, et, |elems|), EncodeAll(p, elems));
  }

  method WriteEntries(oprot: TProtocol, entries: seq<Entry>) returns (xfer: nat)
    requires forall e | e in entries :: WellTyped(e.k) && WellTyped(e.v)
    requires oprot.booleanField == None
    modifies oprot`out, oprot`lastFieldId, oprot`lastField, oprot`booleanField
    ensures oprot.out == old(oprot.out) + EncodeEntries(oprot.protocol, entries)
    ensures xfer == |oprot.out| - |old(oprot.out)|
    ensures oprot.booleanField == None
    ensures oprot.lastFieldId == old(oprot.lastFieldId) && oprot.lastField == old(oprot.lastField)
    decreases entries, 1
  {
    hide EncodeEntry;
    ghost var p, before := oprot.protocol, oprot.out;
    xfer := 0;
    for i := 0 to |entries|
      invariant oprot.booleanField == None
      invariant oprot.lastFieldId == old(oprot.lastFieldId) && oprot.lastField == old(oprot.lastField)
      invariant xfer == |oprot.out| - |before|
      invariant oprot.out + EncodeEntries(p, entries[i..]) == before + EncodeEntries(p, entries)
    {
      assert entries[i..][1..] == entries[i + 1..];
      ConcatAssociative(oprot.out, EncodeEntry(p, entries[i]), EncodeEntries(p, entries[i + 1..]));
      var n := WriteEntry(oprot, entries[i]);
      xfer := xfer + n;
    }
  }

  method WriteEntry(oprot: TProtocol, e: Entry) returns (xfer: nat)
    requires WellTyped(e.k) && WellTyped(e.v)
    requires oprot.booleanField == None
    modifies oprot`out, oprot`lastFieldId, oprot`lastField, oprot`booleanField
    ensures oprot.out == old(oprot.out) + EncodeEntry(oprot.protocol, e) && xfer == |oprot.out| - |old(oprot.out)|
    ensures oprot.booleanField == None
    ensures oprot.lastFieldId == old(oprot.lastFieldId) && oprot.lastField == old(oprot.lastField)
    decreases e, 3
  {
    hide Encode;
    ConcatAssociative(oprot.out, Encode(oprot.protocol, e.k), Encode(oprot.protocol, e.v));
    var n := WriteValue(oprot, e.k);
    var m := WriteValue(oprot, e.v);
    xfer := n + m;
  }

  /** A field: its header, its value; a compact boolean writes both in one call. */
  method WriteField(oprot: TProtocol, f: Field) returns (xfer: nat)
    requires WellTyped(f.val)
    requires oprot.booleanField == None
    modifies oprot`out, oprot`lastFieldId, oprot`lastField, oprot`booleanField
    ensures oprot.out == old(oprot.out) + EncodeField(oprot.protocol, old(oprot.lastFieldId), f)
    ensures xfer == |oprot.out| - |old(oprot.out)|
    ensures oprot.booleanField == None && oprot.lastField == old(oprot.lastField)
    ensures oprot.lastFieldId == if oprot.protocol.CompactProtocol? then f.id else old(oprot.lastFieldId)
    decreases f, 3
  {
    hide Encode, PutFieldHead, C.PutFieldHead;
    ghost var p, last, before := oprot.protocol, oprot.lastFieldId, oprot.out;
    xfer := oprot.WriteFieldBegin(TypeOf(f.val), f.id);
    if oprot.protocol.CompactProtocol? && f.val.VBool? {
      xfer := oprot.WriteBool(f.val.b);
    } else {
      ConcatAssociative(before, PutFieldHead(p, last, TypeOf(f.val), f.id), Encode(p, f.val));
      var n := WriteValue(oprot, f.val);
      xfer := xfer + n;
    }
  }

  method WriteStruct(oprot: TProtocol, fields: seq<Field>) returns (xfer: nat)
    requires forall f | f in fields :: WellTyped(f.val)
    requires oprot.booleanField == None
    modifies oprot`out, oprot`lastFieldId, oprot`lastField, oprot`booleanField
    ensures oprot.out == old(oprot.out) + (EncodeFields(oprot.protocol, 0, fields) + STOP)
    ensures xfer == |oprot.out| - |old(oprot.out)|
    ensures oprot.booleanField == None
    ensures oprot.lastFieldId == old(oprot.lastFieldId) && oprot.lastField == old(oprot.lastField)
    decreases fields, 1
  {
    hide EncodeField, Encode;
    ghost var p, before := oprot.protocol, oprot.out;
    oprot.WriteStructBegin();
    ghost var stack := oprot.lastField;
    ghost var first := oprot.lastFieldId;
    xfer := 0;
    for i := 0 to |fields|
      invariant oprot.booleanField == None && oprot.lastField == stack
      invariant p.BinaryProtocol? ==> oprot.lastFieldId == first
      invariant xfer == |oprot.out| - |before|
      invariant oprot.out + EncodeFields(p, oprot.lastFieldId, fields[i..]) == before + EncodeFields(p, first, fields)
    {
      ghost var last, written := oprot.lastFieldId, oprot.out;
      assert fields[i..][1..] == fields[i + 1..];
      var n := WriteField(oprot, fields[i]);
      NextField(p, last, oprot.lastFieldId, fields[i..]);
      ConcatAssociative(written, EncodeField(p, last, fields[i]), EncodeFields(p, oprot.lastFieldId, fields[i + 1..]));
      xfer := xfer + n;
    }
    RT.FieldsAnyLast(p, first, fields);
    ConcatAssociative(before, EncodeFields(p, 0, fields), STOP);
    var n := oprot.WriteFieldStop();
    xfer := xfer + n;
    oprot.WriteStructEnd();
    if p.CompactProtocol? {
      SnocInjective(oprot.lastField, oprot.lastFieldId, old(oprot.lastField), old(oprot.lastFieldId));
    }
  }

  lemma NextField(p: Protocol, last: int, next: int, fs: seq<Field>)
    requires fs != [] && next == if p.CompactProtocol? then fs[0].id else last
    ensures EncodeFields(p, last, fs) == EncodeField(p, last, fs[0]) + EncodeFields(p, next, fs[1..])
  {
    hide EncodeField;
    RT.FieldsAnyLast(p, next, fs[1..]);
    RT.FieldsAnyLast(p, fs[0].id, fs[1..]);
  }

  lemma SnocInjective(a: seq<int>, x: int, b: seq<int>, y: int)
    requires a + [x] == b + [y]
    ensures a == b && x == y
  {
    assert (a + [x])[..|a|] == a && (b + [y])[..|b|] == b;
    assert (a + [x])[|a|] == x && (b + [y])[|b|] == y;
  }
}
