/**
 * The protocol interface with its two implementations, what generated code writes and reads through it, and the
 * template `skip`, as functions of the bytes and of the reading state.
 */
module Protocols {
  import opened Bytes
  import opened Wire
  import C = Compact
  import B = Binary

  /** Which byte of a double comes first: in the compact protocol the two languages differ there. */
  datatype ByteOrder = LowFirst | HighFirst

  datatype Protocol = CompactProtocol(doubles: ByteOrder) | BinaryProtocol

  const CPP_COMPACT: Protocol := CompactProtocol(LowFirst)
  const PY_COMPACT: Protocol := CompactProtocol(HighFirst)

  // ----- writing, by protocol

  function PutBool(p: Protocol, b: bool): Bytes {
    if p.CompactProtocol? then [C.PutBool(b)] else B.PutBool(b)
  }

  function PutByte(i: int): Bytes {
    B.PutInt(i, 1)
  }

  function PutI16(p: Protocol, i: int): Bytes {
    if p.CompactProtocol? then C.PutI32(i) else B.PutInt(i, 2)
  }

  function PutI32(p: Protocol, i: int): Bytes {
    if p.CompactProtocol? then C.PutI32(i) else B.PutInt(i, 4)
  }

  function PutI64(p: Protocol, i: int): Bytes {
    if p.CompactProtocol? then C.PutI64(i) else B.PutInt(i, 8)
  }

  predicate LowByteFirst(p: Protocol) {
    p.CompactProtocol? && p.doubles.LowFirst?
  }

  /** The C++ compact protocol writes a double least significant byte first, all others most significant first. */
  function PutDouble(p: Protocol, bits: nat): Bytes {
    if LowByteFirst(p) then LittleEndian(bits, 8) else BigEndian(bits, 8)
  }

  function PutString(p: Protocol, s: Bytes): Bytes {
    if p.CompactProtocol? then C.PutString(s) else B.PutString(s)
  }

  function PutListHead(p: Protocol, et: TType, n: nat): Bytes {
    if p.CompactProtocol? then C.PutListHead(et, n) else B.PutListHead(et, n)
  }

  function PutMapHead(p: Protocol, kt: TType, vt: TType, n: nat): Bytes {
    if p.CompactProtocol? then C.PutMapHead(kt, vt, n) else B.PutMapHead(kt, vt, n)
  }

  function PutFieldHead(p: Protocol, last: int, t: TType, id: int): Bytes {
    if p.CompactProtocol? then C.PutFieldHead(last, id, C.CType(t)) else B.PutFieldHead(t, id)
  }

  const STOP: Bytes := [0]

  // ----- values

  function Encode(p: Protocol, v: Value): Bytes
    decreases v
  {
    match v
    case VBool(b) => PutBool(p, b)
    case VByte(i) => PutByte(i)
    case VI16(i) => PutI16(p, i)
    case VI32(i) => PutI32(p, i)
    case VI64(i) => PutI64(p, i)
    case VDouble(bits) => PutDouble(p, bits)
    case VString(s) => PutString(p, s)
    case VStruct(fields) => EncodeFields(p, 0, fields) + STOP
    case VMap(kt, vt, entries) => PutMapHead(p, kt, vt, |entries|) + EncodeEntries(p, entries)
    case VSet(et, elems) => PutListHead(p, et, |elems|) + EncodeAll(p, elems)
    case VList(et, elems) => PutListHead(p, et, |elems|) + EncodeAll(p, elems)
  }

  function EncodeAll(p: Protocol, vs: seq<Value>): Bytes
    decreases vs
  {
    if vs == [] then [] else Encode(p, vs[0]) + EncodeAll(p, vs[1..])
  }

  function EncodeEntries(p: Protocol, es: seq<Entry>): Bytes
    decreases es
  {
    if es == [] then [] else EncodeEntry(p, es[0]) + EncodeEntries(p, es[1..])
  }

  function EncodeEntry(p: Protocol, e: Entry): Bytes
    decreases e
  {
    Encode(p, e.k) + Encode(p, e.v)
  }

  /** The value of a boolean field is in its compact header. */
  function EncodeField(p: Protocol, last: int, f: Field): Bytes
    decreases f
  {
    if p.CompactProtocol? && f.val.VBool? then C.PutFieldHead(last, f.id, C.PutBool(f.val.b))
    else PutFieldHead(p, last, TypeOf(f.val), f.id) + Encode(p, f.val)
  }

  function EncodeFields(p: Protocol, last: int, fs: seq<Field>): Bytes
    decreases fs
  {
    if fs == [] then [] else EncodeField(p, last, fs[0]) + EncodeFields(p, fs[0].id, fs[1..])
  }

  // ----- reading, by protocol

  function ReadBool(p: Protocol, s: RState): (r: Read<bool>)
    ensures r.Ok? && p.BinaryProtocol? ==> r.st == s.(input := r.st.input)
    ensures r.Ok? ==> |r.st.input| <= |s.input| && r.st.last == s.last && r.st.stack == s.stack
    ensures r.Ok? && s.pending.None? ==> r.st.pending.None? && |r.st.input| < |s.input|
  {
    if p.CompactProtocol? then C.ReadBool(s) else B.ReadBool(s)
  }

  function ReadByte(s: RState): (r: Read<int>)
    ensures r.Ok? ==> Advanced(s, r.st)
  {
    B.ReadInt(s, 1)
  }

  function ReadI16(p: Protocol, s: RState): (r: Read<int>)
    ensures r.Ok? ==> Advanced(s, r.st)
  {
    if p.CompactProtocol? then C.ReadI16(s) else B.ReadInt(s, 2)
  }

  function ReadI32(p: Protocol, s: RState): (r: Read<int>)
    ensures r.Ok? ==> Advanced(s, r.st)
  {
    if p.CompactProtocol? then C.ReadI32(s) else B.ReadInt(s, 4)
  }

  function ReadI64(p: Protocol, s: RState): (r: Read<int>)
    ensures r.Ok? ==> Advanced(s, r.st)
  {
    if p.CompactProtocol? then C.ReadI64(s) else B.ReadInt(s, 8)
  }

  function ReadDouble(p: Protocol, s: RState): (r: Read<nat>)
    ensures r.Ok? ==> Advanced(s, r.st)
  {
    var (b, s1) :- ReadBytes(s, 8);
    Ok(if LowByteFirst(p) then FromLittleEndian(b) else FromBigEndian(b), s1)
  }

  function ReadString(p: Protocol, s: RState): (r: Read<Bytes>)
    ensures r.Ok? ==> Advanced(s, r.st)
  {
    if p.CompactProtocol? then C.ReadString(s) else B.ReadString(s)
  }

  function ReadFieldHead(p: Protocol, s: RState): (r: Read<(TType, int)>)
    ensures r.Ok? && p.BinaryProtocol? ==> r.st == s.(input := r.st.input)
    ensures r.Ok? ==> |r.st.input| < |s.input| && r.st.stack == s.stack
    ensures r.Ok? && r.val.0.Stop? ==> r.st.last == s.last && r.st.pending == s.pending
  {
    if p.CompactProtocol? then C.ReadFieldHead(s) else B.ReadFieldHead(s)
  }

  function ReadListHead(p: Protocol, s: RState): (r: Read<(TType, nat)>)
    ensures r.Ok? ==> Advanced(s, r.st)
  {
    if p.CompactProtocol? then C.ReadListHead(s) else B.ReadListHead(s)
  }

  function ReadMapHead(p: Protocol, s: RState): (r: Read<(TType, TType, nat)>)
    ensures r.Ok? ==> Advanced(s, r.st)
  {
    if p.CompactProtocol? then C.ReadMapHead(s) else B.ReadMapHead(s)
  }

  /** The compact protocol keeps the field id of the enclosing struct on a stack. */
  function StructBegin(p: Protocol, s: RState): RState {
    if p.CompactProtocol? then s.(stack := s.stack + [s.last], last := 0) else s
  }

  function StructEnd(p: Protocol, s: RState): RState
    requires p.CompactProtocol? ==> s.stack != []
  {
    if p.CompactProtocol? then s.(last := s.stack[|s.stack| - 1], stack := s.stack[..|s.stack| - 1]) else s
  }

  // ----- what generated readers do

  /** Reads a value of the announced type. */
  function Decode(p: Protocol, t: TType, s: RState): (r: Read<Value>)
    ensures r.Ok? ==> |r.st.input| <= |s.input| && r.st.last == s.last && r.st.stack == s.stack
    decreases |s.input|, 1
  {
    match t
    case Bool => var (b, s1) :- ReadBool(p, s); Ok(VBool(b), s1)
    case Byte => var (i, s1) :- ReadByte(s); Ok(VByte(i), s1)
    case I16 => var (i, s1) :- ReadI16(p, s); Ok(VI16(i), s1)
    case I32 => var (i, s1) :- ReadI32(p, s); Ok(VI32(i), s1)
    case I64 => var (i, s1) :- ReadI64(p, s); Ok(VI64(i), s1)
    case Double => var (d, s1) :- ReadDouble(p, s); Ok(VDouble(d), s1)
    case String => var (v, s1) :- ReadString(p, s); Ok(VString(v), s1)
    case Struct => var (fs, s1) :- DecodeFields(p, StructBegin(p, s)); Ok(VStruct(fs), StructEnd(p, s1))
    case Map =>
      var (h, s1) :- ReadMapHead(p, s);
      var (es, s2) :- DecodeEntries(p, h.0, h.1, h.2, s1);
      Ok(VMap(h.0, h.1, es), s2)
    case Set =>
      var (h, s1) :- ReadListHead(p, s);
      var (vs, s2) :- DecodeAll(p, h.0, h.1, s1);
      Ok(VSet(h.0, vs), s2)
    case List =>
      var (h, s1) :- ReadListHead(p, s);
      var (vs, s2) :- DecodeAll(p, h.0, h.1, s1);
      Ok(VList(h.0, vs), s2)
    case _ => Fail(UnknownType)
  }

  function DecodeAll(p: Protocol, et: TType, n: nat, s: RState): (r: Read<seq<Value>>)
    ensures r.Ok? ==> |r.st.input| <= |s.input| && r.st.last == s.last && r.st.stack == s.stack
    decreases |s.input|, 2, n
  {
    if n == 0 then Ok([], s)
    else
      var (v, s1) :- Decode(p, et, s);
      var (vs, s2) :- DecodeAll(p, et, n - 1, s1);
      Ok([v] + vs, s2)
  }

  function DecodeEntries(p: Protocol, kt: TType, vt: TType, n: nat, s: RState): (r: Read<seq<Entry>>)
    ensures r.Ok? ==> |r.st.input| <= |s.input| && r.st.last == s.last && r.st.stack == s.stack
    decreases |s.input|, 2, n
  {
    if n == 0 then Ok([], s)
    else
      var (k, s1) :- Decode(p, kt, s);
      var (v, s2) :- Decode(p, vt, s1);
      var (es, s3) :- DecodeEntries(p, kt, vt, n - 1, s2);
      Ok([Entry(k, v)] + es, s3)
  }

  /** Reads fields up to the stop. */
  function DecodeFields(p: Protocol, s: RState): (r: Read<seq<Field>>)
    ensures r.Ok? ==> |r.st.input| < |s.input| && r.st.stack == s.stack
    ensures r.Ok? && p.BinaryProtocol? ==> r.st.last == s.last
    decreases |s.input|, 0
  {
    var (h, s1) :- ReadFieldHead(p, s);
    if h.0.Stop? then Ok([], s1)
    else
      var (v, s2) :- Decode(p, h.0, s1);
      var (fs, s3) :- DecodeFields(p, s2);
      Ok([Field(h.1, v)] + fs, s3)
  }

  // ----- skip

  /** `skip`: a type it does not know takes no input. */
  function Skip(p: Protocol, t: TType, s: RState): (r: Read<()>)
    ensures r.Ok? && p.BinaryProtocol? ==> r.st == s.(input := r.st.input)
    ensures r.Ok? ==> |r.st.input| <= |s.input| && r.st.last == s.last && r.st.stack == s.stack
    decreases |s.input|, 1
  {
    match t
    case Bool => var (_, s1) :- ReadBool(p, s); Ok((), s1)
    case Byte => var (_, s1) :- ReadByte(s); Ok((), s1)
    case I16 => var (_, s1) :- ReadI16(p, s); Ok((), s1)
    case I32 => var (_, s1) :- ReadI32(p, s); Ok((), s1)
    case I64 => var (_, s1) :- ReadI64(p, s); Ok((), s1)
    case Double => var (_, s1) :- ReadDouble(p, s); Ok((), s1)
    case String => var (_, s1) :- ReadString(p, s); Ok((), s1)
    case Struct => var (_, s1) :- SkipFields(p, StructBegin(p, s)); Ok((), StructEnd(p, s1))
    case Map =>
      var (h, s1) :- ReadMapHead(p, s);
      SkipEntries(p, h.0, h.1, h.2, s1)
    case Set =>
      var (h, s1) :- ReadListHead(p, s);
      SkipAll(p, h.0, h.1, s1)
    case List =>
      var (h, s1) :- ReadListHead(p, s);
      SkipAll(p, h.0, h.1, s1)
    case _ => Ok((), s)
  }

  function SkipAll(p: Protocol, et: TType, n: nat, s: RState): (r: Read<()>)
    ensures r.Ok? && p.BinaryProtocol? ==> r.st == s.(input := r.st.input)
    ensures r.Ok? ==> |r.st.input| <= |s.input| && r.st.last == s.last && r.st.stack == s.stack
    decreases |s.input|, 2, n
  {
    if n == 0 then Ok((), s)
    else
      var (_, s1) :- Skip(p, et, s);
      SkipAll(p, et, n - 1, s1)
  }

  function SkipEntries(p: Protocol, kt: TType, vt: TType, n: nat, s: RState): (r: Read<()>)
    ensures r.Ok? && p.BinaryProtocol? ==> r.st == s.(input := r.st.input)
    ensures r.Ok? ==> |r.st.input| <= |s.input| && r.st.last == s.last && r.st.stack == s.stack
    decreases |s.input|, 2, n
  {
    if n == 0 then Ok((), s)
    else
      var (_, s1) :- Skip(p, kt, s);
      var (_, s2) :- Skip(p, vt, s1);
      SkipEntries(p, kt, vt, n - 1, s2)
  }

  function SkipFields(p: Protocol, s: RState): (r: Read<()>)
    ensures r.Ok? && p.BinaryProtocol? ==> r.st == s.(input := r.st.input)
    ensures r.Ok? ==> |r.st.input| < |s.input| && r.st.stack == s.stack
    ensures r.Ok? && p.BinaryProtocol? ==> r.st.last == s.last
    decreases |s.input|, 0
  {
    var (h, s1) :- ReadFieldHead(p, s);
    if h.0.Stop? then Ok((), s1)
    else
      var (_, s2) :- Skip(p, h.0, s1);
      SkipFields(p, s2)
  }
}
