/**
 * The protocol object as it is used: methods that append to the transport or consume from it and that keep the field
 * ids and the boolean of the compact protocol between calls.
 */
module TProtocols {
  import opened Bytes
  import opened Bits
  import opened Wire
  import opened Varints
  import opened Protocols
  import C = Compact
  import B = Binary
  import M = Messages

  /** What a call returns, or the exception it throws. */
  datatype Outcome<+T> = Returns(val: T) | Throws(error: Error) {
    predicate IsFailure() {
      Throws?
    }
    function PropagateFailure<U>(): Outcome<U>
      requires Throws?
    {
      Throws(error)
    }
    function Extract(): T
      requires Returns?
    {
      val
    }
  }

  /** A call did what the specification says: same result and state after it, or the same exception. */
  ghost predicate Agrees<T(!new)>(r: Outcome<T>, st: RState, spec: Read<T>) {
    match spec
    case Ok(v, s) => r == Returns(v) && st == s
    case Fail(e) => r == Throws(e)
  }

  /** n bytes of the input have been consumed. */
  ghost predicate Took(n: nat, before: Bytes, after: Bytes) {
    |before| == n + |after|
  }

  class TProtocol {
    const protocol: Protocol
    /** Bytes written so far, and bytes not yet read. */
    var out: Bytes
    var input: Bytes
    /** The field id last written or read, and those of the enclosing structs. */
    var lastFieldId: int
    var lastField: seq<int>
    /** Whether the binary protocol insists on, and writes, a version in front of a message. */
    var strictRead: bool
    var strictWrite: bool
    /** Writing: the id of a boolean field whose header waits for its value. */
    var booleanField: Option<int>
    /** Reading: the value that came with the header of a boolean field. */
    var boolValue: Option<bool>

    constructor (protocol: Protocol, input: Bytes)
      ensures this.protocol == protocol && out == [] && booleanField == None
      ensures State() == RState(input, 0, [], None)
    {
      this.protocol, this.input := protocol, input;
      out, lastFieldId, lastField, booleanField, boolValue := [], 0, [], None, None;
      strictRead, strictWrite := false, true;
    }

    function State(): RState
      reads this
    {
      RState(input, lastFieldId, lastField, boolValue)
    }

    // ----- writing

    method Write(bytes: Bytes) returns (n: nat)
      modifies `out
      ensures out == old(out) + bytes && n == |bytes|
    {
      out := out + bytes;
      n := |bytes|;
    }

    method WriteByte(i: int) returns (n: nat)
      modifies `out
      ensures out == old(out) + PutByte(i) && n == |out| - |old(out)|
    {
      n := Write(B.PutInt(i, 1));
    }

    method WriteInt(i: int, k: nat) returns (n: nat)
      modifies `out
      ensures out == old(out) + B.PutInt(i, k) && n == |out| - |old(out)|
    {
      n := Write(BigEndian(ToUnsigned(i, 8 * k), k));
    }

    method WriteVarintOf(v: nat) returns (n: nat)
      modifies `out
      ensures out == old(out) + Varint(v) && n == |out| - |old(out)|
    {
      var buf := WriteVarint(v);
      n := Write(buf);
    }

    method WriteI16(i: int) returns (n: nat)
      modifies `out
      ensures out == old(out) + PutI16(protocol, i) && n == |out| - |old(out)|
    {
      if protocol.CompactProtocol? { n := WriteVarintOf(ToZigzagCpp(i, 32)); } else { n := WriteInt(i, 2); }
    }

    method WriteI32(i: int) returns (n: nat)
      modifies `out
      ensures out == old(out) + PutI32(protocol, i) && n == |out| - |old(out)|
    {
      if protocol.CompactProtocol? { n := WriteVarintOf(ToZigzagCpp(i, 32)); } else { n := WriteInt(i, 4); }
    }

    method WriteI64(i: int) returns (n: nat)
      modifies `out
      ensures out == old(out) + PutI64(protocol, i) && n == |out| - |old(out)|
    {
      if protocol.CompactProtocol? { n := WriteVarintOf(ToZigzagCpp(i, 64)); } else { n := WriteInt(i, 8); }
    }

    method WriteDouble(bits: nat) returns (n: nat)
      modifies `out
      ensures out == old(out) + PutDouble(protocol, bits) && n == |out| - |old(out)|
    {
      n := Write(if LowByteFirst(protocol) then LittleEndian(bits, 8) else BigEndian(bits, 8));
    }

    /** The size is narrowed to `uint32_t`, and so many bytes are written. */
    method WriteString(s: Bytes) returns (n: nat)
      modifies `out
      ensures out == old(out) + PutString(protocol, Narrowed(s)) && n == |out| - |old(out)|
    {
      ghost var before := out;
      var sent := Narrowed(s);
      if protocol.CompactProtocol? { n := WriteVarintOf(|sent|); } else { n := WriteInt(|sent|, 4); }
      ConcatAssociative(before, out[|before|..], sent);
      assert out[|before|..] == if protocol.CompactProtocol? then Varint(|sent|) else B.PutInt(|sent|, 4);
      var m := Write(sent);
      n := n + m;
    }

    /** The size is a `uint32_t`; the compact protocol takes it for an `int32_t`, negative from 2^31 on. */
    method WriteListBegin(et: TType, size: nat) returns (n: nat)
      requires size < TWO32
      modifies `out
      ensures n == |out| - |old(out)|
      ensures size < TWO31 || protocol.BinaryProtocol? ==> out == old(out) + PutListHead(protocol, et, size)
      ensures size >= TWO31 && protocol.CompactProtocol? ==> out == old(out) + [size % 16 * 16 + C.CType(et)]
    {
      hide Varint, B.PutInt, C.CType, PutListHead;
      ListHeadForms(protocol, et, size);
      var m := 0;
      if protocol.CompactProtocol? {
        if (if size < TWO31 then size else size - TWO32) <= 14 {
          n := Write([size % 16 * 16 + C.CType(et)]);
        } else {
          n := Write([0xf0 + C.CType(et)]);
          ConcatAssociative(old(out), [0xf0 + C.CType(et)], Varint(size));
          m := WriteVarintOf(size);
        }
      } else {
        n := WriteTypeAndSize(et, size);
      }
      n := n + m;
    }

    /** The size is a `uint32_t`. */
    method WriteMapBegin(kt: TType, vt: TType, size: nat) returns (n: nat)
      requires size < TWO32
      modifies `out
      ensures out == old(out) + PutMapHead(protocol, kt, vt, size) && n == |out| - |old(out)|
    {
      hide Varint, B.PutInt, C.CType, PutMapHead;
      MapHeadForms(protocol, kt, vt, size);
      var m := 0;
      if protocol.CompactProtocol? {
        if size == 0 {
          n := Write([0]);
        } else {
          var kv := [C.CType(kt) * 16 + C.CType(vt)];
          n := WriteVarintOf(size);
          ConcatAssociative(old(out), Varint(size), kv);
          m := Write(kv);
        }
      } else {
        n := WriteByte(kt.Code());
        m := WriteTypeAndSize(vt, size);
        ConcatAssociative(old(out), PutByte(kt.Code()), PutByte(vt.Code()) + B.PutInt(size, 4));
      }
      n := n + m;
    }

    method WriteTypeAndSize(t: TType, size: nat) returns (n: nat)
      modifies `out
      ensures out == old(out) + (PutByte(t.Code()) + B.PutInt(size, 4)) && n == |out| - |old(out)|
    {
      n := WriteByte(t.Code());
      ConcatAssociative(old(out), PutByte(t.Code()), B.PutInt(size, 4));
      var m := WriteInt(size, 4);
      n := n + m;
    }

    method WriteStructBegin()
      modifies `lastFieldId, `lastField
      ensures protocol.CompactProtocol? ==> lastFieldId == 0 && lastField == old(lastField) + [old(lastFieldId)]
      ensures protocol.BinaryProtocol? ==> lastFieldId == old(lastFieldId) && lastField == old(lastField)
    {
      if protocol.CompactProtocol? {
        lastField := lastField + [lastFieldId];
        lastFieldId := 0;
      }
    }

    method WriteStructEnd()
      requires protocol.CompactProtocol? ==> lastField != []
      modifies `lastFieldId, `lastField
      ensures protocol.CompactProtocol? ==> old(lastField) == lastField + [lastFieldId]
      ensures protocol.BinaryProtocol? ==> lastFieldId == old(lastFieldId) && lastField == old(lastField)
    {
      if protocol.CompactProtocol? {
        lastFieldId := lastField[|lastField| - 1];
        lastField := lastField[..|lastField| - 1];
      }
    }

    /** `writeFieldBeginInternal` */
    method WriteFieldHead(id: int, ctype: nat) returns (n: nat)
      requires ctype <= 15
      modifies `out, `lastFieldId
      ensures out == old(out) + C.PutFieldHead(old(lastFieldId), id, ctype) && n == |out| - |old(out)|
      ensures lastFieldId == id
    {
      hide Varint, C.PutI32;
      var m := 0;
      if id > lastFieldId && id - lastFieldId <= 15 {
        n := Write([(id - lastFieldId) * 16 + ctype]);
      } else {
        n := Write([ctype]);
        ConcatAssociative(old(out), [ctype], C.PutI32(id));
        m := WriteVarintOf(ToZigzagCpp(id, 32));
        assert C.PutI32(id) == Varint(ToZigzagCpp(id, 32)) by { PutI32Is(id); }
      }
      n := n + m;
      lastFieldId := id;
    }

    /** The header of a compact boolean field waits for `WriteBool`. */
    method WriteFieldBegin(t: TType, id: int) returns (n: nat)
      modifies `out, `lastFieldId, `booleanField
      ensures n == |out| - |old(out)|
      ensures protocol.CompactProtocol? && t.Bool? ==>
        booleanField == Some(id) && out == old(out) && lastFieldId == old(lastFieldId)
      ensures !(protocol.CompactProtocol? && t.Bool?) ==>
        && booleanField == old(booleanField)
        && out == old(out) + PutFieldHead(protocol, old(lastFieldId), t, id)
        && lastFieldId == if protocol.CompactProtocol? then id else old(lastFieldId)
    {
      if protocol.CompactProtocol? {
        if t.Bool? {
          booleanField := Some(id);
          n := 0;
        } else {
          n := WriteFieldHead(id, C.CType(t));
        }
      } else {
        n := WriteByte(t.Code());
        ConcatAssociative(old(out), PutByte(t.Code()), B.PutInt(id, 2));
        var m := WriteInt(id, 2);
        n := n + m;
      }
    }

    method WriteFieldStop() returns (n: nat)
      modifies `out
      ensures out == old(out) + STOP && n == 1
    {
      n := Write(STOP);
    }

    method WriteBool(b: bool) returns (n: nat)
      modifies `out, `lastFieldId, `booleanField
      ensures n == |out| - |old(out)| && booleanField == if protocol.CompactProtocol? then None else old(booleanField)
      ensures protocol.CompactProtocol? && old(booleanField).Some? ==>
        && out == old(out) + C.PutFieldHead(old(lastFieldId), old(booleanField).value, C.PutBool(b))
        && lastFieldId == old(booleanField).value
      ensures !(protocol.CompactProtocol? && old(booleanField).Some?) ==>
        out == old(out) + PutBool(protocol, b) && lastFieldId == old(lastFieldId)
    {
      if protocol.BinaryProtocol? {
        n := Write(if b then [1] else [0]);
      } else if booleanField.Some? {
        n := WriteFieldHead(booleanField.value, if b then C.CT_TRUE else C.CT_FALSE);
        booleanField := None;
      } else {
        n := Write([if b then C.CT_TRUE else C.CT_FALSE]);
      }
    }

    /** `writeMessageBegin` */
    method WriteMessageBegin(m: M.Message) returns (n: nat)
      modifies `out
      ensures n == |out| - |old(out)|
      ensures out
           == old(out) + if protocol.CompactProtocol? then M.PutCompactCpp(m) else M.PutBinaryCpp(strictWrite, m)
    {
      if protocol.CompactProtocol? { n := WriteCompactMessageBegin(m); } else { n := WriteBinaryMessageBegin(m); }
    }

    method WriteCompactMessageBegin(m: M.Message) returns (n: nat)
      requires protocol.CompactProtocol?
      modifies `out
      ensures out == old(out) + M.PutCompactCpp(m) && n == |out| - |old(out)|
    {
      hide Varint, Or, And, ToUnsigned;
      var head := [M.PROTOCOL_ID, Or(And(1, 0x1f), And(m.mtype * 32, 0xe0)) % 256];
      ghost var seqid := Varint(ToUnsigned(m.seqid, 32));
      ConcatAssociative(out, head, seqid + C.PutString(Narrowed(m.name)));
      ConcatAssociative(out + head, seqid, C.PutString(Narrowed(m.name)));
      n := Write(head);
      var k := WriteVarintOf(ToUnsigned(m.seqid, 32));
      var l := WriteString(m.name);
      n := n + k + l;
    }

    method WriteBinaryMessageBegin(m: M.Message) returns (n: nat)
      requires protocol.BinaryProtocol?
      modifies `out
      ensures out == old(out) + M.PutBinaryCpp(strictWrite, m) && n == |out| - |old(out)|
    {
      hide Or, B.PutInt;
      ghost var name, seqid := B.PutString(Narrowed(m.name)), B.PutInt(m.seqid, 4);
      var k;
      if strictWrite {
        ghost var version := B.PutInt(Or(m.mtype, M.VERSION_1), 4);
        ConcatAssociative(out, version, name + seqid);
        ConcatAssociative(out + version, name, seqid);
        n := WriteI32(Or(m.mtype, M.VERSION_1));
        k := WriteString(m.name);
      } else {
        ConcatAssociative(out, name, PutByte(m.mtype) + seqid);
        ConcatAssociative(out + name, PutByte(m.mtype), seqid);
        n := WriteString(m.name);
        k := WriteByte(m.mtype);
      }
      var l := WriteI32(m.seqid);
      n := n + k + l;
    }

    // ----- reading; every call also returns how many bytes it took

    method ReadAll(k: nat) returns (r: Outcome<Bytes>, n: nat)
      modifies `input
      ensures Agrees(r, State(), ReadBytes(old(State()), k)) && (r.Returns? ==> Took(n, old(input), input))
    {
      n := k;
      if |input| < k {
        return Throws(EndOfFile), n;
      }
      r := Returns(input[..k]);
      input := input[k..];
    }

    method ReadOne() returns (r: Outcome<byte>, n: nat)
      modifies `input
      ensures Agrees(r, State(), ReadUByte(old(State()))) && (r.Returns? ==> Took(n, old(input), input))
    {
      n := 1;
      if input == [] {
        return Throws(EndOfFile), n;
      }
      r := Returns(input[0]);
      input := input[1..];
    }

    method ReadInt(k: nat) returns (r: Outcome<int>, n: nat)
      requires k >= 1
      modifies `input
      ensures Agrees(r, State(), B.ReadInt(old(State()), k)) && (r.Returns? ==> Took(n, old(input), input))
    {
      hide ToSigned, FromBigEndian;
      n := 0;
      var b;
      b, n :- ReadAll(k);
      r := Returns(ToSigned(FromBigEndian(b), 8 * k));
    }

    method ReadVarintOf() returns (r: Outcome<nat>, n: nat)
      modifies `input
      ensures Agrees(r, State(), ReadVarint(old(State()))) && (r.Returns? ==> Took(n, old(input), input))
    {
      hide VarintLoop;
      var lends: bool := *;
      var v := ReadVarint64(State(), lends);
      n := 0;
      if v.Fail? {
        return Throws(v.error), n;
      }
      n := |input| - |v.st.input|;
      input := v.st.input;
      r := Returns(v.val);
    }

    method ReadSize() returns (r: Outcome<int>, n: nat)
      modifies `input
      ensures Agrees(r, State(), C.ReadSize(old(State()))) && (r.Returns? ==> Took(n, old(input), input))
    {
      hide ReadVarint, ToSigned;
      n := 0;
      var v;
      v, n :- ReadVarintOf();
      r := Returns(ToSigned(v, 32));
    }

    method ReadByte() returns (r: Outcome<int>, n: nat)
      modifies `input
      ensures Agrees(r, State(), Protocols.ReadByte(old(State()))) && (r.Returns? ==> Took(n, old(input), input))
    {
      r, n := ReadInt(1);
    }

    method ReadI16() returns (r: Outcome<int>, n: nat)
      modifies `input
      ensures Agrees(r, State(), Protocols.ReadI16(protocol, old(State())))
      ensures r.Returns? ==> Took(n, old(input), input)
    {
      hide ReadVarint, ToSigned, FromZigzagCpp, ToUnsigned, B.ReadInt;
      n := 0;
      if protocol.CompactProtocol? {
        var v;
        v, n :- ReadVarintOf();
        r := Returns(ToSigned(FromZigzagCpp(ToUnsigned(v, 32), 32), 16));
      } else {
        r, n := ReadInt(2);
      }
    }

    method ReadI32() returns (r: Outcome<int>, n: nat)
      modifies `input
      ensures Agrees(r, State(), Protocols.ReadI32(protocol, old(State())))
      ensures r.Returns? ==> Took(n, old(input), input)
    {
      hide ReadVarint, ToSigned, FromZigzagCpp, ToUnsigned, B.ReadInt;
      n := 0;
      if protocol.CompactProtocol? {
        var v;
        v, n :- ReadVarintOf();
        r := Returns(FromZigzagCpp(ToUnsigned(v, 32), 32));
      } else {
        r, n := ReadInt(4);
      }
    }

    method ReadI64() returns (r: Outcome<int>, n: nat)
      modifies `input
      ensures Agrees(r, State(), Protocols.ReadI64(protocol, old(State())))
      ensures r.Returns? ==> Took(n, old(input), input)
    {
      hide ReadVarint, ToSigned, FromZigzagCpp, ToUnsigned, B.ReadInt;
      n := 0;
      if protocol.CompactProtocol? {
        var v;
        v, n :- ReadVarintOf();
        r := Returns(FromZigzagCpp(v % TWO64, 64));
      } else {
        r, n := ReadInt(8);
      }
    }

    method ReadDouble() returns (r: Outcome<nat>, n: nat)
      modifies `input
      ensures Agrees(r, State(), Protocols.ReadDouble(protocol, old(State())))
      ensures r.Returns? ==> Took(n, old(input), input)
    {
      hide FromLittleEndian, FromBigEndian;
      n := 0;
      var b;
      b, n :- ReadAll(8);
      r := Returns(if LowByteFirst(protocol) then FromLittleEndian(b) else FromBigEndian(b));
    }

    method ReadString() returns (r: Outcome<Bytes>, n: nat)
      modifies `input
      ensures Agrees(r, State(), Protocols.ReadString(protocol, old(State())))
      ensures r.Returns? ==> Took(n, old(input), input)
    {
      hide C.ReadSize, B.ReadInt;
      n := 0;
      var size;
      if protocol.CompactProtocol? { size, n :- ReadSize(); } else { size, n :- ReadInt(4); }
      if size == 0 {
        return Returns([]), n;
      }
      if size < 0 {
        return Throws(NegativeSize), n;
      }
      var m;
      r, m := ReadAll(size);
      n := n + m;
    }

    /** `readMessageBegin` */
    method ReadMessageBegin() returns (r: Outcome<M.Message>, n: nat)
      modifies `input
      ensures Agrees(r, State(), if protocol.CompactProtocol? then M.ReadCompactCpp(old(State()))
                                 else M.ReadBinaryCpp(strictRead, old(State())))
      ensures r.Returns? ==> Took(n, old(input), input)
    {
      if protocol.CompactProtocol? { r, n := ReadCompactMessageBegin(); } else { r, n := ReadBinaryMessageBegin(); }
    }

    method ReadCompactMessageBegin() returns (r: Outcome<M.Message>, n: nat)
      requires protocol.CompactProtocol?
      modifies `input
      ensures Agrees(r, State(), M.ReadCompactCpp(old(State()))) && (r.Returns? ==> Took(n, old(input), input))
    {
      hide And, Shr, ToSigned, C.ReadSize, C.ReadString;
      n := 0;
      var id, versionAndType, seqid, name, k;
      id, n :- ReadOne();
      if id != M.PROTOCOL_ID {
        return Throws(BadVersion), n;
      }
      versionAndType, k :- ReadOne();
      n := n + k;
      if And(versionAndType, 0x1f) != 1 {
        return Throws(BadVersion), n;
      }
      seqid, k :- ReadSize();
      n := n + k;
      name, k :- ReadString();
      return Returns(M.Message(name, And(Shr(ToSigned(versionAndType, 8), 5), 3), seqid)), n + k;
    }

    method ReadBinaryMessageBegin() returns (r: Outcome<M.Message>, n: nat)
      requires protocol.BinaryProtocol?
      modifies `input
      ensures Agrees(r, State(), M.ReadBinaryCpp(strictRead, old(State())))
      ensures r.Returns? ==> Took(n, old(input), input)
    {
      hide And, ToSigned, B.ReadInt, B.ReadString, B.ReadStringBody;
      n := 0;
      var sz, name, mtype, seqid, k;
      sz, n :- ReadInt(4);
      if sz < 0 {
        if And(sz, ToSigned(0xffff_0000, 32)) != M.VERSION_1 {
          return Throws(BadVersion), n;
        }
        mtype := And(sz, 0xff);
        name, k :- ReadString();
        n := n + k;
      } else {
        if strictRead {
          return Throws(BadVersion), n;
        }
        name, k :- ReadStringBody(sz);
        n := n + k;
        mtype, k :- ReadInt(1);
        n := n + k;
      }
      seqid, k :- ReadInt(4);
      return Returns(M.Message(name, mtype, seqid)), n + k;
    }

    method ReadStringBody(size: int) returns (r: Outcome<Bytes>, n: nat)
      modifies `input
      ensures Agrees(r, State(), B.ReadStringBody(old(State()), size)) && (r.Returns? ==> Took(n, old(input), input))
    {
      n := 0;
      if size < 0 {
        return Throws(NegativeSize), n;
      }
      if size == 0 {
        return Returns([]), n;
      }
      r, n := ReadAll(size);
    }

    /** A boolean that came with its field header takes no further bytes. */
    method ReadBool() returns (r: Outcome<bool>, n: nat)
      modifies `input, `boolValue
      ensures Agrees(r, State(), Protocols.ReadBool(protocol, old(State())))
      ensures r.Returns? ==> Took(n, old(input), input)
    {
      n := 0;
      if protocol.CompactProtocol? && boolValue.Some? {
        r := Returns(boolValue.value);
        boolValue := None;
      } else {
        var b;
        b, n :- ReadOne();
        r := Returns(if protocol.CompactProtocol? then b == C.CT_TRUE else b != 0);
      }
    }

    method ReadType() returns (r: Outcome<TType>, n: nat)
      modifies `input
      ensures Agrees(r, State(), B.ReadType(old(State()))) && (r.Returns? ==> Took(n, old(input), input))
    {
      hide B.ReadInt, TypeOfCode;
      n := 0;
      var c;
      c, n :- ReadInt(1);
      r := Returns(TypeOfCode(c));
    }

    /** `getTType` */
    method GetTType(c: nat) returns (r: Outcome<TType>)
      ensures Agrees(r, State(), C.GetTType(State(), c))
    {
      hide C.TypeOfCType;
      var t := C.TypeOfCType(c);
      return if t.Some? then Returns(t.value) else Throws(UnknownType);
    }

    method ReadStructBegin() returns (n: nat)
      modifies `lastFieldId, `lastField
      ensures State() == StructBegin(protocol, old(State())) && n == 0
    {
      if protocol.CompactProtocol? {
        lastField := lastField + [lastFieldId];
        lastFieldId := 0;
      }
      n := 0;
    }

    method ReadStructEnd() returns (n: nat)
      requires protocol.CompactProtocol? ==> lastField != []
      modifies `lastFieldId, `lastField
      ensures State() == StructEnd(protocol, old(State())) && n == 0
    {
      if protocol.CompactProtocol? {
        lastFieldId := lastField[|lastField| - 1];
        lastField := lastField[..|lastField| - 1];
      }
      n := 0;
    }

    method ReadFieldBegin() returns (r: Outcome<(TType, int)>, n: nat)
      modifies `input, `lastFieldId, `boolValue
      ensures Agrees(r, State(), ReadFieldHead(protocol, old(State())))
      ensures r.Returns? ==> Took(n, old(input), input)
    {
      if protocol.CompactProtocol? { r, n := ReadCompactFieldBegin(); } else { r, n := ReadBinaryFieldBegin(); }
    }

    method ReadCompactFieldBegin() returns (r: Outcome<(TType, int)>, n: nat)
      requires protocol.CompactProtocol?
      modifies `input, `lastFieldId, `boolValue
      ensures Agrees(r, State(), C.ReadFieldHead(old(State()))) && (r.Returns? ==> Took(n, old(input), input))
    {
      hide C.ReadI16, ToSigned, C.TypeOfCType;
      n := 0;
      var b;
      b, n :- ReadOne();
      var ctype := b % 16;
      if ctype == 0 {
        return Returns((Stop, 0)), n;
      }
      var modifier, id, m := b / 16, 0, 0;
      if modifier == 0 {
        id, m :- ReadI16();
      } else {
        id := ToSigned(lastFieldId + modifier, 16);
      }
      n := n + m;
      var t :- GetTType(ctype);
      if ctype == C.CT_TRUE || ctype == C.CT_FALSE {
        boolValue := Some(ctype == C.CT_TRUE);
      }
      lastFieldId := id;
      r := Returns((t, id));
    }

    method ReadBinaryFieldBegin() returns (r: Outcome<(TType, int)>, n: nat)
      modifies `input
      ensures Agrees(r, State(), B.ReadFieldHead(old(State()))) && (r.Returns? ==> Took(n, old(input), input))
    {
      hide B.ReadInt, B.ReadType;
      n := 0;
      var t, id, m;
      t, n :- ReadType();
      if t.Stop? {
        return Returns((Stop, 0)), n;
      }
      id, m :- ReadInt(2);
      n := n + m;
      r := Returns((t, id));
    }

    method ReadListBegin() returns (r: Outcome<(TType, nat)>, n: nat)
      modifies `input
      ensures Agrees(r, State(), ReadListHead(protocol, old(State())))
      ensures r.Returns? ==> Took(n, old(input), input)
    {
      hide C.ReadSize, B.ReadInt, B.ReadType, C.TypeOfCType;
      n := 0;
      var t, size;
      var m := 0;
      if protocol.CompactProtocol? {
        var b;
        b, n :- ReadOne();
        size := b / 16;
        if size == 15 {
          size, m :- ReadSize();
        }
        if size < 0 {
          return Throws(NegativeSize), n;
        }
        t :- GetTType(b % 16);
      } else {
        t, n :- ReadType();
        size, m :- ReadInt(4);
        if size < 0 {
          return Throws(NegativeSize), n;
        }
      }
      n := n + m;
      r := Returns((t, size));
    }

    method ReadMapBegin() returns (r: Outcome<(TType, TType, nat)>, n: nat)
      modifies `input
      ensures Agrees(r, State(), ReadMapHead(protocol, old(State())))
      ensures r.Returns? ==> Took(n, old(input), input)
    {
      if protocol.CompactProtocol? { r, n := ReadCompactMapBegin(); } else { r, n := ReadBinaryMapBegin(); }
    }

    method ReadCompactMapBegin() returns (r: Outcome<(TType, TType, nat)>, n: nat)
      modifies `input
      ensures Agrees(r, State(), C.ReadMapHead(old(State()))) && (r.Returns? ==> Took(n, old(input), input))
    {
      hide C.ReadSize, C.TypeOfCType;
      n := 0;
      var size;
      size, n :- ReadSize();
      var kv: byte, m := 0, 0;
      if size != 0 {
        kv, m :- ReadOne();
      }
      n := n + m;
      if size < 0 {
        return Throws(NegativeSize), n;
      }
      var kt :- GetTType(kv / 16);
      var vt :- GetTType(kv % 16);
      r := Returns((kt, vt, size));
    }

    method ReadBinaryMapBegin() returns (r: Outcome<(TType, TType, nat)>, n: nat)
      modifies `input
      ensures Agrees(r, State(), B.ReadMapHead(old(State()))) && (r.Returns? ==> Took(n, old(input), input))
    {
      hide B.ReadInt, B.ReadType;
      n := 0;
      var kt, vt, size, m, l;
      kt, n :- ReadType();
      vt, m :- ReadType();
      size, l :- ReadInt(4);
      n := n + m + l;
      if size < 0 {
        return Throws(NegativeSize), n;
      }
      r := Returns((kt, vt, size));
    }
  }

  lemma PutI32Is(i: int)
    ensures C.PutI32(i) == Varint(ToZigzagCpp(i, 32))
  {
  }

  lemma ListHeadForms(p: Protocol, et: TType, n: nat)
    ensures p.CompactProtocol? && n <= 14 ==> PutListHead(p, et, n) == [n * 16 + C.CType(et)]
    ensures p.CompactProtocol? && n > 14 ==> PutListHead(p, et, n) == [0xf0 + C.CType(et)] + Varint(n)
    ensures p.BinaryProtocol? ==> PutListHead(p, et, n) == PutByte(et.Code()) + B.PutInt(n, 4)
  {
  }

  lemma MapHeadForms(p: Protocol, kt: TType, vt: TType, n: nat)
    ensures p.CompactProtocol? && n == 0 ==> PutMapHead(p, kt, vt, n) == [0]
    ensures p.CompactProtocol? && n > 0 ==> PutMapHead(p, kt, vt, n) == Varint(n) + [C.CType(kt) * 16 + C.CType(vt)]
    ensures p.BinaryProtocol? ==> PutMapHead(p, kt, vt, n) == PutByte(kt.Code()) + (PutByte(vt.Code()) + B.PutInt(n, 4))
  {
  }
}
