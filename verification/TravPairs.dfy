/**
 * The generated struct `TravPair`: reading keeps the last well-typed value of each known field and skips all others.
 */
module TravPairs {
  import opened Bytes
  import opened Bits
  import opened Wire
  import opened Protocols
  import opened TProtocols
  import opened Skipping
  import RT = RoundTrip
  import opened Varints
  import opened WireBytes
  import C = Compact
  import B = Binary

  /** The members of the struct and of its `__isset`. */
  datatype Trav = Trav(key: Bytes, value: Bytes, cur: int, hasKey: bool, hasValue: bool, hasCur: bool)

  // ----- the specification

  /** A field of the wrong type counts as unknown. */
  function Apply(t: Trav, f: Field): Trav {
    if f.id == 1 && f.val.VString? then t.(key := f.val.s, hasKey := true)
    else if f.id == 2 && f.val.VString? then t.(value := f.val.s, hasValue := true)
    else if f.id == 3 && f.val.VI32? then t.(cur := f.val.i, hasCur := true)
    else t
  }

  function ApplyAll(t: Trav, fs: seq<Field>): Trav
    decreases |fs|
  {
    if fs == [] then t else ApplyAll(Apply(t, fs[0]), fs[1..])
  }

  function FieldsOf(t: Trav): seq<Field> {
    [Field(1, VString(t.key)), Field(2, VString(t.value)), Field(3, VI32(t.cur))]
  }

  /** One turn of the field loop behind a header: a known field is read, any other is skipped. */
  function ReadMember(p: Protocol, t: Trav, ftype: TType, fid: int, s: RState): (r: Read<Trav>)
    ensures r.Ok? ==> |r.st.input| <= |s.input|
  {
    if fid == 1 && ftype.String? then var (v, s1) :- Protocols.ReadString(p, s); Ok(t.(key := v, hasKey := true), s1)
    else if fid == 2 && ftype.String? then
      var (v, s1) :- Protocols.ReadString(p, s); Ok(t.(value := v, hasValue := true), s1)
    else if fid == 3 && ftype.I32? then var (v, s1) :- Protocols.ReadI32(p, s); Ok(t.(cur := v, hasCur := true), s1)
    else var (_, s1) :- Skip(p, ftype, s); Ok(t, s1)
  }

  function ReadMembers(p: Protocol, t: Trav, s: RState): (r: Read<Trav>)
    ensures r.Ok? ==> |r.st.input| <= |s.input|
    decreases |s.input|
  {
    var (h, s1) :- ReadFieldHead(p, s);
    if h.0.Stop? then Ok(t, s1)
    else
      var (t', s2) :- ReadMember(p, t, h.0, h.1, s1);
      ReadMembers(p, t', s2)
  }

  // ----- what reading an encoded struct gives

  lemma ReadMemberOf(p: Protocol, t: Trav, f: Field, s1: RState, s2: RState)
    requires Decode(p, TypeOf(f.val), s1) == Ok(RT.Normal(p, f.val), s2)
    ensures ReadMember(p, t, TypeOf(f.val), f.id, s1) == Ok(Apply(t, f), s2)
  {
    RT.SkipFollowsDecode(p, TypeOf(f.val), s1);
    hide Skip, Protocols.ReadString, Protocols.ReadI32, ReadBool, Protocols.ReadByte, Protocols.ReadI16,
         Protocols.ReadI64, Protocols.ReadDouble, DecodeAll, DecodeEntries, DecodeFields, Protocols.ReadMapHead,
         Protocols.ReadListHead;
  }

  /**
   * Unknown-field tolerance: of any sequence of fields, known, unknown or of the wrong type, in any order and with
   * repetitions, the last well-typed key, value and cur remain, and the reader stops exactly behind the struct.
   */
  lemma {:induction false} ReadMembersOf(p: Protocol, t: Trav, fs: seq<Field>, s: RState, rest: Bytes)
    requires forall f | f in fs :: FitsSigned(f.id, 16) && WellTyped(f.val)
    requires s.pending == None && s.input == EncodeFields(p, s.last, fs) + STOP + rest
    ensures ReadMembers(p, t, s) == Ok(ApplyAll(t, fs), s.(input := rest, last := RT.LastId(p, s.last, fs)))
    decreases |fs|
  {
    hide EncodeField, ReadFieldHead, FitsSigned, WellTyped, Apply, ReadMember;
    if fs == [] {
      EmptyConcat(STOP);
      RT.ReadStopOf(p, s, rest);
    } else {
      var next := if p.CompactProtocol? then fs[0].id else s.last;
      var s2 := s.(input := EncodeFields(p, next, fs[1..]) + STOP + rest, last := next);
      RT.FieldsSplit(p, s.last, next, fs, rest);
      hide EncodeFields;
      var s1 := RT.FieldRoundTrip(p, fs[0], s, s2.input);
      ReadMemberOf(p, t, fs[0], s1, s2);
      ReadMembersOf(p, Apply(t, fs[0]), fs[1..], s2, rest);
    }
  }

  // ----- the fold by position

  /** A field that a member takes its value from. */
  predicate ForMember(f: Field, id: int) {
    f.id == id && if id == 3 then f.val.VI32? else f.val.VString?
  }

  /** A member and whether it is set. */
  function MemberOf(t: Trav, id: int): (Value, bool) {
    if id == 1 then (VString(t.key), t.hasKey)
    else if id == 2 then (VString(t.value), t.hasValue)
    else (VI32(t.cur), t.hasCur)
  }

  lemma {:induction false} OthersIgnored(t: Trav, fs: seq<Field>, id: int)
    requires 1 <= id <= 3 && forall i :: 0 <= i < |fs| ==> !ForMember(fs[i], id)
    ensures MemberOf(ApplyAll(t, fs), id) == MemberOf(t, id)
    decreases |fs|
  {
    if fs != [] {
      OthersIgnored(Apply(t, fs[0]), fs[1..], id);
    }
  }

  /** Of all fields for a member the last one counts, wherever the others stand. */
  lemma {:induction false} LastCounts(t: Trav, fs: seq<Field>, id: int, i: nat)
    requires 1 <= id <= 3 && i < |fs| && ForMember(fs[i], id)
    requires forall j :: i < j < |fs| ==> !ForMember(fs[j], id)
    ensures MemberOf(ApplyAll(t, fs), id) == (fs[i].val, true)
    decreases |fs|
  {
    if i == 0 {
      OthersIgnored(Apply(t, fs[0]), fs[1..], id);
    } else {
      LastCounts(Apply(t, fs[0]), fs[1..], id, i - 1);
    }
  }

  // ----- the struct

  class TravPair {
    var key: Bytes
    var value: Bytes
    var cur: int
    var issetKey: bool
    var issetValue: bool
    var issetCur: bool

    constructor ()
      ensures Members() == Trav([], [], 0, false, false, false)
    {
      key, value, cur := [], [], 0;
      issetKey, issetValue, issetCur := false, false, false;
    }

    function Members(): Trav
      reads this
    {
      Trav(key, value, cur, issetKey, issetValue, issetCur)
    }

    method ReadOneMember(iprot: TProtocol, ftype: TType, fid: int) returns (r: Outcome<nat>)
      modifies this, iprot`input, iprot`lastFieldId, iprot`lastField, iprot`boolValue
      ensures match ReadMember(iprot.protocol, old(Members()), ftype, fid, old(iprot.State()))
              case Ok(t, s) =>
                Members() == t && iprot.State() == s && r.Returns? && Took(r.val, old(iprot.input), iprot.input)
              case Fail(e) => r == Throws(e)
    {
      hide Skip, Protocols.ReadString, Protocols.ReadI32;
      var n := 0;
      if fid == 1 && ftype.String? {
        var v;
        v, n :- iprot.ReadString();
        key, issetKey := v, true;
      } else if fid == 2 && ftype.String? {
        var v;
        v, n :- iprot.ReadString();
        value, issetValue := v, true;
      } else if fid == 3 && ftype.I32? {
        var v;
        v, n :- iprot.ReadI32();
        cur, issetCur := v, true;
      } else {
        n :- SkipValue(iprot, ftype);
      }
      return Returns(n);
    }

    /** `TravPair::read` */
    method Read(iprot: TProtocol) returns (r: Outcome<nat>)
      modifies this, iprot`input, iprot`lastFieldId, iprot`lastField, iprot`boolValue
      ensures match ReadMembers(iprot.protocol, old(Members()), StructBegin(iprot.protocol, old(iprot.State())))
              case Ok(t, s) =>
                && Members() == t && r.Returns? && Took(r.val, old(iprot.input), iprot.input)
                && (iprot.protocol.CompactProtocol? ==> s.stack != [])
                && iprot.State() == StructEnd(iprot.protocol, s)
              case Fail(e) => r == Throws(e)
    {
      hide ReadFieldHead, ReadMember, StructBegin, StructEnd;
      ghost var p, t0 := iprot.protocol, Members();
      StackPushed(p, iprot.State());
      var xfer := iprot.ReadStructBegin();
      ghost var s0 := iprot.State();
      while true
        invariant ReadMembers(p, Members(), iprot.State()) == ReadMembers(p, t0, s0)
        invariant iprot.lastField == s0.stack
        invariant Took(xfer, s0.input, iprot.input)
        decreases |iprot.input|
      {
        var h, n :- iprot.ReadFieldBegin();
        xfer := xfer + n;
        if h.0.Stop? {
          break;
        }
        MemberKeepsStack(p, Members(), h.0, h.1, iprot.State());
        var m :- ReadOneMember(iprot, h.0, h.1);
        xfer := xfer + m;
      }
      var n := iprot.ReadStructEnd();
      return Returns(xfer + n);
    }

    /** `TravPair::write` */
    /** The three fields and the stop, in a scope of their own; strings as they are sent. */
    method Write(oprot: TProtocol) returns (xfer: nat)
      requires oprot.booleanField == None
      modifies oprot`out, oprot`lastFieldId, oprot`lastField, oprot`booleanField
      ensures oprot.out == old(oprot.out) + Encode(oprot.protocol, VStruct(FieldsOf(Sent(Members()))))
      ensures oprot.protocol.BinaryProtocol? && Sizes(Members()) ==>
        var n, m, u := |key|, |value|, cur % 4294967296;
        oprot.out == old(oprot.out) + (
          [11, 0, 1] + [n / 16777216, n / 65536 % 256, n / 256 % 256, n % 256] + key
          + [11, 0, 2] + [m / 16777216, m / 65536 % 256, m / 256 % 256, m % 256] + value
          + [8, 0, 3] + [u / 16777216, u / 65536 % 256, u / 256 % 256, u % 256] + [0])
      ensures oprot.protocol.CompactProtocol? && Sizes(Members()) ==>
        oprot.out == old(oprot.out) + (
          [0x18] + Varint(|key|) + key + [0x18] + Varint(|value|) + value
          + [0x15] + Varint(if cur >= 0 then 2 * cur else -2 * cur - 1) + [0])
      ensures xfer == |oprot.out| - |old(oprot.out)| && oprot.booleanField == None
      ensures oprot.lastFieldId == old(oprot.lastFieldId) && oprot.lastField == old(oprot.lastField)
    {
      hide EncodeField, Encode, Varint, FieldsOf;
      ghost var p, t, before := oprot.protocol, Sent(Members()), oprot.out;
      OwnFields(t);
      if Sizes(t) && p.BinaryProtocol? { BinaryBytes(t); }
      if Sizes(t) && p.CompactProtocol? { CompactBytes(p, t); }
      oprot.WriteStructBegin();
      ghost var stack, last := oprot.lastField, oprot.lastFieldId;
      xfer := WriteStringField(oprot, 1, key);
      var n := WriteStringField(oprot, 2, value);
      xfer := xfer + n;
      n := WriteI32Field(oprot, 3, cur);
      xfer := xfer + n;
      ThreeFields(p, last, FieldsOf(t), before);
      n := oprot.WriteFieldStop();
      xfer := xfer + n;
      oprot.WriteStructEnd();
      if p.CompactProtocol? {
        SnocInjective(oprot.lastField, oprot.lastFieldId, old(oprot.lastField), old(oprot.lastFieldId));
      }
    }
  }

  /** What the other side gets of the members. */
  function Sent(t: Trav): Trav {
    t.(key := Narrowed(t.key), value := Narrowed(t.value))
  }

  /** Sizes and numbers of the widths that C++ gives them. */
  predicate Sizes(t: Trav) {
    |t.key| < 4294967296 && |t.value| < 4294967296 && -0x8000_0000 <= t.cur < 0x8000_0000
  }

  lemma OwnFields(t: Trav)
    ensures FieldsOf(t) == [Field(1, VString(t.key)), Field(2, VString(t.value)), Field(3, VI32(t.cur))]
    ensures Sizes(t) ==> Sent(t) == t
  {
  }

  lemma FieldIsHeadAndValue(p: Protocol, last: int, f: Field)
    requires !f.val.VBool?
    ensures EncodeField(p, last, f) == PutFieldHead(p, last, TypeOf(f.val), f.id) + Encode(p, f.val)
  {
    hide Encode, PutFieldHead;
  }

  lemma HeadOf(p: Protocol, last: int, t: TType, id: int)
    ensures p.BinaryProtocol? ==> PutFieldHead(p, last, t, id) == B.PutFieldHead(t, id)
    ensures p.CompactProtocol? ==> PutFieldHead(p, last, t, id) == C.PutFieldHead(last, id, C.CType(t))
  {
    hide B.PutFieldHead, C.PutFieldHead, C.CType;
  }

  /** One string field of a pair, behind the field before it. */
  lemma CompactStringField(p: Protocol, id: int, s: Bytes)
    requires p.CompactProtocol?
    ensures EncodeField(p, id - 1, Field(id, VString(s))) == [0x18] + Varint(|s|) + s
  {
    hide Varint, C.PutFieldHead, C.CType, PutFieldHead, Encode, EncodeField;
    FieldIsHeadAndValue(p, id - 1, Field(id, VString(s)));
    HeadOf(p, id - 1, String, id);
    CompactValues(p, s);
    CompactFieldHeads(id - 1, 1);
    ConcatAssociative([0x18], Varint(|s|), s);
  }

  lemma BinaryStringField(last: int, id: byte, s: Bytes)
    requires 1 <= id <= 2 && |s| < 4294967296
    ensures var n := |s|;
      EncodeField(BinaryProtocol, last, Field(id, VString(s)))
      == [11, 0, id] + [n / 16777216, n / 65536 % 256, n / 256 % 256, n % 256] + s
  {
    hide B.PutFieldHead, PutFieldHead, Encode, EncodeField;
    FieldIsHeadAndValue(BinaryProtocol, last, Field(id, VString(s)));
    HeadOf(BinaryProtocol, last, String, id);
    BinaryValues(s, 0);
    BinaryFieldHeads(id);
    SmallId(id);
    ConcatAssociative([11, 0, id], B.PutInt(|s|, 4), s);
  }

  lemma SmallId(id: byte)
    ensures B.PutFieldHead(String, id) == [11, 0, id] && B.PutFieldHead(I32, id) == [8, 0, id]
  {
    BinaryFieldHeads(id);
    hide B.PutFieldHead;
  }

  lemma CompactCur(p: Protocol, cur: int)
    requires p.CompactProtocol? && -0x8000_0000 <= cur < 0x8000_0000
    ensures EncodeField(p, 2, Field(3, VI32(cur))) == [0x15] + Varint(if cur >= 0 then 2 * cur else -2 * cur - 1)
  {
    hide Varint, C.PutFieldHead, C.CType, C.PutI32, PutFieldHead, EncodeField;
    FieldIsHeadAndValue(p, 2, Field(3, VI32(cur)));
    HeadOf(p, 2, I32, 3);
    CompactFieldHeads(2, 1);
    ZigzagBytes(cur);
  }

  lemma BinaryCur(last: int, cur: int)
    ensures var u := cur % 4294967296;
      EncodeField(BinaryProtocol, last, Field(3, VI32(cur)))
      == [8, 0, 3] + [u / 16777216, u / 65536 % 256, u / 256 % 256, u % 256]
  {
    hide B.PutFieldHead, PutFieldHead, EncodeField, B.PutInt;
    FieldIsHeadAndValue(BinaryProtocol, last, Field(3, VI32(cur)));
    HeadOf(BinaryProtocol, last, I32, 3);
    SmallId(3);
    IntBytes(cur);
  }

  /** The bytes of a pair. */
  lemma CompactBytes(p: Protocol, t: Trav)
    requires Sizes(t) && p.CompactProtocol?
    ensures Encode(p, VStruct(FieldsOf(t)))
         == [0x18] + Varint(|t.key|) + t.key + [0x18] + Varint(|t.value|) + t.value
            + [0x15] + Varint(if t.cur >= 0 then 2 * t.cur else -2 * t.cur - 1) + [0]
  {
    hide EncodeField, Encode, Varint, FieldsOf;
    OwnFields(t);
    var fs := FieldsOf(t);
    ThreeFields(p, 0, fs, []);
    EmptyConcat(Encode(p, VStruct(fs)));
    CompactStringField(p, 1, t.key);
    CompactStringField(p, 2, t.value);
    CompactCur(p, t.cur);
    Flatten([0x18], Varint(|t.key|), t.key, [0x18], Varint(|t.value|), t.value, [0x15],
            Varint(if t.cur >= 0 then 2 * t.cur else -2 * t.cur - 1));
  }

  lemma BinaryBytes(t: Trav)
    requires Sizes(t)
    ensures var n, m, u := |t.key|, |t.value|, t.cur % 4294967296;
      Encode(BinaryProtocol, VStruct(FieldsOf(t)))
      == [11, 0, 1] + [n / 16777216, n / 65536 % 256, n / 256 % 256, n % 256] + t.key
         + [11, 0, 2] + [m / 16777216, m / 65536 % 256, m / 256 % 256, m % 256] + t.value
         + [8, 0, 3] + [u / 16777216, u / 65536 % 256, u / 256 % 256, u % 256] + [0]
  {
    hide EncodeField, Encode, FieldsOf;
    OwnFields(t);
    var n, m, u := |t.key|, |t.value|, t.cur % 4294967296;
    var fs := FieldsOf(t);
    ThreeFields(BinaryProtocol, 0, fs, []);
    EmptyConcat(Encode(BinaryProtocol, VStruct(fs)));
    BinaryStringField(0, 1, t.key);
    BinaryStringField(0, 2, t.value);
    BinaryCur(0, t.cur);
    Flatten([11, 0, 1], [n / 16777216, n / 65536 % 256, n / 256 % 256, n % 256], t.key,
            [11, 0, 2], [m / 16777216, m / 65536 % 256, m / 256 % 256, m % 256], t.value,
            [8, 0, 3], [u / 16777216, u / 65536 % 256, u / 256 % 256, u % 256]);
  }

  lemma Flatten(a: Bytes, b: Bytes, c: Bytes, d: Bytes, e: Bytes, f: Bytes, g: Bytes, h: Bytes)
    ensures [] + (a + b + c) + (d + e + f) + (g + h) + STOP == a + b + c + d + e + f + g + h + [0]
  {
    var x := a + b + c;
    EmptyConcat(x);
    assert x + (d + e + f) == x + d + e + f;
    assert x + d + e + f + (g + h) == x + d + e + f + g + h;
  }

  method WriteStringField(oprot: TProtocol, id: int, s: Bytes) returns (n: nat)
    requires oprot.booleanField == None
    modifies oprot`out, oprot`lastFieldId, oprot`booleanField
    ensures oprot.out
         == old(oprot.out) + EncodeField(oprot.protocol, old(oprot.lastFieldId), Field(id, VString(Narrowed(s))))
    ensures n == |oprot.out| - |old(oprot.out)| && oprot.booleanField == None
    ensures oprot.lastFieldId == if oprot.protocol.CompactProtocol? then id else old(oprot.lastFieldId)
  {
    hide PutFieldHead, PutString, Narrowed;
    ConcatAssociative(oprot.out, PutFieldHead(oprot.protocol, oprot.lastFieldId, String, id),
                      PutString(oprot.protocol, Narrowed(s)));
    n := oprot.WriteFieldBegin(String, id);
    var m := oprot.WriteString(s);
    n := n + m;
  }

  method WriteI32Field(oprot: TProtocol, id: int, i: int) returns (n: nat)
    requires oprot.booleanField == None
    modifies oprot`out, oprot`lastFieldId, oprot`booleanField
    ensures oprot.out == old(oprot.out) + EncodeField(oprot.protocol, old(oprot.lastFieldId), Field(id, VI32(i)))
    ensures n == |oprot.out| - |old(oprot.out)| && oprot.booleanField == None
    ensures oprot.lastFieldId == if oprot.protocol.CompactProtocol? then id else old(oprot.lastFieldId)
  {
    hide PutFieldHead, PutI32;
    ConcatAssociative(oprot.out, PutFieldHead(oprot.protocol, oprot.lastFieldId, I32, id), PutI32(oprot.protocol, i));
    n := oprot.WriteFieldBegin(I32, id);
    var m := oprot.WriteI32(i);
    n := n + m;
  }

  lemma FieldAnyLast(p: Protocol, last: int, f: Field)
    ensures p.BinaryProtocol? || last == 0 ==> EncodeField(p, last, f) == EncodeField(p, 0, f)
  {
    hide Encode;
  }

  /** Three fields, each behind the id of the one before, and the stop. */
  lemma ThreeFields(p: Protocol, last: int, fs: seq<Field>, before: Bytes)
    requires |fs| == 3 && (p.CompactProtocol? ==> last == 0)
    ensures var second := if p.CompactProtocol? then fs[0].id else last;
      var third := if p.CompactProtocol? then fs[1].id else last;
      before + EncodeField(p, last, fs[0]) + EncodeField(p, second, fs[1]) + EncodeField(p, third, fs[2]) + STOP
      == before + Encode(p, VStruct(fs))
  {
    hide EncodeField;
    var second := if p.CompactProtocol? then fs[0].id else last;
    var third := if p.CompactProtocol? then fs[1].id else last;
    FieldAnyLast(p, last, fs[0]);
    FieldAnyLast(p, second, fs[1]);
    FieldAnyLast(p, fs[0].id, fs[1]);
    FieldAnyLast(p, third, fs[2]);
    FieldAnyLast(p, fs[1].id, fs[2]);
    var a, b, c := EncodeField(p, last, fs[0]), EncodeField(p, second, fs[1]), EncodeField(p, third, fs[2]);
    assert fs[1..][1..] == fs[2..] && fs[2..][1..] == [];
    assert EncodeFields(p, fs[1].id, fs[2..]) == c + [];
    assert EncodeFields(p, fs[0].id, fs[1..]) == b + c;
    assert EncodeFields(p, 0, fs) == a + (b + c);
    assert before + a + b + c + STOP == before + (a + (b + c) + STOP);
  }

  lemma MemberKeepsStack(p: Protocol, t: Trav, ftype: TType, fid: int, s: RState)
    ensures var r := ReadMember(p, t, ftype, fid, s); r.Ok? ==> r.st.stack == s.stack
  {
    hide Skip, Protocols.ReadString, Protocols.ReadI32;
  }

  // ----- read after write

  predicate Fits(t: Trav) {
    |t.key| < TWO31 && |t.value| < TWO31 && FitsSigned(t.cur, 32)
  }

  lemma FitsIsSent(t: Trav)
    requires Fits(t)
    ensures Sent(t) == t
  {
  }

  lemma ApplyOwnFields(t: Trav, was: Trav)
    ensures ApplyAll(was, FieldsOf(t)) == t.(hasKey := true, hasValue := true, hasCur := true)
  {
    ApplyThree(was, Field(1, VString(t.key)), Field(2, VString(t.value)), Field(3, VI32(t.cur)));
  }

  lemma ApplyThree(t: Trav, a: Field, b: Field, c: Field)
    ensures ApplyAll(t, [a, b, c]) == Apply(Apply(Apply(t, a), b), c)
  {
    hide Apply;
    assert [a, b, c][1..] == [b, c] && [b, c][1..] == [c] && [c][1..] == [];
    var t1 := Apply(t, a);
    var t2 := Apply(t1, b);
    assert ApplyAll(t2, [c]) == Apply(t2, c);
    assert ApplyAll(t1, [b, c]) == ApplyAll(t2, [c]);
    assert ApplyAll(t, [a, b, c]) == ApplyAll(t1, [b, c]);
  }

  /** The reading of a written pair: every member comes back, and the state of the reader is restored. */
  lemma ReadWritten(p: Protocol, t: Trav, was: Trav, s: RState, rest: Bytes)
    requires Fits(t) && s.pending == None && s.input == Encode(p, VStruct(FieldsOf(t))) + rest
    ensures var r := ReadMembers(p, was, StructBegin(p, s));
      && r.Ok? && r.val == t.(hasKey := true, hasValue := true, hasCur := true)
      && (p.CompactProtocol? ==> r.st.stack != [])
      && StructEnd(p, r.st) == s.(input := rest)
  {
    var fs, s0 := FieldsOf(t), StructBegin(p, s);
    OwnFieldsWellTyped(t);
    ApplyOwnFields(t, was);
    RT.FieldsAnyLast(p, s0.last, fs);
    hide EncodeFields, ReadMembers, WellTyped, FitsSigned, ApplyAll;
    RT.BeginFacts(p, s);
    ReadMembersOf(p, was, fs, s0, rest);
    var s1 := s0.(input := rest, last := RT.LastId(p, s0.last, fs));
    RT.BinaryLast(p, s0.last, fs);
    RT.EndAfterBegin(p, s, s1, rest);
  }

  lemma OwnFieldsWellTyped(t: Trav)
    requires Fits(t)
    ensures forall f | f in FieldsOf(t) :: FitsSigned(f.id, 16) && WellTyped(f.val)
  {
    Widths();
    hide Pow2;
    forall f | f in FieldsOf(t)
      ensures FitsSigned(f.id, 16) && WellTyped(f.val)
    {
      assert f == FieldsOf(t)[0] || f == FieldsOf(t)[1] || f == FieldsOf(t)[2];
    }
  }

  /** Through either protocol, a pair read from what was written is the pair, and both calls return the same count. */
  method WriteThenRead(protocol: Protocol, pair: TravPair) returns (copy: TravPair, written: nat, read: Outcome<nat>)
    requires Fits(pair.Members())
    ensures read == Returns(written) && fresh(copy)
    ensures copy.key == pair.key && copy.value == pair.value && copy.cur == pair.cur
  {
    hide Encode, ReadMembers, StructBegin, StructEnd, FieldsOf, Fits;
    ghost var t := pair.Members();
    FitsIsSent(t);
    var oprot := new TProtocol(protocol, []);
    written := pair.Write(oprot);
    EmptyConcat(Encode(protocol, VStruct(FieldsOf(t))));
    var iprot := new TProtocol(protocol, oprot.out);
    copy := new TravPair();
    NothingBehind(oprot.out);
    ReadWritten(protocol, t, copy.Members(), iprot.State(), []);
    read := copy.Read(iprot);
  }

  lemma NothingBehind(a: Bytes)
    ensures a + [] == a
  {
  }
}
