/** Reading inverts writing, and skipping stops where reading does, for both protocols and every nesting of values. */
module RoundTrip {
  import opened Bytes
  import opened Bits
  import opened Wire
  import opened Protocols
  import C = Compact
  import B = Binary

  // ----- skipping and reading

  /** On every byte string on which reading a value succeeds, skipping stops in the same state. */
  lemma {:induction false} SkipFollowsDecode(p: Protocol, t: TType, s: RState)
    requires Decode(p, t, s).Ok?
    ensures Skip(p, t, s) == Ok((), Decode(p, t, s).st)
    decreases |s.input|, 1
  {
    hide ReadBool, ReadByte, ReadI16, ReadI32, ReadI64, ReadDouble, ReadString, ReadFieldHead, ReadListHead,
         ReadMapHead;
    match t
    case Struct =>
      SkipFieldsFollows(p, StructBegin(p, s));
    case Map =>
      var h := ReadMapHead(p, s);
      SkipEntriesFollows(p, h.val.0, h.val.1, h.val.2, h.st);
    case Set =>
      var h := ReadListHead(p, s);
      SkipAllFollows(p, h.val.0, h.val.1, h.st);
    case List =>
      var h := ReadListHead(p, s);
      SkipAllFollows(p, h.val.0, h.val.1, h.st);
    case _ =>
  }

  lemma {:induction false} SkipAllFollows(p: Protocol, et: TType, n: nat, s: RState)
    requires DecodeAll(p, et, n, s).Ok?
    ensures SkipAll(p, et, n, s) == Ok((), DecodeAll(p, et, n, s).st)
    decreases |s.input|, 2, n
  {
    if n > 0 {
      SkipFollowsDecode(p, et, s);
      var s1 := Decode(p, et, s).st;
      hide Skip, Decode;
      SkipAllFollows(p, et, n - 1, s1);
    }
  }

  lemma {:induction false} SkipEntriesFollows(p: Protocol, kt: TType, vt: TType, n: nat, s: RState)
    requires DecodeEntries(p, kt, vt, n, s).Ok?
    ensures SkipEntries(p, kt, vt, n, s) == Ok((), DecodeEntries(p, kt, vt, n, s).st)
    decreases |s.input|, 2, n
  {
    hide Skip, Decode;
    if n > 0 {
      hide *;
      var s1, s2 := EntryDecoded(p, kt, vt, n, s);
      SkipFollowsDecode(p, kt, s);
      SkipFollowsDecode(p, vt, s1);
      SkipEntriesFollows(p, kt, vt, n - 1, s2);
      EntrySkipped(p, kt, vt, n, s, s1, s2);
    }
  }

  /** The states after the key and after the value of the first entry. */
  lemma EntryDecoded(p: Protocol, kt: TType, vt: TType, n: nat, s: RState) returns (s1: RState, s2: RState)
    requires n > 0 && DecodeEntries(p, kt, vt, n, s).Ok?
    ensures Decode(p, kt, s).Ok? && Decode(p, kt, s).st == s1
    ensures Decode(p, vt, s1).Ok? && Decode(p, vt, s1).st == s2
    ensures |s2.input| <= |s1.input| <= |s.input|
    ensures DecodeEntries(p, kt, vt, n - 1, s2).Ok?
    ensures DecodeEntries(p, kt, vt, n - 1, s2).st == DecodeEntries(p, kt, vt, n, s).st
  {
    hide Decode;
    s1 := Decode(p, kt, s).st;
    s2 := Decode(p, vt, s1).st;
  }

  lemma EntrySkipped(p: Protocol, kt: TType, vt: TType, n: nat, s: RState, s1: RState, s2: RState)
    requires n > 0 && Skip(p, kt, s) == Ok((), s1) && Skip(p, vt, s1) == Ok((), s2)
    ensures SkipEntries(p, kt, vt, n, s) == SkipEntries(p, kt, vt, n - 1, s2)
  {
    hide Skip;
  }

  lemma {:induction false} SkipFieldsFollows(p: Protocol, s: RState)
    requires DecodeFields(p, s).Ok?
    ensures SkipFields(p, s) == Ok((), DecodeFields(p, s).st)
    decreases |s.input|, 0
  {
    hide Skip, Decode, ReadFieldHead;
    var h := ReadFieldHead(p, s);
    if !h.val.0.Stop? {
      SkipFollowsDecode(p, h.val.0, h.st);
      SkipFieldsFollows(p, Decode(p, h.val.0, h.st).st);
    }
  }

  // ----- what comes back

  /** The compact protocol forgets the types of an empty map; everything else comes back as it was. */
  function Normal(p: Protocol, v: Value): Value
    decreases v
  {
    match v
    case VStruct(fields) => VStruct(NormalFields(p, fields))
    case VMap(kt, vt, entries) =>
      if p.CompactProtocol? && entries == [] then VMap(Stop, Stop, []) else VMap(kt, vt, NormalEntries(p, entries))
    case VSet(et, elems) => VSet(et, NormalAll(p, elems))
    case VList(et, elems) => VList(et, NormalAll(p, elems))
    case _ => v
  }

  function NormalAll(p: Protocol, vs: seq<Value>): (r: seq<Value>)
    decreases vs
  {
    if vs == [] then [] else [Normal(p, vs[0])] + NormalAll(p, vs[1..])
  }

  function NormalEntry(p: Protocol, e: Entry): Entry
    decreases e
  {
    Entry(Normal(p, e.k), Normal(p, e.v))
  }

  function NormalEntries(p: Protocol, es: seq<Entry>): seq<Entry>
    decreases es
  {
    if es == [] then [] else [NormalEntry(p, es[0])] + NormalEntries(p, es[1..])
  }

  function NormalField(p: Protocol, f: Field): Field
    decreases f
  {
    Field(f.id, Normal(p, f.val))
  }

  function NormalFields(p: Protocol, fs: seq<Field>): seq<Field>
    decreases fs
  {
    if fs == [] then [] else [NormalField(p, fs[0])] + NormalFields(p, fs[1..])
  }

  /** With the binary protocol nothing at all is lost. */
  lemma BinaryKeepsValue(v: Value)
    ensures Normal(BinaryProtocol, v) == v
    decreases v
  {
    match v
    case VStruct(fields) => BinaryKeepsFields(fields);
    case VMap(_, _, entries) => BinaryKeepsEntries(entries);
    case VSet(_, elems) => BinaryKeepsAll(elems);
    case VList(_, elems) => BinaryKeepsAll(elems);
    case _ =>
  }

  lemma {:induction false} BinaryKeepsAll(vs: seq<Value>)
    ensures NormalAll(BinaryProtocol, vs) == vs
    decreases vs
  {
    if vs != [] {
      BinaryKeepsValue(vs[0]);
      BinaryKeepsAll(vs[1..]);
    }
  }

  lemma BinaryKeepsEntry(e: Entry)
    ensures NormalEntry(BinaryProtocol, e) == e
    decreases e
  {
    BinaryKeepsValue(e.k);
    BinaryKeepsValue(e.v);
  }

  lemma BinaryKeepsField(f: Field)
    ensures NormalField(BinaryProtocol, f) == f
    decreases f
  {
    BinaryKeepsValue(f.val);
  }

  lemma {:induction false} BinaryKeepsEntries(es: seq<Entry>)
    ensures NormalEntries(BinaryProtocol, es) == es
    decreases es
  {
    if es != [] {
      BinaryKeepsEntry(es[0]);
      BinaryKeepsEntries(es[1..]);
    }
  }

  lemma {:induction false} BinaryKeepsFields(fs: seq<Field>)
    ensures NormalFields(BinaryProtocol, fs) == fs
    decreases fs
  {
    if fs != [] {
      BinaryKeepsField(fs[0]);
      BinaryKeepsFields(fs[1..]);
    }
  }

  // ----- one part after the other

  /** The elements ahead: none, or the first and the others. */
  lemma NextElement(p: Protocol, vs: seq<Value>, rest: Bytes)
    ensures vs == [] ==> EncodeAll(p, vs) + rest == rest && NormalAll(p, vs) == []
    ensures vs != [] ==>
      && EncodeAll(p, vs) + rest == Encode(p, vs[0]) + (EncodeAll(p, vs[1..]) + rest)
      && NormalAll(p, vs) == [Normal(p, vs[0])] + NormalAll(p, vs[1..])
  {
    hide Encode, Normal;
    EmptyConcat(rest);
    if vs != [] { ConcatAssociative(Encode(p, vs[0]), EncodeAll(p, vs[1..]), rest); }
  }

  lemma NextEntry(p: Protocol, es: seq<Entry>, rest: Bytes)
    ensures es == [] ==> EncodeEntries(p, es) + rest == rest && NormalEntries(p, es) == []
    ensures es != [] ==>
      && EncodeEntries(p, es) + rest
         == Encode(p, es[0].k) + (Encode(p, es[0].v) + (EncodeEntries(p, es[1..]) + rest))
      && NormalEntries(p, es) == [Entry(Normal(p, es[0].k), Normal(p, es[0].v))] + NormalEntries(p, es[1..])
  {
    hide Encode, Normal;
    EmptyConcat(rest);
    if es != [] {
      ConcatAssociative(EncodeEntry(p, es[0]), EncodeEntries(p, es[1..]), rest);
      ConcatAssociative(Encode(p, es[0].k), Encode(p, es[0].v), EncodeEntries(p, es[1..]) + rest);
    }
  }

  lemma NextField(p: Protocol, last: int, fs: seq<Field>, rest: Bytes)
    ensures fs == [] ==> EncodeFields(p, last, fs) + rest == rest && NormalFields(p, fs) == []
    ensures fs != [] ==>
      && EncodeFields(p, last, fs) + rest
         == EncodeField(p, last, fs[0]) + (EncodeFields(p, fs[0].id, fs[1..]) + rest)
      && NormalFields(p, fs) == [Field(fs[0].id, Normal(p, fs[0].val))] + NormalFields(p, fs[1..])
  {
    hide EncodeField, Normal;
    EmptyConcat(rest);
    if fs != [] { ConcatAssociative(EncodeField(p, last, fs[0]), EncodeFields(p, fs[0].id, fs[1..]), rest); }
  }

  // ----- item by item, for both protocols

  lemma ReadScalarOf(p: Protocol, v: Value, s: RState, rest: Bytes)
    requires WellTyped(v) && s.pending == None && s.input == Encode(p, v) + rest
    requires !v.VStruct? && !v.VMap? && !v.VSet? && !v.VList?
    ensures Decode(p, TypeOf(v), s) == Ok(v, s.(input := rest))
  {
    Widths();
    hide FitsSigned, Pow2, C.ReadI16, C.ReadI32, C.ReadI64, C.ReadString, B.ReadInt, B.ReadString, FromLittleEndian,
         FromBigEndian, C.PutI32, C.PutI64, C.PutString, B.PutInt, B.PutString, LittleEndian, BigEndian;
    match v
    case VBool(b) =>
      C.ReadUByteOf(s, s.input[0], rest);
    case VByte(i) => B.ReadIntOf(s, i, 1, rest);
    case VI16(i) =>
      if p.CompactProtocol? { C.ReadI16Of(s, i, rest); } else { B.ReadIntOf(s, i, 2, rest); }
    case VI32(i) =>
      if p.CompactProtocol? { C.ReadI32Of(s, i, rest); } else { B.ReadIntOf(s, i, 4, rest); }
    case VI64(i) =>
      if p.CompactProtocol? { C.ReadI64Of(s, i, rest); } else { B.ReadIntOf(s, i, 8, rest); }
    case VDouble(bits) =>
      ReadBytesOf(s, PutDouble(p, bits), rest);
      LittleEndianRoundTrip(bits, 8);
      BigEndianRoundTrip(bits, 8);
    case VString(bytes) =>
      if p.CompactProtocol? { C.ReadStringOf(s, bytes, rest); } else { B.ReadStringOf(s, bytes, rest); }
  }

  lemma ReadListHeadOf(p: Protocol, et: TType, n: nat, s: RState, rest: Bytes)
    requires et.OfValue() && n < TWO31 && s.input == PutListHead(p, et, n) + rest
    ensures ReadListHead(p, s) == Ok((et, n), s.(input := rest))
  {
    if p.CompactProtocol? { C.ReadListHeadOf(s, et, n, rest); } else { B.ReadListHeadOf(s, et, n, rest); }
  }

  lemma ReadMapHeadOf(p: Protocol, kt: TType, vt: TType, n: nat, s: RState, rest: Bytes)
    requires kt.OfValue() && vt.OfValue() && n < TWO31 && s.input == PutMapHead(p, kt, vt, n) + rest
    ensures ReadMapHead(p, s)
         == Ok(if p.CompactProtocol? && n == 0 then (Stop, Stop, 0) else (kt, vt, n), s.(input := rest))
  {
    if p.CompactProtocol? { C.ReadMapHeadOf(s, kt, vt, n, rest); } else { B.ReadMapHeadOf(s, kt, vt, n, rest); }
  }

  /** The id a reader has last seen after the fields, starting from `last`. */
  function LastId(p: Protocol, last: int, fs: seq<Field>): int {
    if p.CompactProtocol? && fs != [] then fs[|fs| - 1].id else last
  }

  lemma ZeroByte()
    ensures B.PutInt(0, 1) == [0] && FitsSigned(0, 8)
  {
    Unsigned(0, 8);
    assert BigEndian(0, 1) == [0];
  }

  lemma ReadStopOf(p: Protocol, s: RState, rest: Bytes)
    requires s.input == STOP + rest
    ensures ReadFieldHead(p, s) == Ok((Stop, 0), s.(input := rest))
  {
    if p.CompactProtocol? {
      C.ReadUByteOf(s, 0, rest);
    } else {
      ZeroByte();
      hide B.ReadInt, B.PutInt;
      B.ReadIntOf(s, 0, 1, rest);
    }
  }

  /** A field header, with the boolean it may carry. */
  lemma ReadFieldHeadOf(p: Protocol, t: TType, id: int, s: RState, rest: Bytes)
    requires t.OfValue() && FitsSigned(id, 16) && s.input == PutFieldHead(p, s.last, t, id) + rest
    requires p.CompactProtocol? ==> !t.Bool?
    ensures ReadFieldHead(p, s)
         == Ok((t, id), s.(input := rest, last := if p.CompactProtocol? then id else s.last))
  {
    hide FitsSigned, C.ReadFieldHead, B.ReadFieldHead, C.PutFieldHead, B.PutFieldHead;
    if p.CompactProtocol? {
      C.TypeOfItsCType(t);
      C.ReadFieldHeadOf(s, t, id, C.CType(t), rest);
    } else {
      B.ReadFieldHeadOf(s, t, id, rest);
    }
  }

  // ----- the round trip

  /**
   * Reading back an encoded value, whatever follows it, gives the value and leaves the reader exactly behind it, in
   * the state it was in: same last field id, same stack, no pending boolean.
   */
  lemma {:induction false} RoundTrip(p: Protocol, v: Value, s: RState, rest: Bytes)
    requires WellTyped(v) && s.pending == None && s.input == Encode(p, v) + rest
    ensures Decode(p, TypeOf(v), s) == Ok(Normal(p, v), s.(input := rest))
    decreases v, 1
  {
    hide *;
    match v
    case VStruct(_) => StructRoundTrip(p, v, s, rest);
    case VMap(_, _, _) => MapRoundTrip(p, v, s, rest);
    case VSet(_, _) => ListRoundTrip(p, v, s, rest);
    case VList(_, _) => ListRoundTrip(p, v, s, rest);
    case _ => ReadScalarOf(p, v, s, rest); ScalarIsNormal(p, v);
  }

  lemma ScalarIsNormal(p: Protocol, v: Value)
    requires !v.VStruct? && !v.VMap? && !v.VSet? && !v.VList?
    ensures Normal(p, v) == v
  {
  }

  /** What the definitions say of a list or set, with the parts by name. */
  lemma ListParts(p: Protocol, v: Value)
    requires (v.VSet? || v.VList?) && WellTyped(v)
    ensures v.et.OfValue() && |v.elems| < TWO31 && forall e | e in v.elems :: TypeOf(e) == v.et && WellTyped(e)
    ensures Encode(p, v) == PutListHead(p, v.et, |v.elems|) + EncodeAll(p, v.elems)
    ensures Normal(p, v) == v.(elems := NormalAll(p, v.elems))
  {
    hide FitsSigned, Pow2, PutListHead;
  }

  lemma DecodeListStep(p: Protocol, v: Value, s: RState, s1: RState, vs: seq<Value>, s2: RState)
    requires (v.VSet? || v.VList?) && ReadListHead(p, s) == Ok((v.et, |v.elems|), s1)
    requires DecodeAll(p, v.et, |v.elems|, s1) == Ok(vs, s2)
    ensures Decode(p, TypeOf(v), s) == Ok(v.(elems := vs), s2)
  {
    hide ReadListHead, DecodeAll;
  }

  lemma ListRoundTrip(p: Protocol, v: Value, s: RState, rest: Bytes)
    requires (v.VSet? || v.VList?) && WellTyped(v) && s.pending == None && s.input == Encode(p, v) + rest
    ensures Decode(p, TypeOf(v), s) == Ok(Normal(p, v), s.(input := rest))
    decreases v, 0
  {
    hide *;
    ListParts(p, v);
    var et, elems := v.et, v.elems;
    var s1 := s.(input := EncodeAll(p, elems) + rest);
    ConcatAssociative(PutListHead(p, et, |elems|), EncodeAll(p, elems), rest);
    ReadListHeadOf(p, et, |elems|, s, s1.input);
    AllRoundTrip(p, et, elems, s1, rest);
    DecodeListStep(p, v, s, s1, NormalAll(p, elems), s.(input := rest));
  }

  lemma {:induction false} AllRoundTrip(p: Protocol, et: TType, vs: seq<Value>, s: RState, rest: Bytes)
    requires forall e | e in vs :: TypeOf(e) == et && WellTyped(e)
    requires s.pending == None && s.input == EncodeAll(p, vs) + rest
    ensures DecodeAll(p, et, |vs|, s) == Ok(NormalAll(p, vs), s.(input := rest))
    decreases vs, 0
  {
    hide Encode, Decode, WellTyped, Normal;
    if vs == [] {
      EmptyConcat(rest);
    } else {
      var s1 := s.(input := EncodeAll(p, vs[1..]) + rest);
      ConcatAssociative(Encode(p, vs[0]), EncodeAll(p, vs[1..]), rest);
      RoundTrip(p, vs[0], s, s1.input);
      AllRoundTrip(p, et, vs[1..], s1, rest);
    }
  }

  /** What the definitions say of a map, with the parts by name. */
  lemma MapParts(p: Protocol, v: Value)
    requires v.VMap? && WellTyped(v)
    ensures TypeOf(v) == Map && v.kt.OfValue() && v.vt.OfValue() && |v.entries| < TWO31
    ensures forall e | e in v.entries ::
      TypeOf(e.k) == v.kt && TypeOf(e.v) == v.vt && WellTyped(e.k) && WellTyped(e.v)
    ensures Encode(p, v) == PutMapHead(p, v.kt, v.vt, |v.entries|) + EncodeEntries(p, v.entries)
    ensures Normal(p, v) == if p.CompactProtocol? && v.entries == [] then VMap(Stop, Stop, [])
                            else VMap(v.kt, v.vt, NormalEntries(p, v.entries))
    ensures v.entries == [] ==> NormalEntries(p, v.entries) == []
  {
    hide FitsSigned, Pow2, PutMapHead;
  }

  lemma DecodeMapStep(p: Protocol, s: RState, h: (TType, TType, nat), s1: RState, es: seq<Entry>, s2: RState)
    requires ReadMapHead(p, s) == Ok(h, s1) && DecodeEntries(p, h.0, h.1, h.2, s1) == Ok(es, s2)
    ensures Decode(p, Map, s) == Ok(VMap(h.0, h.1, es), s2)
  {
    hide ReadMapHead, DecodeEntries;
  }

  lemma NoEntries(p: Protocol, kt: TType, vt: TType, s: RState, rest: Bytes)
    requires s.input == EncodeEntries(p, []) + rest
    ensures DecodeEntries(p, kt, vt, 0, s) == Ok([], s.(input := rest))
  {
    EmptyConcat(rest);
  }

  lemma MapRoundTrip(p: Protocol, v: Value, s: RState, rest: Bytes)
    requires v.VMap? && WellTyped(v) && s.pending == None && s.input == Encode(p, v) + rest
    ensures Decode(p, TypeOf(v), s) == Ok(Normal(p, v), s.(input := rest))
    decreases v, 0
  {
    hide *;
    MapParts(p, v);
    var kt, vt, entries := v.kt, v.vt, v.entries;
    var s1 := s.(input := EncodeEntries(p, entries) + rest);
    ConcatAssociative(PutMapHead(p, kt, vt, |entries|), EncodeEntries(p, entries), rest);
    ReadMapHeadOf(p, kt, vt, |entries|, s, s1.input);
    if p.CompactProtocol? && entries == [] {
      NoEntries(p, Stop, Stop, s1, rest);
      DecodeMapStep(p, s, (Stop, Stop, 0), s1, [], s.(input := rest));
    } else {
      EntriesRoundTrip(p, kt, vt, entries, s1, rest);
      DecodeMapStep(p, s, (kt, vt, |entries|), s1, NormalEntries(p, entries), s.(input := rest));
    }
  }

  lemma {:induction false} EntriesRoundTrip(p: Protocol, kt: TType, vt: TType, es: seq<Entry>, s: RState, rest: Bytes)
    requires forall e | e in es :: TypeOf(e.k) == kt && TypeOf(e.v) == vt && WellTyped(e.k) && WellTyped(e.v)
    requires s.pending == None && s.input == EncodeEntries(p, es) + rest
    ensures DecodeEntries(p, kt, vt, |es|, s) == Ok(NormalEntries(p, es), s.(input := rest))
    decreases es, 0
  {
    hide Encode, Decode, WellTyped, Normal;
    if es == [] {
      EmptyConcat(rest);
    } else {
      var s1 := s.(input := EncodeEntries(p, es[1..]) + rest);
      ConcatAssociative(EncodeEntry(p, es[0]), EncodeEntries(p, es[1..]), rest);
      var s0 := EntryRoundTrip(p, es[0], s, s1.input);
      EntriesRoundTrip(p, kt, vt, es[1..], s1, rest);
    }
  }

  lemma EntryRoundTrip(p: Protocol, e: Entry, s: RState, rest: Bytes) returns (s1: RState)
    requires WellTyped(e.k) && WellTyped(e.v) && s.pending == None && s.input == EncodeEntry(p, e) + rest
    ensures Decode(p, TypeOf(e.k), s) == Ok(Normal(p, e.k), s1)
    ensures Decode(p, TypeOf(e.v), s1) == Ok(Normal(p, e.v), s.(input := rest))
    decreases e, 2
  {
    hide Encode, Decode, WellTyped, Normal;
    s1 := s.(input := Encode(p, e.v) + rest);
    ConcatAssociative(Encode(p, e.k), Encode(p, e.v), rest);
    RoundTrip(p, e.k, s, s1.input);
    RoundTrip(p, e.v, s1, rest);
  }

  /** What the definitions say of a struct, with the parts by name. */
  lemma StructParts(p: Protocol, v: Value)
    requires v.VStruct? && WellTyped(v)
    ensures TypeOf(v) == Struct && forall f | f in v.fields :: FitsSigned(f.id, 16) && WellTyped(f.val)
    ensures Encode(p, v) == EncodeFields(p, 0, v.fields) + STOP
    ensures Normal(p, v) == VStruct(NormalFields(p, v.fields))
  {
    hide FitsSigned, Pow2;
  }

  lemma DecodeStructStep(p: Protocol, s: RState, fs: seq<Field>, s1: RState)
    requires DecodeFields(p, StructBegin(p, s)) == Ok(fs, s1)
    ensures p.CompactProtocol? ==> s1.stack != []
    ensures Decode(p, Struct, s) == Ok(VStruct(fs), StructEnd(p, s1))
  {
    hide DecodeFields;
  }

  lemma StructRoundTrip(p: Protocol, v: Value, s: RState, rest: Bytes)
    requires v.VStruct? && WellTyped(v) && s.pending == None && s.input == Encode(p, v) + rest
    ensures Decode(p, TypeOf(v), s) == Ok(Normal(p, v), s.(input := rest))
    decreases v, 0
  {
    hide *;
    StructParts(p, v);
    var s0 := StructBegin(p, s);
    BeginFacts(p, s);
    FieldsAnyLast(p, s0.last, v.fields);
    FieldsRoundTrip(p, v.fields, s0, rest);
    var s1 := s0.(input := rest, last := LastId(p, s0.last, v.fields));
    DecodeStructStep(p, s, NormalFields(p, v.fields), s1);
    BinaryLast(p, s0.last, v.fields);
    EndAfterBegin(p, s, s1, rest);
  }

  lemma BeginFacts(p: Protocol, s: RState)
    ensures StructBegin(p, s).input == s.input && StructBegin(p, s).pending == s.pending
    ensures if p.CompactProtocol? then StructBegin(p, s).last == 0 else StructBegin(p, s).last == s.last
  {
  }

  lemma BinaryLast(p: Protocol, last: int, fs: seq<Field>)
    ensures p.BinaryProtocol? ==> LastId(p, last, fs) == last
  {
  }

  /** Ending a struct restores the field id of the enclosing one. */
  lemma EndAfterBegin(p: Protocol, s: RState, s1: RState, rest: Bytes)
    requires s1 == StructBegin(p, s).(input := rest, last := s1.last)
    requires p.BinaryProtocol? ==> s1.last == s.last
    ensures p.CompactProtocol? ==> s1.stack != []
    ensures StructEnd(p, s1) == s.(input := rest)
  {
    if p.CompactProtocol? {
      assert s1.stack[..|s1.stack| - 1] == s.stack;
    }
  }

  /** The binary protocol does not look at the last field id. */
  lemma {:induction false} FieldsAnyLast(p: Protocol, last: int, fs: seq<Field>)
    ensures p.BinaryProtocol? ==> EncodeFields(p, last, fs) == EncodeFields(p, 0, fs)
  {
  }

  /** A sequence of fields and the stop behind it. */
  lemma {:induction false} FieldsRoundTrip(p: Protocol, fs: seq<Field>, s: RState, rest: Bytes)
    requires forall f | f in fs :: FitsSigned(f.id, 16) && WellTyped(f.val)
    requires s.pending == None && s.input == EncodeFields(p, s.last, fs) + STOP + rest
    ensures DecodeFields(p, s) == Ok(NormalFields(p, fs), s.(input := rest, last := LastId(p, s.last, fs)))
    decreases fs, 0
  {
    hide Encode, Decode, WellTyped, Normal, EncodeField, ReadFieldHead, FitsSigned;
    if fs == [] {
      EmptyConcat(STOP);
      ReadStopOf(p, s, rest);
    } else {
      var next := if p.CompactProtocol? then fs[0].id else s.last;
      var s2 := s.(input := EncodeFields(p, next, fs[1..]) + STOP + rest, last := next);
      FieldsAnyLast(p, s.last, fs);
      FieldsSplit(p, s.last, next, fs, rest);
      var s1 := FieldRoundTrip(p, fs[0], s, s2.input);
      FieldsRoundTrip(p, fs[1..], s2, rest);
    }
  }

  lemma FieldsSplit(p: Protocol, last: int, next: int, fs: seq<Field>, rest: Bytes)
    requires fs != [] && next == if p.CompactProtocol? then fs[0].id else last
    ensures EncodeFields(p, last, fs) + STOP + rest
         == EncodeField(p, last, fs[0]) + (EncodeFields(p, next, fs[1..]) + STOP + rest)
  {
    FieldsAnyLast(p, fs[0].id, fs[1..]);
    FieldsAnyLast(p, next, fs[1..]);
    hide EncodeField;
    var a, b := EncodeField(p, last, fs[0]), EncodeFields(p, next, fs[1..]);
    assert EncodeFields(p, last, fs) == a + b;
    hide EncodeFields;
    ConcatAssociative(a, b, STOP);
    ConcatAssociative(a, b + STOP, rest);
  }

  /** One field: its header, then its value, unless the header carried it. */
  lemma FieldRoundTrip(p: Protocol, f: Field, s: RState, rest: Bytes) returns (s1: RState)
    requires FitsSigned(f.id, 16) && WellTyped(f.val) && s.pending == None
    requires s.input == EncodeField(p, s.last, f) + rest
    ensures ReadFieldHead(p, s) == Ok((TypeOf(f.val), f.id), s1)
    ensures Decode(p, TypeOf(f.val), s1)
         == Ok(Normal(p, f.val), s.(input := rest, last := if p.CompactProtocol? then f.id else s.last))
    decreases f, 2
  {
    if p.CompactProtocol? && f.val.VBool? {
      C.ReadFieldHeadOf(s, Bool, f.id, C.PutBool(f.val.b), rest);
      s1 := s.(input := rest, last := f.id, pending := Some(f.val.b));
    } else {
      hide Encode, Decode, WellTyped, Normal, ReadFieldHead, FitsSigned, PutFieldHead;
      s1 := s.(input := Encode(p, f.val) + rest, last := if p.CompactProtocol? then f.id else s.last);
      ConcatAssociative(PutFieldHead(p, s.last, TypeOf(f.val), f.id), Encode(p, f.val), rest);
      ReadFieldHeadOf(p, TypeOf(f.val), f.id, s, s1.input);
      RoundTrip(p, f.val, s1, rest);
    }
  }

  /** Skipping an encoded value stops exactly at its end and restores the reader's state. */
  lemma SkipIsExact(p: Protocol, v: Value, s: RState, rest: Bytes)
    requires WellTyped(v) && s.pending == None && s.input == Encode(p, v) + rest
    ensures Skip(p, TypeOf(v), s) == Ok((), s.(input := rest))
  {
    RoundTrip(p, v, s, rest);
    SkipFollowsDecode(p, TypeOf(v), s);
  }

  /** Over the binary protocol every value comes back unchanged. */
  lemma BinaryRoundTrip(v: Value, s: RState, rest: Bytes)
    requires WellTyped(v) && s.pending == None && s.input == Encode(BinaryProtocol, v) + rest
    ensures Decode(BinaryProtocol, TypeOf(v), s) == Ok(v, s.(input := rest))
  {
    RoundTrip(BinaryProtocol, v, s, rest);
    BinaryKeepsValue(v);
  }
}
