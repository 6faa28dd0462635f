/** Where the two compact implementations write different bytes: in doubles, and nowhere else. */
module DoubleOrder {
  import opened Bytes
  import opened Bits
  import opened Wire
  import opened Protocols
  import C = Compact

  /** Every double reads the same from both ends; values without doubles are among them. */
  predicate Symmetric(v: Value) {
    match v
    case VDouble(bits) => LittleEndian(bits, 8) == BigEndian(bits, 8)
    case VStruct(fields) => forall f | f in fields :: Symmetric(f.val)
    case VMap(_, _, entries) => forall e | e in entries :: SymmetricEntry(e)
    case VSet(_, elems) => forall e | e in elems :: Symmetric(e)
    case VList(_, elems) => forall e | e in elems :: Symmetric(e)
    case _ => true
  }

  predicate SymmetricEntry(e: Entry) {
    Symmetric(e.k) && Symmetric(e.v)
  }

  /** Same length, and the same bytes exactly when the condition holds. */
  predicate AgreeIff(a: Bytes, b: Bytes, condition: bool) {
    |a| == |b| && (a == b <==> condition)
  }

  lemma Parts(a: Bytes, b: Bytes, c: Bytes, d: Bytes, first: bool, second: bool)
    requires AgreeIff(a, c, first) && AgreeIff(b, d, second)
    ensures AgreeIff(a + b, c + d, first && second)
  {
    if a + b == c + d {
      assert (a + b)[..|a|] == a && (a + b)[|a|..] == b;
      assert (c + d)[..|a|] == c && (c + d)[|a|..] == d;
    }
  }

  lemma Head<T>(s: seq<T>)
    requires s != []
    ensures forall x :: x in s <==> x == s[0] || x in s[1..]
  {
    assert s == [s[0]] + s[1..];
  }

  lemma {:induction false} AgreeAll(vs: seq<Value>)
    ensures AgreeIff(EncodeAll(CPP_COMPACT, vs), EncodeAll(PY_COMPACT, vs), forall e | e in vs :: Symmetric(e))
    decreases vs, 0
  {
    hide Encode, Symmetric;
    if vs != [] {
      BytesAgree(vs[0]);
      AgreeAll(vs[1..]);
      Head(vs);
      Parts(Encode(CPP_COMPACT, vs[0]), EncodeAll(CPP_COMPACT, vs[1..]),
            Encode(PY_COMPACT, vs[0]), EncodeAll(PY_COMPACT, vs[1..]),
            Symmetric(vs[0]), forall e | e in vs[1..] :: Symmetric(e));
    }
  }

  lemma AgreeEntry(e: Entry)
    ensures AgreeIff(EncodeEntry(CPP_COMPACT, e), EncodeEntry(PY_COMPACT, e), SymmetricEntry(e))
    decreases e
  {
    hide Encode, Symmetric;
    BytesAgree(e.k);
    BytesAgree(e.v);
    Parts(Encode(CPP_COMPACT, e.k), Encode(CPP_COMPACT, e.v), Encode(PY_COMPACT, e.k), Encode(PY_COMPACT, e.v),
          Symmetric(e.k), Symmetric(e.v));
  }

  lemma {:induction false} AgreeEntries(es: seq<Entry>)
    ensures AgreeIff(EncodeEntries(CPP_COMPACT, es), EncodeEntries(PY_COMPACT, es),
                     forall e | e in es :: SymmetricEntry(e))
    decreases es
  {
    hide EncodeEntry, SymmetricEntry;
    if es != [] {
      AgreeEntry(es[0]);
      AgreeEntries(es[1..]);
      Head(es);
      Parts(EncodeEntry(CPP_COMPACT, es[0]), EncodeEntries(CPP_COMPACT, es[1..]),
            EncodeEntry(PY_COMPACT, es[0]), EncodeEntries(PY_COMPACT, es[1..]),
            SymmetricEntry(es[0]), forall e | e in es[1..] :: SymmetricEntry(e));
    }
  }

  lemma AgreeField(last: int, f: Field)
    ensures AgreeIff(EncodeField(CPP_COMPACT, last, f), EncodeField(PY_COMPACT, last, f), Symmetric(f.val))
    decreases f
  {
    hide Encode, C.PutFieldHead;
    BytesAgree(f.val);
    var head := C.PutFieldHead(last, f.id, C.CType(TypeOf(f.val)));
    Parts(head, Encode(CPP_COMPACT, f.val), head, Encode(PY_COMPACT, f.val), true, Symmetric(f.val));
  }

  lemma {:induction false} AgreeFields(last: int, fs: seq<Field>)
    ensures AgreeIff(EncodeFields(CPP_COMPACT, last, fs), EncodeFields(PY_COMPACT, last, fs),
                     forall f | f in fs :: Symmetric(f.val))
    decreases fs
  {
    hide EncodeField, Symmetric;
    if fs != [] {
      AgreeField(last, fs[0]);
      AgreeFields(fs[0].id, fs[1..]);
      Head(fs);
      Parts(EncodeField(CPP_COMPACT, last, fs[0]), EncodeFields(CPP_COMPACT, fs[0].id, fs[1..]),
            EncodeField(PY_COMPACT, last, fs[0]), EncodeFields(PY_COMPACT, fs[0].id, fs[1..]),
            Symmetric(fs[0].val), forall f | f in fs[1..] :: Symmetric(f.val));
    }
  }

  /**
   * Both implementations write a value in as many bytes, and in the same ones if and only if its doubles are
   * symmetric.
   */
  lemma {:induction false} BytesAgree(v: Value)
    ensures AgreeIff(Encode(CPP_COMPACT, v), Encode(PY_COMPACT, v), Symmetric(v))
    decreases v
  {
    hide EncodeFields, EncodeEntries, EncodeAll, C.PutListHead, C.PutMapHead, LittleEndian, BigEndian;
    match v
    case VStruct(fields) =>
      AgreeFields(0, fields);
      Parts(EncodeFields(CPP_COMPACT, 0, fields), STOP, EncodeFields(PY_COMPACT, 0, fields), STOP,
            forall f | f in fields :: Symmetric(f.val), true);
    case VMap(kt, vt, entries) =>
      AgreeEntries(entries);
      var head := C.PutMapHead(kt, vt, |entries|);
      Parts(head, EncodeEntries(CPP_COMPACT, entries), head, EncodeEntries(PY_COMPACT, entries),
            true, forall e | e in entries :: SymmetricEntry(e));
    case VSet(et, elems) => AgreeList(et, elems);
    case VList(et, elems) => AgreeList(et, elems);
    case _ =>
  }

  lemma AgreeList(et: TType, elems: seq<Value>)
    ensures AgreeIff(C.PutListHead(et, |elems|) + EncodeAll(CPP_COMPACT, elems),
                     C.PutListHead(et, |elems|) + EncodeAll(PY_COMPACT, elems),
                     forall e | e in elems :: Symmetric(e))
    decreases elems, 1
  {
    hide EncodeAll, C.PutListHead;
    AgreeAll(elems);
    var head := C.PutListHead(et, |elems|);
    Parts(head, EncodeAll(CPP_COMPACT, elems), head, EncodeAll(PY_COMPACT, elems),
          true, forall e | e in elems :: Symmetric(e));
  }

  lemma {:induction false} Zeros(k: nat)
    ensures forall i :: 0 <= i < k ==> BigEndian(0, k)[i] == 0
  {
    if k > 0 { Zeros(k - 1); }
  }

  /** The least positive double: its one bit is in the first byte here and in the last byte there. */
  lemma LeastDiffers()
    ensures !Symmetric(VDouble(1)) && Encode(CPP_COMPACT, VDouble(1)) != Encode(PY_COMPACT, VDouble(1))
  {
    Zeros(7);
    assert BigEndian(1, 8) == BigEndian(0, 7) + [1];
    assert LittleEndian(1, 8)[0] == 1 && BigEndian(1, 8)[0] == 0;
    BytesAgree(VDouble(1));
  }

  // ----- what one side reads of what the other has written

  /** The double with its bytes in the opposite order. */
  function Reversed(bits: nat): nat {
    FromBigEndian(LittleEndian(bits, 8))
  }

  /** The value with every double in it reversed. */
  function Swapped(v: Value): Value
    decreases v
  {
    match v
    case VDouble(bits) => VDouble(Reversed(bits))
    case VStruct(fields) => VStruct(SwappedFields(fields))
    case VMap(kt, vt, entries) => VMap(kt, vt, SwappedEntries(entries))
    case VSet(et, elems) => VSet(et, SwappedAll(elems))
    case VList(et, elems) => VList(et, SwappedAll(elems))
    case _ => v
  }

  function SwappedAll(vs: seq<Value>): (r: seq<Value>)
    ensures |r| == |vs|
    decreases vs
  {
    if vs == [] then [] else [Swapped(vs[0])] + SwappedAll(vs[1..])
  }

  function SwappedEntry(e: Entry): Entry
    decreases e
  {
    Entry(Swapped(e.k), Swapped(e.v))
  }

  function SwappedEntries(es: seq<Entry>): (r: seq<Entry>)
    ensures |r| == |es|
    decreases es
  {
    if es == [] then [] else [SwappedEntry(es[0])] + SwappedEntries(es[1..])
  }

  function SwappedField(f: Field): Field
    decreases f
  {
    Field(f.id, Swapped(f.val))
  }

  function SwappedFields(fs: seq<Field>): seq<Field>
    decreases fs
  {
    if fs == [] then [] else [SwappedField(fs[0])] + SwappedFields(fs[1..])
  }

  lemma ReversedBytes(bits: nat)
    ensures BigEndian(Reversed(bits), 8) == LittleEndian(bits, 8) && Reversed(bits) < Pow2(64)
  {
    hide Pow2, BigEndian, FromBigEndian, LittleEndian;
    BigEndianOfItself(LittleEndian(bits, 8));
  }

  /** What C++ writes of a value is what Python would write of the swapped one, which is typed as well. */
  lemma {:induction false} SwappedEncodes(v: Value)
    requires WellTyped(v)
    ensures Encode(CPP_COMPACT, v) == Encode(PY_COMPACT, Swapped(v))
    ensures WellTyped(Swapped(v)) && TypeOf(Swapped(v)) == TypeOf(v)
    decreases v, 1
  {
    hide FitsSigned, Pow2, C.PutListHead, C.PutMapHead, BigEndian, LittleEndian, Reversed, EncodeAll, EncodeEntries,
         EncodeFields;
    match v
    case VDouble(bits) => ReversedBytes(bits);
    case VStruct(fields) => SwappedFieldsEncode(0, fields);
    case VMap(kt, vt, entries) => SwappedEntriesEncode(kt, vt, entries);
    case VSet(et, elems) => SwappedAllEncode(et, elems);
    case VList(et, elems) => SwappedAllEncode(et, elems);
    case _ =>
  }

  lemma {:induction false} SwappedAllEncode(et: TType, vs: seq<Value>)
    requires forall e | e in vs :: TypeOf(e) == et && WellTyped(e)
    ensures EncodeAll(CPP_COMPACT, vs) == EncodeAll(PY_COMPACT, SwappedAll(vs))
    ensures forall e | e in SwappedAll(vs) :: TypeOf(e) == et && WellTyped(e)
    decreases vs, 0
  {
    hide Encode, Swapped, WellTyped;
    if vs != [] {
      SwappedEncodes(vs[0]);
      SwappedAllEncode(et, vs[1..]);
      assert SwappedAll(vs)[1..] == SwappedAll(vs[1..]);
    }
  }

  lemma SwappedEntryEncodes(e: Entry)
    requires WellTyped(e.k) && WellTyped(e.v)
    ensures EncodeEntry(CPP_COMPACT, e) == EncodeEntry(PY_COMPACT, SwappedEntry(e))
    ensures var s := SwappedEntry(e);
      WellTyped(s.k) && WellTyped(s.v) && TypeOf(s.k) == TypeOf(e.k) && TypeOf(s.v) == TypeOf(e.v)
    decreases e, 2
  {
    hide Encode, Swapped, WellTyped;
    SwappedEncodes(e.k);
    SwappedEncodes(e.v);
  }

  lemma {:induction false} SwappedEntriesEncode(kt: TType, vt: TType, es: seq<Entry>)
    requires forall e | e in es :: TypeOf(e.k) == kt && TypeOf(e.v) == vt && WellTyped(e.k) && WellTyped(e.v)
    ensures EncodeEntries(CPP_COMPACT, es) == EncodeEntries(PY_COMPACT, SwappedEntries(es))
    ensures forall e | e in SwappedEntries(es) ::
      TypeOf(e.k) == kt && TypeOf(e.v) == vt && WellTyped(e.k) && WellTyped(e.v)
    decreases es, 0
  {
    hide EncodeEntry, SwappedEntry, WellTyped;
    if es != [] {
      SwappedEntryEncodes(es[0]);
      SwappedEntriesEncode(kt, vt, es[1..]);
      assert SwappedEntries(es)[1..] == SwappedEntries(es[1..]);
    }
  }

  lemma SwappedFieldEncodes(last: int, f: Field)
    requires WellTyped(f.val)
    ensures EncodeField(CPP_COMPACT, last, f) == EncodeField(PY_COMPACT, last, SwappedField(f))
    ensures WellTyped(SwappedField(f).val)
    decreases f, 2
  {
    hide Encode, C.PutFieldHead, WellTyped;
    SwappedEncodes(f.val);
  }

  lemma {:induction false} SwappedFieldsEncode(last: int, fs: seq<Field>)
    requires forall f | f in fs :: FitsSigned(f.id, 16) && WellTyped(f.val)
    ensures EncodeFields(CPP_COMPACT, last, fs) == EncodeFields(PY_COMPACT, last, SwappedFields(fs))
    ensures forall f | f in SwappedFields(fs) :: FitsSigned(f.id, 16) && WellTyped(f.val)
    decreases fs, 0
  {
    hide EncodeField, WellTyped, Swapped, FitsSigned;
    if fs != [] {
      SwappedFieldEncodes(last, fs[0]);
      SwappedFieldsEncode(fs[0].id, fs[1..]);
      assert SwappedFields(fs)[1..] == SwappedFields(fs[1..]);
    }
  }
}
