/** Thrift types and values, the reading state of a protocol object, and the integers both protocols put on the wire. */
module Wire {
  import opened Bytes
  import opened Bits

  // ----- types and values

  datatype TType = Stop | Bool | Byte | Double | I16 | I32 | I64 | String | Struct | Map | Set | List
                 | Other(code: int)
  {
    /** The number of the type in the enumeration `TType`. */
    function Code(): int {
      match this
      case Stop => 0 case Bool => 2 case Byte => 3 case Double => 4 case I16 => 6 case I32 => 8 case I64 => 10
      case String => 11 case Struct => 12 case Map => 13 case Set => 14 case List => 15
      case Other(c) => c
    }

    /** The types a value can have. */
    predicate OfValue() {
      !Stop? && !Other?
    }
  }

  function TypeOfCode(c: int): TType {
    match c
    case 0 => Stop case 2 => Bool case 3 => Byte case 4 => Double case 6 => I16 case 8 => I32 case 10 => I64
    case 11 => String case 12 => Struct case 13 => Map case 14 => Set case 15 => List
    case _ => Other(c)
  }

  lemma TypeOfItsCode(t: TType)
    requires t.OfValue()
    ensures TypeOfCode(t.Code()) == t && 2 <= t.Code() <= 15
  {
  }

  /** A double is its 64 bits. Lists, sets and maps carry the types their headers announce. */
  datatype Value = VBool(b: bool) | VByte(i: int) | VI16(i: int) | VI32(i: int) | VI64(i: int) | VDouble(bits: nat)
                 | VString(s: Bytes) | VStruct(fields: seq<Field>) | VMap(kt: TType, vt: TType, entries: seq<Entry>)
                 | VSet(et: TType, elems: seq<Value>) | VList(et: TType, elems: seq<Value>)
  datatype Field = Field(id: int, val: Value)
  datatype Entry = Entry(k: Value, v: Value)

  function TypeOf(v: Value): TType {
    match v
    case VBool(_) => Bool case VByte(_) => Byte case VI16(_) => I16 case VI32(_) => I32 case VI64(_) => I64
    case VDouble(_) => Double case VString(_) => String case VStruct(_) => Struct case VMap(_, _, _) => Map
    case VSet(_, _) => Set case VList(_, _) => List
  }

  /** Numbers fit their types, sizes fit `int32_t`, and elements have the announced types. */
  predicate WellTyped(v: Value) {
    match v
    case VBool(_) => true
    case VByte(i) => FitsSigned(i, 8)
    case VI16(i) => FitsSigned(i, 16)
    case VI32(i) => FitsSigned(i, 32)
    case VI64(i) => FitsSigned(i, 64)
    case VDouble(bits) => bits < Pow2(64)
    case VString(s) => |s| < TWO31
    case VStruct(fields) => forall f | f in fields :: FitsSigned(f.id, 16) && WellTyped(f.val)
    case VMap(kt, vt, entries) =>
      && kt.OfValue() && vt.OfValue() && |entries| < TWO31
      && forall e | e in entries :: TypeOf(e.k) == kt && TypeOf(e.v) == vt && WellTyped(e.k) && WellTyped(e.v)
    case VSet(et, elems) =>
      et.OfValue() && |elems| < TWO31 && forall e | e in elems :: TypeOf(e) == et && WellTyped(e)
    case VList(et, elems) =>
      et.OfValue() && |elems| < TWO31 && forall e | e in elems :: TypeOf(e) == et && WellTyped(e)
  }

  // ----- reading

  datatype Error = EndOfFile | BadVersion | NegativeSize | InvalidData | UnknownType

  /**
   * What a protocol object remembers while reading: the unread bytes, the field id last read with the ids of the
   * enclosing structs, and a boolean that came with a field header.
   */
  datatype RState = RState(input: Bytes, last: int, stack: seq<int>, pending: Option<bool>)

  /** A value with the state after it, or the exception that is thrown. */
  datatype Read<+T> = Ok(val: T, st: RState) | Fail(error: Error) {
    predicate IsFailure() {
      Fail?
    }
    function PropagateFailure<U>(): Read<U>
      requires Fail?
    {
      Fail(error)
    }
    function Extract(): (T, RState)
      requires Ok?
    {
      (val, st)
    }
  }

  /** Some input has been taken, nothing else has changed. */
  predicate Advanced(s: RState, s': RState) {
    |s'.input| < |s.input| && s' == s.(input := s'.input)
  }

  /** `readAll` */
  function ReadBytes(s: RState, n: nat): (r: Read<Bytes>)
    ensures r.Ok? ==> |r.st.input| == |s.input| - n && r.st == s.(input := r.st.input)
  {
    if |s.input| < n then Fail(EndOfFile) else Ok(s.input[..n], s.(input := s.input[n..]))
  }

  lemma ReadBytesOf(s: RState, a: Bytes, rest: Bytes)
    requires s.input == a + rest
    ensures ReadBytes(s, |a|) == Ok(a, s.(input := rest))
  {
    assert s.input[..|a|] == a && s.input[|a|..] == rest;
  }

  function ReadUByte(s: RState): (r: Read<byte>)
    ensures r.Ok? ==> Advanced(s, r.st)
  {
    if s.input == [] then Fail(EndOfFile) else Ok(s.input[0], s.(input := s.input[1..]))
  }

  /** What is sent of a string whose size is narrowed to `uint32_t`. */
  function Narrowed(s: Bytes): (r: Bytes)
    ensures |s| < TWO32 ==> r == s
    ensures |r| < TWO32
  {
    s[..|s| % 0x1_0000_0000]
  }

  // ----- big- and little-endian numbers

  function BigEndian(n: nat, k: nat): (s: Bytes)
    ensures |s| == k
  {
    if k == 0 then [] else BigEndian(n / 256, k - 1) + [n % 256]
  }

  function FromBigEndian(s: Bytes): nat {
    if s == [] then 0 else 256 * FromBigEndian(s[..|s| - 1]) + s[|s| - 1]
  }

  lemma Pow2Byte(k: nat)
    ensures Pow2(8 * (k + 1)) == 256 * Pow2(8 * k)
  {
    var n := 8 * k;
    assert Pow2(n + 8) == 2 * Pow2(n + 7) && Pow2(n + 7) == 2 * Pow2(n + 6) && Pow2(n + 6) == 2 * Pow2(n + 5);
    assert Pow2(n + 5) == 2 * Pow2(n + 4) && Pow2(n + 4) == 2 * Pow2(n + 3) && Pow2(n + 3) == 2 * Pow2(n + 2);
    assert Pow2(n + 2) == 2 * Pow2(n + 1);
  }

  lemma Widths()
    ensures Pow2(8) == 256 && Pow2(16) == 65536 && Pow2(32) == TWO32 && Pow2(64) == TWO64
    ensures Pow2(7) == 128 && Pow2(15) == 32768 && Pow2(31) == TWO31 && Pow2(63) == TWO63
  {
    assert Pow2(0) == 1;
    hide Pow2;
    Pow2Byte(0);
    Pow2Byte(1);
    Pow2Byte(2);
    Pow2Byte(3);
    Pow2Byte(4);
    Pow2Byte(5);
    Pow2Byte(6);
    Pow2Byte(7);
    Halves(8);
    Halves(16);
    Halves(32);
    Halves(64);
  }

  lemma Halves(w: nat)
    requires w >= 1
    ensures Pow2(w) == 2 * Pow2(w - 1)
  {
  }

  lemma {:induction false} BigEndianRoundTrip(n: nat, k: nat)
    requires n < Pow2(8 * k)
    ensures FromBigEndian(BigEndian(n, k)) == n
  {
    if k > 0 {
      Pow2Byte(k - 1);
      BigEndianRoundTrip(n / 256, k - 1);
      assert BigEndian(n, k)[..k - 1] == BigEndian(n / 256, k - 1);
    }
  }

  /** Any bytes are the encoding of their number. */
  lemma {:induction false} BigEndianOfItself(s: Bytes)
    ensures BigEndian(FromBigEndian(s), |s|) == s && FromBigEndian(s) < Pow2(8 * |s|)
  {
    if s != [] {
      var init, last := s[..|s| - 1], s[|s| - 1];
      BigEndianOfItself(init);
      Pow2Byte(|init|);
      var n := FromBigEndian(s);
      assert n / 256 == FromBigEndian(init) && n % 256 == last;
      assert s == init + [last];
    }
  }

  function LittleEndian(n: nat, k: nat): (s: Bytes)
    ensures |s| == k
  {
    if k == 0 then [] else [n % 256] + LittleEndian(n / 256, k - 1)
  }

  function FromLittleEndian(s: Bytes): nat {
    if s == [] then 0 else s[0] + 256 * FromLittleEndian(s[1..])
  }

  lemma {:induction false} LittleEndianRoundTrip(n: nat, k: nat)
    requires n < Pow2(8 * k)
    ensures FromLittleEndian(LittleEndian(n, k)) == n
  {
    if k > 0 {
      Pow2Byte(k - 1);
      LittleEndianRoundTrip(n / 256, k - 1);
    }
  }
}
