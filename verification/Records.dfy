/** Index records, the text lines that store them in `key.dat`, and the `fscanf` call that reads them back. */
module Records {
  import opened Bytes

  const KEY_BUF_SIZE := 128

  /** `OZRecord`: where in the value file the value of a key lies. */
  datatype Record = Record(key: Bytes, offset: nat, length: nat)

  /** Keys that survive `%s` into a buffer of KEY_BUF_SIZE bytes. */
  predicate ValidKey(key: Bytes) {
    1 <= |key| < KEY_BUF_SIZE && forall i :: 0 <= i < |key| ==> !IsSpace(key[i]) && key[i] != 0
  }

  predicate ValidRecord(r: Record) {
    ValidKey(r.key) && r.offset < TWO64 && r.length < TWO32
  }

  ghost predicate AllValid(rs: seq<Record>) {
    forall r <- rs :: ValidRecord(r)
  }

  /** From 1 to 127 bytes, none of them a NUL, a blank, or from TAB to CR. */
  lemma ValidKeyIs(key: Bytes)
    ensures ValidKey(key) <==>
      1 <= |key| <= 127 && forall i :: 0 <= i < |key| ==> key[i] != 0 && key[i] != 32 && !(9 <= key[i] <= 13)
  {
  }

  // ----- printing

  /** `fprintf("%s\t%llu\t%u\n")` */
  function Line(r: Record): Bytes {
    r.key + [TAB] + Decimal(r.offset) + [TAB] + Decimal(r.length) + [NL]
  }

  /** The key "ab" at offset 0 with 17 bytes, as it stands in the file. */
  lemma LineExample()
    ensures Line(Record([97, 98], 0, 17)) == [97, 98, 9, 48, 9, 49, 55, 10]
  {
    DecimalExamples();
  }

  /** Key and numbers are separated by TAB and ended by LF. */
  lemma LineIs(r: Record)
    ensures Line(r) == r.key + ([9] + (Decimal(r.offset) + ([9] + (Decimal(r.length) + [10]))))
  {
  }

  function Text(rs: seq<Record>): Bytes {
    if rs == [] then [] else Line(rs[0]) + Text(rs[1..])
  }

  lemma {:induction false} TextAppend(rs: seq<Record>, r: Record)
    ensures Text(rs + [r]) == Text(rs) + Line(r)
  {
    if rs != [] {
      TextAppend(rs[1..], r);
      assert (rs + [r])[1..] == rs[1..] + [r];
    }
  }

  // ----- scanning

  function SkipSpace(s: Bytes): (r: Bytes)
    ensures |r| <= |s|
  {
    s[Span(Space, s)..]
  }

  lemma SkipSpaceOver(ws: Bytes, rest: Bytes)
    requires forall i :: 0 <= i < |ws| ==> IsSpace(ws[i])
    requires rest == [] || !IsSpace(rest[0])
    ensures SkipSpace(ws + rest) == rest
  {
    assert forall i :: 0 <= i < |ws| ==> InClass(Space, ws[i]);
    SpanOf(Space, ws, rest);
  }

  /** `%llu`: `strtoull` saturates. */
  function Saturate(n: nat): (r: nat)
    ensures r < TWO64 && (n < TWO64 ==> r == n)
  {
    if n < TWO64 then n else TWO64 - 1
  }

  /** Conversion to `uint32_t`. */
  function Low32(n: nat): (r: nat)
    ensures r < TWO32 && (n < TWO32 ==> r == n)
  {
    n % 0x1_0000_0000
  }

  /** `%s`: white space is skipped, then a token runs to the next white space. */
  function ScanToken(s: Bytes): (r: (Bytes, Bytes))
    ensures |r.0| + |r.1| <= |s|
  {
    var t := SkipSpace(s);
    var n := Span(NonSpace, t);
    (t[..n], t[n..])
  }

  datatype Number = NoNumber(rest: Bytes) | Number(value: nat, rest: Bytes)

  /** `%llu` and `%u` before narrowing: the blank in front of them skips white space as they do. */
  function ScanNumber(s: Bytes): (r: Number)
    ensures |r.rest| <= |s|
  {
    var t := SkipSpace(s);
    var n := Span(Digit, t);
    assert forall i :: 0 <= i < n ==> InClass(Digit, t[i]) && IsDigit(t[i]);
    if n == 0 then NoNumber(t) else Number(Saturate(DigitsValue(t[..n])), t[n..])
  }

  /** One `fscanf` call: end of input, a call that assigned fewer than three items, or a whole record. */
  datatype Scan = Eof | Short(key: Bytes, rest: Bytes) | Full(rec: Record, rest: Bytes)

  /** `fscanf("%s\t%llu\t%u")`: a blank in a format skips any white space, also none. */
  function ScanOpen(text: Bytes): (s: Scan)
    ensures !s.Eof? ==> |s.rest| < |text|
  {
    var (key, s1) := ScanToken(text);
    if key == [] then Eof
    else
      match ScanNumber(s1)
      case NoNumber(rest) => Short(key, rest)
      case Number(offset, s2) =>
        match ScanNumber(s2)
        case NoNumber(rest) => Short(key, rest)
        case Number(length, rest) => Full(Record(key, offset, Low32(length)), rest)
  }

  /** `fscanf("%s\t%llu\t%u\n")`: the same, but the white space after the record is consumed too. */
  function ScanLine(text: Bytes): (s: Scan)
    ensures !s.Eof? ==> |s.rest| < |text|
  {
    match ScanOpen(text)
    case Eof => Eof
    case Short(key, rest) => Short(key, rest)
    case Full(r, rest) => Full(r, SkipSpace(rest))
  }

  lemma ScanTokenPrinted(ws: Bytes, key: Bytes, rest: Bytes)
    requires forall i :: 0 <= i < |ws| ==> IsSpace(ws[i])
    requires key != [] && forall i :: 0 <= i < |key| ==> !IsSpace(key[i])
    requires rest == [] || IsSpace(rest[0])
    ensures ScanToken(ws + key + rest) == (key, rest)
  {
    assert ws + key + rest == ws + (key + rest);
    SkipSpaceOver(ws, key + rest);
    assert forall i :: 0 <= i < |key| ==> InClass(NonSpace, key[i]);
    SpanOf(NonSpace, key, rest);
    assert (key + rest)[..|key|] == key && (key + rest)[|key|..] == rest;
  }

  /** A line that breaks off behind its key gives the key alone. */
  lemma ScanBareKey(key: Bytes)
    requires key != [] && forall i :: 0 <= i < |key| ==> !IsSpace(key[i])
    ensures ScanLine(key) == Short(key, [])
  {
    ScanTokenPrinted([], key, []);
    assert [] + key + [] == key;
    assert ScanNumber([]) == NoNumber([]);
    hide ScanToken, ScanNumber;
  }

  lemma ScanNumberPrinted(ws: Bytes, n: nat, rest: Bytes)
    requires forall i :: 0 <= i < |ws| ==> IsSpace(ws[i])
    requires n < TWO64 && (rest == [] || !IsDigit(rest[0]))
    ensures ScanNumber(ws + Decimal(n) + rest) == Number(n, rest)
  {
    var d := Decimal(n);
    assert ws + d + rest == ws + (d + rest);
    SkipSpaceOver(ws, d + rest);
    assert forall i :: 0 <= i < |d| ==> InClass(Digit, d[i]);
    SpanOf(Digit, d, rest);
    assert (d + rest)[..|d|] == d && (d + rest)[|d|..] == rest;
    DecimalRoundTrip(n);
  }

  /** The scanner stands at a line, possibly after white space: it reads exactly that line. */
  lemma ScanPrinted(ws: Bytes, r: Record, rest: Bytes)
    requires forall i :: 0 <= i < |ws| ==> IsSpace(ws[i])
    requires ValidRecord(r)
    ensures ScanOpen(ws + Line(r) + rest) == Full(r, [NL] + rest)
  {
    var s2 := [TAB] + Decimal(r.length) + ([NL] + rest);
    var s1 := [TAB] + Decimal(r.offset) + s2;
    assert ws + Line(r) + rest == ws + r.key + s1;
    ScanTokenPrinted(ws, r.key, s1);
    ScanNumberPrinted([TAB], r.offset, s2);
    ScanNumberPrinted([TAB], r.length, [NL] + rest);
  }

  // ----- whole files

  /** The records that the reading loops of the sorter and of the traversal keep: the calls that return 3. */
  function Parse(text: Bytes): seq<Record>
    decreases |text|
  {
    match ScanLine(text)
    case Eof => []
    case Short(_, rest) => Parse(rest)
    case Full(r, rest) => [r] + Parse(rest)
  }

  /** How many calls a reading loop makes before `fscanf` answers EOF. */
  function Calls(text: Bytes): nat
    decreases |text|
  {
    match ScanLine(text)
    case Eof => 0
    case Short(_, rest) => 1 + Calls(rest)
    case Full(_, rest) => 1 + Calls(rest)
  }

  lemma TextStart(rs: seq<Record>)
    requires AllValid(rs)
    ensures Text(rs) == [] <==> rs == []
    ensures rs != [] ==> !IsSpace(Text(rs)[0])
  {
    if rs != [] {
      assert ValidRecord(rs[0]);
      assert Text(rs)[0] == rs[0].key[0];
    }
  }

  /** One call on a printed file, possibly after white space, reads its first record and leaves the next lines. */
  lemma ScanSpaced(ws: Bytes, rs: seq<Record>)
    requires AllValid(rs) && forall i :: 0 <= i < |ws| ==> IsSpace(ws[i])
    ensures ScanOpen(ws + Text(rs)) == if rs == [] then Eof else Full(rs[0], [NL] + Text(rs[1..]))
    ensures ScanLine(ws + Text(rs)) == if rs == [] then Eof else Full(rs[0], Text(rs[1..]))
  {
    if rs == [] {
      SkipSpaceOver(ws, []);
      assert ws + [] == ws;
    } else {
      hide ScanOpen, Line, SkipSpace;
      assert ValidRecord(rs[0]);
      ScanPrinted(ws, rs[0], Text(rs[1..]));
      ConcatAssociative(ws, Line(rs[0]), Text(rs[1..]));
      TextStart(rs[1..]);
      SkipSpaceOver([NL], Text(rs[1..]));
    }
  }

  lemma ScanText(rs: seq<Record>)
    requires AllValid(rs)
    ensures ScanLine(Text(rs)) == if rs == [] then Eof else Full(rs[0], Text(rs[1..]))
  {
    hide *;
    ScanSpaced([], rs);
    EmptyConcat(Text(rs));
  }

  lemma ParseOne(text: Bytes, r: Record, rest: Bytes)
    requires ScanLine(text) == Full(r, rest)
    ensures Parse(text) == [r] + Parse(rest) && Calls(text) == 1 + Calls(rest)
  {
  }

  lemma ParseNone()
    ensures Parse(Text([])) == [] && Calls(Text([])) == 0
  {
    ScanText([]);
  }

  lemma RestValid(rs: seq<Record>)
    requires AllValid(rs) && rs != []
    ensures AllValid(rs[1..]) && rs == [rs[0]] + rs[1..]
  {
    hide ValidRecord;
  }

  /** The text log round trip: reading back what was printed gives the same list of records. */
  lemma {:induction false} TextRoundTrip(rs: seq<Record>)
    requires AllValid(rs)
    ensures Parse(Text(rs)) == rs && Calls(Text(rs)) == |rs|
    decreases |rs|
  {
    hide *;
    if rs == [] {
      ParseNone();
    } else {
      ScanText(rs);
      RestValid(rs);
      TextRoundTrip(rs[1..]);
      ParseOne(Text(rs), rs[0], Text(rs[1..]));
    }
  }
}
