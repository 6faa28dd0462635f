/** `ozread`: the sorted table in memory, binary search, single and batch reads of the value file. */
module OzRead {
  import opened Bytes
  import opened Records
  import opened Index
  import opened OzSort

  // ----- the specification

  ghost predicate Has(index: seq<Record>, key: Bytes) {
    exists r :: r in index && r.key == key
  }

  /** The record the table holds for a key. */
  ghost function RecordOf(index: seq<Record>, key: Bytes): (r: Record)
    requires Has(index, key)
    ensures r in index && r.key == key
  {
    var r :| r in index && r.key == key;
    r
  }

  lemma RecordOfIs(index: seq<Record>, r: Record)
    requires StrictlySorted(index) && r in index
    ensures Has(index, r.key) && RecordOf(index, r.key) == r
  {
    KeyAppearsOnce(index, r, RecordOf(index, r.key));
  }

  /** `fseeko` and `fread` of one item: nothing when the offset is negative as `off_t` or the file ends early. */
  function ReadAt(file: Bytes, offset: nat, length: nat): Option<Bytes> {
    if offset < TWO63 && 1 <= length && offset + length <= |file| then Some(file[offset..offset + length]) else None
  }

  /** A buffer of `malloc(length + 1)` bytes, the size computed in 32 bits. */
  function BufferSize(length: nat): nat {
    Low32(length + 1)
  }

  /** The terminating NUL, at index `length`, is inside the buffer exactly below the largest length. */
  lemma TerminatorFits(length: nat)
    requires length < TWO32
    ensures length < BufferSize(length) <==> length < TWO32 - 1
  {
  }

  /** Records whose value leaves room for the NUL and can be sought. */
  predicate Readable(r: Record) {
    r.length < TWO32 - 1 && r.offset < TWO63
  }

  ghost predicate AllReadable(index: seq<Record>) {
    forall r <- index :: Readable(r)
  }

  /** The answer for one key: absent, present but unreadable, or its bytes. */
  datatype Answer = Missing | Unreadable | Found(value: Bytes)

  ghost function Lookup(index: seq<Record>, file: Bytes, key: Bytes): Answer {
    if !Has(index, key) then Missing
    else
      match ReadAt(file, RecordOf(index, key).offset, RecordOf(index, key).length)
      case None => Unreadable
      case Some(bytes) => Found(bytes)
  }

  /** A slot of the table is found with exactly the bytes it addresses, and unreadable if the file has no such bytes. */
  lemma LookupOfSlot(index: seq<Record>, file: Bytes, r: Record)
    requires StrictlySorted(index) && r in index
    ensures Lookup(index, file, r.key) ==
      if r.offset < 9223372036854775808 && 1 <= r.length && r.offset + r.length <= |file| then
        Found(file[r.offset..r.offset + r.length])
      else Unreadable
    ensures forall key :: Lookup(index, file, key) == Missing <==> forall q <- index :: q.key != key
  {
    hide StrCmp;
    RecordOfIs(index, r);
  }

  // ----- opening

  /** The handle: the table, and the value file with its position and the seeks made on it. */
  class OZRead {
    var recs: array<Record>
    var valueFile: Bytes
    var pos: nat
    ghost var seeks: seq<nat>

    constructor (valueFile: Bytes)
      ensures this.valueFile == valueFile && recs.Length == 0 && fresh(recs) && seeks == []
    {
      recs := new Record[0];
      this.valueFile, pos, seeks := valueFile, 0, [];
    }

    /** `fseeko`, which refuses an offset that is negative as `off_t`. */
    method Seek(offset: nat) returns (ok: bool)
      modifies `pos, `seeks
      ensures ok == (offset < TWO63) && seeks == old(seeks) + if ok then [offset] else []
      ensures pos == if ok then offset else old(pos)
    {
      ok := offset < TWO63;
      if ok {
        pos, seeks := offset, seeks + [offset];
      }
    }

    /** `fread` of one item at the position. When the file ends early, what there is has been read. */
    method ReadItem(buf: array<byte>, length: nat) returns (ok: bool)
      requires length <= buf.Length
      modifies `pos, buf
      ensures ok == (1 <= length && old(pos) + length <= |valueFile|)
      ensures ok ==> buf[..length] == valueFile[old(pos)..old(pos) + length]
      ensures forall i :: length <= i < buf.Length ==> buf[i] == old(buf[i])
      ensures pos >= old(pos)
    {
      var left := if pos <= |valueFile| then |valueFile| - pos else 0;
      var n := Min(length, left);
      forall i | 0 <= i < n {
        buf[i] := valueFile[pos + i];
      }
      ok := 1 <= length == n;
      pos := pos + n;
    }

    /** The loading loop: every line goes to the next slot, and the slots suffice. */
    method FillTable(lines: Bytes, ghost ws: Bytes, ghost index: seq<Record>)
      requires AllValid(index) && |index| == recs.Length
      requires lines == ws + Text(index) && forall k :: 0 <= k < |ws| ==> IsSpace(ws[k])
      modifies recs
      ensures recs[..] == index
    {
      hide *;
      var text, cnt := lines, 0;
      ghost var left, sp := index, ws;
      while true
        invariant cnt <= |index| == recs.Length && left == index[cnt..] && recs[..cnt] == index[..cnt]
        invariant text == sp + Text(left) && forall k :: 0 <= k < |sp| ==> IsSpace(sp[k])
        invariant AllValid(left)
        decreases |left|
      {
        ScanSpaced(sp, left);
        match ScanLine(text) {
          case Eof =>
            assert cnt == |index|;
            break;
          case Short(_, _) =>
            assert false;
          case Full(r, next) =>
            recs[cnt] := r;
            RestValid(left);
            left, sp := left[1..], [];
            text := next;
            cnt := cnt + 1;
            assert [] + Text(left) == Text(left);
        }
      }
    }

    /**
     * `ozread_open_kf` on what the sorter printed. The table gets exactly as many slots as lines follow, and
     * every slot is filled.
     */
    method OpenKeyFile(pipe: Bytes, ghost index: seq<Record>) returns (ret: int)
      requires AllValid(index) && |index| < TWO63
      requires pipe == Printed(index)
      modifies this`recs
      ensures ret == if index == [] then 2 else 0
      ensures index != [] ==> recs[..] == index && fresh(recs)
    {
      CountPrinted(index);
      hide ScanNumber, ScanLine, Printed, Text;
      match ScanNumber(pipe) {
        case NoNumber(_) =>
          assert false;
        case Number(n, rest) =>
          if n == 0 {
            return 2;
          }
          recs := new Record[n](_ => Record([], 0, 0));
          FillTable(rest, [NL], index);
      }
      return 0;
    }

    /** `ozread_get_key`: binary search for the record of a key. */
    method GetKey(key: Bytes) returns (ret: int, rec: Record)
      requires StrictlySorted(recs[..])
      ensures ret == if Has(recs[..], key) then 0 else 1
      ensures ret == 0 ==> rec == RecordOf(recs[..], key) && rec in recs[..]
    {
      hide StrCmp;
      var low, high := 0, recs.Length - 1;
      while low <= high
        invariant 0 <= low <= high + 1 <= recs.Length
        invariant forall i :: 0 <= i < low ==> StrCmp(recs[i].key, key) < 0
        invariant forall i :: high < i < recs.Length ==> StrCmp(recs[i].key, key) > 0
      {
        var mid := (low + high) / 2;
        var val := StrCmp(recs[mid].key, key);
        if val == 0 {
          StrCmpZero(recs[mid].key, key);
          RecordOfIs(recs[..], recs[mid]);
          return 0, recs[mid];
        } else if val > 0 {
          Beyond(recs[..], mid, key);
          high := mid - 1;
        } else {
          Before(recs[..], mid, key);
          low := mid + 1;
        }
      }
      forall r | r in recs[..]
        ensures r.key != key
      {
        StrCmpZero(r.key, key);
      }
      return 1, Record([], 0, 0);
    }

    /** `ozread_get_value`: seek, read one item, terminate it. Nothing outside the buffer is written. */
    method GetValue(rec: Record, buf: array<byte>) returns (ret: int)
      requires Readable(rec) && buf.Length == BufferSize(rec.length)
      modifies `pos, `seeks, buf
      ensures seeks == old(seeks) + [rec.offset]
      ensures ret == if ReadAt(valueFile, rec.offset, rec.length).Some? then 0 else 3
      ensures ret == 0 ==> HoldsValue(buf, ReadAt(valueFile, rec.offset, rec.length).value)
    {
      TerminatorFits(rec.length);
      var sought := Seek(rec.offset);
      var read := ReadItem(buf, rec.length);
      if !read {
        return 3;
      }
      buf[rec.length] := 0;
      return 0;
    }

    /** `ozread_get` */
    method Get(key: Bytes) returns (ret: int, value: array?<byte>, len: nat)
      requires StrictlySorted(recs[..]) && AllReadable(recs[..])
      modifies `pos, `seeks
      ensures ret == match Lookup(recs[..], valueFile, key)
                     case Missing => 3
                     case Unreadable => 4
                     case Found(_) => 0
      ensures ret == 0 ==> value != null && fresh(value) && len == |Lookup(recs[..], valueFile, key).value|
      ensures ret == 0 ==> HoldsValue(value, Lookup(recs[..], valueFile, key).value)
    {
      var found, rec := GetKey(key);
      if found != 0 {
        return 3, null, 0;
      }
      var buf := new byte[BufferSize(rec.length)];
      var read := GetValue(rec, buf);
      value, len := buf, rec.length;
      if read != 0 {
        return 4, value, len;
      }
      ret := 0;
    }
  }

  lemma CountPrinted(index: seq<Record>)
    requires |index| < TWO63
    ensures ScanNumber(Printed(index)) == Number(|index|, [NL] + Text(index))
  {
    hide ScanNumber, Text, Decimal;
    var d, rest := Decimal(|index|), [NL] + Text(index);
    ScanNumberPrinted([], |index|, rest);
    ConcatAssociative(d, [NL], Text(index));
    assert [] + d == d;
  }

  /** The buffer holds a value and the NUL behind it. */
  ghost predicate HoldsValue(buf: array<byte>, value: Bytes)
    reads buf
  {
    buf.Length == |value| + 1 && buf[..|value|] == value && buf[|value|] == 0
  }

  lemma Beyond(o: seq<Record>, mid: nat, key: Bytes)
    requires StrictlySorted(o) && mid < |o| && StrCmp(o[mid].key, key) > 0
    ensures forall i :: mid <= i < |o| ==> StrCmp(o[i].key, key) > 0
  {
    forall i | mid < i < |o|
      ensures StrCmp(o[i].key, key) > 0
    {
      StrCmpAntisymmetric(key, o[mid].key);
      StrCmpTransitive(key, o[mid].key, o[i].key);
      StrCmpAntisymmetric(key, o[i].key);
    }
  }

  lemma Before(o: seq<Record>, mid: nat, key: Bytes)
    requires StrictlySorted(o) && mid < |o| && StrCmp(o[mid].key, key) < 0
    ensures forall i :: 0 <= i <= mid ==> StrCmp(o[i].key, key) < 0
  {
    forall i | 0 <= i < mid
      ensures StrCmp(o[i].key, key) < 0
    {
      StrCmpTransitive(o[i].key, o[mid].key, key);
    }
  }
}
