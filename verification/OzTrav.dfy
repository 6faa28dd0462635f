/** `oztrav`: replaying the raw log, and the service whose clients share one cursor and its two buffers. */
module OzTrav {
  import opened Bytes
  import opened Records
  import opened OzRead

  /** The traversal table: the lines of the key file in file order. */
  class OZTrav {
    var recs: array<Record>
    const valueFile: Bytes

    constructor (valueFile: Bytes)
      ensures this.valueFile == valueFile && recs.Length == 0
    {
      recs := new Record[0];
      this.valueFile := valueFile;
    }

    /** `oztrav_open_kf`: one pass counts the whole records, a second one stores them. */
    method OpenKeyFile(text: Bytes) returns (ret: int)
      modifies this
      ensures ret == if Parse(text) == [] then 2 else 0
      ensures ret == 0 ==> recs[..] == Parse(text) && fresh(recs)
    {
      var n := Count(text);
      if n == 0 {
        return 2;
      }
      recs := new Record[n](_ => Record([], 0, 0));
      Fill(text);
      ret := 0;
    }

    method Fill(text: Bytes)
      requires recs.Length == |Parse(text)|
      modifies recs
      ensures recs[..] == Parse(text)
    {
      hide ScanLine;
      var rest := text;
      var cnt := 0;
      ghost var all, done := Parse(text), [];
      while cnt < recs.Length
        invariant cnt == |done| <= recs.Length == |all|
        invariant all == done + Parse(rest)
        invariant forall k :: 0 <= k < cnt ==> recs[k] == done[k]
        decreases |rest|
      {
        match ScanLine(rest) {
          case Eof =>
            break;
          case Short(_, next) =>
            rest := next;
          case Full(r, next) =>
            ConcatAssociative(done, [r], Parse(next));
            recs[cnt] := r;
            done := done + [r];
            rest := next;
            cnt := cnt + 1;
        }
      }
      assert all == done;
      assert recs[..] == done;
    }
  }

  method Count(text: Bytes) returns (n: nat)
    ensures n == |Parse(text)|
  {
    hide ScanLine;
    var rest := text;
    n := 0;
    while true
      invariant |Parse(text)| == n + |Parse(rest)|
      decreases |rest|
    {
      match ScanLine(rest) {
        case Eof =>
          break;
        case Short(_, next) =>
          rest := next;
        case Full(_, next) =>
          rest := next;
          n := n + 1;
      }
    }
  }

  // ----- the cursor

  /** What one step of a traversal answers at a position of the table. */
  datatype Step = End | Fails | Pair(key: Bytes, value: Bytes)

  function StepAt(recs: seq<Record>, file: Bytes, cur: nat): Step {
    if cur >= |recs| then End
    else
      match ReadAt(file, recs[cur].offset, recs[cur].length)
      case None => Fails
      case Some(v) => Pair(recs[cur].key, v)
  }

  /** A buffer that `realloc` grows and never shrinks; `alloc` is the size the code remembers for it. */
  ghost predicate Owned(buf: array?<byte>, alloc: nat) {
    alloc == if buf == null then 0 else buf.Length
  }

  ghost predicate Shows(buf: array?<byte>, len: nat, s: Bytes)
    reads if buf != null then {buf} else {}
  {
    buf != null && len == |s| && len < buf.Length && buf[..len] == s && buf[len] == 0
  }

  /** Makes room for `len` bytes and a NUL. */
  method Reserve(buf: array?<byte>, alloc: nat, len: nat) returns (buf': array<byte>, alloc': nat)
    requires Owned(buf, alloc) && len < TWO32 - 1
    ensures Owned(buf', alloc') && alloc' > len && alloc' >= alloc
    ensures fresh(buf') || buf' == buf
  {
    alloc' := alloc;
    if alloc <= len {
      TerminatorFits(len);
      buf' := new byte[BufferSize(len)];
      alloc' := BufferSize(len);
    } else {
      buf' := buf;
    }
  }

  method CopyInto(buf: array<byte>, s: Bytes)
    requires |s| < buf.Length
    modifies buf
    ensures Shows(buf, |s|, s)
  {
    forall i | 0 <= i < |s| {
      buf[i] := s[i];
    }
    buf[|s|] := 0;
    assert buf[..|s|] == s;
  }

  class Cursor {
    var key: array?<byte>
    var keyLen: nat
    var keyAlloc: nat
    var value: array?<byte>
    var valueLen: nat
    var valueAlloc: nat
    var cur: int

    constructor ()
      ensures Valid() && cur == 0 && key == null && value == null
    {
      key, keyLen, keyAlloc := null, 0, 0;
      value, valueLen, valueAlloc := null, 0, 0;
      cur := 0;
    }

    ghost predicate Valid()
      reads this
    {
      Owned(key, keyAlloc) && Owned(value, valueAlloc) && (key != null ==> key != value)
    }

    ghost function Buffers(): set<object>
      reads this
    {
      (if key == null then {} else {key}) + (if value == null then {} else {value})
    }

    /** The second half of a step: the key. The value on show stays. */
    method ShowKey(k: Bytes)
      requires Valid() && |k| < TWO32 - 1
      modifies this`key, this`keyLen, this`keyAlloc, if key == null then {} else {key}
      ensures Valid() && Shows(key, keyLen, k) && keyLen < keyAlloc
      ensures key != old(key) ==> fresh(key)
    {
      key, keyAlloc := Reserve(key, keyAlloc, |k|);
      keyLen := |k|;
      CopyInto(key, k);
    }

    /**
     * `oztrav_next`. What the buffers held before does not matter; after a step that succeeds both are larger
     * than what they show.
     */
    method Next(handle: OZTrav) returns (ret: int)
      requires Valid() && cur >= 0
      requires forall r <- handle.recs[..] :: Readable(r) && |r.key| < TWO32 - 1
      modifies this, Buffers()
      ensures Valid() && handle.recs[..] == old(handle.recs[..])
      ensures fresh(Buffers() - old(Buffers()))
      ensures ret == match StepAt(handle.recs[..], handle.valueFile, old(cur))
                     case End => 1
                     case Fails => 2
                     case Pair(_, _) => 0
      ensures ret == 1 <==> old(cur) >= handle.recs.Length
      ensures old(cur) < handle.recs.Length ==>
        var r := handle.recs[old(cur)];
        && (ret == 0 <==> 1 <= r.length && r.offset + r.length <= |handle.valueFile|)
        && (ret == 0 ==> key != null && keyLen == |r.key| < key.Length && key[..keyLen] == r.key)
        && (ret == 0 ==> value != null && valueLen == r.length < value.Length
                         && value[..valueLen] == handle.valueFile[r.offset..r.offset + r.length])
      ensures ret == 0 ==>
        && cur == old(cur) + 1 && keyAlloc > keyLen && valueAlloc > valueLen
        && Shows(key, keyLen, StepAt(handle.recs[..], handle.valueFile, old(cur)).key)
        && Shows(value, valueLen, StepAt(handle.recs[..], handle.valueFile, old(cur)).value)
    {
      if cur >= handle.recs.Length {
        return 1;
      }
      var prec := handle.recs[cur];
      assert prec in handle.recs[..];
      value, valueAlloc := Reserve(value, valueAlloc, prec.length);
      if prec.length < 1 || prec.offset + prec.length > |handle.valueFile| {
        return 2;
      }
      CopyInto(value, handle.valueFile[prec.offset..prec.offset + prec.length]);
      valueLen := prec.length;
      ShowKey(prec.key);
      cur := cur + 1;
      return 0;
    }
  }
}
