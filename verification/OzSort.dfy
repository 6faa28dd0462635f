/** `OZoneSort`: split the key file into sorted chunks, merge them keeping the newest record of each key, print. */
module OzSort {
  import opened Bytes
  import opened Records
  import opened Index
  import opened OzMerge
  import opened Sorting

  const PER_LINE: nat := 204800
  const MAX_SPLITS: nat := 100

  // ----- qsort

  /** The contract of `qsort` with `cmp_oz_record`: some key-sorted permutation, ties in any order. */
  ghost predicate IsSortOf(s: seq<Record>, rs: seq<Record>) {
    Sorted(s) && multiset(s) == multiset(rs)
  }

  /** `cmp_oz_record` is fit for sorting. */
  lemma KeyOrder()
    ensures TotalPreorder(KeyLe)
  {
    forall a, b
      ensures KeyLe(a, b) || KeyLe(b, a)
    {
      StrCmpAntisymmetric(a.key, b.key);
    }
    forall a, b, c | KeyLe(a, b) && KeyLe(b, c)
      ensures KeyLe(a, c)
    {
      StrCmpTransitive(a.key, b.key, c.key);
    }
  }

  // ----- the split files

  /** Every record of `all` is in a chunk or still unread. */
  ghost predicate Conserved(all: seq<Record>, pool: multiset<Record>, unread: seq<Record>) {
    multiset(all) == pool + multiset(unread)
  }

  lemma ConservedEnds(all: seq<Record>, pool: multiset<Record>)
    ensures Conserved(all, Pool([]), all)
    ensures Conserved(all, pool, []) ==> pool == multiset(all)
  {
  }

  lemma ConservedStep(all: seq<Record>, pool: multiset<Record>, unread: seq<Record>, read: seq<Record>,
                      chunk: seq<Record>, rest: seq<Record>)
    requires Conserved(all, pool, unread) && unread == read + rest && multiset(chunk) == multiset(read)
    ensures Conserved(all, pool + multiset(chunk), rest)
  {
    assert multiset(unread) == multiset(read) + multiset(rest);
  }

  /** The split files hold printed, key-sorted chunks, and the chunks hold the records of the source. */
  ghost predicate IsSplit(splits: seq<Bytes>, chunks: seq<seq<Record>>) {
    && |splits| == |chunks|
    && forall i :: 0 <= i < |chunks| ==> IsChunk(splits[i], chunks[i])
  }

  lemma SplitSnoc(splits: seq<Bytes>, chunks: seq<seq<Record>>, file: Bytes, chunk: seq<Record>)
    requires IsSplit(splits, chunks) && IsChunk(file, chunk)
    ensures IsSplit(splits + [file], chunks + [chunk])
  {
  }

  lemma SortedKeepsValid(s: seq<Record>, rs: seq<Record>)
    requires IsSortOf(s, rs) && AllValid(rs)
    ensures AllValid(s)
  {
    forall r | r in s
      ensures ValidRecord(r)
    {
      assert r in multiset(s);
      assert r in rs;
    }
  }

  lemma CancelLess(d: nat, a: nat, b: nat)
    requires d * a < d * b
    ensures a < b
  {
  }

  /** `made` full chunks have been read and `left` calls remain. */
  ghost predicate ReadSoFar(calls: nat, perLine: nat, made: nat, left: nat) {
    calls == perLine * made + left
  }

  /** A last chunk is made also when the calls end with a full one. */
  function FilesNeeded(calls: nat, perLine: nat): nat
    requires perLine > 0
  {
    calls / perLine + 1
  }

  lemma ReadNothing(calls: nat, perLine: nat)
    ensures ReadSoFar(calls, perLine, 0, calls)
  {
  }

  lemma ReadStep(calls: nat, perLine: nat, made: nat, left: nat, left': nat)
    requires ReadSoFar(calls, perLine, made, left) && left == perLine + left'
    ensures ReadSoFar(calls, perLine, made + 1, left')
  {
  }

  lemma ReadLast(calls: nat, perLine: nat, made: nat, left: nat)
    requires perLine > 0 && ReadSoFar(calls, perLine, made, left)
    ensures if left < perLine then FilesNeeded(calls, perLine) == made + 1 else FilesNeeded(calls, perLine) > made + 1
  {
    CancelLess(perLine, made, calls / perLine + 1);
    if left < perLine {
      CancelLess(perLine, calls / perLine, made + 1);
    } else {
      CancelLess(perLine, made + 1, calls / perLine + 1);
    }
  }

  /** The parameter block that the sorter hands from stage to stage, with the buffers it works in. */
  class OZSort {
    const src: Bytes
    var splits: seq<Bytes>
    var nsplits: nat
    var merged: Bytes
    var mlines: nat
    const buffer: array<Record>
    const datas: array<Record>
    const flags: array<bool>
    const fps: array<Bytes>
    ghost var chunks: seq<seq<Record>>

    constructor (src: Bytes, perLine: nat, maxSplits: nat)
      ensures this.src == src && nsplits == mlines == 0 && splits == [] && merged == []
      ensures buffer.Length == perLine && datas.Length == flags.Length == fps.Length == maxSplits
      ensures fresh(buffer) && fresh(datas) && fresh(flags) && fresh(fps) && buffer != datas
    {
      this.src := src;
      splits, nsplits, merged, mlines, chunks := [], 0, [], 0, [];
      buffer := new Record[perLine](_ => Record([], 0, 0));
      datas := new Record[maxSplits](_ => Record([], 0, 0));
      flags := new bool[maxSplits](_ => false);
      fps := new Bytes[maxSplits](_ => []);
    }

    /** One chunk: at most `buffer.Length` calls of `fscanf`, of which only whole records are kept. */
    method ReadChunk(text: Bytes) returns (rest: Bytes, cnt: nat, calls: nat, eof: bool)
      modifies buffer
      ensures cnt <= calls <= buffer.Length && Parse(text) == buffer[..cnt] + Parse(rest)
      ensures Calls(text) == calls + Calls(rest)
      ensures if eof then calls < buffer.Length && Calls(rest) == 0 && Parse(rest) == [] else calls == buffer.Length
      ensures !eof && buffer.Length > 0 ==> |rest| < |text|
    {
      hide ScanLine;
      rest, cnt, calls, eof := text, 0, 0, false;
      ghost var read: seq<Record> := [];
      while calls < buffer.Length && !eof
        invariant cnt <= calls <= buffer.Length
        invariant |read| == cnt && forall k :: 0 <= k < cnt ==> buffer[k] == read[k]
        invariant Parse(text) == read + Parse(rest)
        invariant Calls(text) == calls + Calls(rest)
        invariant eof ==> Calls(rest) == 0 && Parse(rest) == [] && calls < buffer.Length
        invariant |rest| <= |text| && (calls > 0 ==> |rest| < |text|)
        decreases !eof, buffer.Length - calls
      {
        match ScanLine(rest) {
          case Eof =>
            eof := true;
          case Short(_, next) =>
            rest := next;
            calls := calls + 1;
          case Full(r, next) =>
            ConcatAssociative(read, [r], Parse(next));
            buffer[cnt] := r;
            read := read + [r];
            rest := next;
            cnt := cnt + 1;
            calls := calls + 1;
        }
      }
      assert buffer[..cnt] == read;
    }

    /** Sorts the first n records of the buffer and prints them. */
    method WriteChunk(n: nat) returns (file: Bytes, ghost chunk: seq<Record>)
      requires n <= buffer.Length && AllValid(buffer[..n])
      modifies buffer
      ensures IsChunk(file, chunk) && multiset(chunk) == multiset(old(buffer[..n]))
    {
      ghost var read := buffer[..n];
      KeyOrder();
      QSort(KeyLe, buffer, n);
      chunk := buffer[..n];
      assert IsSortOf(chunk, read);
      SortedKeepsValid(chunk, read);
      file := [];
      for i := 0 to n
        invariant buffer[..n] == chunk
        invariant file == Text(chunk[..i])
      {
        TextAppend(chunk[..i], chunk[i]);
        assert chunk[..i + 1] == chunk[..i] + [chunk[i]];
        file := file + Line(buffer[i]);
      }
      assert chunk[..n] == chunk;
    }

    /** The split so far: which records and calls are in files, and which are still unread. */
    ghost predicate Splitting(rest: Bytes, eof: bool)
      requires buffer.Length > 0
      reads this
    {
      && nsplits == |splits| <= datas.Length
      && IsSplit(splits, chunks)
      && AllValid(Parse(rest))
      && Conserved(Parse(src), Pool(chunks), Parse(rest))
      && if eof then Parse(rest) == [] && nsplits == FilesNeeded(Calls(src), buffer.Length)
         else ReadSoFar(Calls(src), buffer.Length, nsplits, Calls(rest))
    }

    lemma SplittingStarts()
      requires buffer.Length > 0 && AllValid(Parse(src)) && splits == [] && nsplits == 0 && chunks == []
      ensures Splitting(src, false)
    {
      ReadNothing(Calls(src), buffer.Length);
      ConservedEnds(Parse(src), Pool(chunks));
      hide Parse, Calls, Conserved, ReadSoFar;
    }

    lemma SplittingEnds(rest: Bytes)
      requires buffer.Length > 0 && Splitting(rest, true)
      ensures nsplits == |splits| == FilesNeeded(Calls(src), buffer.Length) <= datas.Length
      ensures IsSplit(splits, chunks) && Pool(chunks) == multiset(Parse(src))
    {
      ConservedEnds(Parse(src), Pool(chunks));
      hide Parse, Calls, FilesNeeded;
    }

    /** One round of the outer loop. */
    method SplitOnce(text: Bytes) returns (ret: int, rest: Bytes, eof: bool)
      requires buffer.Length > 0 && Splitting(text, false)
      modifies this`splits, this`nsplits, this`chunks, buffer
      ensures ret == if old(nsplits) < datas.Length then 0 else 3
      ensures ret == 3 ==> FilesNeeded(Calls(src), buffer.Length) > datas.Length
      ensures nsplits == |splits| && (ret == 0 ==> Splitting(rest, eof))
      ensures !eof ==> |rest| < |text|
    {
      hide ScanLine, IsChunk, IsSplit, AllValid, Text, ReadSoFar, FilesNeeded, Pool, Conserved;
      var cnt, calls;
      rest, cnt, calls, eof := ReadChunk(text);
      ReadLast(Calls(src), buffer.Length, nsplits, Calls(text));
      if nsplits >= datas.Length {
        return 3, rest, eof;
      }
      ghost var read := buffer[..cnt];
      ChunkValid(Parse(text), read, Parse(rest));
      var file;
      ghost var chunk;
      file, chunk := WriteChunk(cnt);
      if !eof {
        ReadStep(Calls(src), buffer.Length, nsplits, Calls(text), Calls(rest));
      }
      PoolSnoc(chunks, chunk);
      ConservedStep(Parse(src), Pool(chunks), Parse(text), read, chunk, Parse(rest));
      SplitSnoc(splits, chunks, file, chunk);
      splits, chunks, nsplits := splits + [file], chunks + [chunk], nsplits + 1;
      ret := 0;
    }

    /**
     * `ozsort_split`. Every call of `fscanf` counts against the chunk, also one that reads no whole record; a
     * last, possibly empty, chunk is always made. The split fails exactly when it would need more than
     * MAX_SPLITS files.
     */
    method Split() returns (ret: int)
      requires buffer.Length > 0 && AllValid(Parse(src))
      modifies this, buffer
      ensures nsplits == |splits| && mlines == 0 && merged == old(merged)
      ensures ret == if FilesNeeded(Calls(src), buffer.Length) <= datas.Length then 0 else 3
      ensures ret == 0 ==> nsplits == FilesNeeded(Calls(src), buffer.Length)
      ensures ret == 0 ==> IsSplit(splits, chunks) && Pool(chunks) == multiset(Parse(src))
    {
      var rest := src;
      var eof := false;
      splits, nsplits, mlines, chunks := [], 0, 0, [];
      hide *;
      SplittingStarts();
      while !eof
        invariant Splitting(rest, eof)
        invariant mlines == 0 && merged == old(merged)
        decreases !eof, |rest|
      {
        ret, rest, eof := SplitOnce(rest);
        if ret != 0 {
          return;
        }
      }
      SplittingEnds(rest);
      return 0;
    }

    // ----- ozsort_merge

    /** Channels 0..n of the merge, with what each still holds. */
    ghost predicate Loaded(n: nat, rem: seq<seq<Record>>)
      reads datas, flags, fps
    {
      && n <= |rem| && |rem| <= datas.Length == flags.Length == fps.Length
      && forall i :: 0 <= i < n ==> Channel(flags[i], datas[i], fps[i], rem[i])
    }

    /** Opens the split files and reads the first record of each. */
    method LoadFirst()
      requires IsSplit(splits, chunks) && nsplits == |splits| <= datas.Length == flags.Length == fps.Length
      modifies datas, flags, fps
      ensures Loaded(nsplits, chunks)
    {
      hide Channel, ScanLine, IsChunk;
      for i := 0 to nsplits
        invariant Loaded(i, chunks)
      {
        ChannelFirst(datas[i], splits[i], chunks[i]);
        ReadNext(i, splits[i], chunks[i]);
      }
    }

    /** Reads the next record of channel i from `file`. */
    method ReadNext(i: nat, file: Bytes, ghost rem: seq<Record>)
      requires i < datas.Length == flags.Length == fps.Length
      requires Reads(ScanLine(file), datas[i], file, rem)
      modifies datas, flags, fps
      ensures Channel(flags[i], datas[i], fps[i], rem)
      ensures forall k :: 0 <= k < datas.Length && k != i ==>
        datas[k] == old(datas[k]) && flags[k] == old(flags[k]) && fps[k] == old(fps[k])
    {
      hide Channel, ScanLine;
      match ScanLine(file) {
        case Eof =>
          flags[i] := false;
          fps[i] := file;
        case Short(_, _) =>
          assert false;
        case Full(r, rest) =>
          datas[i] := r;
          flags[i] := true;
          fps[i] := rest;
      }
    }

    /** Selects the least head below the sentinel; of equal heads the first. */
    method SelectMin() returns (hasMin: bool, minIdx: nat)
      requires nsplits <= datas.Length == flags.Length
      ensures hasMin ==> minIdx < nsplits && flags[minIdx] && BelowSentinel(datas[minIdx])
      ensures hasMin ==> forall i :: 0 <= i < nsplits && flags[i] ==> KeyLe(datas[minIdx], datas[i])
      ensures !hasMin ==> forall i :: 0 <= i < nsplits && flags[i] ==> !BelowSentinel(datas[i])
    {
      hide StrCmp;
      var key := SENTINEL;
      hasMin, minIdx := false, 0;
      for i := 0 to nsplits
        invariant if hasMin then minIdx < i && flags[minIdx] && key == datas[minIdx].key && StrCmp(key, SENTINEL) < 0
                  else key == SENTINEL
        invariant forall k :: 0 <= k < i && flags[k] ==> StrCmp(key, datas[k].key) <= 0
      {
        if flags[i] {
          StrCmpAntisymmetric(datas[i].key, key);
          if StrCmp(datas[i].key, key) < 0 {
            forall k | 0 <= k < i && flags[k]
              ensures StrCmp(datas[i].key, datas[k].key) <= 0
            {
              StrCmpTransitive(datas[i].key, key, datas[k].key);
            }
            StrCmpZero(datas[i].key, datas[i].key);
            if hasMin {
              StrCmpTransitive(datas[i].key, key, SENTINEL);
            }
            key := datas[i].key;
            minIdx := i;
            hasMin := true;
          }
        }
      }
      if !hasMin {
        forall k | 0 <= k < nsplits && flags[k]
          ensures !BelowSentinel(datas[k])
        {
          StrCmpAntisymmetric(key, datas[k].key);
        }
      }
    }

    lemma Selected(rem: seq<seq<Record>>, i: nat)
      requires |rem| == nsplits && Loaded(nsplits, rem)
      requires i < nsplits && flags[i] && BelowSentinel(datas[i])
      requires forall j :: 0 <= j < nsplits && flags[j] ==> KeyLe(datas[i], datas[j])
      ensures rem[i] != [] && LeastAt(rem, i) && rem[i][0] == datas[i]
      ensures Channel(true, datas[i], fps[i], rem[i])
    {
      hide AllValid, Sorted, StrCmp, Text;
      forall j | 0 <= j < nsplits && rem[j] != []
        ensures KeyLe(rem[i][0], rem[j][0])
      {
        assert Channel(flags[j], datas[j], fps[j], rem[j]);
      }
    }

    lemma NothingSelected(rem: seq<seq<Record>>)
      requires |rem| == nsplits && Loaded(nsplits, rem)
      requires forall j :: 0 <= j < nsplits && flags[j] ==> !BelowSentinel(datas[j])
      ensures forall j :: 0 <= j < |rem| && rem[j] != [] ==> !BelowSentinel(rem[j][0])
    {
      hide AllValid, Sorted, StrCmp, Text;
      forall j | 0 <= j < |rem| && rem[j] != []
        ensures !BelowSentinel(rem[j][0])
      {
        assert Channel(flags[j], datas[j], fps[j], rem[j]);
      }
    }

    /** Reads the next record in the selected channel. */
    method Advance(i: nat, ghost rem: seq<seq<Record>>)
      requires |rem| == nsplits && Loaded(nsplits, rem) && i < nsplits
      requires rem[i] != [] && Channel(true, datas[i], fps[i], rem[i])
      modifies datas, flags, fps
      ensures Loaded(nsplits, Take(rem, i))
    {
      hide Channel, ScanLine;
      ChannelNext(datas[i], fps[i], rem[i]);
      ReadNext(i, fps[i], rem[i][1..]);
    }

    /** Holds the selected record back, prints the one held back before if its key differs. */
    method HoldBack(prev: Prev, m: Record, ghost out: seq<Record>, ghost taken: seq<Record>)
      returns (prev': Prev, ghost out': seq<Record>)
      requires Deduped(out, prev, taken) && merged == Text(out) && mlines == |out|
      modifies this`merged, this`mlines
      ensures Deduped(out', prev', taken + [m]) && merged == Text(out') && mlines == |out'|
    {
      prev', out' := prev, out;
      if prev'.NoPrev? {
        prev' := Prev(m);
      }
      DedupedStep(out, prev, taken, m);
      hide Deduped;
      StrCmpZero(prev'.rec.key, m.key);
      if StrCmp(prev'.rec.key, m.key) == 0 {
        if m.offset >= prev'.rec.offset {
          prev' := Prev(Record(prev'.rec.key, m.offset, m.length));
        }
      } else {
        TextAppend(out, prev'.rec);
        merged := merged + Line(prev'.rec);
        mlines := mlines + 1;
        out' := out + [prev'.rec];
        prev' := Prev(m);
      }
    }

    /**
     * `ozsort_merge`. The merge file lists the newest record of each key below the sentinel, in key order, and
     * `mlines` counts its lines. A split without any such record makes the source print a null key.
     */
    method Merge() returns (ghost index: seq<Record>)
      requires IsSplit(splits, chunks) && nsplits == |splits| <= datas.Length == flags.Length == fps.Length
      requires Below(PoolSet(chunks)) != {} && mlines == 0
      modifies this`merged, this`mlines, datas, flags, fps
      ensures merged == Text(index) && mlines == |index| && IsIndex(index, Below(PoolSet(chunks)))
    {
      var prev := NoPrev;
      ghost var taken: seq<Record>, rem := [], chunks;
      ghost var out: seq<Record> := [];
      hide *;
      merged := [];
      LoadFirst();
      SplitSorted(splits, chunks);
      MergingStarts(chunks);
      while true
        invariant nsplits == |rem| <= datas.Length == flags.Length == fps.Length
        invariant Loaded(nsplits, rem)
        invariant Merging(taken, rem, chunks)
        invariant Deduped(out, prev, taken) && merged == Text(out) && mlines == |out|
        decreases |Pool(rem)|
      {
        var hasMin, minIdx := SelectMin();
        if !hasMin {
          NothingSelected(rem);
          MergingEnds(taken, rem, chunks);
          index := Last(out, prev, taken, chunks);
          merged := merged + Line(prev.rec);
          mlines := mlines + 1;
          break;
        }
        Selected(rem, minIdx);
        MergingStep(taken, rem, chunks, minIdx);
        ghost var m := rem[minIdx][0];
        prev, out := HoldBack(prev, datas[minIdx], out, taken);
        taken := taken + [m];
        Advance(minIdx, rem);
        rem := Take(rem, minIdx);
      }
    }

    /** `ozsort_work`: the merge file is the index of the source, for every chunk size and every tie order. */
    method Work() returns (ret: int, ghost index: seq<Record>)
      requires buffer.Length > 0 && datas.Length == flags.Length == fps.Length
      requires AllValid(Parse(src)) && Below(Elements(Parse(src))) != {}
      modifies this, buffer, datas, flags, fps
      ensures ret == if FilesNeeded(Calls(src), buffer.Length) <= datas.Length then 0 else 1
      ensures ret == 0 ==>
        merged == Text(index) && mlines == |index| && IsIndex(index, Below(Elements(Parse(src))))
    {
      index := [];
      var failed := Split();
      if failed != 0 {
        return 1, index;
      }
      PoolIsElements(chunks, Parse(src));
      hide *;
      index := Merge();
      ret := 0;
    }
  }

  lemma ChunkValid(all: seq<Record>, chunk: seq<Record>, rest: seq<Record>)
    requires AllValid(all) && all == chunk + rest
    ensures AllValid(chunk) && AllValid(rest)
  {
  }

  lemma SplitSorted(splits: seq<Bytes>, chunks: seq<seq<Record>>)
    requires IsSplit(splits, chunks)
    ensures AllSorted(chunks) && |chunks| == |splits|
  {
    forall i | 0 <= i < |chunks|
      ensures Sorted(chunks[i])
    {
      assert IsChunk(splits[i], chunks[i]);
    }
  }

  lemma PoolIsElements(chunks: seq<seq<Record>>, all: seq<Record>)
    requires Pool(chunks) == multiset(all)
    ensures PoolSet(chunks) == Elements(all)
  {
    assert forall r :: r in multiset(all) <==> r in all;
  }

  // ----- main

  /** What the `char`-typed copying loop prints of a file: it takes the byte 0xFF for the end. */
  function UpToFF(file: Bytes): (r: Bytes)
    ensures r <= file && 255 !in r && (|r| < |file| ==> file[|r|] == 255)
  {
    if file == [] || file[0] == 255 then [] else [file[0]] + UpToFF(file[1..])
  }

  lemma {:induction false} UpToFFWhole(file: Bytes)
    ensures UpToFF(file) == file <==> 255 !in file
  {
    if file != [] {
      UpToFFWhole(file[1..]);
      assert file == [file[0]] + file[1..];
    }
  }

  /** No other prefix is like that. */
  lemma UpToFFIs(file: Bytes, n: nat)
    requires n <= |file| && 255 !in file[..n] && (n < |file| ==> file[n] == 255)
    ensures UpToFF(file) == file[..n]
  {
    var r := UpToFF(file);
    assert |r| == n;
  }

  method CopyOut(file: Bytes) returns (out: Bytes)
    ensures out == UpToFF(file)
  {
    out := [];
    var pos := 0;
    while pos < |file| && file[pos] != 255
      invariant pos <= |file| && out == file[..pos] && 255 !in out
    {
      out := out + [file[pos]];
      pos := pos + 1;
    }
    UpToFFIs(file, pos);
  }

  /** What the sorter prints for an index: the line count, then the lines. */
  function Printed(index: seq<Record>): Bytes {
    Decimal(|index|) + [NL] + Text(index)
  }

  const PRINTED_FAILURE: Bytes := Decimal(0) + [NL]

  /** `main`: what `OZoneSort key.dat` writes to its standard output. */
  method OZoneSort(src: Bytes) returns (stdout: Bytes, ghost index: seq<Record>)
    requires AllValid(Parse(src)) && Below(Elements(Parse(src))) != {}
    ensures FilesNeeded(Calls(src), PER_LINE) > MAX_SPLITS ==> stdout == PRINTED_FAILURE
    ensures FilesNeeded(Calls(src), PER_LINE) <= MAX_SPLITS ==>
      && IsIndex(index, Below(Elements(Parse(src))))
      && stdout == Decimal(|index|) + [NL] + UpToFF(Text(index))
  {
    hide FilesNeeded, IsIndex, Below, Parse, Calls;
    var param := new OZSort(src, PER_LINE, MAX_SPLITS);
    var ret;
    ret, index := param.Work();
    if ret == 0 {
      var file := CopyOut(param.merged);
      stdout := Decimal(param.mlines) + [NL] + file;
    } else {
      stdout := PRINTED_FAILURE;
    }
  }

  // ----- exactly when the sorter loses nothing

  ghost predicate NoFF(rs: seq<Record>) {
    forall r <- rs :: 255 !in r.key
  }

  lemma {:induction false} TextHasNoFF(rs: seq<Record>)
    ensures 255 !in Text(rs) <==> NoFF(rs)
  {
    if rs != [] {
      TextHasNoFF(rs[1..]);
      LineHasNoFF(rs[0]);
      assert rs == [rs[0]] + rs[1..];
    }
  }

  lemma LineHasNoFF(r: Record)
    ensures 255 in Line(r) <==> 255 in r.key
  {
    assert forall i :: 0 <= i < |Decimal(r.offset)| ==> IsDigit(Decimal(r.offset)[i]);
    assert forall i :: 0 <= i < |Decimal(r.length)| ==> IsDigit(Decimal(r.length)[i]);
  }

  /** Which of the printed keys a byte 0xFF comes from: the keys of the log that are below the sentinel. */
  lemma KeysOfIndex(index: seq<Record>, rs: seq<Record>)
    requires IsIndex(index, Below(Elements(rs)))
    ensures NoFF(index) <==> forall r <- rs :: BelowSentinel(r) ==> 255 !in r.key
  {
    hide StrictlySorted, BelowSentinel;
    if NoFF(index) {
      forall r | r in rs && BelowSentinel(r)
        ensures 255 !in r.key
      {
        assert r in Below(Elements(rs)) && Newer(index, r);
        var m :| m in index && m.key == r.key;
      }
    }
    assert forall r <- index :: r in rs && BelowSentinel(r);
  }

  /** The printed table is complete if and only if no key of the log below the sentinel holds the byte 0xFF. */
  lemma CopyIsWhole(index: seq<Record>, rs: seq<Record>)
    requires IsIndex(index, Below(Elements(rs)))
    ensures UpToFF(Text(index)) == Text(index) <==> forall r <- rs :: BelowSentinel(r) ==> 255 !in r.key
  {
    UpToFFWhole(Text(index));
    TextHasNoFF(index);
    hide UpToFF, Text, IsIndex, NoFF;
    KeysOfIndex(index, rs);
  }

  /**
   * A log with the one key "a" 0xFF: of its line only the "a" is printed, which loads as another key without numbers.
   */
  lemma KeyWithFFIsCut()
    ensures var r := Record([97, 255], 0, 1);
      && ValidRecord(r) && BelowSentinel(r) && IsIndex([r], Below(Elements([r])))
      && UpToFF(Text([r])) == [97] && ScanLine([97]) == Short([97], [])
  {
    var r := Record([97, 255], 0, 1);
    assert Text([r]) == [97, 255] + Text([r])[2..];
    assert UpToFF(Text([r])) == [97] + UpToFF(Text([r])[1..]);
    OnlyRecord(r);
    ScanBareKey([97]);
  }

  lemma OnlyRecord(r: Record)
    requires BelowSentinel(r)
    ensures IsIndex([r], Below(Elements([r])))
  {
    assert r in [r];
    assert Newer([r], r);
  }

  /** The merge indexes every record if and only if every key is below the sentinel. */
  lemma MergeIsWhole(index: seq<Record>, rs: seq<Record>)
    requires IsIndex(index, Below(Elements(rs)))
    ensures IsIndex(index, Elements(rs)) <==> forall r <- rs :: BelowSentinel(r)
  {
    if forall r <- rs :: BelowSentinel(r) {
      assert Below(Elements(rs)) == Elements(rs);
    }
    if IsIndex(index, Elements(rs)) {
      forall r | r in rs
        ensures BelowSentinel(r)
      {
        assert r in Elements(rs) && Newer(index, r);
        var m :| m in index && m.key == r.key;
        assert m in Below(Elements(rs));
      }
    }
  }
}
