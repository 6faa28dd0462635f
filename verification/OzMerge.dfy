/** The lemmas behind the k-way merge of `ozsort_merge`. */
module OzMerge {
  import opened Bytes
  import opened Records
  import opened Index

  /** The string "~", which the selection of the least key starts from. */
  const SENTINEL: Bytes := [126]

  predicate BelowSentinel(r: Record) {
    StrCmp(r.key, SENTINEL) < 0
  }

  /** Which keys these are: those whose first byte is below 126. A key that starts with "~" is not one of them. */
  lemma FirstByteDecides(key: Bytes)
    ensures StrCmp(key, SENTINEL) < 0 <==> key == [] || key[0] < 126
  {
    if key != [] && key[0] == 126 {
      assert StrCmp(key[1..], []) >= 0;
    }
  }

  ghost function Below(rs: set<Record>): set<Record> {
    set r | r in rs && BelowSentinel(r)
  }

  // ----- conservation: the multiset of records in a list of chunks

  ghost function Pool(chunks: seq<seq<Record>>): multiset<Record> {
    if chunks == [] then multiset{} else multiset(chunks[0]) + Pool(chunks[1..])
  }

  ghost function PoolSet(chunks: seq<seq<Record>>): set<Record> {
    set r | r in Pool(chunks)
  }

  lemma {:induction false} PoolSnoc(chunks: seq<seq<Record>>, c: seq<Record>)
    ensures Pool(chunks + [c]) == Pool(chunks) + multiset(c)
  {
    if chunks != [] {
      PoolSnoc(chunks[1..], c);
      assert (chunks + [c])[1..] == chunks[1..] + [c];
    }
  }

  /** Channel i without its first record. */
  function Take(rem: seq<seq<Record>>, i: nat): seq<seq<Record>>
    requires i < |rem| && rem[i] != []
  {
    rem[i := rem[i][1..]]
  }

  /** Taking the head of channel i takes exactly one record out of the pool. */
  lemma {:induction false} PoolTake(rem: seq<seq<Record>>, i: nat)
    requires i < |rem| && rem[i] != []
    ensures Pool(rem) == Pool(Take(rem, i)) + multiset{rem[i][0]}
  {
    var rem' := Take(rem, i);
    if i == 0 {
      assert rem[0] == [rem[0][0]] + rem[0][1..];
      assert rem'[1..] == rem[1..];
    } else {
      PoolTake(rem[1..], i - 1);
      assert rem'[1..] == Take(rem[1..], i - 1);
      assert Pool(rem') == multiset(rem[0]) + Pool(rem'[1..]);
    }
  }

  lemma {:induction false} PoolMember(rem: seq<seq<Record>>, r: Record)
    ensures r in Pool(rem) <==> exists i :: 0 <= i < |rem| && r in rem[i]
  {
    if rem != [] {
      PoolMember(rem[1..], r);
      if i :| 0 <= i < |rem[1..]| && r in rem[1..][i] {
        assert r in rem[i + 1];
      }
      if i :| 0 <= i < |rem| && r in rem[i] {
        assert i > 0 ==> r in rem[1..][i - 1];
      }
    }
  }

  // ----- one channel

  /** The split files hold printed, key-sorted chunks. */
  ghost predicate IsChunk(file: Bytes, chunk: seq<Record>) {
    file == Text(chunk) && Sorted(chunk) && AllValid(chunk)
  }

  /** `rem` is what a split file still holds: its first record is in `data`, the rest is unread. */
  ghost predicate Channel(flag: bool, data: Record, file: Bytes, rem: seq<Record>) {
    && Sorted(rem) && AllValid(rem)
    && if flag then rem != [] && data == rem[0] && file == Text(rem[1..]) else rem == []
  }

  /** Reading the next record of a file of which `rem` is unread. */
  ghost predicate Reads(s: Scan, data: Record, file: Bytes, rem: seq<Record>) {
    match s
    case Eof => Channel(false, data, file, rem)
    case Short(_, _) => false
    case Full(r, rest) => Channel(true, r, rest, rem)
  }

  lemma ChannelFirst(data: Record, file: Bytes, chunk: seq<Record>)
    requires IsChunk(file, chunk)
    ensures Reads(ScanLine(file), data, file, chunk)
  {
    ScanText(chunk);
  }

  lemma ChannelNext(data: Record, file: Bytes, rem: seq<Record>)
    requires Channel(true, data, file, rem)
    ensures Reads(ScanLine(file), data, file, rem[1..])
  {
    ChannelFirst(data, file, rem[1..]);
  }

  // ----- the whole state

  /** Everything taken so far is at most everything that remains. */
  ghost predicate Frontier(taken: seq<Record>, rem: seq<seq<Record>>) {
    forall t, i, r :: t in taken && 0 <= i < |rem| && r in rem[i] ==> KeyLe(t, r)
  }

  ghost predicate AllSorted(rem: seq<seq<Record>>) {
    forall i :: 0 <= i < |rem| ==> Sorted(rem[i])
  }

  /** Channel i holds a least key. */
  ghost predicate LeastAt(rem: seq<seq<Record>>, i: nat) {
    && i < |rem| && rem[i] != [] && BelowSentinel(rem[i][0])
    && forall j :: 0 <= j < |rem| && rem[j] != [] ==> KeyLe(rem[i][0], rem[j][0])
  }

  ghost predicate Merging(taken: seq<Record>, rem: seq<seq<Record>>, all: seq<seq<Record>>) {
    && Sorted(taken) && AllSorted(rem) && Frontier(taken, rem)
    && (forall t <- taken :: BelowSentinel(t))
    && multiset(taken) + Pool(rem) == Pool(all)
  }

  lemma MergingStarts(all: seq<seq<Record>>)
    requires AllSorted(all)
    ensures Merging([], all, all) && Deduped([], NoPrev, []) && Text([]) == []
  {
  }

  lemma LeastOfAll(rem: seq<seq<Record>>, i: nat, j: nat, r: Record)
    requires AllSorted(rem) && LeastAt(rem, i) && j < |rem| && r in rem[j]
    ensures KeyLe(rem[i][0], r)
  {
    var k :| 0 <= k < |rem[j]| && rem[j][k] == r;
    assert Sorted(rem[j]) && KeyLe(rem[i][0], rem[j][0]);
    if k > 0 {
      StrCmpTransitive(rem[i][0].key, rem[j][0].key, r.key);
    }
  }

  /** Taking the least head keeps the merge in order. */
  lemma MergingStep(taken: seq<Record>, rem: seq<seq<Record>>, all: seq<seq<Record>>, i: nat)
    requires Merging(taken, rem, all) && LeastAt(rem, i)
    ensures Merging(taken + [rem[i][0]], Take(rem, i), all)
    ensures |Pool(Take(rem, i))| < |Pool(rem)| && |Take(rem, i)| == |rem|
  {
    hide StrCmp, Pool;
    var m, rem', taken' := rem[i][0], Take(rem, i), taken + [rem[i][0]];
    PoolTake(rem, i);
    forall t, j, r | t in taken' && 0 <= j < |rem'| && r in rem'[j]
      ensures KeyLe(t, r)
    {
      assert r in rem[j];
      LeastOfAll(rem, i, j, r);
    }
    assert m in rem[i] && forall t <- taken :: KeyLe(t, m);
    SortedSnoc(taken, m);
    forall j | 0 <= j < |rem'|
      ensures Sorted(rem'[j])
    {
      assert Sorted(rem[j]);
    }
  }

  lemma SortedSnoc(taken: seq<Record>, m: Record)
    requires Sorted(taken) && forall t <- taken :: KeyLe(t, m)
    ensures Sorted(taken + [m])
  {
  }

  /** When no channel can be selected, exactly the records below the sentinel have been taken. */
  lemma MergingEnds(taken: seq<Record>, rem: seq<seq<Record>>, all: seq<seq<Record>>)
    requires Merging(taken, rem, all)
    requires forall j :: 0 <= j < |rem| && rem[j] != [] ==> !BelowSentinel(rem[j][0])
    ensures Elements(taken) == Below(PoolSet(all)) && Sorted(taken)
  {
    forall r
      ensures r in Elements(taken) <==> r in Below(PoolSet(all))
    {
      assert r in multiset(taken) + Pool(rem) <==> r in Pool(all);
      PoolMember(rem, r);
      if r in Pool(rem) {
        var j :| 0 <= j < |rem| && r in rem[j];
        NotBelow(rem[j], r);
      }
    }
  }

  lemma NotBelow(rs: seq<Record>, r: Record)
    requires Sorted(rs) && r in rs && !BelowSentinel(rs[0])
    ensures !BelowSentinel(r)
  {
    var k :| 0 <= k < |rs| && rs[k] == r;
    if k > 0 && BelowSentinel(r) {
      assert KeyLe(rs[0], rs[k]);
      StrCmpTransitive(rs[0].key, r.key, SENTINEL);
    }
  }

  // ----- the record that is held back

  datatype Prev = NoPrev | Prev(rec: Record)

  /** What is printed, followed by the held-back record, is the index of what was taken. */
  ghost predicate Deduped(out: seq<Record>, prev: Prev, taken: seq<Record>) {
    Dedup(taken) == out + (if prev.NoPrev? then [] else [prev.rec]) && (prev.NoPrev? <==> taken == [])
  }

  lemma DedupedStep(out: seq<Record>, prev: Prev, taken: seq<Record>, m: Record)
    requires Deduped(out, prev, taken)
    ensures prev.NoPrev? ==> Deduped(out, Prev(m), taken + [m])
    ensures prev.Prev? && prev.rec.key == m.key && m.offset >= prev.rec.offset ==> Deduped(out, Prev(m), taken + [m])
    ensures prev.Prev? && prev.rec.key == m.key && m.offset < prev.rec.offset ==> Deduped(out, prev, taken + [m])
    ensures prev.Prev? && prev.rec.key != m.key ==> Deduped(out + [prev.rec], Prev(m), taken + [m])
  {
    DedupSnoc(taken, m);
  }

  /** The held-back record completes the index. */
  lemma Last(out: seq<Record>, prev: Prev, taken: seq<Record>, all: seq<seq<Record>>) returns (index: seq<Record>)
    requires Deduped(out, prev, taken) && Sorted(taken)
    requires Elements(taken) == Below(PoolSet(all)) != {}
    ensures prev.Prev? && index == out + [prev.rec] && IsIndex(index, Below(PoolSet(all)))
    ensures Text(index) == Text(out) + Line(prev.rec)
  {
    index := Dedup(taken);
    DedupIsIndex(taken);
    var r :| r in Below(PoolSet(all));
    assert r in Elements(taken);
    TextAppend(out, prev.rec);
  }
}
