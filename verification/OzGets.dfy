/** `ozread_gets`: many keys at once, read from the value file in offset order and scattered back by index. */
module OzGets {
  import opened Bytes
  import opened Records
  import opened Index
  import opened OzRead
  import opened Sorting

  /** What the batch remembers of a record: its place in the value file and the key it answers. */
  datatype Cookie = Cookie(offset: nat, length: nat, index: nat)

  /** The comparator reads the unsigned offset as a signed number. */
  function Signed64(n: nat): int {
    if n < TWO63 then n else n - TWO64
  }

  ghost predicate InOffsetOrder(cs: seq<Cookie>) {
    forall i, j :: 0 <= i < j < |cs| ==> Signed64(cs[i].offset) <= Signed64(cs[j].offset)
  }

  predicate OffsetLe(a: Cookie, b: Cookie) {
    Signed64(a.offset) <= Signed64(b.offset)
  }

  /** `cmp_ozread_gets_keys` is fit for sorting. */
  lemma OffsetOrder()
    ensures TotalPreorder(OffsetLe)
  {
  }

  lemma InOrder(cs: seq<Cookie>)
    requires SortedBy(OffsetLe, cs)
    ensures InOffsetOrder(cs)
  {
  }

  /** `OZRead_Gets` after `ozread_gets_init`; a key may be null. */
  class Gets {
    const keys: seq<Option<Bytes>>
    const values: array<array?<byte>>
    const cookies: array<Cookie>
    var ncookies: nat

    constructor (keys: seq<Option<Bytes>>)
      ensures this.keys == keys && values.Length == cookies.Length == |keys| && ncookies == 0
      ensures fresh(values) && fresh(cookies)
      ensures forall i :: 0 <= i < |keys| ==> values[i] == null
    {
      this.keys := keys;
      values := new array?<byte>[|keys|](_ => null);
      cookies := new Cookie[|keys|](_ => Cookie(0, 0, 0));
      ncookies := 0;
    }
  }

  // ----- what the cookies say

  /** Key i is given and in the table. */
  ghost predicate Hit(keys: seq<Option<Bytes>>, index: seq<Record>, i: nat) {
    i < |keys| && keys[i].Some? && Has(index, keys[i].value)
  }

  ghost predicate CookieFor(c: Cookie, keys: seq<Option<Bytes>>, index: seq<Record>) {
    && Hit(keys, index, c.index)
    && c.offset == RecordOf(index, keys[c.index].value).offset
    && c.length == RecordOf(index, keys[c.index].value).length
    && c.offset < TWO63 && c.length < TWO32 - 1
  }

  /** No two cookies share an index. */
  ghost predicate Distinct(cs: seq<Cookie>) {
    forall i, j :: 0 <= i < j < |cs| ==> cs[i].index != cs[j].index
  }

  /** How many of the first n keys are given and in the table. */
  ghost function Hits(keys: seq<Option<Bytes>>, index: seq<Record>, n: nat): nat {
    if n == 0 then 0 else Hits(keys, index, n - 1) + if Hit(keys, index, n - 1) then 1 else 0
  }

  /** The cookies answer exactly the hits among the first n keys, each once. */
  ghost predicate Answers(cs: seq<Cookie>, keys: seq<Option<Bytes>>, index: seq<Record>, n: nat) {
    && Distinct(cs) && |cs| == Hits(keys, index, n)
    && (forall c <- cs :: CookieFor(c, keys, index) && c.index < n)
    && (forall i {:trigger Covered(cs, i)} :: 0 <= i < n && Hit(keys, index, i) ==> Covered(cs, i))
  }

  ghost predicate Covered(cs: seq<Cookie>, i: nat) {
    exists c :: c in cs && c.index == i
  }

  lemma AnswersSnoc(cs: seq<Cookie>, c: Cookie, keys: seq<Option<Bytes>>, index: seq<Record>, n: nat)
    requires Answers(cs, keys, index, n) && CookieFor(c, keys, index) && c.index == n
    ensures Answers(cs + [c], keys, index, n + 1)
  {
    forall i | 0 <= i < n + 1 && Hit(keys, index, i)
      ensures Covered(cs + [c], i)
    {
      if i < n {
        assert Covered(cs, i);
        var d :| d in cs && d.index == i;
        assert d in cs + [c];
      } else {
        assert c in cs + [c];
      }
    }
  }

  lemma AnswersMiss(cs: seq<Cookie>, keys: seq<Option<Bytes>>, index: seq<Record>, n: nat)
    requires Answers(cs, keys, index, n) && !Hit(keys, index, n)
    ensures Answers(cs, keys, index, n + 1)
  {
  }

  lemma {:induction false} DistinctOnce(cs: seq<Cookie>, c: Cookie)
    requires Distinct(cs)
    ensures multiset(cs)[c] <= 1
  {
    if cs != [] {
      DistinctOnce(cs[1..], c);
      assert cs == [cs[0]] + cs[1..];
    }
  }

  lemma Twice(cs: seq<Cookie>, i: nat, j: nat)
    requires i < j < |cs| && cs[i] == cs[j]
    ensures multiset(cs)[cs[i]] >= 2
  {
    assert cs == cs[..j] + cs[j..];
    assert cs[i] in cs[..j] && cs[i] in cs[j..];
  }

  /** Sorting keeps the indices distinct. */
  lemma DistinctPermuted(cs: seq<Cookie>, ds: seq<Cookie>)
    requires Distinct(cs) && multiset(cs) == multiset(ds)
    ensures Distinct(ds)
  {
    forall i, j | 0 <= i < j < |ds|
      ensures ds[i].index != ds[j].index
    {
      assert ds[i] in multiset(cs) && ds[j] in multiset(cs);
      var k :| 0 <= k < |cs| && cs[k] == ds[i];
      var l :| 0 <= l < |cs| && cs[l] == ds[j];
      if ds[i] == ds[j] {
        Twice(ds, i, j);
        DistinctOnce(cs, ds[i]);
      }
    }
  }

  lemma AnswersPermuted(cs: seq<Cookie>, ds: seq<Cookie>, keys: seq<Option<Bytes>>, index: seq<Record>, n: nat)
    requires Answers(cs, keys, index, n) && multiset(cs) == multiset(ds)
    ensures Answers(ds, keys, index, n)
  {
    hide Hit;
    DistinctPermuted(cs, ds);
    assert |cs| == |multiset(cs)| == |multiset(ds)| == |ds|;
    forall c
      ensures c in cs <==> c in ds
    {
      assert c in multiset(cs) <==> c in multiset(ds);
    }
    forall i | 0 <= i < n && Hit(keys, index, i)
      ensures Covered(ds, i)
    {
      assert Covered(cs, i);
      var c :| c in cs && c.index == i;
      assert c in ds;
    }
  }

  /** `ozread_gets_keys` */
  method GetsKeys(handle: OZRead, param: Gets)
    requires StrictlySorted(handle.recs[..]) && AllReadable(handle.recs[..])
    requires param.cookies.Length == |param.keys|
    modifies param`ncookies, param.cookies
    ensures param.ncookies <= |param.keys|
    ensures Answers(param.cookies[..param.ncookies], param.keys, handle.recs[..], |param.keys|)
    ensures InOffsetOrder(param.cookies[..param.ncookies])
  {
    ghost var index := handle.recs[..];
    var cnt := 0;
    hide Answers, CookieFor, Has, RecordOf, StrictlySorted, Readable;
    AnswersNone(param.keys, index);
    for i := 0 to |param.keys|
      invariant cnt <= i && handle.recs[..] == index
      invariant Answers(param.cookies[..cnt], param.keys, index, i)
    {
      var found := 1;
      var rec;
      if param.keys[i].Some? {
        found, rec := handle.GetKey(param.keys[i].value);
      }
      ghost var cs := param.cookies[..cnt];
      if found == 0 {
        var c := Cookie(rec.offset, rec.length, i);
        HitCookie(c, rec, param.keys, index);
        AnswersSnoc(cs, c, param.keys, index, i);
        param.cookies[cnt] := c;
        assert param.cookies[..cnt + 1] == cs + [c];
        cnt := cnt + 1;
      } else {
        AnswersMiss(cs, param.keys, index, i);
      }
    }
    param.ncookies := cnt;
    ghost var cs := param.cookies[..cnt];
    OffsetOrder();
    QSort(OffsetLe, param.cookies, cnt);
    assert InOffsetOrder(param.cookies[..cnt]) by { InOrder(param.cookies[..cnt]); }
    AnswersPermuted(cs, param.cookies[..cnt], param.keys, index, |param.keys|);
  }

  lemma AnswersNone(keys: seq<Option<Bytes>>, index: seq<Record>)
    ensures Answers([], keys, index, 0)
  {
  }

  lemma HitCookie(c: Cookie, rec: Record, keys: seq<Option<Bytes>>, index: seq<Record>)
    requires Hit(keys, index, c.index) && rec == RecordOf(index, keys[c.index].value)
    requires AllReadable(index) && c.offset == rec.offset && c.length == rec.length
    ensures CookieFor(c, keys, index)
  {
    assert rec in index && Readable(rec);
  }

  // ----- the buffers

  /** Buffers exist for exactly the indices the cookies name, each its own object. */
  ghost predicate Allocated(values: seq<array?<byte>>, cs: seq<Cookie>) {
    && (forall c <- cs :: c.index < |values| && HasBuffer(values[c.index], c))
    && (forall i :: 0 <= i < |values| && values[i] != null ==> Covered(cs, i))
    && (forall i, j :: 0 <= i < j < |values| && values[i] != null ==> values[i] != values[j])
  }

  ghost predicate HasBuffer(buf: array?<byte>, c: Cookie) {
    buf != null && buf.Length == BufferSize(c.length)
  }

  /** The buffer holds what the record addresses, or an empty string when the read failed. */
  ghost predicate Filled(buf: array?<byte>, file: Bytes, c: Cookie)
    reads if buf != null then {buf} else {}
  {
    && buf != null
    && match ReadAt(file, c.offset, c.length)
       case Some(bytes) => HoldsValue(buf, bytes)
       case None => buf.Length > 0 && buf[0] == 0
  }

  lemma AllocatedSnoc(values: seq<array?<byte>>, cs: seq<Cookie>, c: Cookie, buf: array<byte>)
    requires Allocated(values, cs) && Distinct(cs + [c]) && c.index < |values|
    requires HasBuffer(buf, c) && forall i :: 0 <= i < |values| ==> values[i] != buf
    ensures Allocated(values[c.index := buf], cs + [c])
  {
    var values', ds := values[c.index := buf], cs + [c];
    forall d | d in ds
      ensures d.index < |values'| && HasBuffer(values'[d.index], d)
    {
      if d.index == c.index {
        assert c in ds && d == c;
      }
    }
    forall i | 0 <= i < |values'| && values'[i] != null
      ensures Covered(ds, i)
    {
      if i != c.index {
        assert Covered(cs, i);
        var d :| d in cs && d.index == i;
        assert d in ds;
      } else {
        assert c in ds;
      }
    }
  }

  /** The loop of `ozread_gets` that allocates a buffer for every cookie. */
  method Allocate(param: Gets, ghost cs: seq<Cookie>)
    requires param.ncookies == |cs| <= param.cookies.Length && param.cookies[..|cs|] == cs
    requires Distinct(cs) && forall c <- cs :: c.index < param.values.Length
    requires forall i :: 0 <= i < param.values.Length ==> param.values[i] == null
    modifies param.values
    ensures Allocated(param.values[..], cs)
    ensures forall i :: 0 <= i < param.values.Length && param.values[i] != null ==> fresh(param.values[i])
  {
    hide HasBuffer, Covered;
    for k := 0 to param.ncookies
      invariant Allocated(param.values[..], cs[..k])
      invariant forall i :: 0 <= i < param.values.Length && param.values[i] != null ==> fresh(param.values[i])
    {
      var c := param.cookies[k];
      assert c == cs[k] && cs[..k + 1] == cs[..k] + [c];
      var buf := NewBuffer(c);
      AllocatedSnoc(param.values[..], cs[..k], c, buf);
      ghost var values := param.values[..];
      param.values[c.index] := buf;
      assert param.values[..] == values[c.index := buf];
    }
    assert cs[..|cs|] == cs;
  }

  method NewBuffer(c: Cookie) returns (buf: array<byte>)
    ensures fresh(buf) && HasBuffer(buf, c)
  {
    buf := new byte[BufferSize(c.length)];
  }

  /** Seeks to one cookie's value and reads it into its buffer. */
  method ReadValue(handle: OZRead, c: Cookie, buf: array<byte>)
    requires HasBuffer(buf, c) && c.offset < TWO63 && c.length < TWO32 - 1
    modifies handle`pos, handle`seeks, buf
    ensures Filled(buf, handle.valueFile, c) && handle.seeks == old(handle.seeks) + [c.offset]
  {
    TerminatorFits(c.length);
    var sought := handle.Seek(c.offset);
    var read := handle.ReadItem(buf, c.length);
    if !read {
      buf[0] := 0;
      return;
    }
    buf[c.length] := 0;
  }

  function Offsets(cs: seq<Cookie>): (r: seq<nat>)
    ensures |r| == |cs| && forall i :: 0 <= i < |cs| ==> r[i] == cs[i].offset
  {
    seq(|cs|, i requires 0 <= i < |cs| => cs[i].offset)
  }

  /** `ozread_gets_values`: one seek and one read per cookie. */
  method GetsValues(handle: OZRead, param: Gets, ghost cs: seq<Cookie>)
    requires param.ncookies == |cs| <= param.cookies.Length && param.cookies[..|cs|] == cs
    requires Distinct(cs) && Allocated(param.values[..], cs)
    requires forall c <- cs :: c.offset < TWO63 && c.length < TWO32 - 1
    modifies handle`pos, handle`seeks,
             set i | 0 <= i < param.values.Length && param.values[i] != null :: param.values[i]
    ensures forall c <- cs :: Filled(param.values[c.index], handle.valueFile, c)
    ensures handle.seeks == old(handle.seeks) + Offsets(cs)
  {
    hide Covered, HoldsValue, BufferSize, Filled;
    for k := 0 to param.ncookies
      invariant handle.seeks == old(handle.seeks) + Offsets(cs)[..k]
      invariant forall i :: 0 <= i < k ==> Filled(param.values[cs[i].index], handle.valueFile, cs[i])
    {
      var c := param.cookies[k];
      assert c == cs[k] && c in cs && Offsets(cs)[..k + 1] == Offsets(cs)[..k] + [c.offset];
      var buf := param.values[c.index];
      ReadValue(handle, c, buf);
      forall i | 0 <= i < k
        ensures Filled(param.values[cs[i].index], handle.valueFile, cs[i])
      {
        assert cs[i] in cs;
        assert param.values[cs[i].index] != buf;
      }
    }
    assert Offsets(cs)[..|cs|] == Offsets(cs);
  }

  // ----- batch equals pointwise

  /** Slot i of the batch, against what a single `get` of key i answers. */
  ghost predicate SameAsGet(buf: array?<byte>, key: Option<Bytes>, index: seq<Record>, file: Bytes)
    reads if buf != null then {buf} else {}
  {
    if key.None? then buf == null
    else
      match Lookup(index, file, key.value)
      case Missing => buf == null
      case Unreadable => buf != null && buf.Length > 0 && buf[0] == 0
      case Found(bytes) => buf != null && HoldsValue(buf, bytes)
  }

  /**
   * `ozread_gets`: every slot holds what a single `get` of its key would, for duplicate, missing and null keys
   * too. There is one seek for each key found, to its value, and none goes back.
   */
  method ReadBatch(handle: OZRead, param: Gets) returns (ret: int)
    requires StrictlySorted(handle.recs[..]) && AllReadable(handle.recs[..])
    requires param.values.Length == param.cookies.Length == |param.keys|
    requires forall i :: 0 <= i < param.values.Length ==> param.values[i] == null
    modifies handle`pos, handle`seeks, param`ncookies, param.cookies, param.values
    ensures ret == 0
    ensures forall i :: 0 <= i < |param.keys| ==>
      SameAsGet(param.values[i], param.keys[i], handle.recs[..], handle.valueFile)
    ensures param.ncookies <= |param.keys|
    ensures Answers(param.cookies[..param.ncookies], param.keys, handle.recs[..], |param.keys|)
    ensures var offsets := Offsets(param.cookies[..param.ncookies]);
      && handle.seeks == old(handle.seeks) + offsets
      && |offsets| == Hits(param.keys, handle.recs[..], |param.keys|)
      && forall i, j :: 0 <= i < j < |offsets| ==> offsets[i] <= offsets[j]
  {
    ghost var index := handle.recs[..];
    GetsKeys(handle, param);
    ghost var cs := param.cookies[..param.ncookies];
    Allocate(param, cs);
    GetsValues(handle, param, cs);
    forall i | 0 <= i < |param.keys|
      ensures SameAsGet(param.values[i], param.keys[i], index, handle.valueFile)
    {
      SlotAnswers(param.values[..], cs, param.keys, index, handle.valueFile, i);
    }
    ret := 0;
  }

  lemma SlotAnswers(values: seq<array?<byte>>, cs: seq<Cookie>, keys: seq<Option<Bytes>>, index: seq<Record>,
                    file: Bytes, i: nat)
    requires i < |keys| == |values| && Answers(cs, keys, index, |keys|) && Allocated(values, cs)
    requires forall c <- cs :: Filled(values[c.index], file, c)
    ensures SameAsGet(values[i], keys[i], index, file)
  {
    hide HoldsValue, Has, RecordOf;
    if values[i] != null {
      assert Covered(cs, i);
      var c :| c in cs && c.index == i;
      assert CookieFor(c, keys, index);
    }
    if Hit(keys, index, i) {
      assert Covered(cs, i);
      var c :| c in cs && c.index == i;
      assert CookieFor(c, keys, index) && Filled(values[i], file, c);
    }
  }
}
