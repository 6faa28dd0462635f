/** What the sorter is for: the newest record of every key, in key order. */
module Index {
  import opened Bytes
  import opened Records

  predicate KeyLe(a: Record, b: Record) {
    StrCmp(a.key, b.key) <= 0
  }

  ghost predicate Sorted(rs: seq<Record>) {
    forall i, j :: 0 <= i < j < |rs| ==> KeyLe(rs[i], rs[j])
  }

  ghost predicate StrictlySorted(rs: seq<Record>) {
    forall i, j :: 0 <= i < j < |rs| ==> StrCmp(rs[i].key, rs[j].key) < 0
  }

  ghost function Elements(rs: seq<Record>): set<Record> {
    set r | r in rs
  }

  /** `o` lists each key of `rs` once, in strictly increasing order, with a record of `rs` of greatest offset. */
  ghost predicate IsIndex(o: seq<Record>, rs: set<Record>) {
    && StrictlySorted(o)
    && (forall r <- o :: r in rs)
    && (forall r {:trigger Newer(o, r)} :: r in rs ==> Newer(o, r))
  }

  ghost predicate Newer(o: seq<Record>, r: Record) {
    exists m <- o :: m.key == r.key && m.offset >= r.offset
  }

  /** No two records agree on key and offset without being the same: what a log of puts provides. */
  ghost predicate OffsetsTell(rs: set<Record>) {
    forall r, s :: r in rs && s in rs && r.key == s.key && r.offset == s.offset ==> r == s
  }

  /** There is only one index, so chunking, tie order and merge order cannot show in it. */
  lemma IndexUnique(a: seq<Record>, b: seq<Record>, rs: set<Record>)
    requires IsIndex(a, rs) && IsIndex(b, rs) && OffsetsTell(rs)
    ensures a == b
  {
    forall r
      ensures r in a <==> r in b
    {
      if r in a { SameElement(a, b, rs, r); }
      if r in b { SameElement(b, a, rs, r); }
    }
    SortedUnique(a, b);
  }

  lemma SameElement(a: seq<Record>, b: seq<Record>, rs: set<Record>, r: Record)
    requires IsIndex(a, rs) && IsIndex(b, rs) && OffsetsTell(rs) && r in a
    ensures r in b
  {
    assert Newer(b, r);
    var m :| m in b && m.key == r.key && m.offset >= r.offset;
    assert Newer(a, m);
    var n :| n in a && n.key == m.key && n.offset >= m.offset;
    KeyAppearsOnce(a, r, n);
    assert m in rs && r in rs && m.offset == r.offset;
    assert m == r;
  }

  lemma KeyAppearsOnce(o: seq<Record>, r: Record, s: Record)
    requires StrictlySorted(o) && r in o && s in o && r.key == s.key
    ensures r == s
  {
    var i :| 0 <= i < |o| && o[i] == r;
    var j :| 0 <= j < |o| && o[j] == s;
    StrCmpZero(r.key, s.key);
    StrCmpZero(s.key, r.key);
    assert i == j;
  }

  lemma {:induction false} SortedUnique(a: seq<Record>, b: seq<Record>)
    requires StrictlySorted(a) && StrictlySorted(b)
    requires forall r :: r in a <==> r in b
    ensures a == b
    decreases |a|
  {
    if a == [] || b == [] {
      NoElements(a);
      NoElements(b);
    } else {
      assert a[0] in b && b[0] in a;
      SameHead(a, b);
      forall r
        ensures r in a[1..] <==> r in b[1..]
      {
        HeadOnce(a, r);
        HeadOnce(b, r);
      }
      SortedUnique(a[1..], b[1..]);
      assert a == [a[0]] + a[1..] && b == [b[0]] + b[1..];
    }
  }

  lemma NoElements(o: seq<Record>)
    ensures o == [] <==> forall r :: r !in o
  {
    if o != [] { assert o[0] in o; }
  }

  lemma SameHead(a: seq<Record>, b: seq<Record>)
    requires StrictlySorted(a) && StrictlySorted(b) && a != [] && b != []
    requires a[0] in b && b[0] in a
    ensures a[0] == b[0]
  {
    var i :| 0 <= i < |b| && b[i] == a[0];
    var j :| 0 <= j < |a| && a[j] == b[0];
    StrCmpAntisymmetric(a[0].key, b[0].key);
    assert i == 0 || j == 0;
  }

  lemma HeadOnce(o: seq<Record>, r: Record)
    requires o != [] && StrictlySorted(o)
    ensures r in o[1..] <==> r in o && r != o[0]
  {
    assert o == [o[0]] + o[1..];
    StrCmpZero(o[0].key, o[0].key);
    if r in o[1..] {
      var i :| 0 <= i < |o[1..]| && o[1..][i] == r;
      assert StrCmp(o[0].key, o[i + 1].key) < 0;
    }
  }

  /** An index is no longer than the list it indexes. */
  lemma IndexSize(o: seq<Record>, rs: seq<Record>)
    requires StrictlySorted(o) && Elements(o) <= Elements(rs)
    ensures |o| <= |rs|
  {
    DistinctSize(o);
    ElementsSize(rs);
    SubsetSize(Elements(o), Elements(rs));
  }

  lemma {:induction false} DistinctSize(o: seq<Record>)
    requires StrictlySorted(o)
    ensures |Elements(o)| == |o|
  {
    if o != [] {
      DistinctSize(o[1..]);
      HeadOnce(o, o[0]);
      assert o == [o[0]] + o[1..];
      assert Elements(o) == Elements(o[1..]) + {o[0]};
    }
  }

  lemma {:induction false} ElementsSize(rs: seq<Record>)
    ensures |Elements(rs)| <= |rs|
  {
    if rs != [] {
      ElementsSize(rs[1..]);
      assert rs == [rs[0]] + rs[1..];
      assert Elements(rs) == Elements(rs[1..]) + {rs[0]};
    }
  }

  lemma SubsetSize<T>(a: set<T>, b: set<T>)
    requires a <= b
    ensures |a| <= |b|
  {
    assert b == a + (b - a);
  }

  // ----- removing older records from a sorted list

  /** One step of the merge loop: `o` ends with the record that is held back. */
  function Absorb(o: seq<Record>, r: Record): seq<Record> {
    if o == [] then [r]
    else
      var prev := o[|o| - 1];
      if prev.key != r.key then o + [r]
      else if r.offset >= prev.offset then o[|o| - 1 := r]
      else o
  }

  function Dedup(t: seq<Record>): seq<Record> {
    if t == [] then [] else Absorb(Dedup(t[..|t| - 1]), t[|t| - 1])
  }

  lemma DedupSnoc(t: seq<Record>, r: Record)
    ensures Dedup(t + [r]) == Absorb(Dedup(t), r)
  {
    assert (t + [r])[..|t|] == t;
  }

  lemma {:induction false} DedupLast(t: seq<Record>)
    requires t != []
    ensures Dedup(t) != [] && Dedup(t)[|Dedup(t)| - 1].key == t[|t| - 1].key
  {
    if |t| > 1 { DedupLast(t[..|t| - 1]); }
  }

  /** Of a key-sorted list, equal keys in any order, the loop keeps exactly the index. */
  lemma {:induction false} DedupIsIndex(t: seq<Record>)
    requires Sorted(t)
    ensures IsIndex(Dedup(t), Elements(t))
  {
    if t != [] {
      var n := |t| - 1;
      var s, r := t[..n], t[n];
      assert t == s + [r];
      DedupIsIndex(s);
      if s != [] {
        DedupLast(s);
        assert KeyLe(t[n - 1], t[n]);
      }
      assert Elements(t) == Elements(s) + {r};
      AbsorbKeepsIndex(Dedup(s), Elements(s), r);
    }
  }

  lemma AbsorbKeepsIndex(o: seq<Record>, rs: set<Record>, r: Record)
    requires IsIndex(o, rs)
    requires o != [] ==> KeyLe(o[|o| - 1], r)
    ensures IsIndex(Absorb(o, r), rs + {r})
  {
    var p := Absorb(o, r);
    if o != [] {
      StrCmpZero(o[|o| - 1].key, r.key);
      forall i | 0 <= i < |o| - 1
        ensures StrCmp(o[i].key, r.key) < 0
      {
        StrCmpTransitive(o[i].key, o[|o| - 1].key, r.key);
      }
    }
    assert forall q <- p :: q in o || q == r;
    assert StrictlySorted(p);
    forall s | s in rs + {r}
      ensures Newer(p, s)
    {
      NewerAbsorbed(o, rs, r, s);
    }
  }

  lemma NewerAbsorbed(o: seq<Record>, rs: set<Record>, r: Record, s: Record)
    requires IsIndex(o, rs) && s in rs + {r}
    ensures Newer(Absorb(o, r), s)
  {
    var p := Absorb(o, r);
    if s in rs {
      assert Newer(o, s);
      var m :| m in o && m.key == s.key && m.offset >= s.offset;
      var i :| 0 <= i < |o| && o[i] == m;
      if i < |o| - 1 {
        assert p[i] == m;
      } else {
        AbsorbedLast(o, r);
        assert p[i] in p;
      }
    } else {
      assert p[|p| - 1] in p;
    }
  }

  lemma AbsorbedLast(o: seq<Record>, r: Record)
    requires o != []
    ensures |Absorb(o, r)| >= |o|
    ensures Absorb(o, r)[|o| - 1].key == o[|o| - 1].key && Absorb(o, r)[|o| - 1].offset >= o[|o| - 1].offset
  {
  }
}
