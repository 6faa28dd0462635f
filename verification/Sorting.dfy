/** The contract of `qsort`: some ordered permutation, ties in any order. */
module Sorting {

  ghost predicate SortedBy<T>(le: (T, T) -> bool, s: seq<T>) {
    forall i, j :: 0 <= i < j < |s| ==> le(s[i], s[j])
  }

  /** What a comparator must be for sorting to make sense. */
  ghost predicate TotalPreorder<T(!new)>(le: (T, T) -> bool) {
    && (forall a, b :: le(a, b) || le(b, a))
    && (forall a, b, c :: le(a, b) && le(b, c) ==> le(a, c))
  }

  function Insert<T>(le: (T, T) -> bool, s: seq<T>, x: T): seq<T> {
    if s == [] || le(x, s[0]) then [x] + s else [s[0]] + Insert(le, s[1..], x)
  }

  lemma {:induction false} InsertPermutes<T>(le: (T, T) -> bool, s: seq<T>, x: T)
    ensures multiset(Insert(le, s, x)) == multiset(s) + multiset{x}
    ensures forall y :: y in Insert(le, s, x) <==> y in s || y == x
  {
    if s != [] {
      InsertPermutes(le, s[1..], x);
      assert s == [s[0]] + s[1..];
    }
  }

  lemma ConsSorted<T>(le: (T, T) -> bool, x: T, s: seq<T>)
    requires SortedBy(le, s) && forall y <- s :: le(x, y)
    ensures SortedBy(le, [x] + s)
  {
  }

  lemma HeadLeast<T(!new)>(le: (T, T) -> bool, s: seq<T>)
    requires TotalPreorder(le) && SortedBy(le, s) && s != []
    ensures SortedBy(le, s[1..]) && forall y <- s :: le(s[0], y)
  {
  }

  lemma {:induction false} InsertSorts<T(!new)>(le: (T, T) -> bool, s: seq<T>, x: T)
    requires TotalPreorder(le) && SortedBy(le, s)
    ensures SortedBy(le, Insert(le, s, x))
  {
    if s != [] {
      HeadLeast(le, s);
      if le(x, s[0]) {
        ConsSorted(le, x, s);
      } else {
        InsertSorts(le, s[1..], x);
        InsertPermutes(le, s[1..], x);
        hide SortedBy;
        assert s == [s[0]] + s[1..];
        ConsSorted(le, s[0], Insert(le, s[1..], x));
      }
    }
  }

  /** Sorts the first n elements. Callers rely on nothing but the contract. */
  method QSort<T(!new)>(le: (T, T) -> bool, a: array<T>, n: nat)
    requires n <= a.Length && TotalPreorder(le)
    modifies a
    ensures SortedBy(le, a[..n]) && multiset(a[..n]) == multiset(old(a[..n]))
  {
    hide TotalPreorder, SortedBy, Insert;
    ghost var before := a[..n];
    var s: seq<T> := [];
    SortedNone(le);
    for i := 0 to n
      invariant SortedBy(le, s) && multiset(s) == multiset(a[..i])
      invariant a[..n] == before
    {
      InsertSorts(le, s, a[i]);
      InsertPermutes(le, s, a[i]);
      assert a[..i + 1] == a[..i] + [a[i]];
      s := Insert(le, s, a[i]);
    }
    assert |s| == |multiset(s)| == |multiset(before)| == n;
    forall i | 0 <= i < n {
      a[i] := s[i];
    }
    assert a[..n] == s;
  }

  lemma SortedNone<T>(le: (T, T) -> bool)
    ensures SortedBy(le, [])
  {
  }
}
