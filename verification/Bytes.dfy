/** Bytes, C strings and their `strcmp` order, and the decimal digits that `printf` writes. */
module Bytes {

  type byte = b: int | 0 <= b < 256

  type Bytes = seq<byte>

  datatype Option<+T> = None | Some(value: T)

  const TWO31: nat := 0x8000_0000
  const TWO32: nat := 0x1_0000_0000
  const TWO63: nat := 0x8000_0000_0000_0000
  const TWO64: nat := 0x1_0000_0000_0000_0000

  const TAB: byte := 9
  const NL: byte := 10

  function Min(a: nat, b: nat): nat {
    if a <= b then a else b
  }

  lemma ConcatAssociative<T>(a: seq<T>, b: seq<T>, c: seq<T>)
    ensures (a + b) + c == a + (b + c)
  {
  }

  lemma EmptyConcat<T>(a: seq<T>)
    ensures [] + a == a
  {
  }

  /** The bytes that `isspace` accepts in the C locale. */
  predicate IsSpace(b: byte) {
    b == 32 || 9 <= b <= 13
  }

  predicate IsDigit(b: byte) {
    48 <= b <= 57
  }

  /** `strcmp` on NUL-free strings: only the sign of the result is used. */
  function StrCmp(a: Bytes, b: Bytes): int {
    if a == [] then (if b == [] then 0 else -1)
    else if b == [] then 1
    else if a[0] != b[0] then a[0] - b[0]
    else StrCmp(a[1..], b[1..])
  }

  lemma {:induction false} StrCmpZero(a: Bytes, b: Bytes)
    ensures StrCmp(a, b) == 0 <==> a == b
  {
    if a != [] && b != [] && a[0] == b[0] {
      StrCmpZero(a[1..], b[1..]);
      assert a == [a[0]] + a[1..] && b == [b[0]] + b[1..];
    }
  }

  lemma {:induction false} StrCmpAntisymmetric(a: Bytes, b: Bytes)
    ensures StrCmp(a, b) < 0 <==> StrCmp(b, a) > 0
    ensures StrCmp(a, b) == 0 <==> StrCmp(b, a) == 0
  {
    if a != [] && b != [] && a[0] == b[0] {
      StrCmpAntisymmetric(a[1..], b[1..]);
    }
  }

  lemma {:induction false} StrCmpTransitive(a: Bytes, b: Bytes, c: Bytes)
    requires StrCmp(a, b) <= 0 && StrCmp(b, c) <= 0
    ensures StrCmp(a, c) <= 0
    ensures StrCmp(a, b) < 0 || StrCmp(b, c) < 0 ==> StrCmp(a, c) < 0
  {
    if a != [] && b != [] && c != [] && a[0] == b[0] == c[0] {
      StrCmpTransitive(a[1..], b[1..], c[1..]);
    }
  }

  /** The first byte that differs decides, as an unsigned number. */
  lemma {:induction false} StrCmpAtDifference(p: Bytes, x: byte, y: byte, s: Bytes, t: Bytes)
    requires x < y
    ensures StrCmp(p + ([x] + s), p + ([y] + t)) < 0 < StrCmp(p + ([y] + t), p + ([x] + s))
  {
    if p != [] {
      assert (p + ([x] + s))[1..] == p[1..] + ([x] + s) && (p + ([y] + t))[1..] == p[1..] + ([y] + t);
      StrCmpAtDifference(p[1..], x, y, s, t);
    } else {
      assert p + ([x] + s) == [x] + s && p + ([y] + t) == [y] + t;
    }
  }

  /** A string stands before what continues it. */
  lemma {:induction false} StrCmpPrefix(p: Bytes, x: byte, t: Bytes)
    ensures StrCmp(p, p + ([x] + t)) < 0 < StrCmp(p + ([x] + t), p)
  {
    if p != [] {
      assert (p + ([x] + t))[1..] == p[1..] + ([x] + t);
      StrCmpPrefix(p[1..], x, t);
    } else {
      assert p + ([x] + t) == [x] + t;
    }
  }

  // ----- decimal numbers

  /** The digits `%ld`, `%lld`, `%llu` and `%u` print for a non-negative number. */
  function Decimal(n: nat): (s: Bytes)
    ensures s != [] && forall i :: 0 <= i < |s| ==> IsDigit(s[i])
  {
    if n < 10 then [48 + n] else Decimal(n / 10) + [48 + n % 10]
  }

  /** The digit i places from the right, as an ASCII character. */
  lemma {:induction false} DecimalDigit(n: nat, i: nat)
    requires i < |Decimal(n)|
    ensures Decimal(n)[|Decimal(n)| - 1 - i] == 48 + n / Pow10(i) % 10
  {
    if i > 0 {
      DecimalDigit(n / 10, i - 1);
      TenTimes(n, Pow10(i - 1));
    }
  }

  lemma TenTimes(n: nat, p: nat)
    requires p > 0
    ensures n / (10 * p) == n / 10 / p
  {
    var q: int, r := n / 10 / p, n / 10 % p;
    assert n / 10 == p * q + r && n == 10 * (n / 10) + n % 10;
    assert n == (10 * p) * q + (10 * r + n % 10) && 0 <= 10 * r + n % 10 < 10 * p;
    QuotientIs(n, 10 * p, q, 10 * r + n % 10);
  }

  lemma QuotientIs(n: nat, d: nat, q: int, r: nat)
    requires n == d * q + r && r < d
    ensures n / d == q
  {
    assert n == d * (n / d) + n % d;
    assert d * (n / d - q) == d * (n / d) - d * q;
    OnlyZero(n / d - q, d);
  }

  lemma OnlyZero(k: int, d: int)
    requires -d < d * k < d
    ensures k == 0
  {
  }

  /** Some powers and numbers, digit by digit. */
  lemma DecimalExamples()
    ensures Pow10(0) == 1 && Pow10(1) == 10 && Pow10(2) == 100 && Pow10(3) == 1000
    ensures Decimal(0) == [48] && Decimal(17) == [49, 55] && Decimal(2048) == [50, 48, 52, 56]
  {
    assert Decimal(20) == [50, 48] && Decimal(204) == [50, 48, 52];
  }

  /** The number a string of digits denotes. */
  function DigitsValue(s: Bytes): nat
    requires forall i :: 0 <= i < |s| ==> IsDigit(s[i])
  {
    if s == [] then 0
    else
      var last := s[|s| - 1];
      assert IsDigit(last);
      10 * DigitsValue(s[..|s| - 1]) + (last as int - 48)
  }

  lemma {:induction false} DecimalRoundTrip(n: nat)
    ensures DigitsValue(Decimal(n)) == n
  {
    if n >= 10 {
      DecimalRoundTrip(n / 10);
      assert Decimal(n)[..|Decimal(n)| - 1] == Decimal(n / 10);
    }
  }

  /** k digits are enough exactly below the k-th power of ten. */
  lemma {:induction false} DecimalLength(n: nat, k: nat)
    requires k >= 1
    ensures |Decimal(n)| <= k <==> n < Pow10(k)
  {
    if n >= 10 && k > 1 {
      DecimalLength(n / 10, k - 1);
    } else {
      assert Pow10(k) >= 10 && Pow10(1) == 10;
    }
  }

  function Pow10(k: nat): (r: nat)
    ensures r >= 1
  {
    if k == 0 then 1 else 10 * Pow10(k - 1)
  }

  /** How many leading bytes satisfy the class: whitespace, or digits, or the bytes of a `%s` token. */
  datatype Class = Space | NonSpace | Digit

  predicate InClass(c: Class, b: byte) {
    match c
    case Space => IsSpace(b)
    case NonSpace => !IsSpace(b)
    case Digit => IsDigit(b)
  }

  function Span(c: Class, s: Bytes): (n: nat)
    ensures n <= |s|
    ensures forall i :: 0 <= i < n ==> InClass(c, s[i])
    ensures n < |s| ==> !InClass(c, s[n])
  {
    if s == [] || !InClass(c, s[0]) then 0
    else
      var n := 1 + Span(c, s[1..]);
      assert forall i :: 1 <= i < n ==> s[i] == s[1..][i - 1];
      n
  }

  /** A prefix in the class, followed by the end or by a byte outside it, is what `Span` measures. */
  lemma SpanOf(c: Class, p: Bytes, rest: Bytes)
    requires forall i :: 0 <= i < |p| ==> InClass(c, p[i])
    requires rest == [] || !InClass(c, rest[0])
    ensures Span(c, p + rest) == |p|
  {
    var s := p + rest;
    assert forall i :: 0 <= i < |p| ==> InClass(c, s[i]);
    assert rest != [] ==> s[|p|] == rest[0];
  }
}
