/** Two's complement bit operations, machine integers of any width, and the zigzag codes of both languages. */
module Bits {

  function Pow2(w: nat): (p: int)
    ensures p >= 1
  {
    if w == 0 then 1 else 2 * Pow2(w - 1)
  }

  /** How far an integer is from 0 or -1, whose bits are all equal. */
  function Size(a: int): nat {
    if a >= 0 then a else -1 - a
  }

  /** Exclusive or of the infinite two's complement expansions. */
  function Xor(a: int, b: int): int
    decreases Size(a) + Size(b)
  {
    if Size(a) == 0 && Size(b) == 0 then (if a == b then 0 else -1)
    else (a + b) % 2 + 2 * Xor(a / 2, b / 2)
  }

  /** Inclusive or of the infinite two's complement expansions. */
  function Or(a: int, b: int): (r: int)
    ensures a >= 0 && b >= 0 ==> r >= 0
    decreases Size(a) + Size(b)
  {
    if Size(a) == 0 && Size(b) == 0 then (if a == 0 && b == 0 then 0 else -1)
    else (if a % 2 == 1 || b % 2 == 1 then 1 else 0) + 2 * Or(a / 2, b / 2)
  }

  /** And of the infinite two's complement expansions. */
  function And(a: int, b: int): int
    decreases Size(a) + Size(b)
  {
    if Size(a) == 0 && Size(b) == 0 then (if a == -1 && b == -1 then -1 else 0)
    else (if a % 2 == 1 && b % 2 == 1 then 1 else 0) + 2 * And(a / 2, b / 2)
  }

  lemma {:induction false} XorZero(a: int)
    ensures Xor(a, 0) == a
    decreases Size(a)
  {
    if Size(a) > 0 { XorZero(a / 2); }
  }

  lemma XorStep(a: int, b: int)
    requires Size(a) > 0 || Size(b) > 0
    ensures Xor(a, b) == (a + b) % 2 + 2 * Xor(a / 2, b / 2)
  {
  }

  lemma {:induction false} XorOnes(a: int)
    ensures Xor(a, -1) == -1 - a
    decreases Size(a)
  {
    if Size(a) > 0 {
      XorOnes(a / 2);
      XorStep(a, -1);
      hide Xor;
    }
  }

  /** Exclusive or with w ones is the complement in w bits. */
  lemma {:induction false} XorMask(a: nat, w: nat)
    requires a < Pow2(w)
    ensures Xor(a, Pow2(w) - 1) == Pow2(w) - 1 - a
  {
    if w > 0 {
      var p := Pow2(w - 1);
      assert Pow2(w) == 2 * p;
      hide Xor, Pow2;
      XorMask(a / 2, w - 1);
      XorStep(a, 2 * p - 1);
      AddOdd(a, p);
    }
  }

  lemma AddOdd(a: int, p: int)
    ensures (2 * p - 1) / 2 == p - 1 && (a + (2 * p - 1)) % 2 == 1 - a % 2
  {
  }

  lemma OrStep(a: int, b: int)
    requires Size(a) > 0 || Size(b) > 0
    ensures Or(a, b) == (if a % 2 == 1 || b % 2 == 1 then 1 else 0) + 2 * Or(a / 2, b / 2)
  {
  }

  lemma AndStep(a: int, b: int)
    requires Size(a) > 0 || Size(b) > 0
    ensures And(a, b) == (if a % 2 == 1 && b % 2 == 1 then 1 else 0) + 2 * And(a / 2, b / 2)
  {
  }

  lemma {:induction false} OrZero(c: int)
    ensures Or(0, c) == c
    decreases Size(c)
  {
    if Size(c) > 0 {
      OrZero(c / 2);
      OrStep(0, c);
      hide Or;
    }
  }

  lemma {:induction false} AndZero(c: int)
    ensures And(c, 0) == 0
    decreases Size(c)
  {
    if Size(c) > 0 {
      AndZero(c / 2);
      AndStep(c, 0);
      hide And;
    }
  }

  lemma {:induction false} AndOnes(c: int)
    ensures And(c, -1) == c
    decreases Size(c)
  {
    if Size(c) > 0 {
      AndOnes(c / 2);
      AndStep(c, -1);
      hide And;
    }
  }

  /** Or-ing low bits with bits above them is addition. */
  lemma {:induction false} OrAbove(a: nat, c: int, k: nat)
    requires a < Pow2(k)
    ensures Or(a, c * Pow2(k)) == a + c * Pow2(k)
    decreases k
  {
    if k == 0 {
      OrZero(c);
    } else {
      var p := Pow2(k - 1);
      assert Pow2(k) == 2 * p;
      hide Or, Pow2;
      Doubling(c, p);
      if a == 0 {
        OrZero(c * (2 * p));
      } else {
        OrAbove(a / 2, c, k - 1);
        OrStep(a, 2 * (c * p));
      }
    }
  }

  lemma Doubling(c: int, p: int)
    ensures c * (2 * p) == 2 * (c * p) && (2 * (c * p)) / 2 == c * p && (2 * (c * p)) % 2 == 0
  {
  }

  /** And with k ones is the remainder, and with all bits above them the rest. */
  lemma {:induction false} AndMask(a: int, k: nat)
    ensures And(a, Pow2(k) - 1) == a % Pow2(k)
    decreases k
  {
    if k == 0 {
      AndZero(a);
    } else {
      var p := Pow2(k - 1);
      assert Pow2(k) == 2 * p;
      hide And, Pow2;
      AndMask(a / 2, k - 1);
      AndStep(a, 2 * p - 1);
      AddOdd(a, p);
      HalfRemainder(a, p);
    }
  }

  lemma {:induction false} AndHigh(a: int, k: nat)
    ensures And(a, -Pow2(k)) == a - a % Pow2(k)
    decreases k
  {
    if k == 0 {
      AndOnes(a);
    } else {
      var p := Pow2(k - 1);
      assert Pow2(k) == 2 * p;
      hide And, Pow2;
      AndHigh(a / 2, k - 1);
      AndStep(a, -2 * p);
      Doubling(-1, p);
      HalfRemainder(a, p);
    }
  }

  /** And with a shifted mask; p is the power by which it is shifted. */
  lemma {:induction false} AndShifted(a: nat, b: nat, k: nat, p: int)
    requires b > 0 && p == Pow2(k)
    ensures And(a, b * p) == And(a / p, b) * p
    decreases k
  {
    if k == 0 {
      assert p == 1 && a / 1 == a && b * 1 == b;
    } else {
      var h := Pow2(k - 1);
      assert p == 2 * h;
      hide And, Pow2;
      AndShifted(a / 2, b, k - 1, h);
      QuotientTwice(a, h);
      Doubling(b, h);
      Doubling(And(a / p, b), h);
      Positive(b, h);
      AndStep(a, 2 * (b * h));
    }
  }

  lemma Positive(b: int, h: int)
    requires b > 0 && h > 0
    ensures b * h > 0
  {
  }

  lemma AndMaskAt(a: int, k: nat, p: int)
    requires p == Pow2(k)
    ensures And(a, p - 1) == a % p && And(a, -p) == a - a % p
  {
    hide And, Pow2;
    AndMask(a, k);
    AndHigh(a, k);
  }

  lemma OrAboveAt(a: nat, c: int, k: nat, p: int)
    requires p == Pow2(k) && a < p
    ensures Or(a, c * p) == a + c * p
  {
    hide Or, Pow2;
    OrAbove(a, c, k);
  }

  lemma QuotientTwice(a: nat, p: int)
    requires p >= 1
    ensures a / (2 * p) == (a / 2) / p
  {
    HalfRemainder(a, p);
    var q := (a / 2) / p;
    assert a / 2 == p * q + (a / 2) % p;
    assert a == 2 * (p * q) + 2 * ((a / 2) % p) + a % 2;
    assert a == (2 * p) * (a / (2 * p)) + a % (2 * p);
    assert 2 * (p * q) == (2 * p) * q;
    SmallMultiple(a / (2 * p) - q, 2 * p);
  }

  lemma HalfRemainder(a: int, p: int)
    requires p >= 1
    ensures a % (2 * p) == a % 2 + 2 * ((a / 2) % p)
  {
    var q := (a / 2) / p;
    assert a / 2 == p * q + (a / 2) % p;
    assert a == 2 * (p * q) + 2 * ((a / 2) % p) + a % 2;
    assert 2 * (p * q) == q * (2 * p);
    ModUnique(a, 2 * p, q);
  }

  // ----- machine integers

  function ToUnsigned(x: int, w: nat): nat {
    x % Pow2(w)
  }

  function ToSigned(x: int, w: nat): int
    requires w >= 1
  {
    var m := x % Pow2(w);
    if m < Pow2(w - 1) then m else m - Pow2(w)
  }

  /** Arithmetic right shift. */
  function Shr(x: int, k: nat): int {
    x / Pow2(k)
  }

  predicate FitsSigned(x: int, w: nat)
    requires w >= 1
  {
    -Pow2(w - 1) <= x < Pow2(w - 1)
  }

  lemma ModUnique(x: int, m: int, q: int)
    requires m > 0 && 0 <= x - q * m < m
    ensures x % m == x - q * m
  {
    assert x == m * (x / m) + x % m;
    SmallMultiple(x / m - q, m);
  }

  lemma SmallMultiple(d: int, m: int)
    requires -m < d * m < m
    ensures d == 0
  {
  }

  lemma Unsigned(x: int, w: nat)
    ensures 0 <= x < Pow2(w) ==> ToUnsigned(x, w) == x
    ensures -Pow2(w) <= x < 0 ==> ToUnsigned(x, w) == x + Pow2(w)
  {
    if 0 <= x < Pow2(w) { ModUnique(x, Pow2(w), 0); }
    if -Pow2(w) <= x < 0 { ModUnique(x, Pow2(w), -1); }
  }

  /** Conversion to a signed type keeps what fits and wraps by one period otherwise. */
  lemma Signed(x: int, w: nat)
    requires w >= 1
    ensures FitsSigned(x, w) ==> ToSigned(x, w) == x
    ensures Pow2(w - 1) <= x < Pow2(w) ==> ToSigned(x, w) == x - Pow2(w)
    ensures -Pow2(w) <= x < -Pow2(w - 1) ==> ToSigned(x, w) == x + Pow2(w)
  {
    if 0 <= x < Pow2(w) { ModUnique(x, Pow2(w), 0); }
    if -Pow2(w) <= x < 0 { ModUnique(x, Pow2(w), -1); }
  }

  // ----- zigzag

  /** The code a number stands at when numbers are counted 0, -1, 1, -2, 2, ... */
  function Zigzag(n: int): nat {
    if n >= 0 then 2 * n else -2 * n - 1
  }

  function Unzigzag(z: nat): int {
    if z % 2 == 0 then z / 2 else -(z / 2) - 1
  }

  lemma UnzigzagZigzag(n: int)
    ensures Unzigzag(Zigzag(n)) == n
  {
  }

  /** `(n << 1) ^ (n >> (w-1))` on a signed type, converted to the unsigned type of the same width. */
  function ToZigzagCpp(n: int, w: nat): nat
    requires w >= 1
  {
    ToUnsigned(Xor(ToSigned(2 * n, w), Shr(n, w - 1)), w)
  }

  /** `(n >> 1) ^ -(n & 1)` on an unsigned type, converted to the signed type of the same width. */
  function FromZigzagCpp(z: nat, w: nat): int
    requires w >= 1
  {
    ToSigned(Xor(z / 2, ToUnsigned(-(z % 2), w)), w)
  }

  /** `(n << 1) ^ (n >> (bits - 1))` on unbounded integers. */
  function ToZigzagPy(n: int, bits: nat): int
    requires bits >= 1
  {
    Xor(2 * n, Shr(n, bits - 1))
  }

  /** `(n >> 1) ^ -(n & 1)` on unbounded integers. */
  function FromZigzagPy(z: int): int {
    Xor(z / 2, -(z % 2))
  }

  lemma SignShift(n: int, w: nat)
    requires w >= 1 && FitsSigned(n, w)
    ensures Shr(n, w - 1) == if n >= 0 then 0 else -1
  {
    var p := Pow2(w - 1);
    ModUnique(n, p, if n >= 0 then 0 else -1);
    assert n == p * (n / p) + n % p;
    SmallMultiple(n / p - (if n >= 0 then 0 else -1), p);
  }

  /** On every number of the width, the C++ bit expression is the zigzag code. */
  lemma ZigzagCppIs(n: int, w: nat)
    requires w >= 1 && FitsSigned(n, w)
    ensures ToZigzagCpp(n, w) == Zigzag(n) < Pow2(w)
  {
    hide Xor, ToSigned, ToUnsigned, Pow2, Shr, FitsSigned, Zigzag;
    SignShift(n, w);
    var shift := Shr(n, w - 1);
    EncodedCases(n, w, shift, Xor(ToSigned(2 * n, w), shift));
  }

  lemma EncodedCases(n: int, w: nat, shift: int, x: int)
    requires w >= 1 && FitsSigned(n, w) && shift == (if n >= 0 then 0 else -1)
    requires x == Xor(ToSigned(2 * n, w), shift)
    ensures ToUnsigned(x, w) == Zigzag(n) < Pow2(w)
  {
    hide Xor, ToSigned, ToUnsigned, Pow2, FitsSigned;
    var d := Doubled(n, w);
    if n >= 0 { XorZero(d); } else { XorOnes(d); }
  }

  /** The doubled number, wrapped into the width, and what becomes of it and of its complement without sign. */
  lemma Doubled(n: int, w: nat) returns (d: int)
    requires w >= 1 && FitsSigned(n, w)
    ensures d == ToSigned(2 * n, w) && Zigzag(n) < Pow2(w)
    ensures n >= 0 ==> ToUnsigned(d, w) == 2 * n
    ensures n < 0 ==> ToUnsigned(-1 - d, w) == -1 - 2 * n
  {
    Signed(2 * n, w);
    d := ToSigned(2 * n, w);
    hide ToUnsigned, ToSigned;
    if n >= 0 { Unsigned(d, w); } else { Unsigned(-1 - d, w); }
  }

  /** On every code of the width, the C++ decoder inverts it. */
  lemma UnzigzagCppIs(z: nat, w: nat)
    requires w >= 1 && z < Pow2(w)
    ensures FromZigzagCpp(z, w) == Unzigzag(z) && FitsSigned(Unzigzag(z), w)
  {
    hide Xor, ToSigned, ToUnsigned, Pow2, FitsSigned, Unzigzag;
    var mask := LowBitMask(z, w);
    DecodedCases(z, w, mask, Xor(z / 2, mask));
  }

  lemma DecodedCases(z: nat, w: nat, mask: nat, x: int)
    requires w >= 1 && z < Pow2(w) && mask == ToUnsigned(-(z % 2), w) && x == Xor(z / 2, mask)
    requires mask == if z % 2 == 0 then 0 else Pow2(w) - 1
    ensures ToSigned(x, w) == Unzigzag(z) && FitsSigned(Unzigzag(z), w)
  {
    HalfFits(z, w);
    hide Xor, ToUnsigned;
    if z % 2 == 0 { XorZero(z / 2); } else { XorMask(z / 2, w); }
    hide ToSigned;
    Signed(if z % 2 == 0 then z / 2 else Pow2(w) - 1 - z / 2, w);
  }

  /** `-(n & 1)`: no bits or all bits. */
  lemma LowBitMask(z: nat, w: nat) returns (mask: nat)
    requires w >= 1
    ensures mask == ToUnsigned(-(z % 2), w) == if z % 2 == 0 then 0 else Pow2(w) - 1
  {
    Unsigned(0, w);
    Unsigned(-1, w);
    hide ToUnsigned;
    mask := ToUnsigned(-(z % 2), w);
  }

  lemma HalfFits(z: nat, w: nat)
    requires w >= 1 && z < Pow2(w)
    ensures z / 2 < Pow2(w - 1) <= Pow2(w) - 1 - z / 2 < Pow2(w)
    ensures FitsSigned(z / 2, w) && FitsSigned(-(z / 2) - 1, w) && z / 2 < Pow2(w)
  {
  }

  lemma ZigzagCppRoundTrip(n: int, w: nat)
    requires w >= 1 && FitsSigned(n, w)
    ensures FromZigzagCpp(ToZigzagCpp(n, w), w) == n
  {
    ZigzagCppIs(n, w);
    UnzigzagCppIs(Zigzag(n), w);
  }

  /** Python's unbounded integers give the same codes, with no width to wrap at. */
  lemma ZigzagPyIs(n: int, bits: nat)
    requires bits >= 1 && FitsSigned(n, bits)
    ensures ToZigzagPy(n, bits) == Zigzag(n)
  {
    SignShift(n, bits);
    if n >= 0 { XorZero(2 * n); } else { XorOnes(2 * n); }
  }

  lemma UnzigzagPyIs(z: nat)
    ensures FromZigzagPy(z) == Unzigzag(z)
  {
    if z % 2 == 0 { XorZero(z / 2); } else { XorOnes(z / 2); }
  }
}
