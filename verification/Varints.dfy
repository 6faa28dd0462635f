/** Variable-length integers: seven bits to a byte, least significant first, the high bit set on all but the last. */
module Varints {
  import opened Bytes
  import opened Bits
  import opened Wire

  function Varint(n: nat): (s: Bytes)
    ensures s != []
  {
    if n < 128 then [n] else [128 + n % 128] + Varint(n / 128)
  }

  /** `writeVarint32` and `writeVarint64`, and Python's `writeVarint` on a non-negative number. */
  method WriteVarint(value: nat) returns (buf: Bytes)
    ensures buf == Varint(value)
  {
    buf := [];
    var n := value;
    while true
      invariant Varint(value) == buf + Varint(n)
      decreases n
    {
      if n < 128 {
        buf := buf + [n];
        break;
      } else {
        ConcatAssociative(buf, [128 + n % 128], Varint(n / 128));
        buf := buf + [128 + n % 128];
        n := n / 128;
      }
    }
  }

  function Pow128(m: nat): (p: nat)
    ensures p >= 1
  {
    if m == 0 then 1 else 128 * Pow128(m - 1)
  }

  /** The encoding has the least positive number of bytes whose seven-bit groups hold the number. */
  lemma {:induction false} VarintIsShortest(n: nat, m: nat)
    requires m >= 1
    ensures |Varint(n)| <= m <==> n < Pow128(m)
  {
    if n >= 128 {
      if m > 1 {
        VarintIsShortest(n / 128, m - 1);
      } else {
        assert Pow128(1) == 128;
      }
    } else {
      assert Pow128(m) >= 128 by { Pow128AtLeast(m); }
    }
  }

  lemma Pow128AtLeast(m: nat)
    requires m >= 1
    ensures Pow128(m) >= 128
  {
  }

  /** 32 bits take at most 5 bytes, 64 bits at most 10. */
  lemma VarintWidth(n: nat)
    ensures n < TWO32 ==> |Varint(n)| <= 5
    ensures n < TWO64 ==> |Varint(n)| <= 10
  {
    Pow128Nine();
    assert Pow128(10) == 128 * Pow128(9);
    VarintIsShortest(n, 5);
    VarintIsShortest(n, 10);
  }

  // ----- reading

  /**
   * The reading loop after `got` bytes: a group is or-ed into the 64-bit value, a byte without the high bit ends
   * the number, a tenth byte with it is an error.
   */
  function VarintLoop(s: RState, got: nat, val: nat): (r: Read<nat>)
    ensures r.Ok? ==> Advanced(s, r.st)
    decreases |s.input|
  {
    var (b, s1) :- ReadUByte(s);
    var val' := Or(val, (b % 128) * Pow2(7 * got) % TWO64);
    if b < 128 then Ok(val', s1)
    else if got + 1 >= 10 then Fail(InvalidData)
    else VarintLoop(s1, got + 1, val')
  }

  /** `readVarint64` */
  function ReadVarint(s: RState): (r: Read<nat>)
    ensures r.Ok? ==> Advanced(s, r.st)
  {
    VarintLoop(s, 0, 0)
  }

  /**
   * `readVarint64` as coded: when the transport lends ten bytes they are scanned in place and consumed at the end,
   * otherwise each byte is read by itself. A transport may decline to lend bytes that it has. Both ways give the same
   * result on every input.
   */
  method ReadVarint64(s: RState, lends: bool) returns (r: Read<nat>)
    ensures r == ReadVarint(s)
  {
    hide Or, Pow2;
    var rsize, val: nat := 0, 0;
    if lends && |s.input| >= 10 {
      var borrowed := s.input[..10];
      while true
        invariant rsize < 10 && VarintLoop(s.(input := s.input[rsize..]), rsize, val) == ReadVarint(s)
        decreases 10 - rsize
      {
        var b := borrowed[rsize];
        assert s.input[rsize..][1..] == s.input[rsize + 1..];
        val := Or(val, (b % 128) * Pow2(7 * rsize) % TWO64);
        rsize := rsize + 1;
        if b < 128 {
          return Ok(val, s.(input := s.input[rsize..]));
        }
        if rsize == 10 {
          return Fail(InvalidData);
        }
      }
    } else {
      var st := s;
      while true
        invariant rsize < 10 && VarintLoop(st, rsize, val) == ReadVarint(s)
        decreases |st.input|
      {
        var read := ReadUByte(st);
        if read.Fail? {
          return Fail(read.error);
        }
        st := read.st;
        val := Or(val, (read.val % 128) * Pow2(7 * rsize) % TWO64);
        rsize := rsize + 1;
        if read.val < 128 {
          return Ok(val, st);
        }
        if rsize >= 10 {
          return Fail(InvalidData);
        }
      }
    }
  }

  // ----- reading inverts writing

  lemma {:induction false} Pow2Is128(k: nat)
    ensures Pow2(7 * k) == Pow128(k)
  {
    if k > 0 {
      Pow2Is128(k - 1);
      var n := 7 * (k - 1);
      assert Pow2(n + 7) == 2 * Pow2(n + 6) && Pow2(n + 6) == 2 * Pow2(n + 5) && Pow2(n + 5) == 2 * Pow2(n + 4);
      assert Pow2(n + 4) == 2 * Pow2(n + 3) && Pow2(n + 3) == 2 * Pow2(n + 2) && Pow2(n + 2) == 2 * Pow2(n + 1);
    }
  }

  lemma Distribute(a: int, b: int, p: int)
    ensures (a + b) * p == a * p + b * p
  {
  }

  lemma Regroup(q: int, p: int)
    ensures (128 * q) * p == q * (128 * p)
  {
  }

  /** One group of seven bits: it fits, and the rest of the number moves up. */
  lemma GroupArithmetic(n: nat, p: int, val: nat)
    requires p >= 1 && val < p
    ensures 0 <= (n % 128) * p <= n * p && val + (n % 128) * p < 128 * p
    ensures val + n * p == (val + (n % 128) * p) + (n / 128) * (128 * p)
  {
    var q, r := n / 128, n % 128;
    Distribute(128 * q, r, p);
    Regroup(q, p);
    Distribute(127 - r, r, p);
    assert (127 - r) * p >= 0 && r * p >= 0 && q * (128 * p) >= 0;
  }

  lemma SmallMod(x: nat)
    ensures x < TWO64 ==> x % TWO64 == x
  {
  }

  lemma GroupFits(n: nat, got: nat, val: nat)
    requires val < Pow128(got) && val + n * Pow128(got) < TWO64
    ensures Or(val, (n % 128) * Pow2(7 * got) % TWO64) == val + (n % 128) * Pow128(got) < Pow128(got + 1)
    ensures val + n * Pow128(got) == (val + (n % 128) * Pow128(got)) + (n / 128) * Pow128(got + 1)
  {
    Pow2Is128(got);
    OrAbove(val, n % 128, 7 * got);
    GroupArithmetic(n, Pow128(got), val);
    hide Or, Pow2;
    SmallMod((n % 128) * Pow128(got));
  }

  lemma {:induction false} VarintLoopReads(s: RState, n: nat, got: nat, val: nat, rest: Bytes)
    requires s.input == Varint(n) + rest
    requires got < 10 && val < Pow128(got) && val + n * Pow128(got) < TWO64
    ensures VarintLoop(s, got, val) == Ok(val + n * Pow128(got), s.(input := rest))
    decreases n
  {
    hide *;
    GroupFits(n, got, val);
    var total, val' := val + n * Pow128(got), val + (n % 128) * Pow128(got);
    var b, s1 := FirstByte(s, n, rest);
    VarintLoopStep(s, b, s1, got, val);
    if n >= 128 {
      TenGroups(n, got, val);
      VarintLoopReads(s1, n / 128, got + 1, val', rest);
    } else {
      Distribute(n, 0, Pow128(got));
    }
  }

  /** The first byte of an encoded number and what follows it. */
  lemma FirstByte(s: RState, n: nat, rest: Bytes) returns (b: byte, s1: RState)
    requires s.input == Varint(n) + rest
    ensures ReadUByte(s) == Ok(b, s1) && b % 128 == n % 128 && (b < 128 <==> n < 128)
    ensures s1 == s.(input := s1.input)
    ensures s1.input == if n < 128 then rest else Varint(n / 128) + rest
    ensures n < 128 ==> n % 128 == n && n / 128 == 0
  {
    b, s1 := s.input[0], s.(input := s.input[1..]);
    if n >= 128 {
      ConcatAssociative([128 + n % 128], Varint(n / 128), rest);
    }
  }

  lemma VarintLoopStep(s: RState, b: byte, s1: RState, got: nat, val: nat)
    requires ReadUByte(s) == Ok(b, s1)
    ensures var val' := Or(val, (b % 128) * Pow2(7 * got) % TWO64);
      VarintLoop(s, got, val)
      == if b < 128 then Ok(val', s1) else if got + 1 >= 10 then Fail(InvalidData) else VarintLoop(s1, got + 1, val')
  {
    hide Or, Pow2;
  }

  /** A number of 64 bits never needs an eleventh group. */
  lemma TenGroups(n: nat, got: nat, val: nat)
    requires n >= 128 && got < 10 && val + n * Pow128(got) < TWO64
    ensures got + 1 < 10
  {
    Pow128Nine();
    if got == 9 {
      assert false;
    }
  }

  lemma Pow128Nine()
    ensures Pow128(5) == 34359738368 && Pow128(9) == 0x8000_0000_0000_0000
  {
    assert Pow128(9) == 128 * Pow128(8) && Pow128(8) == 128 * Pow128(7);
    assert Pow128(7) == 128 * Pow128(6) && Pow128(6) == 128 * Pow128(5);
    assert Pow128(5) == 34359738368;
  }

  /** The varint round trip, over all 64-bit numbers. */
  lemma VarintRoundTrip(s: RState, n: nat, rest: Bytes)
    requires n < TWO64 && s.input == Varint(n) + rest
    ensures ReadVarint(s) == Ok(n, s.(input := rest))
  {
    assert n * Pow128(0) == n;
    VarintLoopReads(s, n, 0, 0, rest);
  }
}
