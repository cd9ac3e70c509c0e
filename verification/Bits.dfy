/** Machine-word arithmetic shared by the simulators: powers of two, the
    conversions of C between `int` and `unsigned`, and the bit-field helper
    `get_bits`. */
module Bits {
  const U32_SIZE := 0x1_0000_0000

  type Word = x: int | 0 <= x < U32_SIZE

  function Max(a: int, b: int): int {
    if a >= b then a else b
  }

  /** Conversion of an integer to a 32-bit `unsigned`. */
  function U32(x: int): Word {
    x % U32_SIZE
  }

  /** Conversion of an integer to a 32-bit `int`. */
  function I32(x: int): (r: int)
    ensures -0x8000_0000 <= r < 0x8000_0000
  {
    var u := U32(x);
    if u < 0x8000_0000 then u else u - U32_SIZE
  }

  function Pow2(n: nat): (r: nat)
    ensures r >= 1
  {
    if n == 0 then 1 else 2 * Pow2(n - 1)
  }

  lemma MulStep(d: int, x: int, y: int)
    requires d > 0 && x < y
    ensures d * x + d <= d * y
  {
    assert d * (y - x - 1) >= 0;
    assert d * (y - x - 1) == d * y - d * x - d;
  }

  /** A quotient is determined by its bounds. */
  lemma DivIs(a: int, d: int, q: int, r: int)
    requires d > 0 && a == d * q + r && 0 <= r < d
    ensures a / d == q && a % d == r
  {
    var q' := a / d;
    assert a == d * q' + a % d;
    if q < q' {
      MulStep(d, q, q');
    } else if q' < q {
      MulStep(d, q', q);
    }
  }

  lemma DivNonNegative(a: nat, d: nat)
    requires d > 0
    ensures a / d >= 0
  {
    assert a == d * (a / d) + a % d;
    if a / d < 0 {
      MulStep(d, a / d, 0);
    }
  }

  /** number shifted right by n bits. */
  function ShiftRight(number: nat, n: nat): nat {
    DivNonNegative(number, Pow2(n));
    number / Pow2(n)
  }

  /** The n bits of number from bit `start` up. */
  function GetBits(number: Word, start: nat, n: nat): (r: nat)
    ensures r < Pow2(n)
  {
    ShiftRight(number, start) % Pow2(n)
  }

  lemma {:induction false} Pow2Adds(a: nat, b: nat)
    ensures Pow2(a + b) == Pow2(a) * Pow2(b)
  {
    if a > 0 {
      Pow2Adds(a - 1, b);
      assert Pow2(a) * Pow2(b) == 2 * (Pow2(a - 1) * Pow2(b));
    }
  }

  lemma DivDiv(a: nat, x: nat, y: nat)
    requires x > 0 && y > 0
    ensures x * y > 0 && a / (x * y) == (a / x) / y
  {
    var q, r1 := (a / x) / y, a % x;
    var r2 := (a / x) % y;
    assert a / x == y * q + r2;
    assert a == x * (y * q + r2) + r1;
    assert x * (y * q + r2) == x * y * q + x * r2;
    assert x * r2 <= x * (y - 1);
    assert x * (y - 1) == x * y - x;
    DivIs(a, x * y, q, x * r2 + r1);
  }

  function Log2(n: nat): (r: nat)
    requires n >= 1
    ensures Pow2(r) <= n < 2 * Pow2(r)
  {
    if n == 1 then 0 else 1 + Log2(n / 2)
  }

  lemma {:induction false} Log2OfPow2(n: nat)
    ensures Log2(Pow2(n)) == n
  {
    if n > 0 {
      Log2OfPow2(n - 1);
    }
  }

  /** Bitwise exclusive or. */
  function Xor(a: nat, b: nat): nat
    decreases a + b
  {
    if a == 0 && b == 0 then 0
    else 2 * Xor(a / 2, b / 2) + if a % 2 != b % 2 then 1 else 0
  }

  lemma {:induction false} XorFits(a: nat, b: nat, n: nat)
    requires a < Pow2(n) && b < Pow2(n)
    ensures Xor(a, b) < Pow2(n)
    decreases n
  {
    if n > 0 && (a > 0 || b > 0) {
      XorFits(a / 2, b / 2, n - 1);
    }
  }

  // ---------- single bits ----------

  /** Bit k of x is set. */
  predicate Bit(x: nat, k: nat) {
    if k == 0 then x % 2 == 1 else Bit(x / 2, k - 1)
  }

  /** Exclusive or, bit by bit. */
  lemma {:induction false} XorBits(a: nat, b: nat, k: nat)
    ensures Bit(Xor(a, b), k) <==> Bit(a, k) != Bit(b, k)
  {
    if k > 0 {
      assert Xor(a, b) / 2 == Xor(a / 2, b / 2);
      XorBits(a / 2, b / 2, k - 1);
    }
  }

  lemma {:induction false} NoBits(k: nat)
    ensures !Bit(0, k)
  {
    if k > 0 {
      NoBits(k - 1);
    }
  }

  lemma ShiftTwice(x: nat, n: nat)
    requires n > 0
    ensures ShiftRight(x, n) == ShiftRight(x / 2, n - 1)
  {
    DivDiv(x, 2, Pow2(n - 1));
  }

  lemma {:induction false} ShiftBits(x: nat, n: nat, i: nat)
    ensures Bit(ShiftRight(x, n), i) <==> Bit(x, n + i)
  {
    if n > 0 {
      ShiftTwice(x, n);
      ShiftBits(x / 2, n - 1, i);
    } else {
      assert ShiftRight(x, 0) == x;
    }
  }

  lemma ModTwice(y: nat, p: nat)
    requires p > 0
    ensures y % (2 * p) == 2 * ((y / 2) % p) + y % 2
  {
    var h := y / 2;
    assert h == p * (h / p) + h % p;
    assert 2 * p * (h / p) == 2 * (p * (h / p));
    DivIs(y, 2 * p, h / p, 2 * (h % p) + y % 2);
  }

  /** The low n bits. */
  function LowPart(y: nat, n: nat): nat {
    y % Pow2(n)
  }

  lemma LowPartIs(y: nat, n: nat)
    ensures LowPart(y, n) == if n == 0 then 0 else 2 * LowPart(y / 2, n - 1) + y % 2
  {
    if n > 0 {
      ModTwice(y, Pow2(n - 1));
    }
  }

  /** A remainder by a power of two keeps the low bits and clears the others. */
  lemma {:induction false} LowBits(y: nat, n: nat, i: nat)
    ensures Bit(LowPart(y, n), i) <==> i < n && Bit(y, i)
    decreases n
  {
    LowPartIs(y, n);
    if n == 0 {
      NoBits(i);
    } else if i > 0 {
      LowBits(y / 2, n - 1, i - 1);
    }
  }

  /** Bit i of a field is bit start + i of the number. */
  lemma GetBitsBits(number: Word, start: nat, n: nat, i: nat)
    ensures Bit(GetBits(number, start, n), i) <==> i < n && Bit(number, start + i)
  {
    LowBits(ShiftRight(number, start), n, i);
    ShiftBits(number, start, i);
  }

  /** The low a + b bits of a number are its low a bits and the next b. */
  lemma {:induction false} ModSplit(x: nat, a: nat, b: nat)
    ensures LowPart(x, a + b) == LowPart(ShiftRight(x, a), b) * Pow2(a) + LowPart(x, a)
    decreases a
  {
    LowPartIs(x, a);
    if a > 0 {
      ModSplit(x / 2, a - 1, b);
      LowPartIs(x, a + b);
      ShiftTwice(x, a);
      Twice(LowPart(ShiftRight(x, a), b), a);
    } else {
      assert ShiftRight(x, 0) == x;
    }
  }

  lemma ShiftSplit(x: nat, n: nat)
    ensures x == ShiftRight(x, n) * Pow2(n) + x % Pow2(n)
  {
  }

  /** Quotient and remainder determine a number, and it them. */
  lemma SameSplit(q: nat, r: nat, q': nat, r': nat, d: nat)
    requires r < d && r' < d
    ensures q * d + r == q' * d + r' <==> q == q' && r == r'
  {
    DivIs(q * d + r, d, q, r);
    DivIs(q' * d + r', d, q', r');
  }

  lemma Twice(k: nat, a: nat)
    requires a > 0
    ensures k * Pow2(a) == 2 * (k * Pow2(a - 1))
  {
  }

  // ---------- conversions ----------

  /** The conversion to `int` keeps the value modulo the word size. */
  lemma I32Is(x: int)
    ensures (I32(x) - x) % U32_SIZE == 0
    ensures -0x8000_0000 <= x < 0x8000_0000 ==> I32(x) == x
  {
  }

  /** Only one `int` has a given value modulo the word size. */
  lemma I32Unique(x: int, y: int)
    requires (x - y) % U32_SIZE == 0
    ensures I32(x) == I32(y)
  {
  }
}
