/** C integer semantics that the sensor code depends on, over unbounded integers:
    the fixed-width types, the shift and bitwise operators on non-negative values,
    wrap-around of unsigned 32-bit arithmetic and narrowing to a signed 16-bit type. */
module CTypes {

  /** uint8_t */
  type Byte = b: int | 0 <= b < 0x100
  /** a one-bit flag passed as an int argument (0 or 1) */
  type Bit = b: int | 0 <= b <= 1
  /** uint32_t */
  type UInt32 = x: int | 0 <= x < 0x1_0000_0000
  /** int16_t */
  type Int16 = x: int | -0x8000 <= x < 0x8000

  const U32Modulus: int := 0x1_0000_0000
  const U16Modulus: int := 0x1_0000

  function Pow2(n: nat): (r: nat)
    ensures r >= 1
  {
    if n == 0 then 1 else 2 * Pow2(n - 1)
  }

  /** `x << n` on a non-negative operand whose result is representable. */
  function Shl(x: nat, n: nat): nat
  {
    x * Pow2(n)
  }

  /** `a | b` on non-negative operands, bit by bit from the least significant. */
  function BitOr(a: nat, b: nat): (r: nat)
    ensures a <= r && b <= r && r <= a + b
    decreases a + b
  {
    if a == 0 then b
    else if b == 0 then a
    else 2 * BitOr(a / 2, b / 2) + (if a % 2 == 1 || b % 2 == 1 then 1 else 0)
  }

  /** `a & b` on non-negative operands, bit by bit from the least significant. */
  function BitAnd(a: nat, b: nat): (r: nat)
    ensures r <= a && r <= b
    decreases a + b
  {
    if a == 0 || b == 0 then 0
    else 2 * BitAnd(a / 2, b / 2) + (if a % 2 == 1 && b % 2 == 1 then 1 else 0)
  }

  /** uint32_t multiplication: the product reduced modulo 2^32. */
  function U32Mul(a: UInt32, b: UInt32): (r: UInt32)
    ensures (a * b - r) % U32Modulus == 0
    ensures a * b < U32Modulus ==> r == a * b
  {
    var p := a * b;
    ModUnique(p - p % U32Modulus, U32Modulus, p / U32Modulus, 0);
    p % U32Modulus
  }

  /** uint32_t division, which truncates (both operands are non-negative). */
  function U32Div(a: UInt32, b: UInt32): (r: UInt32)
    requires b != 0
    ensures r * b <= a < r * b + b
  {
    a / b
  }

  /** uint32_t subtraction: wraps around below zero. */
  function U32Sub(a: UInt32, b: UInt32): (r: UInt32)
    ensures a >= b ==> r == a - b
    ensures a < b ==> r == a - b + U32Modulus
  {
    (a - b) % U32Modulus
  }

  /** Conversion of an integer to int16_t: the value congruent to x modulo 2^16 in the
      int16_t range (two's complement narrowing, as the target compiler does it). */
  function ToInt16(x: int): (r: Int16)
    ensures (x - r) % U16Modulus == 0
    ensures -0x8000 <= x < 0x8000 ==> r == x
  {
    var m := x % U16Modulus;
    if m < 0x8000 then m else m - U16Modulus
  }

  /** The powers of two behind the shift counts and masks of the sensor code. */
  lemma Pow2Values()
    ensures Pow2(4) == 0x10 && Pow2(8) == 0x100 && Pow2(16) == 0x1_0000
  {
  }

  /** OR-ing a value shifted left by n with a value below 2^n is addition:
      the two operands have no bit in common. */
  lemma {:induction false} OrOfDisjoint(x: nat, y: nat, n: nat)
    requires y < Pow2(n)
    ensures BitOr(Shl(x, n), y) == Shl(x, n) + y
  {
    if n == 0 {
      assert y == 0;
    } else if x == 0 || y == 0 {
    } else {
      var h := Pow2(n - 1);
      assert Pow2(n) == 2 * h;
      calc {
        Shl(x, n);
        x * (2 * h);
        2 * (x * h);
      }
      var a := Shl(x, n);
      assert a / 2 == Shl(x, n - 1) && a % 2 == 0;
      assert y / 2 < h;
      OrOfDisjoint(x, y / 2, n - 1);
    }
  }

  /** AND-ing with the mask 2^n - 1 keeps the n low bits. */
  lemma {:induction false} AndLowMask(x: nat, n: nat)
    ensures BitAnd(x, Pow2(n) - 1) == x % Pow2(n)
  {
    if n == 0 || x == 0 {
    } else {
      var h := Pow2(n - 1);
      var m := Pow2(n) - 1;
      assert Pow2(n) == 2 * h;
      assert m / 2 == h - 1 && m % 2 == 1;
      AndLowMask(x / 2, n - 1);
      ModOfHalf(x, h);
    }
  }

  lemma ModOfHalf(x: nat, h: nat)
    requires h >= 1
    ensures x % (2 * h) == 2 * ((x / 2) % h) + x % 2
  {
    var q := (x / 2) / h;
    var r := (x / 2) % h;
    assert x / 2 == q * h + r;
    assert x == (2 * h) * q + (2 * r + x % 2);
    ModUnique(x, 2 * h, q, 2 * r + x % 2);
  }

  /** Division with remainder is unique. */
  lemma ModUnique(x: int, d: int, q: int, r: int)
    requires d > 0 && 0 <= r < d && x == d * q + r
    ensures x / d == q && x % d == r
  {
    var q', r' := x / d, x % d;
    assert x == d * q' + r';
    if q' != q {
      var lo, hi := if q' < q then q' else q, if q' < q then q else q';
      MulGap(d, lo, hi);
    }
  }

  lemma MulGap(d: int, lo: int, hi: int)
    requires d > 0 && lo < hi
    ensures d * hi >= d * lo + d
  {
    var k := hi - lo;
    assert d * hi == d * lo + d * k;
    assert d * (k - 1) >= 0;
    assert d * k == d * (k - 1) + d;
  }
}
