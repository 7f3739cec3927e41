/**
 * Fixed-width integers of the target (a 32-bit microcontroller).
 *
 * Dafny integers are unbounded; the firmware's `int16_t`, `int32_t` and
 * `uint32_t` are modelled as subset types, and every narrowing or
 * wrapping operation of the C++ code is written out with the functions below
 * (two's-complement wrap-around assumed for signed overflow, as under `-fwrapv`).
 */
module Ints {

  const INT16_MIN: int := -0x8000
  const INT16_MAX: int := 0x7FFF
  const TWO_16: int := 0x1_0000
  const TWO_31: int := 0x8000_0000
  const TWO_32: int := 0x1_0000_0000

  type Int16 = x: int | -0x8000 <= x <= 0x7FFF
  type Int32 = x: int | -0x8000_0000 <= x <= 0x7FFF_FFFF
  type UInt32 = x: int | 0 <= x < 0x1_0000_0000

  /** Storing an `int` into an `int16_t`: keeps the low 16 bits, two's complement. */
  function Wrap16(x: int): (r: Int16)
    ensures INT16_MIN <= x <= INT16_MAX ==> r == x
    ensures (x - r) % TWO_16 == 0
  {
    (x + 0x8000) % 0x1_0000 - 0x8000
  }

  /**
   * Signed 32-bit arithmetic with wrap-around on overflow: `x` brought into
   * `[-2^31, 2^31)` by adding or subtracting 2^32.
   */
  function Wrap32(x: int): (r: Int32)
    ensures -TWO_31 <= x < TWO_31 ==> r == x
    ensures (x - r) % TWO_32 == 0
    decreases if x >= TWO_31 then x else if x < -TWO_31 then -x else 0
  {
    if x >= TWO_31 then Wrap32(x - TWO_32)
    else if x < -TWO_31 then Wrap32(x + TWO_32)
    else x
  }

  /** `a + b` on two `int32_t` operands, wrapped: the exact sum is off by at most one multiple of 2^32. */
  function Add32(a: Int32, b: Int32): (r: Int32)
    ensures -TWO_31 <= a + b < TWO_31 ==> r == a + b
    ensures r == a + b || r == a + b - TWO_32 || r == a + b + TWO_32
  {
    var s := a + b;
    if s >= TWO_31 then s - TWO_32 else if s < -TWO_31 then s + TWO_32 else s
  }

  /** `a - b` on two `int32_t` operands, wrapped. */
  function Sub32(a: Int32, b: Int32): (r: Int32)
    ensures -TWO_31 <= a - b < TWO_31 ==> r == a - b
    ensures r == a - b || r == a - b - TWO_32 || r == a - b + TWO_32
  {
    var s := a - b;
    if s >= TWO_31 then s - TWO_32 else if s < -TWO_31 then s + TWO_32 else s
  }

  /** `Add32` is `Wrap32` of the exact sum. */
  lemma Add32IsWrap(a: Int32, b: Int32)
    ensures Add32(a, b) == Wrap32(a + b)
  {
  }

  /** `Sub32` is `Wrap32` of the exact difference. */
  lemma Sub32IsWrap(a: Int32, b: Int32)
    ensures Sub32(a, b) == Wrap32(a - b)
  {
  }

  /** Unsigned 32-bit arithmetic (the FIFO cursors). */
  function WrapU32(x: int): (r: UInt32)
    ensures 0 <= x < TWO_32 ==> r == x
    ensures (x - r) % TWO_32 == 0
  {
    x % 0x1_0000_0000
  }

  /** Wrapping has period 2^32. */
  lemma Wrap32Period(x: int)
    ensures Wrap32(x + TWO_32) == Wrap32(x)
  {
  }

  /** Wrapping ignores multiples of 2^32. */
  lemma {:induction false} Wrap32Shift(x: int, k: int)
    ensures Wrap32(x + k * TWO_32) == Wrap32(x)
    decreases if k >= 0 then k else -k
  {
    if k > 0 {
      Wrap32Shift(x, k - 1);
      Wrap32Period(x + (k - 1) * TWO_32);
    } else if k < 0 {
      Wrap32Shift(x, k + 1);
      Wrap32Period(x + k * TWO_32);
    }
  }

  /** Wrapping adds a multiple of 2^32. */
  lemma {:induction false} Wrap32Offset(x: int) returns (k: int)
    ensures Wrap32(x) == x + k * TWO_32
    decreases if x >= TWO_31 then x else if x < -TWO_31 then -x else 0
  {
    if x >= TWO_31 {
      var j := Wrap32Offset(x - TWO_32);
      k := j - 1;
    } else if x < -TWO_31 {
      var j := Wrap32Offset(x + TWO_32);
      k := j + 1;
    } else {
      k := 0;
    }
  }

  /** `(a + k*m) % m == a % m` for a positive modulus. */
  lemma ModShift(a: int, k: int, m: int)
    requires m > 0
    ensures (a + k * m) % m == a % m
  {
    var q, r := a / m, a % m;
    assert a == q * m + r;
    assert a + k * m == (q + k) * m + r;
    DivModUnique(a + k * m, m, q + k, r);
  }

  /** Euclidean division is determined by its quotient-remainder equation. */
  lemma DivModUnique(n: int, m: int, q: int, r: int)
    requires m > 0 && 0 <= r < m && n == q * m + r
    ensures n / m == q && n % m == r
  {
    var q0, r0 := n / m, n % m;
    assert (q0 - q) * m == r - r0;
    MulSign(q0 - q, m);
  }

  /** Quotient of a natural number by a positive one. */
  lemma NatDiv(a: nat, b: int)
    requires b > 0
    ensures a / b >= 0
    ensures (a / b) * b <= a < (a / b) * b + b
    ensures a / b > 0 ==> a >= b
  {
    assert a == (a / b) * b + a % b;
    MulSign(a / b, b);
  }

  lemma MulSign(x: int, m: int)
    requires m > 0
    ensures x >= 1 ==> x * m >= m
    ensures x <= -1 ==> x * m <= -m
  {
  }

  /** Subtracting a wrapped value is the same as subtracting the exact one, then wrapping. */
  lemma Wrap32Sub(a: int, b: int)
    ensures Wrap32(a - Wrap32(b)) == Wrap32(a - b)
  {
    var k := Wrap32Offset(b);
    assert a - Wrap32(b) == (a - b) + (-k) * TWO_32;
    Wrap32Shift(a - b, -k);
  }

  /** Adding to a wrapped value is the same as adding to the exact one, then wrapping. */
  lemma Wrap32Add(a: int, b: int)
    ensures Wrap32(Wrap32(a) + b) == Wrap32(a + b)
  {
    var k := Wrap32Offset(a);
    assert Wrap32(a) + b == (a + b) + k * TWO_32;
    Wrap32Shift(a + b, k);
  }

  /** A `uint32_t` cursor taken modulo 16 (`& 15`) ignores the 2^32 wrap. */
  lemma WrapU32Mod16(x: int)
    ensures WrapU32(x) % 16 == x % 16
  {
    var k := x / TWO_32;
    assert x == WrapU32(x) + (k * 0x1000_0000) * 16;
    ModShift(WrapU32(x), k * 0x1000_0000, 16);
  }
}
