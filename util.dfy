/**
 * Integer helpers of `pirate/util.h`: floor division and floor modulo
 * (`asym_div`, `asym_mod`) built from C++'s truncating `/` and `%`, and `sign`.
 *
 * Dafny's own `/` and `%` are Euclidean, so C++'s operators are defined here
 * explicitly (`CppDiv`, `CppMod`) and the helpers are written on top of them,
 * exactly as the C++ templates are.
 */
module Util {

  import Ints

  function Abs(n: int): (r: nat)
    ensures r == n || r == -n
  {
    if n < 0 then -n else n
  }

  /**
   * C++ `n / d`: the quotient of the magnitudes, negated when the signs
   * differ, so that it rounds toward zero.
   */
  function CppDiv(n: int, d: int): (q: int)
    requires d != 0
    ensures Abs(q) == Abs(n) / Abs(d)
    ensures q > 0 ==> (n > 0 <==> d > 0)
    ensures q < 0 ==> (n > 0 <==> d < 0)
  {
    var k := Abs(n) / Abs(d);
    Ints.NatDiv(Abs(n), Abs(d));
    if (n < 0) == (d < 0) then k else -k
  }

  /** C++ `/` rounds toward zero: the magnitude of the quotient is the floor of the magnitudes' quotient. */
  lemma CppDivTowardZero(n: int, d: int)
    requires d != 0
    ensures Abs(CppDiv(n, d)) * Abs(d) <= Abs(n) < Abs(CppDiv(n, d)) * Abs(d) + Abs(d)
  {
    Ints.NatDiv(Abs(n), Abs(d));
  }

  /** C++ `n % d`: the remainder of the magnitudes, with the sign of the dividend. */
  function CppMod(n: int, d: int): (r: int)
    requires d != 0
    ensures CppDiv(n, d) * d + r == n
    ensures Abs(r) < Abs(d)
    ensures r > 0 ==> n > 0
    ensures r < 0 ==> n < 0
  {
    CppDivMod(n, d);
    var m := Abs(n) % Abs(d);
    if n < 0 then -m else m
  }

  /** The magnitudes' quotient and remainder, signed as C++ signs them, recombine to `n`. */
  lemma CppDivMod(n: int, d: int)
    requires d != 0
    ensures CppDiv(n, d) * d + (if n < 0 then -(Abs(n) % Abs(d)) else Abs(n) % Abs(d)) == n
  {
    var a, b := Abs(n), Abs(d);
    var k, m := a / b, a % b;
    assert a == k * b + m;
    var q := CppDiv(n, d);
    if n >= 0 && d > 0 {
      SignedProduct(q, d, k, b, 1, 1);
    } else if n >= 0 {
      SignedProduct(q, d, k, b, -1, -1);
    } else if d > 0 {
      SignedProduct(q, d, k, b, -1, 1);
    } else {
      SignedProduct(q, d, k, b, 1, -1);
    }
  }

  lemma SignedProduct(q: int, d: int, k: int, b: int, sq: int, sd: int)
    requires sq == 1 || sq == -1
    requires sd == 1 || sd == -1
    requires q == sq * k && d == sd * b
    ensures q * d == (sq * sd) * (k * b)
  {
  }

  /** `asym_div`: rounds toward negative infinity. */
  function AsymDiv(n: int, d: int): int
    requires d != 0
  {
    if n < 0 then CppDiv(n + 1, d) - 1 else CppDiv(n, d)
  }

  /** `asym_mod`: the remainder that goes with `asym_div`. */
  function AsymMod(n: int, d: int): int
    requires d != 0
  {
    if n < 0 then d - 1 + CppMod(n + 1, d) else CppMod(n, d)
  }

  /** `sign` */
  function Sign(n: int): (r: int)
    ensures r == -1 || r == 0 || r == 1
    ensures r == 0 <==> n == 0
    ensures r * n == Abs(n)
  {
    if n > 0 then 1 else if n < 0 then -1 else 0
  }

  /** Euclidean division of `-a-1`, for `a >= 0`, in terms of that of `a`. */
  lemma FloorOfNegative(a: int, d: int)
    requires a >= 0 && d > 0
    ensures (-a - 1) / d == -(a / d) - 1
    ensures (-a - 1) % d == d - 1 - a % d
  {
    var k, m := a / d, a % d;
    assert a == k * d + m;
    assert -a - 1 == (-k - 1) * d + (d - 1 - m);
    Ints.DivModUnique(-a - 1, d, -k - 1, d - 1 - m);
  }

  /** With a positive divisor, C++ `/` of a non-positive dividend is minus the quotient of its magnitude. */
  lemma CppDivNonPositive(n: int, d: int)
    requires n <= 0 && d > 0
    ensures CppDiv(n, d) == -((-n) / d)
  {
  }

  /** For a positive divisor `asym_div` is floor division: it agrees with Dafny's Euclidean `/`. */
  lemma AsymDivIsFloor(n: int, d: int)
    requires d > 0
    ensures AsymDiv(n, d) * d <= n < AsymDiv(n, d) * d + d
    ensures AsymDiv(n, d) == n / d
  {
    assert AsymDiv(n, d) == n / d by {
      if n < 0 {
        CppDivNonPositive(n + 1, d);
        FloorOfNegative(-(n + 1), d);
      }
    }
    FloorBounds(n, d);
  }

  lemma FloorBounds(n: int, d: int)
    requires d > 0
    ensures (n / d) * d <= n < (n / d) * d + d
  {
  }

  /** For a positive divisor `asym_mod` lies in `[0, d)` and agrees with Dafny's Euclidean `%`. */
  lemma AsymModRange(n: int, d: int)
    requires d > 0
    ensures 0 <= AsymMod(n, d) < d
    ensures AsymMod(n, d) == n % d
  {
    AsymDivMod(n, d);
    AsymDivIsFloor(n, d);
    Ints.DivModUnique(n, d, n / d, AsymMod(n, d));
  }

  /** Quotient and remainder recombine to the dividend, for any non-zero divisor. */
  lemma AsymDivMod(n: int, d: int)
    requires d != 0
    ensures AsymDiv(n, d) * d + AsymMod(n, d) == n
  {
    if n < 0 {
      assert CppDiv(n + 1, d) * d + CppMod(n + 1, d) == n + 1;
    }
  }

  /** On non-negative dividends the helpers are plain C++ `/` and `%`. */
  lemma AsymAgreesOnNonNegative(n: int, d: int)
    requires d != 0 && n >= 0
    ensures AsymDiv(n, d) == CppDiv(n, d)
    ensures AsymMod(n, d) == CppMod(n, d)
  {
  }

  /** On negative dividends C++ `/` rounds up where `asym_div` rounds down. */
  lemma CppDivTruncates(n: int, d: int)
    requires d > 0 && n < 0 && n % d != 0
    ensures CppDiv(n, d) == AsymDiv(n, d) + 1
  {
    var a := -n;
    var k, m := a / d, a % d;
    assert a == k * d + m;
    assert CppDiv(n, d) == -k;
    if m == 0 {
      Ints.DivModUnique(n, d, -k, 0);
      assert false;
    }
    Ints.DivModUnique(n, d, -k - 1, d - m);
    AsymDivIsFloor(n, d);
  }
}
