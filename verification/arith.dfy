/** Exact integer arithmetic that stands in for the floating-point steps of
    the formatter and the parser: powers, bit lengths, rounding of a
    quotient to the nearest integer (ties to even, as IEEE 754 and Go's
    fmt do) and truncation toward zero (Go's float-to-int conversion). */
module Arith {
  import opened Prelude

  function Pow(b: nat, n: nat): (r: nat)
    ensures b > 0 ==> r > 0
  {
    if n == 0 then 1 else b * Pow(b, n - 1)
  }

  lemma {:induction false} PowAdd(b: nat, m: nat, n: nat)
    ensures Pow(b, m + n) == Pow(b, m) * Pow(b, n)
  {
    if n == 0 {
    } else {
      PowAdd(b, m, n - 1);
      assert Pow(b, m + n) == b * Pow(b, m + n - 1);
      MulSwap(b, Pow(b, m), Pow(b, n - 1));
    }
  }

  lemma {:induction false} PowMul(b: nat, m: nat, n: nat)
    ensures Pow(b, m * n) == Pow(Pow(b, m), n)
  {
    if n == 0 {
    } else {
      PowMul(b, m, n - 1);
      PowAdd(b, m * (n - 1), m);
      assert m * n == m * (n - 1) + m;
    }
  }

  lemma {:induction false} PowMonotone(b: nat, m: nat, n: nat)
    requires b >= 1 && m <= n
    ensures Pow(b, m) <= Pow(b, n)
  {
    if m < n {
      PowMonotone(b, m, n - 1);
      MulLeftMonotone(Pow(b, n - 1), 1, b);
    }
  }

  lemma {:induction false} PowStrictlyMonotone(b: nat, m: nat, n: nat)
    requires b >= 2 && m < n
    ensures Pow(b, m) < Pow(b, n)
  {
    PowMonotone(b, m, n - 1);
    assert Pow(b, n) == b * Pow(b, n - 1);
  }

  /** Powers of 1024 are powers of two, which is what makes the binary
      scaling of the formatter and of the parser exact. */
  lemma {:induction false} Pow1024(k: nat)
    ensures Pow(1024, k) == Pow(2, 10 * k)
  {
    assert Pow(2, 10) == 1024;
    PowMul(2, 10, k);
  }

  /** The powers of two that bound float64 significands and int64. */
  lemma PowersOfTwo()
    ensures Pow(2, 10) == 0x400
    ensures Pow(2, 20) == 0x10_0000
    ensures Pow(2, 30) == 0x4000_0000
    ensures Pow(2, 40) == 0x100_0000_0000
    ensures Pow(2, 50) == 0x4_0000_0000_0000
    ensures Pow(2, 53) == 0x20_0000_0000_0000
    ensures Pow(2, 60) == 0x1000_0000_0000_0000
    ensures Pow(2, 63) == 0x8000_0000_0000_0000
  {
    PowAdd(2, 10, 10);
    PowAdd(2, 20, 10);
    PowAdd(2, 30, 10);
    PowAdd(2, 40, 10);
    PowAdd(2, 50, 3);
    PowAdd(2, 50, 10);
    PowAdd(2, 60, 3);
  }

  lemma {:induction false} MulSwap(a: int, b: int, c: int)
    ensures a * (b * c) == b * (a * c)
  {
  }

  lemma {:induction false} MulAssoc(a: int, b: int, c: int)
    ensures (a * b) * c == a * (b * c)
    ensures (a * b) * c == (a * c) * b
    ensures (a * b) * c == b * (a * c)
  {
  }

  lemma {:induction false} MulStrictLeft(x: int, a: int, b: int)
    requires x > 0 && a < b
    ensures x * a < x * b && a * x < b * x
  {
  }

  lemma {:induction false} MulLeftMonotone(x: int, a: int, b: int)
    requires x >= 0 && a <= b
    ensures x * a <= x * b
  {
  }

  lemma {:induction false} MulStrictCancel(x: int, y: int, d: int)
    requires d > 0 && x * d < y * d
    ensures x < y
  {
  }

  lemma {:induction false} MulCancel(x: int, y: int, d: int)
    requires d > 0 && x * d <= y * d
    ensures x <= y
  {
  }

  /** The number of binary digits of n: the exponent of the smallest power
      of two above n. */
  function BitLen(n: nat): (r: nat)
    ensures n == 0 <==> r == 0
    ensures n > 0 ==> Pow(2, r - 1) <= n < Pow(2, r)
  {
    if n == 0 then 0 else 1 + BitLen(n / 2)
  }

  /** BitLen is determined by the power-of-two interval n lies in. */
  lemma {:induction false} BitLenUnique(n: nat, r: nat)
    requires r >= 1 && Pow(2, r - 1) <= n < Pow(2, r)
    ensures BitLen(n) == r
  {
    var l := BitLen(n);
    if l < r {
      PowMonotone(2, l, r - 1);
    } else if l > r {
      PowMonotone(2, r, l - 1);
    }
  }

  /** The integer nearest to n / d; an exact tie goes to the even
      neighbour. RoundHalfEvenNearest states that it is so. */
  function RoundHalfEven(n: nat, d: Pos): nat {
    DivMod(n, d);
    var q0 := n / d;
    var r := n % d;
    if 2 * r > d || (2 * r == d && q0 % 2 == 1) then q0 + 1 else q0
  }

  /** RoundHalfEven(n, d) is within half a unit of n / d, and even when it
      is exactly half a unit away. */
  lemma {:induction false} RoundHalfEvenNearest(n: nat, d: Pos)
    ensures var q := RoundHalfEven(n, d);
            && 2 * Abs(n - q * d) <= d
            && (2 * Abs(n - q * d) == d ==> q % 2 == 0)
  {
    var q0 := n / d;
    var r := n % d;
    DivMod(n, d);
    RoundStep(n, d, q0, r, 2 * r > d || (2 * r == d && q0 % 2 == 1));
  }

  /** The arithmetic behind RoundHalfEven, stated over plain integers. */
  lemma {:induction false} RoundStep(n: int, d: int, q0: int, r: int, up: bool)
    requires d > 0 && n == q0 * d + r && 0 <= r < d && q0 >= 0
    requires up == (2 * r > d || (2 * r == d && q0 % 2 == 1))
    ensures var q := if up then q0 + 1 else q0;
      2 * Abs(n - q * d) <= d && (2 * Abs(n - q * d) == d ==> q % 2 == 0)
  {
    assert (q0 + 1) * d == q0 * d + d;
  }

  /** A quotient that is already an integer is returned unchanged. */
  lemma {:induction false} RoundHalfEvenExact(k: nat, d: Pos)
    ensures RoundHalfEven(k * d, d) == k
  {
    RoundHalfEvenNearest(k * d, d);
    NearestBounds(k * d, d, RoundHalfEven(k * d, d), k, k);
  }

  /** Rounding never leaves the integer interval the quotient lies in. */
  lemma {:induction false} RoundHalfEvenBounds(n: nat, d: Pos, lo: nat, hi: nat)
    requires lo * d <= n <= hi * d
    ensures lo <= RoundHalfEven(n, d) <= hi
  {
    RoundHalfEvenNearest(n, d);
    NearestBounds(n, d, RoundHalfEven(n, d), lo, hi);
  }

  /** An integer within half a unit of n / d lies in every integer interval
      that contains n / d. */
  lemma {:induction false} NearestBounds(n: int, d: int, q: int, lo: int, hi: int)
    requires d > 0 && 2 * Abs(n - q * d) <= d
    requires lo * d <= n <= hi * d
    ensures lo <= q <= hi
  {
    assert 2 * (n - q * d) <= d && 2 * (q * d - n) <= d;
    assert (2 * (lo - q)) * d == 2 * (lo * d) - 2 * (q * d);
    assert (2 * (q - hi)) * d == 2 * (q * d) - 2 * (hi * d);
    MulCancel(2 * (lo - q), 1, d);
    MulCancel(2 * (q - hi), 1, d);
  }

  lemma {:induction false} DivMod(n: nat, d: Pos)
    ensures n == (n / d) * d + n % d && 0 <= n % d < d && n / d >= 0
  {
  }

  lemma {:induction false} FloorBounds(n: nat, d: Pos)
    ensures n / d >= 0 && (n / d) * d <= n < (n / d + 1) * d
  {
    DivMod(n, d);
    assert (n / d + 1) * d == (n / d) * d + d;
  }

  /** Quotient and remainder are the only such pair. */
  lemma {:induction false} DivModUnique(n: nat, d: Pos, q: nat, r: nat)
    requires n == q * d + r && r < d
    ensures n / d == q && n % d == r
  {
    FloorBounds(n, d);
    var q0 := n / d;
    assert (q + 1) * d == q * d + d;
    MulStrictCancel(q, q0 + 1, d);
    MulStrictCancel(q0, q + 1, d);
  }

  /** r is the floor of n / d when n lies in [r * d, (r + 1) * d). */
  lemma {:induction false} FloorUnique(n: nat, d: Pos, r: nat)
    requires r * d <= n < (r + 1) * d
    ensures n / d == r
  {
    assert (r + 1) * d == r * d + d;
    DivModUnique(n, d, r, n - r * d);
  }

  /** Floors of equal ratios: if n / den == X / B, then the floor of
      X * E / B, r, is also the floor of n * E / den. */
  lemma {:induction false} FloorTransfer(n: nat, den: Pos, X: nat, E: nat, B: Pos, r: nat)
    requires n * B == X * den
    requires r * B <= X * E < (r + 1) * B
    ensures (n * E) / den == r
  {
    MulLeftMonotone(den, r * B, X * E);
    MulStrictLeft(den, X * E, (r + 1) * B);
    MulAssoc(r, B, den);
    MulAssoc(r + 1, B, den);
    MulAssoc(X, E, den);
    MulAssoc(n, B, E);
    MulAssoc(n, E, B);
    assert den * (X * E) == (n * E) * B;
    MulCancel(r * den, n * E, B);
    MulStrictCancel(n * E, (r + 1) * den, B);
    FloorUnique(n * E, den, r);
  }
}
