/** The two IEEE 754 roundings the Go code performs, modelled exactly on
    integers and rationals:

    - float64(b) of an int64 in the formatter, which keeps 53 significant
      bits (round to nearest, ties to even);
    - strconv.ParseFloat(s, 32) in the parser, which rounds the decimal
      value to the nearest float32 (24 significant bits, smallest positive
      value 2^-149, ties to even).

    Both are instances of one rounding to p significant bits, defined here
    for any precision; the parser then multiplies the float32 by a power of
    two and truncates it to an integer, which ShiftTrunc models. */
module Floats {
  import opened Prelude
  import opened Arith

  /** Significand width of float64. */
  const Float64Bits: nat := 53
  /** Significand width of float32. */
  const Float32Bits: nat := 24
  /** 2^-Float32Bias is the smallest positive float32 (a subnormal). */
  const Float32Bias: nat := 149

  // ---------------------------------------------------------------------
  // Rounding an integer to p significant bits.

  /** The spacing of p-bit floating-point values around a natural a: 1
      while a fits in p bits, otherwise the power of two that leaves
      exactly p significant bits. */
  function Ulp(a: nat, p: Pos): (u: Pos)
    ensures BitLen(a) <= p ==> u == 1
  {
    var l := BitLen(a);
    if l <= p then 1 else Pow(2, l - p)
  }

  /** Past p bits, a has between 2^(p-1) and 2^p units in the last place. */
  lemma {:induction false} UlpBounds(a: nat, p: Pos)
    ensures BitLen(a) > p ==> Pow(2, p - 1) * Ulp(a, p) <= a < Pow(2, p) * Ulp(a, p)
  {
    var l := BitLen(a);
    if l > p {
      PowAdd(2, p - 1, l - p);
      PowAdd(2, p, l - p);
    }
  }

  /** a never exceeds 2^p units in the last place. */
  lemma {:induction false} UlpCovers(a: nat, p: Pos)
    ensures a <= Pow(2, p) * Ulp(a, p)
  {
    UlpBounds(a, p);
    if BitLen(a) <= p && a > 0 {
      PowMonotone(2, BitLen(a), p);
    }
  }

  /** The p-bit significand of a natural a: a / Ulp(a, p) rounded to the
      nearest integer, an exact tie going to the even one. */
  function Significand(a: nat, p: Pos): (m: nat)
    ensures m <= Pow(2, p)
  {
    UlpCovers(a, p);
    RoundHalfEvenBounds(a, Ulp(a, p), 0, Pow(2, p));
    RoundHalfEven(a, Ulp(a, p))
  }

  /** The significand is the nearest integer to a / Ulp(a, p), ties to
      even. */
  lemma {:induction false} SignificandNearest(a: nat, p: Pos)
    ensures var m := Significand(a, p);
            var u := Ulp(a, p);
            && 2 * Abs(a - m * u) <= u
            && (2 * Abs(a - m * u) == u ==> m % 2 == 0)
  {
    RoundHalfEvenNearest(a, Ulp(a, p));
  }

  /** a rounded to p significant bits. */
  function RoundBits(a: nat, p: Pos): nat {
    Significand(a, p) * Ulp(a, p)
  }

  /** Below 2^p every integer is representable. */
  lemma {:induction false} RoundBitsSmall(a: nat, p: Pos)
    ensures a < Pow(2, p) ==> RoundBits(a, p) == a
  {
    if a < Pow(2, p) {
      if a > 0 {
        PowStrictlyMonotoneInverse(2, BitLen(a) - 1, p);
      }
      SignificandNearest(a, p);
      HalfUnitIsExact(a, Significand(a, p), Ulp(a, p));
    }
  }

  lemma {:induction false} HalfUnitIsExact(a: int, m: int, u: int)
    requires u == 1 && 2 * Abs(a - m * u) <= u
    ensures m * u == a
  {
  }

  /** Rounding keeps a positive value positive. */
  lemma {:induction false} RoundBitsPositive(a: nat, p: Pos)
    ensures a >= 1 ==> RoundBits(a, p) >= 1
  {
    RoundBitsSmall(a, p);
    if BitLen(a) > p {
      var u := Ulp(a, p);
      UlpBounds(a, p);
      SignificandNearest(a, p);
      NearestBounds(a, u, Significand(a, p), Pow(2, p - 1), Pow(2, p));
      PositiveProduct(Significand(a, p), u);
    } else if a > 0 {
      PowMonotone(2, BitLen(a), p);
    }
  }

  lemma {:induction false} PositiveProduct(m: int, u: int)
    requires m >= 1 && u >= 1
    ensures m * u >= 1
  {
    MulLeftMonotone(u, 1, m);
  }

  /** Rounding never carries a value past a power of two it does not
      exceed (a power of two is itself representable). */
  lemma {:induction false} RoundBitsAtMost(a: nat, p: Pos, t: nat)
    requires p <= t && a <= Pow(2, t)
    ensures RoundBits(a, p) <= Pow(2, t)
  {
    var l := BitLen(a);
    if l <= p {
      if a > 0 {
        PowMonotone(2, l, p);
      }
      RoundBitsSmall(a, p);
    } else {
      PowStrictlyMonotone(2, t, t + 1);
      PowStrictlyMonotoneInverse(2, l - 1, t + 1);
      if l <= t {
        InnerBinade(a, p, t, l);
      } else {
        TopBinade(a, p, t);
      }
    }
  }

  /** With p < l <= t bits, the rounded value stays within 2^l <= 2^t. */
  lemma {:induction false} InnerBinade(a: nat, p: Pos, t: nat, l: nat)
    requires l == BitLen(a) && p < l <= t
    ensures RoundBits(a, p) <= Pow(2, t)
  {
    PowAdd(2, p, l - p);
    PowMonotone(2, l, t);
    ProductAtMost(Significand(a, p), Ulp(a, p), Pow(2, p), Pow(2, t));
  }

  /** 2^t itself is p-bit significand 2^(p-1) times 2^(t+1-p). */
  lemma {:induction false} TopBinade(a: nat, p: Pos, t: nat)
    requires p <= t && Pow(2, t) <= a <= Pow(2, t) && BitLen(a) == t + 1
    ensures RoundBits(a, p) == a
  {
    PowAdd(2, p - 1, t + 1 - p);
    SignificandNearest(a, p);
    NearestUnique(a, Ulp(a, p), Significand(a, p), Pow(2, p - 1));
  }

  lemma {:induction false} ProductAtMost(m: int, u: int, bound: int, q: int)
    requires 0 <= m <= bound && u >= 0 && bound * u <= q
    ensures m * u <= q
  {
    MulLeftMonotone(u, m, bound);
  }

  /** When a is exactly c units, the only integer within half a unit of
      a / u is c. */
  lemma {:induction false} NearestUnique(a: int, u: int, m: int, c: int)
    requires u >= 1 && a == c * u && 2 * Abs(a - m * u) <= u
    ensures m * u == a
  {
    NearestBounds(a, u, m, c, c);
  }

  /** The contrapositive of monotonicity of powers of b. */
  lemma {:induction false} PowStrictlyMonotoneInverse(b: nat, m: nat, n: nat)
    requires b >= 2 && Pow(b, m) < Pow(b, n)
    ensures m < n
  {
    if n <= m {
      PowMonotone(b, n, m);
    }
  }

  /** An integer m0 * 2^t with m0 below 2^p is representable. */
  lemma {:induction false} RoundBitsExact(a: nat, p: Pos, m0: nat, t: nat)
    requires a == m0 * Pow(2, t) && m0 < Pow(2, p)
    ensures RoundBits(a, p) == a
  {
    var l := BitLen(a);
    if l > p {
      ExactShift(a, p, m0, t, l);
      PowAdd(2, t - (l - p), l - p);
      MulAssoc(m0, Pow(2, t - (l - p)), Ulp(a, p));
      SignificandNearest(a, p);
      NearestUnique(a, Ulp(a, p), Significand(a, p), m0 * Pow(2, t - (l - p)));
    } else {
      RoundBitsSmall(a, p);
      if a > 0 {
        PowMonotone(2, l, p);
      }
    }
  }

  /** m0 * 2^t with m0 < 2^p has at most p + t bits. */
  lemma {:induction false} ExactShift(a: nat, p: Pos, m0: nat, t: nat, l: nat)
    requires a == m0 * Pow(2, t) && m0 < Pow(2, p)
    requires l == BitLen(a) && l > 0
    ensures l <= p + t
  {
    PowAdd(2, p, t);
    MulStrictLeft(Pow(2, t), m0, Pow(2, p));
    PowStrictlyMonotoneInverse(2, l - 1, p + t);
  }

  /** Round to nearest loses at most half a unit, which is at most a / 2^p
      of the value. */
  lemma {:induction false} RoundBitsError(a: nat, p: Pos)
    ensures Pow(2, p) * Abs(RoundBits(a, p) - a) <= a
  {
    var l := BitLen(a);
    if l > p {
      UlpBounds(a, p);
      SignificandNearest(a, p);
      ErrorBound(a, Significand(a, p), Ulp(a, p), Pow(2, p - 1), Pow(2, p), RoundBits(a, p));
    } else {
      FitsExactly(a, p);
      NoError(Pow(2, p), RoundBits(a, p) - a);
    }
  }

  lemma {:induction false} NoError(k: int, x: int)
    requires x == 0
    ensures k * Abs(x) == 0
  {
  }

  /** An integer of at most p bits is representable. */
  lemma {:induction false} FitsExactly(a: nat, p: Pos)
    requires BitLen(a) <= p
    ensures RoundBits(a, p) == a
  {
    RoundBitsSmall(a, p);
    if a > 0 {
      PowMonotone(2, BitLen(a), p);
    }
  }

  lemma {:induction false} ErrorBound(a: int, m: int, u: int, half: int, full: int, r: int)
    requires u >= 1 && half >= 0 && full == 2 * half && half * u <= a
    requires 2 * Abs(a - m * u) <= u && r == m * u
    ensures full * Abs(r - a) <= a
  {
    MulLeftMonotone(half, 2 * Abs(a - m * u), u);
  }

  // ---------------------------------------------------------------------
  // float64 of an integer.

  /** float64(b) for an integer b: rounding is symmetric, so the sign is
      kept and the magnitude rounded to 53 bits. */
  function Float64(b: int): (r: int)
    ensures (r < 0 <==> b < 0) && (r == 0 <==> b == 0)
    ensures Abs(b) < Pow(2, Float64Bits) ==> r == b
    ensures Abs(b) <= Pow(2, 63) ==> Abs(r) <= Pow(2, 63)
  {
    var a := Abs(b);
    RoundBitsSmall(a, Float64Bits);
    RoundBitsPositive(a, Float64Bits);
    if a <= Pow(2, 63) then
      RoundBitsAtMost(a, Float64Bits, 63);
      Signed(b < 0, RoundBits(a, Float64Bits))
    else
      Signed(b < 0, RoundBits(a, Float64Bits))
  }

  /** Conversion commutes with negation. */
  lemma {:induction false} Float64Negation(b: int)
    ensures Float64(-b) == -Float64(b)
  {
    assert Abs(-b) == Abs(b);
  }

  /** The largest int64, 2^63 - 1, has 63 significant bits; rounded to 53
      it becomes 2^63, one past the int64 range. */
  lemma Float64MaxInt64()
    ensures Float64(MaxInt64) == Pow(2, 63)
  {
    PowersOfTwo();
    BitLenUnique(MaxInt64, 63);
    assert Ulp(MaxInt64, Float64Bits) == 0x400;
    assert RoundHalfEven(MaxInt64, 0x400) == 0x20_0000_0000_0000;
  }

  /** The 512 largest int64 values all round up to 2^63: between 2^62 and
      2^63 float64 values are 1024 apart, and 2^63 - 512, exactly halfway,
      goes to the even significand 2^53. */
  lemma {:induction false} Float64Top(b: int)
    requires Pow(2, 63) - 512 <= b < Pow(2, 63)
    ensures Float64(b) == Pow(2, 63)
  {
    PowersOfTwo();
    BitLenUnique(b, 63);
    assert Ulp(b, Float64Bits) == 0x400;
    DivModUnique(b, 0x400, 0x1f_ffff_ffff_ffff, b - 0x7fff_ffff_ffff_fc00);
    assert RoundHalfEven(b, 0x400) == 0x20_0000_0000_0000;
  }

  /** An integer with at most 53 significant bits is a float64 as it is. */
  lemma {:induction false} Float64Exact(b: int, m0: nat, t: nat)
    requires Abs(b) == m0 * Pow(2, t) && m0 < Pow(2, Float64Bits)
    ensures Float64(b) == b
  {
    RoundBitsExact(Abs(b), Float64Bits, m0, t);
  }

  // ---------------------------------------------------------------------
  // Rounding a rational to a binary floating-point value.

  /** A non-negative binary floating-point value mantissa * 2^scale / 2^bias,
      for the bias of its format: the scale is the exponent shifted so that
      0 is the subnormal range. */
  datatype Binary = Binary(mantissa: nat, scale: nat)

  /** The number of doublings j of d after which n / (d * 2^j) drops below
      2^p; when j > 0 the quotient is at least 2^(p-1), so j is the least
      such count. */
  function Normalise(n: nat, d: Pos, p: Pos): nat
    decreases if n >= Pow(2, p) * d then n + 1 - Pow(2, p) * d else 0
  {
    if n < Pow(2, p) * d then 0
    else
      DoubleStep(d, Pow(2, p));
      1 + Normalise(n, 2 * d, p)
  }

  /** Normalise(n, d, p) is the least j with n < 2^p * d * 2^j. */
  lemma {:induction false} NormaliseSpec(n: nat, d: Pos, p: Pos)
    ensures var j := Normalise(n, d, p);
            && n < Pow(2, p) * (d * Pow(2, j))
            && (j > 0 ==> Pow(2, p - 1) * (d * Pow(2, j)) <= n)
    decreases if n >= Pow(2, p) * d then n + 1 - Pow(2, p) * d else 0
  {
    if n >= Pow(2, p) * d {
      DoubleStep(d, Pow(2, p));
      NormaliseSpec(n, 2 * d, p);
      var j := Normalise(n, 2 * d, p);
      NormaliseStep(d, Pow(2, j), Pow(2, p), Pow(2, p - 1));
    }
  }

  lemma {:induction false} DoubleStep(d: int, q: int)
    ensures q * (2 * d) == 2 * (q * d)
  {
  }

  lemma {:induction false} NormaliseStep(d: int, pj: int, pp: int, ph: int)
    requires pp == 2 * ph
    ensures d * (2 * pj) == (2 * d) * pj
    ensures ph * (d * (2 * 1)) == pp * d
  {
  }

  /** The binary floating-point value with p-bit mantissas and the given
      bias nearest to the non-negative rational n / d, ties to even. Writing
      N for n * 2^bias and D for d * 2^scale, N / D is the unrounded
      significand: below 2^p, at least 2^(p-1) unless the value is
      subnormal (scale 0), and the mantissa is within half a unit of it.
      There is no largest exponent: overflow to infinity is not modelled. */
  function RoundFloat(n: nat, d: Pos, p: Pos, bias: nat): (f: Binary)
    ensures f.mantissa <= Pow(2, p)
    ensures f.scale > 0 ==> f.mantissa >= Pow(2, p - 1)
  {
    var N := n * Pow(2, bias);
    var j := Normalise(N, d, p);
    var D := d * Pow(2, j);
    NormaliseSpec(N, d, p);
    RoundHalfEvenBounds(N, D, if j > 0 then Pow(2, p - 1) else 0, Pow(2, p));
    Binary(RoundHalfEven(N, D), j)
  }

  /** The scale is the least one for which n * 2^bias / (d * 2^scale) fits
      in p bits, and the mantissa is that quotient rounded to nearest, ties
      to even. */
  lemma {:induction false} RoundFloatNearest(n: nat, d: Pos, p: Pos, bias: nat)
    ensures var f := RoundFloat(n, d, p, bias);
            var N := n * Pow(2, bias);
            var D := d * Pow(2, f.scale);
            && N < Pow(2, p) * D
            && (f.scale > 0 ==> Pow(2, p - 1) * D <= N)
            && 2 * Abs(N - f.mantissa * D) <= D
            && (2 * Abs(N - f.mantissa * D) == D ==> f.mantissa % 2 == 0)
  {
    var N := n * Pow(2, bias);
    NormaliseSpec(N, d, p);
    RoundHalfEvenNearest(N, d * Pow(2, Normalise(N, d, p)));
  }

  /** A value the format holds exactly is rounded to itself: if
      n / d == m0 * 2^t / 2^bias with m0 < 2^p, the result is that value. */
  lemma {:induction false} RoundFloatExact(n: nat, d: Pos, p: Pos, bias: nat, m0: nat, t: nat)
    requires m0 < Pow(2, p)
    requires n * Pow(2, bias) == m0 * Pow(2, t) * d
    ensures var f := RoundFloat(n, d, p, bias);
            f.mantissa * Pow(2, f.scale) == m0 * Pow(2, t)
  {
    var f := RoundFloat(n, d, p, bias);
    var j := f.scale;
    ScaleAtMost(n, d, p, bias, m0, t, f);
    RoundFloatNearest(n, d, p, bias);
    PowAdd(2, t - j, j);
    var c := m0 * Pow(2, t - j);
    ExactSplit(n * Pow(2, bias), m0, d, Pow(2, t), Pow(2, t - j), Pow(2, j));
    NearestBounds(n * Pow(2, bias), d * Pow(2, j), f.mantissa, c, c);
  }

  /** Regrouping m0 * 2^t * d as (m0 * 2^(t-j)) * (d * 2^j). */
  lemma {:induction false} ExactSplit(N: int, m0: int, d: int, pt: int, ptj: int, pj: int)
    requires pt == ptj * pj && N == m0 * pt * d
    ensures N == (m0 * ptj) * (d * pj) && m0 * pt == (m0 * ptj) * pj
  {
    MulAssoc(m0, ptj, pj);
    MulAssoc(m0 * ptj, pj, d);
    MulAssoc(m0 * ptj, d, pj);
  }

  /** The scale RoundFloat picks is the least one, so it does not exceed
      that of any exact representation with a p-bit mantissa. */
  lemma {:induction false} ScaleAtMost(n: nat, d: Pos, p: Pos, bias: nat, m0: nat, t: nat, f: Binary)
    requires m0 < Pow(2, p)
    requires n * Pow(2, bias) == m0 * Pow(2, t) * d
    requires f == RoundFloat(n, d, p, bias)
    ensures f.scale <= t
  {
    if f.scale > 0 {
      RoundFloatNearest(n, d, p, bias);
      LeastScale(n * Pow(2, bias), d, p, m0, t, f.scale);
    }
  }

  /** A scale j with 2^(p-1) * d * 2^j <= m0 * 2^t * d and m0 < 2^p is at
      most t. */
  lemma {:induction false} LeastScale(N: int, d: Pos, p: Pos, m0: nat, t: nat, j: nat)
    requires m0 < Pow(2, p) && N == m0 * Pow(2, t) * d
    requires Pow(2, p - 1) * (d * Pow(2, j)) <= N
    ensures j <= t
  {
    ShiftBound(d, m0, Pow(2, t), Pow(2, j), Pow(2, p - 1), Pow(2, p), N);
    PowAdd(2, p - 1, j);
    PowAdd(2, p, t);
    PowStrictlyMonotoneInverse(2, p - 1 + j, p + t);
  }

  /** If m0 < pp times pt reaches ph * pj (all scaled by d), then ph * pj
      stays below pp * pt. */
  lemma {:induction false} ShiftBound(d: int, m0: int, pt: int, pj: int, ph: int, pp: int, N: int)
    requires d > 0 && pt > 0 && 0 <= m0 < pp
    requires N == m0 * pt * d && ph * (d * pj) <= N
    ensures ph * pj < pp * pt
  {
    MulStrictLeft(pt * d, m0, pp);
    MulAssoc(m0, pt, d);
    MulAssoc(pp, pt, d);
    MulAssoc(ph, d, pj);
    MulAssoc(ph, pj, d);
    MulStrictCancel(ph * pj, pp * pt, d);
  }

  /** m * 2^e / 2^b truncated toward zero. */
  function ShiftTrunc(m: nat, e: nat, b: nat): nat {
    if e >= b then m * Pow(2, e - b)
    else
      DivMod(m, Pow(2, b - e));
      m / Pow(2, b - e)
  }

  /** ShiftTrunc is the floor of the exact quotient. */
  lemma {:induction false} ShiftTruncBounds(m: nat, e: nat, b: nat)
    ensures var r := ShiftTrunc(m, e, b);
            r * Pow(2, b) <= m * Pow(2, e) < (r + 1) * Pow(2, b)
  {
    if e >= b {
      PowAdd(2, e - b, b);
      ScaleExact(m, Pow(2, e - b), Pow(2, b), Pow(2, e));
    } else {
      PowAdd(2, e, b - e);
      ScaleFloor(m, Pow(2, b - e), Pow(2, e), Pow(2, b));
    }
  }

  lemma {:induction false} ScaleExact(m: int, ps: int, pb: int, pe: int)
    requires pe == ps * pb
    ensures (m * ps) * pb == m * pe && (m * ps + 1) * pb == m * pe + pb
  {
    MulAssoc(m, ps, pb);
  }

  /** Multiplying floor(m / q) <= m / q < floor(m / q) + 1 through by p. */
  lemma {:induction false} ScaleFloor(m: nat, q: Pos, p: Pos, pb: int)
    requires pb == p * q
    ensures (m / q) * pb <= m * p < (m / q + 1) * pb
  {
    FloorBounds(m, q);
    MulLeftMonotone(p, (m / q) * q, m);
    MulAssoc(m / q, q, p);
    MulAssoc(m / q + 1, q, p);
    MulStrictLeft(p, m, (m / q + 1) * q);
  }
}
