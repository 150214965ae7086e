/** format.go: a byte count rendered as a decimal number, a separator and
    a unit name. The count is first converted to float64, its magnitude k
    picks the unit (powers of 1024, or of 1000 for the decimal base), and
    the count divided by base^k is printed with fmt's %.Nf rounding. All
    of this is modelled exactly, on integers and rationals. */
module Formatter {
  import opened Prelude
  import opened Arith
  import opened Floats
  import opened Strconv
  import opened Units
  import opened Text

  /** The options of FormatWithOptions. A zero base and an empty format
      ask for the defaults; precision is the number of fractional digits
      shown when the number is not whole. */
  datatype Options = Options(base: nat, precision: nat, separator: string, format: string)

  /** The options Format passes. */
  const DefaultOptions: Options := Options(BaseBinary, 1, " ", FormatIEC)

  /** The options with the defaults filled in: base BaseBinary and format
      FormatIEC where they were left unset. */
  function WithDefaults(o: Options): (d: Options)
    ensures d.base >= 1 && d.format != ""
    ensures o.base == 0 ==> d.base == BaseBinary
    ensures o.format == "" ==> d.format == FormatIEC
    ensures o.base != 0 ==> d.base == o.base
    ensures o.format != "" ==> d.format == o.format
    ensures d.precision == o.precision && d.separator == o.separator
  {
    o.(base := if o.base == 0 then BaseBinary else o.base,
       format := if o.format == "" then FormatIEC else o.format)
  }

  /** The factor between successive units when the magnitude is chosen:
      1000 for the decimal base (log10 / 3), 1024 for every other base
      (log2 / 10). */
  function Ladder(base: nat): (step: nat)
    ensures step == BaseDecimal || step == BaseBinary
  {
    if base == BaseDecimal then BaseDecimal else BaseBinary
  }

  // ---------------------------------------------------------------------
  // The magnitude.

  /** floor(log_step(a)): how often a can be divided by step before it
      drops below step. It is 0 exactly below one step; MagnitudeSpec and
      MagnitudeUnique pin it down completely. */
  function Magnitude(a: nat, step: nat): (k: nat)
    requires a >= 1 && step >= 2
    ensures k == 0 <==> a < step
    decreases a
  {
    if a < step then 0
    else
      DivShrinks(a, step);
      1 + Magnitude(a / step, step)
  }

  lemma {:induction false} DivShrinks(a: nat, step: nat)
    requires 2 <= step <= a
    ensures 1 <= a / step < a
  {
    var q := a / step;
    FloorBounds(a, step);
    MulStrictCancel(1, q + 1, step);
    MulLeftMonotone(q, 2, step);
  }

  /** The magnitude k is the one with step^k <= a < step^(k+1). */
  lemma {:induction false} MagnitudeSpec(a: nat, step: nat)
    requires a >= 1 && step >= 2
    ensures var k := Magnitude(a, step);
            Pow(step, k) <= a < Pow(step, k + 1)
    decreases a
  {
    if a >= step {
      DivShrinks(a, step);
      var a' := a / step;
      var k' := Magnitude(a', step);
      MagnitudeSpec(a', step);
      FloorBounds(a, step);
      MulLeftMonotone(step, Pow(step, k'), a');
      MulLeftMonotone(step, a' + 1, Pow(step, k' + 1));
      assert step * a' == a' * step && step * (a' + 1) == (a' + 1) * step;
    }
  }

  /** Conversely, any k with step^k <= a < step^(k+1) is the magnitude. */
  lemma {:induction false} MagnitudeUnique(a: nat, step: nat, k: nat)
    requires a >= 1 && step >= 2
    requires Pow(step, k) <= a < Pow(step, k + 1)
    ensures Magnitude(a, step) == k
  {
    var m := Magnitude(a, step);
    MagnitudeSpec(a, step);
    if m < k {
      PowMonotone(step, m + 1, k);
    } else if m > k {
      PowMonotone(step, k + 1, m);
    }
  }

  /** Every magnitude of an int64 (at most 2^63 once converted to float64)
      has a name in the unit tables. */
  lemma {:induction false} MagnitudeBound(a: nat, step: nat)
    requires 1 <= a <= Pow(2, 63) && (step == BaseDecimal || step == BaseBinary)
    ensures Magnitude(a, step) <= MaxMagnitude
  {
    var k := Magnitude(a, step);
    MagnitudeSpec(a, step);
    PowAtLeast(step);
    if k > MaxMagnitude {
      PowMonotone(step, MaxMagnitude + 1, k);
    }
  }

  lemma {:induction false} PowAtLeast(step: nat)
    requires step == BaseDecimal || step == BaseBinary
    ensures Pow(step, MaxMagnitude + 1) > Pow(2, 63)
  {
    PowersOfTwo();
    assert Pow(BaseDecimal, 7) == 1_000_000_000_000_000_000_000;
    PowStrictlyMonotone(2, 63, 70);
    Pow1024(7);
  }

  /** The range of float64(b) for the non-zero int64 counts b. */
  predicate CountRange(x: int) {
    1 <= Abs(x) <= Pow(2, 63)
  }

  lemma {:induction false} Float64InRange(b: Int64)
    requires b != 0
    ensures CountRange(Float64(b))
  {
    PowersOfTwo();
  }

  /** pow in FormatWithOptions: the magnitude of x, the count converted to
      float64, on the ladder of the base. */
  function UnitPower(x: int, base: nat): (k: nat)
    requires CountRange(x)
    ensures k <= MaxMagnitude
  {
    MagnitudeBound(Abs(x), Ladder(base));
    Magnitude(Abs(x), Ladder(base))
  }

  // ---------------------------------------------------------------------
  // The unit name.

  /** iecSuffix: the IEC name of magnitude pow, except for the decimal base
      and for plain bytes, which keep the standard name sf. Given the
      standard name of magnitude pow, it returns the IEC name of the same
      magnitude unless the base is decimal. */
  function IecSuffix(sf: string, base: nat, pow: nat): (r: string)
    requires pow <= MaxMagnitude
    ensures sf == StdUnits[pow] ==> r == (if base == BaseDecimal then StdUnits[pow] else IecUnits[pow])
  {
    TablesAgree();
    if base == BaseDecimal || sf == "B" then sf else IecUnits[pow]
  }

  /** determineMesureUnit: the unit name of magnitude k. It is the IEC name
      exactly in IEC mode with a non-decimal base, and otherwise the
      standard name; at magnitude 0 both are "B". */
  function Unit(k: nat, format: string, base: nat): (r: string)
    requires k <= MaxMagnitude
    ensures r == (if format == FormatIEC && base != BaseDecimal then IecUnits[k] else StdUnits[k])
  {
    TablesAgree();
    var sf := StdUnits[k];
    if format == FormatIEC then IecSuffix(sf, base, k) else sf
  }

  /** determineMesureUnit with iecSuffix as written in format.go, which
      indexes the IEC table one position too low. */
  function UnitAsWritten(k: nat, format: string, base: nat): string
    requires k <= MaxMagnitude
  {
    var sf := StdUnits[k];
    if format != FormatIEC || base == BaseDecimal || sf == "B" then sf
    else IecUnits[k - 1]
  }

  /** As written, every binary IEC unit is named after the magnitude below
      it: 1024 bytes come out as "B", 1 MiB as "KiB". */
  lemma {:induction false} UnitAsWrittenOffByOne(k: nat)
    requires 1 <= k <= MaxMagnitude
    ensures UnitAsWritten(k, FormatIEC, BaseBinary) == IecUnits[k - 1]
    ensures Unit(k, FormatIEC, BaseBinary) == IecUnits[k]
    ensures UnitAsWritten(k, FormatIEC, BaseBinary) != Unit(k, FormatIEC, BaseBinary)
  {
    TablesAgree();
    assert IecUnits[k - 1] != IecUnits[k] by {
      assert IecUnits[k - 1][0] != IecUnits[k][0];
    }
  }

  // ---------------------------------------------------------------------
  // The number.

  /** The number of fractional digits toFixed prints: none when the
      quotient is whole or the precision is 0, otherwise the precision. */
  function FractionDigits(num: int, den: Pos, precision: nat): nat {
    if Abs(num) % den == 0 || precision == 0 then 0 else precision
  }

  /** q / 10^p is the p-digit decimal nearest to n / den; on a tie, q is
      even. */
  predicate NearestDecimal(n: nat, den: Pos, p: nat, q: nat) {
    var e := n * Pow(10, p) - q * den;
    2 * Abs(e) <= den && (2 * Abs(e) == den ==> q % 2 == 0)
  }

  /** toFixed(num / den, precision) for the exact quotient num / den:
      fmt's %.Nf with N = FractionDigits, which rounds half to even and
      keeps a minus sign even when the digits are all zero. */
  function ToFixed(num: int, den: Pos, precision: nat): (r: string)
    ensures |r| > 0 && (r[0] == '-' <==> num < 0)
  {
    var p := FractionDigits(num, den, precision);
    var q := RoundHalfEven(Abs(num) * Pow(10, p), den);
    SignPrefix(num < 0) + FixedPoint(q, p)
  }

  /** The printed number reads back, with strconv.ParseFloat's syntax, as
      the decimal with FractionDigits digits nearest to num / den, with the
      sign of num. */
  lemma {:induction false} ToFixedReadsBack(num: int, den: Pos, precision: nat)
    ensures ReadsAs(ToFixed(num, den, precision), num < 0, Abs(num), den, FractionDigits(num, den, precision))
  {
    var p := FractionDigits(num, den, precision);
    var q := RoundHalfEven(Abs(num) * Pow(10, p), den);
    ParseFixedPoint(num < 0, q, p);
    RoundHalfEvenNearest(Abs(num) * Pow(10, p), den);
  }

  /** A whole quotient is printed as an integer, whatever the precision. */
  lemma {:induction false} ToFixedWhole(num: int, den: Pos, precision: nat)
    requires Abs(num) % den == 0
    ensures ToFixed(num, den, precision) == SignPrefix(num < 0) + FormatNat(Abs(num) / den)
  {
    DivMod(Abs(num), den);
    RoundHalfEvenExact(Abs(num) / den, den);
  }

  // ---------------------------------------------------------------------
  // FormatWithOptions and Format.

  /** The number part of the rendering of x, a count converted to
      float64. */
  function Numeral(x: int, o: Options): string
    requires CountRange(x)
  {
    var d := WithDefaults(o);
    ToFixed(x, Pow(d.base, UnitPower(x, d.base)), d.precision)
  }

  /** The rendering of a non-zero count once converted to float64: the
      number, the separator and the unit of the magnitude. */
  function FormatFloat(x: int, o: Options): (r: string)
    requires CountRange(x)
    ensures |r| > 0 && (r[0] == '-' <==> x < 0)
  {
    var d := WithDefaults(o);
    Numeral(x, o) + d.separator + Unit(UnitPower(x, d.base), d.format, d.base)
  }

  /** FormatWithOptions: "0", the separator and "B" for zero; otherwise
      the rendering of float64(b). The output starts with a minus sign
      exactly for negative counts. */
  function FormatWithOptions(b: Int64, o: Options): (r: string)
    ensures b == 0 ==> r == "0" + o.separator + "B"
    ensures |r| > 0 && (r[0] == '-' <==> b < 0)
  {
    if b == 0 then "0" + o.separator + "B"
    else
      Float64InRange(b);
      FormatFloat(Float64(b), o)
  }

  /** num, read with strconv.ParseFloat's syntax, is the decimal with p
      fractional digits nearest to n / den (ties to even), with a minus
      sign exactly when neg. */
  predicate ReadsAs(num: string, neg: bool, n: nat, den: Pos, p: nat) {
    var lit := ParseFloatLiteral(num);
    && lit.Some? && lit.value.negative == neg && lit.value.exponent == -(p as int)
    && NearestDecimal(n, den, p, lit.value.mantissa)
  }

  /** r is what x, a count converted to float64, renders as under the
      options o: with k the magnitude of x on the ladder of the base, r ends
      with the separator and the unit of magnitude k, after a number that
      reads back as x / base^k rounded to FractionDigits decimals (half to
      even), with the sign of x. */
  predicate Renders(r: string, x: int, o: Options)
    requires CountRange(x)
  {
    var d := WithDefaults(o);
    var k := UnitPower(x, d.base);
    var den := Pow(d.base, k);
    var tail := d.separator + Unit(k, d.format, d.base);
    && Pow(Ladder(d.base), k) <= Abs(x) < Pow(Ladder(d.base), k + 1)
    && HasSuffix(r, tail)
    && ReadsAs(r[..|r| - |tail|], x < 0, Abs(x), den, FractionDigits(x, den, d.precision))
  }

  /** What FormatWithOptions prints for a non-zero count b: the rendering
      of float64(b) in the sense of Renders. */
  lemma {:induction false} FormatWithOptionsMeaning(b: Int64, o: Options)
    requires b != 0
    ensures CountRange(Float64(b)) && Renders(FormatWithOptions(b, o), Float64(b), o)
  {
    Float64InRange(b);
    FormatFloatReads(Float64(b), o);
  }

  /** The rendering of x has the meaning Renders states. */
  lemma {:induction false} FormatFloatReads(x: int, o: Options)
    requires CountRange(x)
    ensures Renders(FormatFloat(x, o), x, o)
  {
    var d := WithDefaults(o);
    var k := UnitPower(x, d.base);
    UnitPowerSpec(x, d.base);
    NumeralReads(x, o);
    FormatFloatSplit(x, o);
  }

  /** The number part reads back as x / base^k rounded. */
  lemma {:induction false} NumeralReads(x: int, o: Options)
    requires CountRange(x)
    ensures var d := WithDefaults(o);
            var den := Pow(d.base, UnitPower(x, d.base));
            ReadsAs(Numeral(x, o), x < 0, Abs(x), den, FractionDigits(x, den, d.precision))
  {
    var d := WithDefaults(o);
    ToFixedReadsBack(x, Pow(d.base, UnitPower(x, d.base)), d.precision);
  }

  /** The unit power is the magnitude of x on the ladder of the base. */
  lemma {:induction false} UnitPowerSpec(x: int, base: nat)
    requires CountRange(x)
    ensures var k := UnitPower(x, base);
            Pow(Ladder(base), k) <= Abs(x) < Pow(Ladder(base), k + 1)
  {
    MagnitudeSpec(Abs(x), Ladder(base));
  }

  lemma {:induction false} FormatFloatSplit(x: int, o: Options)
    requires CountRange(x)
    ensures var d := WithDefaults(o);
            var tail := d.separator + Unit(UnitPower(x, d.base), d.format, d.base);
            var r := FormatFloat(x, o);
            HasSuffix(r, tail) && r[..|r| - |tail|] == Numeral(x, o)
  {
    var d := WithDefaults(o);
    var tail := d.separator + Unit(UnitPower(x, d.base), d.format, d.base);
    ConcatAssoc(Numeral(x, o), d.separator, Unit(UnitPower(x, d.base), d.format, d.base));
    SuffixOfConcat(Numeral(x, o), tail);
  }

  /** Counts below one step of the ladder are printed in bytes, as plain
      integers. */
  lemma {:induction false} FormatBytes(b: Int64, o: Options)
    requires Abs(b) < Ladder(WithDefaults(o).base)
    ensures FormatWithOptions(b, o) == FormatInt(b) + o.separator + "B"
  {
    if b != 0 {
      PowersOfTwo();
      assert Float64(b) == b;
      FormatFloatBytes(b, o);
    }
  }

  lemma {:induction false} FormatFloatBytes(x: int, o: Options)
    requires 1 <= Abs(x) < Ladder(WithDefaults(o).base)
    ensures CountRange(x) && FormatFloat(x, o) == FormatInt(x) + o.separator + "B"
  {
    var d := WithDefaults(o);
    NumeralBytes(x, o);
    ConcatAssoc(Numeral(x, o), d.separator, Unit(0, d.format, d.base));
    TablesAgree();
  }

  lemma {:induction false} NumeralBytes(x: int, o: Options)
    requires 1 <= Abs(x) < Ladder(WithDefaults(o).base)
    ensures CountRange(x) && UnitPower(x, WithDefaults(o).base) == 0 && Numeral(x, o) == FormatInt(x)
  {
    var d := WithDefaults(o);
    BelowOneStep(x, d.base);
    ToFixedInteger(x, d.precision);
  }

  /** A count below one step of the ladder has magnitude 0. */
  lemma {:induction false} BelowOneStep(x: int, base: nat)
    requires 1 <= Abs(x) < Ladder(base)
    ensures CountRange(x) && UnitPower(x, base) == 0
  {
    PowMonotone(2, 10, 63);
    MagnitudeUnique(Abs(x), Ladder(base), 0);
  }

  /** Over the denominator 1 the number is printed as an integer. */
  lemma {:induction false} ToFixedInteger(num: int, precision: nat)
    ensures ToFixed(num, 1, precision) == FormatInt(num)
  {
    ToFixedWhole(num, 1, precision);
  }

  /** A whole number c of binary units, 1 <= c < 1024, is printed as c
      and the unit of that magnitude. */
  lemma {:induction false} FormatWholeUnits(b: Int64, o: Options, neg: bool, c: nat, k: nat)
    requires WithDefaults(o).base == BaseBinary
    requires 1 <= c < BaseBinary && k <= MaxMagnitude
    requires b == Signed(neg, c * Pow(BaseBinary, k))
    ensures var d := WithDefaults(o);
            FormatWithOptions(b, o) == SignPrefix(neg) + FormatNat(c) + d.separator + Unit(k, d.format, BaseBinary)
  {
    WholeUnitsExact(b, neg, c, k);
    FormatWithOptionsFloat(b, o);
    FormatFloatWholeUnits(b, o, neg, c, k);
  }

  /** A whole number of binary units below 1024 of them fits in float64. */
  lemma {:induction false} WholeUnitsExact(b: int, neg: bool, c: nat, k: nat)
    requires 1 <= c < BaseBinary && b == Signed(neg, c * Pow(BaseBinary, k))
    ensures Float64(b) == b
  {
    Pow1024(k);
    assert Abs(b) == c * Pow(2, 10 * k);
    PowMonotone(2, 10, Float64Bits);
    Float64Exact(b, c, 10 * k);
  }

  /** A non-zero count is rendered through its float64 value. */
  lemma {:induction false} FormatWithOptionsFloat(b: Int64, o: Options)
    requires b != 0
    ensures CountRange(Float64(b)) && FormatWithOptions(b, o) == FormatFloat(Float64(b), o)
  {
    Float64InRange(b);
  }

  /** Counts with the same float64 value render alike. */
  lemma {:induction false} FormatSameFloat(a: Int64, b: Int64, o: Options)
    requires Float64(a) == Float64(b)
    ensures FormatWithOptions(a, o) == FormatWithOptions(b, o)
  {
    if a != 0 {
      FormatWithOptionsFloat(a, o);
      FormatWithOptionsFloat(b, o);
    }
  }

  /** The 512 largest counts render exactly like MaxInt64, whatever the
      options: float64 rounds each of them to 2^63. */
  lemma {:induction false} FormatNearMaxInt64(b: Int64, o: Options)
    requires MaxInt64 - 511 <= b
    ensures FormatWithOptions(b, o) == FormatWithOptions(MaxInt64, o)
  {
    PowersOfTwo();
    Float64Top(b);
    Float64Top(MaxInt64);
    FormatSameFloat(b, MaxInt64, o);
  }

  lemma {:induction false} FormatFloatWholeUnits(x: int, o: Options, neg: bool, c: nat, k: nat)
    requires WithDefaults(o).base == BaseBinary && CountRange(x)
    requires 1 <= c < BaseBinary && k <= MaxMagnitude
    requires x == Signed(neg, c * Pow(BaseBinary, k))
    ensures var d := WithDefaults(o);
            FormatFloat(x, o) == SignPrefix(neg) + FormatNat(c) + d.separator + Unit(k, d.format, BaseBinary)
  {
    NumeralWholeUnits(x, o, neg, c, k);
  }

  /** The number part of a whole number c of binary units is c, and the
      magnitude is that of the units. */
  lemma {:induction false} NumeralWholeUnits(x: int, o: Options, neg: bool, c: nat, k: nat)
    requires WithDefaults(o).base == BaseBinary && CountRange(x)
    requires 1 <= c < BaseBinary && k <= MaxMagnitude
    requires x == Signed(neg, c * Pow(BaseBinary, k))
    ensures UnitPower(x, BaseBinary) == k && Numeral(x, o) == SignPrefix(neg) + FormatNat(c)
  {
    var d := WithDefaults(o);
    var P := Pow(BaseBinary, k);
    WholeUnitsMagnitude(c, k);
    MagnitudeUnique(c * P, BaseBinary, k);
    WholeQuotient(c, P);
    ToFixedWhole(x, P, d.precision);
  }

  /** Where the magnitude k of x is known, its rendering is the number x /
      base^k, the separator and the unit of magnitude k. */
  lemma {:induction false} FormatFloatAt(x: int, o: Options, k: nat)
    requires CountRange(x)
    requires var step := Ladder(WithDefaults(o).base);
             Pow(step, k) <= Abs(x) < Pow(step, k + 1)
    ensures var d := WithDefaults(o);
            && k <= MaxMagnitude && UnitPower(x, d.base) == k
            && FormatFloat(x, o) == ToFixed(x, Pow(d.base, k), d.precision) + d.separator + Unit(k, d.format, d.base)
  {
    var d := WithDefaults(o);
    MagnitudeUnique(Abs(x), Ladder(d.base), k);
    assert UnitPower(x, d.base) == k;
  }

  lemma {:induction false} WholeUnitsMagnitude(c: nat, k: nat)
    requires 1 <= c < BaseBinary
    ensures Pow(BaseBinary, k) <= c * Pow(BaseBinary, k) < Pow(BaseBinary, k + 1)
  {
    var P := Pow(BaseBinary, k);
    MulLeftMonotone(P, 1, c);
    MulStrictLeft(P, c, BaseBinary);
    assert Pow(BaseBinary, k + 1) == BaseBinary * P;
  }

  lemma {:induction false} WholeQuotient(c: nat, P: Pos)
    ensures (c * P) % P == 0 && (c * P) / P == c
  {
    var q, r := (c * P) / P, (c * P) % P;
    DivMod(c * P, P);
    assert (c - q) * P == r;
    MulStrictCancel(c - q, 1, P);
    MulCancel(0, c - q, P);
  }

  /** Negating a count only adds a minus sign. */
  lemma {:induction false} FormatNegation(b: Int64, o: Options)
    requires b > 0
    ensures FormatWithOptions(-b, o) == "-" + FormatWithOptions(b, o)
  {
    Float64Negation(b);
    Float64InRange(b);
    FormatFloatNegation(Float64(b), o);
  }

  lemma {:induction false} FormatFloatNegation(x: int, o: Options)
    requires x > 0 && CountRange(x)
    ensures CountRange(-x) && FormatFloat(-x, o) == "-" + FormatFloat(x, o)
  {
    var d := WithDefaults(o);
    var k := UnitPower(x, d.base);
    NumeralNegation(x, o);
    var tail := d.separator + Unit(k, d.format, d.base);
    ConcatAssoc(Numeral(-x, o), d.separator, Unit(k, d.format, d.base));
    ConcatAssoc(Numeral(x, o), d.separator, Unit(k, d.format, d.base));
    ConcatAssoc("-", Numeral(x, o), tail);
  }

  lemma {:induction false} NumeralNegation(x: int, o: Options)
    requires x > 0 && CountRange(x)
    ensures CountRange(-x) && UnitPower(-x, WithDefaults(o).base) == UnitPower(x, WithDefaults(o).base)
    ensures Numeral(-x, o) == "-" + Numeral(x, o)
  {
    var d := WithDefaults(o);
    var k := UnitPower(x, d.base);
    assert UnitPower(-x, d.base) == k;
    ToFixedNegation(x, Pow(d.base, k), d.precision);
  }

  lemma {:induction false} ToFixedNegation(x: int, den: Pos, precision: nat)
    requires x > 0
    ensures ToFixed(-x, den, precision) == "-" + ToFixed(x, den, precision)
  {
    assert FractionDigits(-x, den, precision) == FractionDigits(x, den, precision);
  }

  /** Format: FormatWithOptions with base 1024, one fractional digit, a
      space before the unit and IEC names. */
  function Format(b: Int64): (r: string)
    ensures b == 0 ==> r == "0 B"
    ensures |r| > 0 && (r[0] == '-' <==> b < 0)
  {
    FormatWithOptions(b, DefaultOptions)
  }

  // ---------------------------------------------------------------------
  // format.go as written: its two defects.

  /** FormatWithOptions with determineMesureUnit as written. It agrees
      with the corrected FormatWithOptions exactly for zero, outside IEC
      mode, for the decimal base and for counts below one step: every
      other count gets the name of the magnitude below its own. */
  function FormatWithOptionsAsWritten(b: Int64, o: Options): (r: string)
    ensures var d := WithDefaults(o);
            r == FormatWithOptions(b, o)
            <==> b == 0 || d.format != FormatIEC || d.base == BaseDecimal || Abs(Float64(b)) < Ladder(d.base)
  {
    if b == 0 then "0" + o.separator + "B"
    else
      Float64InRange(b);
      var x := Float64(b);
      var d := WithDefaults(o);
      var k := UnitPower(x, d.base);
      AsWrittenUnit(Numeral(x, o) + d.separator, k, d.format, d.base);
      Numeral(x, o) + d.separator + UnitAsWritten(k, d.format, d.base)
  }

  /** The rendering with the as-written unit equals the corrected one
      exactly when the two unit names agree: outside IEC mode, for the
      decimal base, and at magnitude 0. */
  lemma {:induction false} AsWrittenUnit(head: string, k: nat, format: string, base: nat)
    requires k <= MaxMagnitude
    ensures head + UnitAsWritten(k, format, base) == head + Unit(k, format, base)
            <==> format != FormatIEC || base == BaseDecimal || k == 0
  {
    TablesAgree();
    if format == FormatIEC && base != BaseDecimal && k > 0 {
      UnitAsWrittenOffByOne(k);
      var u, v := UnitAsWritten(k, format, base), Unit(k, format, base);
      assert (head + u)[|head|..] == u && (head + v)[|head|..] == v;
    }
  }

  /** Format as written: it passes no separator, and the unit is the one
      determineMesureUnit computes as written. Its output is shorter than
      the corrected Format's for every count, so the two never agree. */
  function FormatAsWritten(b: Int64): (r: string)
    ensures b == 0 ==> r == "0B"
    ensures |r| < |Format(b)| && r != Format(b)
  {
    AsWrittenShorter(b);
    FormatWithOptionsAsWritten(b, DefaultOptions.(separator := ""))
  }

  /** Without the separator, and with a unit name no longer than the
      corrected one, the as-written rendering is one character short at
      least. */
  lemma {:induction false} AsWrittenShorter(b: Int64)
    ensures |FormatWithOptionsAsWritten(b, DefaultOptions.(separator := ""))| < |FormatWithOptions(b, DefaultOptions)|
  {
    if b != 0 {
      var o := DefaultOptions.(separator := "");
      FormatWithOptionsFloat(b, DefaultOptions);
      var x := Float64(b);
      var k := UnitPower(x, BaseBinary);
      assert WithDefaults(o).base == BaseBinary && WithDefaults(o).format == FormatIEC;
      assert Numeral(x, o) == Numeral(x, DefaultOptions);
      UnitNoLonger(k);
    }
  }

  /** The as-written IEC name is never longer than the corrected one. */
  lemma {:induction false} UnitNoLonger(k: nat)
    requires k <= MaxMagnitude
    ensures |UnitAsWritten(k, FormatIEC, BaseBinary)| <= |Unit(k, FormatIEC, BaseBinary)|
  {
    TablesAgree();
  }
}
