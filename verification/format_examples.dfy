/** The renderings format_test.go expects, derived from the model.

    Each example is stated for literal arguments. The lemma ending in "At"
    behind it derives the rendering for variables equal to them, through
    the general lemmas of the formatter; the lemmas starting with "Text"
    spell out the digits and names those lemmas produce. */
module FormatExamples {
  import opened Prelude
  import opened Arith
  import opened Floats
  import opened Strconv
  import opened Units
  import opened Formatter

  // ---------------------------------------------------------------------
  // Format.

  /** Counts below one KiB are printed in bytes. */
  lemma Format512()
    ensures Format(512) == "512 B"
  {
    BytesAt(512, DefaultOptions);
    TextBytes512();
  }

  lemma Format1023()
    ensures Format(1023) == "1023 B"
  {
    BytesAt(1023, DefaultOptions);
    TextBytes1023();
  }

  /** A positive count below one step is printed in bytes. */
  lemma {:induction false} BytesAt(b: Int64, o: Options)
    requires 0 < b < Ladder(WithDefaults(o).base)
    ensures FormatWithOptions(b, o) == BytesText(b, o)
  {
    assert Abs(b) == b;
    FormatBytes(b, o);
    assert SignPrefix(false) + FormatNat(b) == FormatNat(b);
  }

  function BytesText(n: nat, o: Options): string {
    FormatNat(n) + o.separator + "B"
  }

  lemma TextBytes512()
    ensures BytesText(512, DefaultOptions) == "512 B"
  {
  }

  lemma TextBytes1023()
    ensures BytesText(1023, DefaultOptions) == "1023 B"
  {
  }

  /** Whole numbers of KiB and MiB, of either sign, print without a
      fraction. */
  lemma FormatKiB()
    ensures Format(1024) == "1 KiB"
  {
    WholeAt(1024, DefaultOptions, false, 1, 1);
    TextKiB();
  }

  lemma FormatMinusKiB()
    ensures Format(-1024) == "-1 KiB"
  {
    WholeAt(-1024, DefaultOptions, true, 1, 1);
    TextMinusKiB();
  }

  lemma FormatMiB()
    ensures Format(1048576) == "1 MiB"
  {
    WholeAt(1048576, DefaultOptions, false, 1, 2);
    TextMiB();
  }

  /** c binary units of magnitude k, with the text that FormatWholeUnits
      produces named by a function of the parts. */
  lemma {:induction false} WholeAt(b: Int64, o: Options, neg: bool, c: nat, k: nat)
    requires WithDefaults(o).base == BaseBinary
    requires 1 <= c < BaseBinary && k <= MaxMagnitude
    requires b == Signed(neg, c * Pow(BaseBinary, k))
    ensures FormatWithOptions(b, o) == WholeText(o, neg, c, k)
  {
    FormatWholeUnits(b, o, neg, c, k);
  }

  function WholeText(o: Options, neg: bool, c: nat, k: nat): string
    requires k <= MaxMagnitude
  {
    var d := WithDefaults(o);
    SignPrefix(neg) + FormatNat(c) + d.separator + Unit(k, d.format, BaseBinary)
  }

  lemma TextKiB()
    ensures WholeText(DefaultOptions, false, 1, 1) == "1 KiB"
  {
  }

  lemma TextMinusKiB()
    ensures WholeText(DefaultOptions, true, 1, 1) == "-1 KiB"
  {
  }

  lemma TextMiB()
    ensures WholeText(DefaultOptions, false, 1, 2) == "1 MiB"
  {
  }

  lemma TextMinusEightEiB()
    ensures WholeText(DefaultOptions, true, 8, 6) == "-8 EiB"
  {
  }

  lemma TextEightEiB()
    ensures WholeText(DefaultOptions, false, 8, 6) == "8 EiB"
  {
  }

  lemma TextStandardKB()
    ensures WholeText(Options(BaseBinary, 0, "", FormatStandard), false, 1, 1) == "1KB"
  {
  }

  lemma TextStandardMB()
    ensures WholeText(Options(BaseBinary, 0, "", FormatStandard), false, 1, 2) == "1MB"
  {
  }

  lemma TextIecKiB()
    ensures WholeText(Options(BaseBinary, 0, "", FormatIEC), false, 1, 1) == "1KiB"
  {
  }

  lemma TextSpaceKiB()
    ensures WholeText(Options(0, 0, " ", ""), false, 1, 1) == "1 KiB"
  {
  }

  lemma TextUnderscoreKiB()
    ensures WholeText(Options(0, 0, "_", ""), false, 1, 1) == "1_KiB"
  {
  }

  /** 1536 bytes are one and a half KiB: 15360 / 1024 is exactly 15
      tenths. */
  lemma FormatOneAndAHalf()
    ensures Format(1536) == "1.5 KiB"
  {
    TextOneFive();
    OneAndAHalfAt(1536, DefaultOptions, 15, 1, "1.5");
    TextOneAndAHalf();
  }

  /** 1500 bytes are 1.46 KiB, which rounds to 1.5 at one digit. */
  lemma FormatFifteenHundred()
    ensures Format(1500) == "1.5 KiB"
  {
    TextOneFive();
    FifteenHundredAt(1500, DefaultOptions, 15, 1, "1.5");
    TextOneAndAHalf();
  }

  lemma {:induction false} FifteenHundredAt(b: Int64, o: Options, q: nat, p: nat, num: string)
    requires b == 1500 && o.precision == p == 1 && q == 15
    requires WithDefaults(o).base == BaseBinary
    requires FixedPoint(q, p) == num
    ensures FormatWithOptions(b, o) == NumText(num, o, 1)
  {
    var den := Pow(BaseBinary, 1);
    BinarySteps();
    DivMod(b, den);
    assert b % den == 476;
    var n := b * Pow(10, p);
    assert n == 15000;
    DivMod(n, den);
    assert n / den == 14 && n % den == 664;
    assert Ladder(WithDefaults(o).base) == BaseBinary;
    FixedAt(b, o, 1, q, p, num);
  }

  /** 1536 bytes in KiB at precision p, 1 or 2: exactly 15 tenths, or 150
      hundredths. */
  lemma {:induction false} OneAndAHalfAt(b: Int64, o: Options, q: nat, p: nat, num: string)
    requires b == 1536 && o.precision == p && ((p == 1 && q == 15) || (p == 2 && q == 150))
    requires WithDefaults(o).base == BaseBinary
    requires FixedPoint(q, p) == num
    ensures FormatWithOptions(b, o) == NumText(num, o, 1)
  {
    var den := Pow(BaseBinary, 1);
    HalvesExact(b, den, q, p);
    BinarySteps();
    assert Ladder(WithDefaults(o).base) == BaseBinary;
    FixedAt(b, o, 1, q, p, num);
  }

  /** The first binary steps, and the integers float64 holds exactly. */
  lemma BinarySteps()
    ensures Pow(BaseBinary, 1) == 1024 && Pow(BaseBinary, 2) == 1048576 && Pow(BaseBinary, 3) == 1073741824
    ensures Pow(2, Float64Bits) == 0x20_0000_0000_0000
  {
    PowersOfTwo();
  }

  lemma {:induction false} HalvesExact(b: nat, den: Pos, q: nat, p: nat)
    requires b == 1536 && den == 1024 && ((p == 1 && q == 15) || (p == 2 && q == 150))
    ensures b % den != 0 && RoundHalfEven(b * Pow(10, p), den) == q
  {
    if p == 1 {
      assert Pow(10, p) == 10;
    } else {
      assert Pow(10, p) == 100;
    }
    RoundHalfEvenExact(q, den);
  }

  /** A count that float64 holds exactly, between step^k and step^(k+1),
      whose quotient rounds to q at p fractional digits. */
  lemma {:induction false} FixedAt(b: Int64, o: Options, k: nat, q: nat, p: nat, num: string)
    requires 0 < b < Pow(2, Float64Bits)
    requires var step := Ladder(WithDefaults(o).base);
             Pow(step, k) <= b < Pow(step, k + 1)
    requires var den := Pow(WithDefaults(o).base, k);
             && p == FractionDigits(b, den, o.precision)
             && RoundHalfEven(b * Pow(10, p), den) == q
    requires FixedPoint(q, p) == num
    ensures k <= MaxMagnitude && FormatWithOptions(b, o) == NumText(num, o, k)
  {
    CountAt(b, o, k);
    ToFixedPositive(b, Pow(WithDefaults(o).base, k), o.precision, q, p);
  }

  lemma {:induction false} CountAt(b: Int64, o: Options, k: nat)
    requires 0 < b < Pow(2, Float64Bits)
    requires var step := Ladder(WithDefaults(o).base);
             Pow(step, k) <= b < Pow(step, k + 1)
    ensures var d := WithDefaults(o);
            && k <= MaxMagnitude
            && FormatWithOptions(b, o) == ToFixed(b, Pow(d.base, k), d.precision) + d.separator + Unit(k, d.format, d.base)
  {
    FormatWithOptionsFloat(b, o);
    FormatFloatAt(b, o, k);
  }

  lemma {:induction false} ToFixedPositive(num: int, den: Pos, precision: nat, q: nat, p: nat)
    requires num > 0 && p == FractionDigits(num, den, precision)
    requires RoundHalfEven(num * Pow(10, p), den) == q
    ensures ToFixed(num, den, precision) == FixedPoint(q, p)
  {
  }

  function NumText(num: string, o: Options, k: nat): string
    requires k <= MaxMagnitude
  {
    var d := WithDefaults(o);
    num + d.separator + Unit(k, d.format, d.base)
  }

  lemma TextOneFive()
    ensures FixedPoint(15, 1) == "1.5"
  {
    assert Pow(10, 1) == 10;
    assert FormatNat(1) == "1";
    assert FixedDigits(5, 1) == "5";
  }

  lemma TextOneFiveZero()
    ensures FixedPoint(150, 2) == "1.50"
  {
    assert Pow(10, 2) == 100;
    assert FormatNat(1) == "1";
    assert FixedDigits(5, 1) == "5";
    assert FixedDigits(50, 2) == "50";
  }

  lemma TextOne()
    ensures FixedPoint(1, 0) == "1"
  {
  }

  lemma TextTwo()
    ensures FixedPoint(2, 0) == "2"
  {
  }

  /** 1.177 is printed as its whole part, a point and three digits. */
  lemma TextOneOneSevenSeven()
    ensures FixedPoint(1177, 3) == "1.177"
  {
    FixedPointParts(1177, 3, 1, 177);
    TextOneSevenSeven();
  }

  lemma TextOneSevenSeven()
    ensures FixedDigits(177, 3) == "177"
  {
  }

  lemma {:induction false} FixedPointParts(q: nat, p: nat, whole: nat, frac: nat)
    requires p > 0 && frac < Pow(10, p) && q == whole * Pow(10, p) + frac
    ensures FixedPoint(q, p) == FormatNat(whole) + "." + FixedDigits(frac, p)
  {
    DivModUnique(q, Pow(10, p), whole, frac);
  }

  lemma TextOneAndAHalf()
    ensures NumText("1.5", DefaultOptions, 1) == "1.5 KiB"
  {
  }

  /** The int64 extremes: MinInt64 is exactly -8 EiB, and MaxInt64 rounds
      up to 2^63 when it is converted to float64, so it prints as 8 EiB. */
  lemma FormatMinInt64()
    ensures Format(MinInt64) == "-8 EiB"
  {
    MinInt64At(MinInt64);
    TextMinusEightEiB();
  }

  lemma {:induction false} MinInt64At(b: Int64)
    requires b == MinInt64
    ensures FormatWithOptions(b, DefaultOptions) == WholeText(DefaultOptions, true, 8, 6)
  {
    EightEiB();
    WholeAt(b, DefaultOptions, true, 8, 6);
  }

  lemma FormatMaxInt64()
    ensures Format(MaxInt64) == "8 EiB"
  {
    MaxInt64At(MaxInt64);
    TextEightEiB();
  }

  lemma {:induction false} MaxInt64At(b: Int64)
    requires b == MaxInt64
    ensures FormatWithOptions(b, DefaultOptions) == WholeText(DefaultOptions, false, 8, 6)
  {
    EightEiB();
    Float64MaxInt64();
    FormatWithOptionsFloat(b, DefaultOptions);
    FormatFloatWholeUnits(Pow(2, 63), DefaultOptions, false, 8, 6);
  }

  /** So do the other counts that float64 rounds to 2^63. */
  lemma {:induction false} FormatTopCounts(b: Int64)
    requires MaxInt64 - 511 <= b
    ensures Format(b) == "8 EiB"
  {
    FormatNearMaxInt64(b, DefaultOptions);
    FormatMaxInt64();
  }

  lemma EightEiB()
    ensures Pow(2, 63) == 8 * Pow(BaseBinary, 6) == -MinInt64
  {
    Pow1024(6);
    PowersOfTwo();
  }

  // ---------------------------------------------------------------------
  // FormatWithOptions.

  /** Standard names, IEC names and the separators, for the binary base. */
  lemma StandardKB()
    ensures FormatWithOptions(1024, Options(BaseBinary, 0, "", FormatStandard)) == "1KB"
  {
    WholeAt(1024, Options(BaseBinary, 0, "", FormatStandard), false, 1, 1);
    TextStandardKB();
  }

  lemma StandardMB()
    ensures FormatWithOptions(1048576, Options(BaseBinary, 0, "", FormatStandard)) == "1MB"
  {
    WholeAt(1048576, Options(BaseBinary, 0, "", FormatStandard), false, 1, 2);
    TextStandardMB();
  }

  lemma IecKiB()
    ensures FormatWithOptions(1024, Options(BaseBinary, 0, "", FormatIEC)) == "1KiB"
  {
    WholeAt(1024, Options(BaseBinary, 0, "", FormatIEC), false, 1, 1);
    TextIecKiB();
  }

  lemma SpaceKiB()
    ensures FormatWithOptions(1024, Options(0, 0, " ", "")) == "1 KiB"
  {
    WholeAt(1024, Options(0, 0, " ", ""), false, 1, 1);
    TextSpaceKiB();
  }

  lemma UnderscoreKiB()
    ensures FormatWithOptions(1024, Options(0, 0, "_", "")) == "1_KiB"
  {
    WholeAt(1024, Options(0, 0, "_", ""), false, 1, 1);
    TextUnderscoreKiB();
  }

  /** The decimal base counts in thousands and never uses IEC names. */
  lemma FormatDecimal()
    ensures FormatWithOptions(1000, Options(BaseDecimal, 0, "", FormatStandard)) == "1KB"
    ensures FormatWithOptions(1000, Options(BaseDecimal, 0, "", FormatIEC)) == "1KB"
  {
    TextOne();
    DecimalThousandAt(1000, Options(BaseDecimal, 0, "", FormatStandard), 1, 0, "1");
    TextDecimalStandard();
    DecimalThousandAt(1000, Options(BaseDecimal, 0, "", FormatIEC), 1, 0, "1");
    TextDecimalIec();
  }

  lemma {:induction false} DecimalThousandAt(b: Int64, o: Options, q: nat, p: nat, num: string)
    requires b == 1000 && o.base == BaseDecimal && o.precision == p == 0 && q == 1
    requires FixedPoint(q, p) == num
    ensures FormatWithOptions(b, o) == NumText(num, o, 1)
  {
    RoundHalfEvenExact(q, b);
    FixedAt(b, o, 1, q, p, num);
  }

  lemma TextDecimalStandard()
    ensures NumText("1", Options(BaseDecimal, 0, "", FormatStandard), 1) == "1KB"
  {
  }

  lemma TextDecimalIec()
    ensures NumText("1", Options(BaseDecimal, 0, "", FormatIEC), 1) == "1KB"
  {
  }

  /** The precision option: half to even at precision 0 (1.5 becomes 2),
      trailing zeros kept at precision 2, and 1234567 bytes in MiB to
      three places. */
  lemma PrecisionZero()
    ensures FormatWithOptions(1536, Options(0, 0, "", "")) == "2KiB"
  {
    TextTwo();
    PrecisionZeroAt(1536, Options(0, 0, "", ""), 2, 0, "2");
    TextPrecisionZero();
  }

  lemma PrecisionTwo()
    ensures FormatWithOptions(1536, Options(0, 2, "", "")) == "1.50KiB"
  {
    TextOneFiveZero();
    OneAndAHalfAt(1536, Options(0, 2, "", ""), 150, 2, "1.50");
    TextPrecisionTwo();
  }

  lemma PrecisionThree()
    ensures FormatWithOptions(1234567, Options(0, 3, "", "")) == "1.177MiB"
  {
    TextOneOneSevenSeven();
    PrecisionThreeAt(1234567, Options(0, 3, "", ""), 1177, 3, "1.177");
    TextPrecisionThree();
  }

  /** 1536 / 1024 is 1.5, a tie, which rounds to the even 2. */
  lemma {:induction false} PrecisionZeroAt(b: Int64, o: Options, q: nat, p: nat, num: string)
    requires b == 1536 && o.precision == p == 0 && q == 2
    requires WithDefaults(o).base == BaseBinary
    requires FixedPoint(q, p) == num
    ensures FormatWithOptions(b, o) == NumText(num, o, 1)
  {
    var den := Pow(BaseBinary, 1);
    DivMod(b, den);
    assert b / den == 1 && b % den == 512;
    FixedAt(b, o, 1, q, p, num);
  }

  /** 1234567000 / 2^20 lies between 1177 and 1177.5. */
  lemma {:induction false} PrecisionThreeAt(b: Int64, o: Options, q: nat, p: nat, num: string)
    requires b == 1234567 && o.precision == p == 3 && q == 1177
    requires WithDefaults(o).base == BaseBinary
    requires FixedPoint(q, p) == num
    ensures FormatWithOptions(b, o) == NumText(num, o, 2)
  {
    var den := Pow(BaseBinary, 2);
    assert den == 1048576;
    DivMod(b, den);
    assert b % den == 185991;
    var n := b * Pow(10, p);
    assert n == 1234567000;
    DivMod(n, den);
    assert n / den == 1177 && n % den == 393048;
    PowersOfTwo();
    FixedAt(b, o, 2, q, p, num);
  }

  lemma TextPrecisionZero()
    ensures NumText("2", Options(0, 0, "", ""), 1) == "2KiB"
  {
  }

  lemma TextPrecisionTwo()
    ensures NumText("1.50", Options(0, 2, "", ""), 1) == "1.50KiB"
  {
  }

  lemma TextPrecisionThree()
    ensures NumText("1.177", Options(0, 3, "", ""), 2) == "1.177MiB"
  {
  }

  // ---------------------------------------------------------------------
  // format.go as written: its two defects.

  /** As written, Format glues the unit to the number, and every binary
      unit is named after the magnitude below it: the tests' "512 B" comes
      out as "512B" and "1 KiB" as "1 B". */
  lemma AsWritten512()
    ensures FormatAsWritten(512) == "512B"
  {
    AsWrittenBytesAt(512, DefaultOptions.(separator := ""));
    TextAsWritten512();
  }

  lemma {:induction false} AsWrittenBytesAt(b: Int64, o: Options)
    requires 0 < b < Ladder(WithDefaults(o).base)
    ensures FormatWithOptionsAsWritten(b, o) == BytesText(b, o)
  {
    var d := WithDefaults(o);
    PowMonotone(2, 10, Float64Bits);
    AsWrittenExact(b, o);
    NumeralBytes(b, o);
    FormatIntPositive(b);
    UnitAsWrittenBytes(d.format, d.base);
  }

  lemma {:induction false} FormatIntPositive(n: int)
    requires n > 0
    ensures FormatInt(n) == FormatNat(n)
  {
    assert FormatInt(n) == "" + FormatNat(n);
  }

  lemma {:induction false} UnitAsWrittenBytes(format: string, base: nat)
    ensures UnitAsWritten(0, format, base) == "B"
  {
  }

  /** A count that float64 holds exactly, rendered as written. */
  lemma {:induction false} AsWrittenExact(b: Int64, o: Options)
    requires 0 < b < Pow(2, Float64Bits)
    ensures var d := WithDefaults(o);
            && CountRange(b)
            && FormatWithOptionsAsWritten(b, o) == Numeral(b, o) + d.separator + UnitAsWritten(UnitPower(b, d.base), d.format, d.base)
  {
    Float64InRange(b);
  }

  lemma TextAsWritten512()
    ensures BytesText(512, DefaultOptions.(separator := "")) == "512B"
  {
  }

  lemma AsWrittenKiB()
    ensures FormatWithOptionsAsWritten(1024, Options(0, 0, " ", "")) == "1 B"
  {
    AsWrittenKiBAt(1024, Options(0, 0, " ", ""), 1, 1);
    TextAsWrittenKiB();
  }

  lemma {:induction false} AsWrittenKiBAt(b: Int64, o: Options, c: nat, k: nat)
    requires b == 1024 && c == 1 && k == 1 && WithDefaults(o).base == BaseBinary
    ensures FormatWithOptionsAsWritten(b, o) == FormatNat(c) + o.separator + UnitAsWritten(k, WithDefaults(o).format, BaseBinary)
  {
    assert b == Signed(false, c * Pow(BaseBinary, k));
    PowMonotone(2, 11, Float64Bits);
    AsWrittenExact(b, o);
    NumeralWholeUnits(b, o, false, c, k);
    FormatIntPositive(c);
  }

  lemma TextAsWrittenKiB()
    ensures FormatNat(1) + " " + UnitAsWritten(1, FormatIEC, BaseBinary) == "1 B"
  {
  }
}
