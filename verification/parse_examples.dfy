/** The readings parse_test.go expects, derived from the model.

    A literal input is first normalised (PrepareText), then read through
    the general lemmas of the parser: ParsePreparedSized for a number and
    a unit, the bare-integer case of Parse, and the two invalid-input
    lemmas. The lemmas about "1.5" and whole numbers supply the float32
    facts those lemmas need. */
module ParseExamples {
  import opened Prelude
  import opened Arith
  import opened Floats
  import opened Strconv
  import opened Units
  import opened Text
  import opened Formatter
  import opened Parser
  import opened RoundTrip
  import opened FormatExamples

  // ---------------------------------------------------------------------
  // A number and a unit.

  /** IEC names, in the test's spelling. */
  lemma ParseGiB()
    ensures Parse("1.5 GiB") == Ok(1610612736)
  {
    GiBText("1.5 GiB");
  }

  lemma {:induction false} GiBText(s: string)
    requires s == "1.5 GiB"
    ensures Parse(s) == Ok(1610612736)
  {
    PrepareText(s, "1.5 GIB");
    OneAndAHalfGiB(s, true);
  }

  lemma ParseMiB()
    ensures Parse("100 MiB") == Ok(104857600)
  {
    MiBText("100 MiB");
  }

  lemma {:induction false} MiBText(s: string)
    requires s == "100 MiB"
    ensures Parse(s) == Ok(104857600)
  {
    PrepareText(s, "100 MIB");
    BinarySteps();
    HundredAt(s, 2, true, 104857600);
  }

  lemma ParseKiB()
    ensures Parse("1 KiB") == Ok(1024)
  {
    KiBText("1 KiB");
  }

  lemma {:induction false} KiBText(s: string)
    requires s == "1 KiB"
    ensures Parse(s) == Ok(1024)
  {
    PrepareText(s, "1 KIB");
    DigitsOne();
    BinarySteps();
    WholeNumberAt(s, "1", 1, 1, true, 1024);
  }

  /** Standard names: "KB" and the rest are read as powers of 1024 too. */
  lemma ParseGB()
    ensures Parse("1.5 GB") == Ok(1610612736)
  {
    GBText("1.5 GB");
  }

  lemma {:induction false} GBText(s: string)
    requires s == "1.5 GB"
    ensures Parse(s) == Ok(1610612736)
  {
    PrepareText(s, s);
    OneAndAHalfGiB(s, false);
  }

  lemma ParseMB()
    ensures Parse("100 MB") == Ok(104857600)
  {
    MBText("100 MB");
  }

  lemma {:induction false} MBText(s: string)
    requires s == "100 MB"
    ensures Parse(s) == Ok(104857600)
  {
    PrepareText(s, s);
    BinarySteps();
    HundredAt(s, 2, false, 104857600);
  }

  lemma ParsePB()
    ensures Parse("100 PB") == Ok(112589990684262400)
  {
    PBText("100 PB");
  }

  lemma {:induction false} PBText(s: string)
    requires s == "100 PB"
    ensures Parse(s) == Ok(112589990684262400)
  {
    PrepareText(s, s);
    PetaAt(s, 112589990684262400);
  }

  /** 2^50 bytes in a PB. */
  lemma {:induction false} PetaAt(s: string, v: int)
    requires Prepare(s) == "100" + " " + UnitName(5, false)
    requires v == 112589990684262400
    ensures Parse(s) == Ok(v)
  {
    Pow1024(5);
    PowersOfTwo();
    HundredAt(s, 5, false, v);
  }

  /** Letter case does not matter. */
  lemma ParseLowerGiB()
    ensures Parse("1.5 gib") == Ok(1610612736)
  {
    LowerGiBText("1.5 gib");
  }

  lemma {:induction false} LowerGiBText(s: string)
    requires s == "1.5 gib"
    ensures Parse(s) == Ok(1610612736)
  {
    PrepareText(s, "1.5 GIB");
    OneAndAHalfGiB(s, true);
  }

  lemma ParseMixedGB()
    ensures Parse("1.5 Gb") == Ok(1610612736)
  {
    MixedGBText("1.5 Gb");
  }

  lemma {:induction false} MixedGBText(s: string)
    requires s == "1.5 Gb"
    ensures Parse(s) == Ok(1610612736)
  {
    PrepareText(s, "1.5 GB");
    OneAndAHalfGiB(s, false);
  }

  /** Surrounding white space does not matter. */
  lemma ParseSurrounded()
    ensures Parse("  1.5 GiB  ") == Ok(1610612736)
  {
    SurroundedAt("  1.5 GiB  ", "  ", "1.5 GiB", "  ");
    ParseGiB();
  }

  lemma {:induction false} SurroundedAt(s: string, l: string, m: string, r: string)
    requires s == l + m + r
    requires forall i :: 0 <= i < |l| ==> IsSpace(l[i])
    requires forall i :: 0 <= i < |r| ==> IsSpace(r[i])
    ensures Parse(s) == Parse(m)
  {
    ParseSpaceInsensitive(l, m, r);
  }

  /** A bare integer is a number of bytes. */
  lemma ParseBareInteger()
    ensures Parse("2048") == Ok(2048)
  {
    BareIntegerText("2048");
  }

  lemma {:induction false} BareIntegerText(s: string)
    requires s == "2048"
    ensures Parse(s) == Ok(2048)
  {
    PrepareText(s, s);
    BareAt(s, 2048);
  }

  lemma {:induction false} BareAt(s: string, v: Int64)
    requires Prepare(s) == "2048" && v == 2048
    ensures Parse(s) == Ok(v)
  {
    DigitsTwoThousandFortyEight();
    ParseInt64Accepts(false, "2048");
    assert SignPrefix(false) + "2048" == "2048";
  }

  /** Empty input, text that names no unit, and an unknown unit. */
  lemma ParseEmpty()
    ensures Parse("") == Err(EmptyInput)
  {
  }

  lemma ParseSymbols()
    ensures Parse("%^^&") == Err(InvalidInput)
  {
    SymbolsText("%^^&");
  }

  lemma {:induction false} SymbolsText(s: string)
    requires s == "%^^&"
    ensures Parse(s) == Err(InvalidInput)
  {
    PrepareText(s, s);
    NoUnitAt(s);
  }

  lemma {:induction false} NoUnitAt(p: string)
    requires p == "%^^&"
    ensures ParsePrepared(p) == Err(InvalidInput)
  {
    assert !IsDigit(p[|p| - 1]);
    ParsePreparedNoUnit(p);
  }

  lemma ParseUnknownUnit()
    ensures Parse("1.5 XB") == Err(InvalidInput)
  {
    UnknownUnitText("1.5 XB");
  }

  lemma {:induction false} UnknownUnitText(s: string)
    requires s == "1.5 XB"
    ensures Parse(s) == Err(InvalidInput)
  {
    PrepareText(s, s);
    UnknownUnitAt(s, "1.5 X");
  }

  lemma {:induction false} UnknownUnitAt(p: string, cut: string)
    requires p == "1.5 XB" && cut == "1.5 X"
    ensures ParsePrepared(p) == Err(InvalidInput)
  {
    UpperTableShapes();
    assert p == cut + "B";
    assert forall i :: 1 <= i <= MaxMagnitude ==> StdUnits[i][0] in "KMGTPE";
    ParsePreparedUnknownUnit(p, cut);
  }

  /** Format(1500) is "1.5 KiB", which reads back as 1536, not 1500: one
      fractional digit loses the difference. */
  lemma ParseReversible()
    ensures Format(1500) == "1.5 KiB"
    ensures Parse(Format(1500)) == Ok(1536)
  {
    FormatFifteenHundred();
    ParseOneAndAHalfKiB();
  }

  lemma ParseOneAndAHalfKiB()
    ensures Parse("1.5 KiB") == Ok(1536)
  {
    OneAndAHalfKiBText("1.5 KiB");
  }

  lemma {:induction false} OneAndAHalfKiBText(s: string)
    requires s == "1.5 KiB"
    ensures Parse(s) == Ok(1536)
  {
    PrepareText(s, "1.5 KIB");
    BinarySteps();
    OneAndAHalfAt(s, 1, true, 1536);
  }

  // ---------------------------------------------------------------------
  // The steps.

  /** Normalising a literal that neither starts nor ends with white space:
      its upper-case form. */
  lemma {:induction false} PrepareText(s: string, u: string)
    requires s == [] || (!IsSpace(s[0]) && !IsSpace(s[|s| - 1]))
    requires |s| == |u| && forall i :: 0 <= i < |s| ==> UpperChar(s[i]) == u[i]
    ensures Prepare(s) == u
  {
    TrimSpaceNoop(s);
  }

  /** Input normalised to a number, a space and the name of magnitude k
      reads as the exact product v, when it is not zero. */
  lemma {:induction false} SizedAt(s: string, num: string, d: Decimal, k: nat, iec: bool, m0: nat, e: nat, v: int)
    requires k <= MaxMagnitude && Prepare(s) == num + " " + UnitName(k, iec)
    requires ParseFloatLiteral(num) == Some(d) && Exact32(d, m0, e)
    requires ExactRaw(d, k) == v && v != 0
    ensures Parse(s) == Ok(v)
  {
    ParsePreparedSized(num, " ", k, iec, m0, e);
  }

  /** "1.5" with the name of magnitude k. */
  lemma {:induction false} OneAndAHalfAt(s: string, k: nat, iec: bool, v: int)
    requires 1 <= k <= 3 && Prepare(s) == "1.5" + " " + UnitName(k, iec)
    requires v == 15 * Pow(BaseBinary, k) / 10
    ensures Parse(s) == Ok(v)
  {
    OneAndAHalfNumber();
    OneAndAHalfRaw(k, v);
    SizedAt(s, "1.5", Decimal(false, 15, -1), k, iec, 3, 1, v);
  }

  /** 1.5 GiB or GB. */
  lemma {:induction false} OneAndAHalfGiB(s: string, iec: bool)
    requires Prepare(s) == "1.5" + " " + UnitName(3, iec)
    ensures Parse(s) == Ok(1610612736)
  {
    BinarySteps();
    OneAndAHalfAt(s, 3, iec, 1610612736);
  }

  /** "1.5" is 15 * 10^-1, which float32 holds exactly as 3 * 2^-1. */
  lemma OneAndAHalfNumber()
    ensures ParseFloatLiteral("1.5") == Some(Decimal(false, 15, -1))
    ensures Exact32(Decimal(false, 15, -1), 3, 1)
  {
    ParseFixedPoint(false, 15, 1);
    TextOneFive();
    assert SignPrefix(false) + FixedPoint(15, 1) == "1.5";
    PowersOfTwo();
    PowMonotone(2, 10, Float32Bits);
  }

  /** 1.5 scaled by 1024^k, for k from 1 to 3. */
  lemma {:induction false} OneAndAHalfRaw(k: nat, v: int)
    requires 1 <= k <= 3 && v == 15 * Pow(BaseBinary, k) / 10
    ensures ExactRaw(Decimal(false, 15, -1), k) == v
  {
    BinarySteps();
  }

  /** A whole number c below 1024, written as the digits num, with the
      name of magnitude k. */
  lemma {:induction false} WholeNumberAt(s: string, num: string, c: nat, k: nat, iec: bool, v: int)
    requires 1 <= c < BaseBinary && k <= MaxMagnitude
    requires |num| > 0 && AllDigits(num) && DigitsValue(num) == c
    requires Prepare(s) == num + " " + UnitName(k, iec)
    requires v == c * Pow(BaseBinary, k)
    ensures Parse(s) == Ok(v)
  {
    DigitsLiteral(num);
    WholeExact32(false, c);
    WholeRaw(false, c, k);
    MulStrictLeft(Pow(BaseBinary, k), 0, c);
    SizedAt(s, num, Decimal(false, c, 0), k, iec, c, 0, v);
  }

  /** Decimal digits read as a float literal: the whole number they
      spell. */
  lemma {:induction false} DigitsLiteral(num: string)
    requires |num| > 0 && AllDigits(num)
    ensures ParseFloatLiteral(num) == Some(Decimal(false, DigitsValue(num), 0))
  {
    ParseWhole(num);
    ParseSigned(false, num);
    assert SignPrefix(false) + num == num;
  }

  /** "100" with the name of magnitude k. */
  lemma {:induction false} HundredAt(s: string, k: nat, iec: bool, v: int)
    requires k <= MaxMagnitude && Prepare(s) == "100" + " " + UnitName(k, iec)
    requires v == 100 * Pow(BaseBinary, k)
    ensures Parse(s) == Ok(v)
  {
    DigitsHundred();
    WholeNumberAt(s, "100", 100, k, iec, v);
  }

  lemma DigitsOne()
    ensures AllDigits("1") && DigitsValue("1") == 1
  {
    assert "1"[..0] == [];
  }

  lemma DigitsHundred()
    ensures AllDigits("100") && DigitsValue("100") == 100
  {
    assert "100"[..2] == "10" && "10"[..1] == "1" && "1"[..0] == [];
  }

  lemma DigitsTwoThousandFortyEight()
    ensures AllDigits("2048") && DigitsValue("2048") == 2048
  {
    assert "2048"[..3] == "204" && "204"[..2] == "20" && "20"[..1] == "2" && "2"[..0] == [];
  }
}
