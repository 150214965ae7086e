/** parse.go: reading a size such as "1.5 GiB" back into a number of
    bytes. The input is trimmed and upper-cased; a bare integer is returned
    as it is; otherwise the unit at its end selects a power of 1024, the
    number before it is read as a float32 and scaled, and the product is
    truncated toward zero. A result of zero is reported as invalid input. */
module Parser {
  import opened Prelude
  import opened Arith
  import opened Floats
  import opened Text
  import opened Strconv
  import opened Units

  /** The two errors Parse returns: "empty input" and "invalid input". */
  datatype ParseError = EmptyInput | InvalidInput

  /** Parse's (int, error) pair: a byte count, or an error. */
  datatype ParseResult = Ok(bytes: int) | Err(error: ParseError)

  /** The normalised input: upper case, without surrounding white space. */
  function Prepare(s: string): (p: string)
    ensures |p| <= |s|
    ensures forall i :: 0 <= i < |p| ==> !('a' <= p[i] <= 'z')
    ensures p == [] <==> TrimSpace(s) == []
  {
    ToUpper(TrimSpace(s))
  }

  /** strconv.ParseFloat(s, 32) with its error dropped: the sign and the
      float32 nearest to the literal (ties to even), or +0 when s is not a
      literal. */
  function ParseFloat32(s: string): (r: (bool, Binary))
    ensures ParseFloatLiteral(s).None? ==> r.1.mantissa == 0 && !r.0
    ensures ParseFloatLiteral(s).Some? ==> r.0 == ParseFloatLiteral(s).value.negative && r.1.mantissa <= Pow(2, Float32Bits)
  {
    Round32(ParseFloatLiteral(s))
  }

  /** The float32 nearest to a literal, with its sign; +0 for no literal. */
  function Round32(lit: Option<Decimal>): (r: (bool, Binary))
    ensures lit.None? ==> r.1.mantissa == 0 && !r.0
    ensures lit.Some? ==> r.0 == lit.value.negative
  {
    match lit
    case None => (false, Binary(0, 0))
    case Some(d) => (d.negative, RoundFloat(Numerator(d), Denominator(d), Float32Bits, Float32Bias))
  }

  /** calcRawBytes: the number in front of a unit of magnitude i, read as
      a float32, times 1024^i, truncated toward zero. The product of a
      float32 and a power of two is exact in float64, so truncating the
      exact product is what the conversion to int does. */
  function CalcRawBytes(bytes: string, i: nat): (raw: int)
    ensures ParseFloatLiteral(TrimSpace(bytes)).None? ==> raw == 0
    ensures raw < 0 ==> ParseFloatLiteral(TrimSpace(bytes)).Some? && ParseFloatLiteral(TrimSpace(bytes)).value.negative
  {
    Scaled32(ParseFloat32(TrimSpace(bytes)), i)
  }

  /** A signed float32 times 1024^i, truncated toward zero: the magnitude
      of the result is the floor of mantissa * 2^(scale + 10i) / 2^149. */
  function Scaled32(x: (bool, Binary), i: nat): (raw: int)
    ensures x.1.mantissa == 0 ==> raw == 0
    ensures raw < 0 ==> x.0
    ensures Abs(raw) * Pow(2, Float32Bias) <= x.1.mantissa * Pow(2, x.1.scale + 10 * i)
            < (Abs(raw) + 1) * Pow(2, Float32Bias)
  {
    ShiftTruncBounds(x.1.mantissa, x.1.scale + 10 * i, Float32Bias);
    Signed(x.0, ShiftTrunc(x.1.mantissa, x.1.scale + 10 * i, Float32Bias))
  }

  /** The loop of Parse over the magnitudes i..6: at the first magnitude
      whose standard name or upper-case IEC name ends p, the number before
      it, scaled; 0 when none does. A non-zero result is always the number
      in front of some unit name of magnitude i..6, at that magnitude. */
  function ScanUnits(p: string, i: nat): (raw: int)
    requires i >= 1
    ensures raw != 0 ==> exists j, cut :: i <= j <= MaxMagnitude && raw == CalcRawBytes(cut, j)
                                            && (p == cut + StdUnits[j] || p == cut + UpperIecUnits[j])
    decreases MaxMagnitude + 1 - i
  {
    if i > MaxMagnitude then 0
    else match CutSuffix(p, StdUnits[i])
      case Some(cut) => CalcRawBytes(cut, i)
      case None =>
        match CutSuffix(p, UpperIecUnits[i])
        case Some(cut) => CalcRawBytes(cut, i)
        case None => ScanUnits(p, i + 1)
  }

  /** isBytes: the normalised input is a decimal int64. Such an input
      ends with a digit, so it never ends with a unit name. */
  function IsBytes(p: string): (r: bool)
    ensures r ==> |p| > 0 && IsDigit(p[|p| - 1])
  {
    ParseInt64(p).Some?
  }

  /** Parse: the input is normalised, then read by ParsePrepared. */
  function Parse(s: string): (r: ParseResult)
    ensures r == Err(EmptyInput) <==> TrimSpace(s) == []
    ensures r.Ok? && r.bytes == 0 ==> ParseInt64(Prepare(s)) == Some(0)
    ensures IsBytes(Prepare(s)) ==> r == Ok(ParseInt64(Prepare(s)).value)
  {
    ParsePrepared(Prepare(s))
  }

  /** Parse on normalised input: empty input is an error; a bare int64 is
      returned as it is; otherwise the unit scan, then a plain "B" suffix
      if the scan gave 0; and a final 0 is reported as invalid input. The
      only way to read 0 is a bare integer. */
  function ParsePrepared(p: string): (r: ParseResult)
    ensures r == Err(EmptyInput) <==> p == []
    ensures r.Ok? && r.bytes == 0 ==> ParseInt64(p) == Some(0)
    ensures IsBytes(p) ==> r == Ok(ParseInt64(p).value)
  {
    if p == [] then Err(EmptyInput)
    else if IsBytes(p) then Ok(ParseInt64(p).value)
    else
      var scanned := ScanUnits(p, 1);
      var raw :=
        match CutSuffix(p, "B")
        case Some(cut) => if scanned == 0 then CalcRawBytes(cut, 0) else scanned
        case None => scanned;
      if raw == 0 then Err(InvalidInput) else Ok(raw)
  }

  // ---------------------------------------------------------------------
  // Normalisation.

  /** Normalising twice is normalising once. */
  lemma {:induction false} PrepareIdempotent(s: string)
    ensures Prepare(Prepare(s)) == Prepare(s)
  {
    var t := TrimSpace(s);
    ToUpperTrimSpace(t);
    TrimSpaceIdempotent(s);
    ToUpperIdempotent(t);
  }

  /** Parse reads only the normalised input. */
  lemma {:induction false} ParseNormalised(s: string)
    ensures Parse(Prepare(s)) == Parse(s)
  {
    PrepareIdempotent(s);
  }

  /** Letter case does not matter: "1.5 gib", "1.5 Gb" and "1.5 GiB" mean
      what their upper-case forms mean. */
  lemma {:induction false} ParseCaseInsensitive(s: string, t: string)
    requires ToUpper(s) == ToUpper(t)
    ensures Parse(s) == Parse(t)
  {
    ToUpperTrimSpace(s);
    ToUpperTrimSpace(t);
    assert Prepare(s) == Prepare(t);
  }

  /** White space around the input does not matter. */
  lemma {:induction false} ParseSpaceInsensitive(l: string, s: string, r: string)
    requires forall i :: 0 <= i < |l| ==> IsSpace(l[i])
    requires forall i :: 0 <= i < |r| ==> IsSpace(r[i])
    ensures Parse(l + s + r) == Parse(s)
  {
    TrimSpaceSurrounded(l, s, r);
  }

  // ---------------------------------------------------------------------
  // The unit scan.

  /** The unit name of magnitude i the parser looks for, in either
      spelling. */
  function UnitName(i: nat, iec: bool): string
    requires i <= MaxMagnitude
  {
    if iec then UpperIecUnits[i] else StdUnits[i]
  }

  /** Whichever unit name of magnitude i ends p, the scan reads the number
      before it at that magnitude: no other name the scan tries can end p
      as well, so the order of the scan does not matter. */
  lemma {:induction false} ScanFinds(p: string, cut: string, i: nat, iec: bool)
    requires 1 <= i <= MaxMagnitude && p == cut + UnitName(i, iec)
    ensures ScanUnits(p, 1) == CalcRawBytes(cut, i)
  {
    ScanFrom(p, cut, i, iec, 1);
  }

  lemma {:induction false} ScanFrom(p: string, cut: string, i: nat, iec: bool, j: nat)
    requires 1 <= j <= i <= MaxMagnitude && p == cut + UnitName(i, iec)
    ensures ScanUnits(p, j) == CalcRawBytes(cut, i)
    decreases i - j
  {
    if j < i {
      NoOtherUnit(p, cut, i, iec, j);
      ScanStep(p, j);
      ScanFrom(p, cut, i, iec, j + 1);
    } else {
      ScanHit(p, cut, i, iec);
    }
  }

  /** Names of other magnitudes do not end a string ending with the name
      of magnitude i. */
  lemma {:induction false} NoOtherUnit(p: string, cut: string, i: nat, iec: bool, j: nat)
    requires 1 <= i <= MaxMagnitude && 1 <= j <= MaxMagnitude && i != j
    requires p == cut + UnitName(i, iec)
    ensures !HasSuffix(p, StdUnits[j]) && !HasSuffix(p, UpperIecUnits[j])
  {
    var u := UnitName(i, iec);
    SuffixOfConcat(cut, u);
    SuffixFree(i, j);
    SuffixFree(j, i);
    NotAlsoSuffix(p, u, StdUnits[j]);
    NotAlsoSuffix(p, u, UpperIecUnits[j]);
  }

  /** A magnitude neither of whose names ends p is skipped. */
  lemma {:induction false} ScanStep(p: string, j: nat)
    requires 1 <= j <= MaxMagnitude
    requires !HasSuffix(p, StdUnits[j]) && !HasSuffix(p, UpperIecUnits[j])
    ensures ScanUnits(p, j) == ScanUnits(p, j + 1)
  {
  }

  /** At magnitude i, the name of magnitude i that ends p is found. */
  lemma {:induction false} ScanHit(p: string, cut: string, i: nat, iec: bool)
    requires 1 <= i <= MaxMagnitude && p == cut + UnitName(i, iec)
    ensures ScanUnits(p, i) == CalcRawBytes(cut, i)
  {
    var u := UnitName(i, iec);
    SuffixOfConcat(cut, u);
    if iec {
      SuffixFree(i, i);
      NotAlsoSuffix(p, u, StdUnits[i]);
      assert CutSuffix(p, StdUnits[i]) == None;
    }
    assert CutSuffix(p, u) == Some(cut);
  }

  /** Two names that both end p: the shorter ends the longer. So names
      neither of which ends the other cannot both end p. */
  lemma {:induction false} NotAlsoSuffix(p: string, u: string, v: string)
    requires HasSuffix(p, u)
    ensures HasSuffix(p, v) ==> HasSuffix(u, v) || HasSuffix(v, u)
  {
    if HasSuffix(p, v) {
      if |v| <= |u| {
        assert u[|u| - |v|..] == p[|p| - |v|..];
      } else {
        assert v[|v| - |u|..] == p[|p| - |u|..];
      }
    }
  }

  /** When no unit name of magnitude 1 to 6 ends p, the scan reads 0. */
  lemma {:induction false} ScanMisses(p: string, j: nat)
    requires j >= 1
    requires forall i :: 1 <= i <= MaxMagnitude ==> !HasSuffix(p, StdUnits[i]) && !HasSuffix(p, UpperIecUnits[i])
    ensures ScanUnits(p, j) == 0
    decreases MaxMagnitude + 1 - j
  {
    if j <= MaxMagnitude {
      ScanMisses(p, j + 1);
    }
  }

  // ---------------------------------------------------------------------
  // Reading the number.

  /** float32 holds the value of d exactly: |d| == m0 / 2^e with a 24-bit
      m0 and e no larger than the exponent of the smallest subnormal. */
  predicate Exact32(d: Decimal, m0: nat, e: nat) {
    && e <= Float32Bias && m0 < Pow(2, Float32Bits)
    && Numerator(d) * Pow(2, e) == m0 * Denominator(d)
  }

  /** For a number float32 holds exactly, calcRawBytes is the number times
      1024^i truncated toward zero: the float32 rounding loses nothing. */
  lemma {:induction false} CalcRawBytesExact(bytes: string, i: nat, m0: nat, e: nat)
    requires ParseFloatLiteral(TrimSpace(bytes)).Some?
    requires Exact32(ParseFloatLiteral(TrimSpace(bytes)).value, m0, e)
    ensures CalcRawBytes(bytes, i) == ExactRaw(ParseFloatLiteral(TrimSpace(bytes)).value, i)
  {
    Round32Exact(ParseFloatLiteral(TrimSpace(bytes)).value, i, m0, e);
  }

  /** The same, stated on the literal's value. */
  lemma {:induction false} Round32Exact(d: Decimal, i: nat, m0: nat, e: nat)
    requires Exact32(d, m0, e)
    ensures Scaled32(Round32(Some(d)), i) == ExactRaw(d, i)
  {
    RoundedExact(Numerator(d), Denominator(d), Float32Bits, Float32Bias, m0, e, i);
  }

  /** n / den == m0 / 2^e is n / den == m0 * 2^(bias - e) / 2^bias. */
  lemma {:induction false} ExactShift(n: nat, den: Pos, m0: nat, e: nat, bias: nat)
    requires e <= bias && n * Pow(2, e) == m0 * den
    ensures n * Pow(2, bias) == m0 * Pow(2, bias - e) * den
  {
    var P, Q := Pow(2, e), Pow(2, bias - e);
    PowAdd(2, e, bias - e);
    MulAssoc(n, P, Q);
    assert n * Pow(2, bias) == (m0 * den) * Q;
    MulAssoc(m0, den, Q);
    MulAssoc(m0, Q, den);
    assert den * Q == Q * den;
  }

  /** Rounding n / den to p bits and scaling by 1024^i loses nothing when
      n / den == m0 / 2^e with m0 < 2^p and e <= bias. */
  lemma {:induction false} RoundedExact(n: nat, den: Pos, p: Pos, bias: nat, m0: nat, e: nat, i: nat)
    requires e <= bias && m0 < Pow(2, p) && n * Pow(2, e) == m0 * den
    ensures var f := RoundFloat(n, den, p, bias);
            ShiftTrunc(f.mantissa, f.scale + 10 * i, bias) == ScaledTrunc(n, den, i)
  {
    var f := RoundFloat(n, den, p, bias);
    var t := bias - e;
    ExactShift(n, den, m0, e, bias);
    RoundFloatExact(n, den, p, bias, m0, t);
    TruncExact(f.mantissa, f.scale, bias, m0, t, n, den, i);
  }

  /** The value m * 2^sc / 2^bias equals n / den (both equal
      m0 * 2^t / 2^bias),
      so truncating it scaled by 1024^i gives the same as truncating
      n * 1024^i / den. */
  lemma {:induction false} TruncExact(m: nat, sc: nat, bias: nat, m0: nat, t: nat, n: nat, den: Pos, i: nat)
    requires m * Pow(2, sc) == m0 * Pow(2, t) && n * Pow(2, bias) == m0 * Pow(2, t) * den
    ensures ShiftTrunc(m, sc + 10 * i, bias) == ScaledTrunc(n, den, i)
  {
    TruncOfRatio(m, sc, bias, m0 * Pow(2, t), n, den, i);
  }

  lemma {:induction false} TruncOfRatio(m: nat, sc: nat, bias: nat, X: nat, n: nat, den: Pos, i: nat)
    requires m * Pow(2, sc) == X && n * Pow(2, bias) == X * den
    ensures ShiftTrunc(m, sc + 10 * i, bias) == ScaledTrunc(n, den, i)
  {
    var e := sc + 10 * i;
    ShiftTruncBounds(m, e, bias);
    var r := ShiftTrunc(m, e, bias);
    ScaledValue(m, sc, i, X);
    FloorTransfer(n, den, X, Pow(BaseBinary, i), Pow(2, bias), r);
  }

  /** n / den times 1024^i, truncated toward zero. */
  function ScaledTrunc(n: nat, den: Pos, i: nat): nat {
    var x := n * Pow(BaseBinary, i);
    DivMod(x, den);
    x / den
  }

  /** m * 2^(s + 10i) == (m * 2^s) * 1024^i. */
  lemma {:induction false} ScaledValue(m: nat, s: nat, i: nat, X: nat)
    requires m * Pow(2, s) == X
    ensures m * Pow(2, s + 10 * i) == X * Pow(BaseBinary, i)
  {
    PowAdd(2, s, 10 * i);
    Pow1024(i);
    MulAssoc(m, Pow(2, s), Pow(2, 10 * i));
  }

  // ---------------------------------------------------------------------
  // Reading a number followed by a unit.

  /** Every unit name ends with 'B'; past the plain byte the character
      before it is a letter. */
  lemma {:induction false} UnitNameShape(k: nat, iec: bool)
    requires k <= MaxMagnitude
    ensures var u := UnitName(k, iec);
            |u| >= 1 && u[|u| - 1] == 'B'
            && (k == 0 ==> u == "B")
            && (k >= 1 ==> |u| >= 2 && 'A' <= u[|u| - 2] <= 'Z')
  {
    UpperTableShapes();
    TablesAgree();
  }

  /** Text that neither starts nor ends with white space, followed by
      white space, trims to itself. */
  lemma {:induction false} LiteralTrimmed(num: string, sep: string)
    requires |num| > 0 && !IsSpace(num[0]) && !IsSpace(num[|num| - 1])
    requires forall i :: 0 <= i < |sep| ==> IsSpace(sep[i])
    ensures TrimSpace(num + sep) == num
  {
    assert [] + num + sep == num + sep;
    TrimSpaceSurrounded([], num, sep);
    TrimSpaceNoop(num);
  }

  /** A float literal neither starts nor ends with white space, and its
      last character is a digit or a point. */
  lemma {:induction false} LiteralEnds(num: string)
    requires ParseFloatLiteral(num).Some?
    ensures |num| > 0 && !IsSpace(num[0]) && !IsSpace(num[|num| - 1])
    ensures IsDigit(num[|num| - 1]) || num[|num| - 1] == '.'
  {
    ParseFloatLiteralShape(num);
    var c := num[0];
    assert IsDigit(c) || c == '+' || c == '-' || c == '.';
  }

  /** Text that starts like a literal but ends with a letter is not a
      number: calcRawBytes reads 0 from it. */
  lemma {:induction false} EndsWithLetter(cut: string)
    requires |cut| > 0 && !IsSpace(cut[0]) && 'A' <= cut[|cut| - 1] <= 'Z'
    ensures CalcRawBytes(cut, 0) == 0
  {
    TrimSpaceNoop(cut);
    if ParseFloatLiteral(cut).Some? {
      ParseFloatLiteralShape(cut);
    }
  }

  /** When the character before the final 'B' is white space, a digit or
      a point, no unit name of magnitude 1 to 6 ends p. */
  lemma {:induction false} OnlyBytesUnit(p: string)
    requires |p| >= 2 && p[|p| - 1] == 'B'
    requires IsSpace(p[|p| - 2]) || IsDigit(p[|p| - 2]) || p[|p| - 2] == '.'
    ensures forall i :: 1 <= i <= MaxMagnitude ==> !HasSuffix(p, StdUnits[i]) && !HasSuffix(p, UpperIecUnits[i])
  {
    UpperTableShapes();
  }

  /** The value calcRawBytes gives for a literal d at magnitude k when
      float32 holds d exactly: |d| * 1024^k truncated toward zero, with the
      sign of d. */
  function ExactRaw(d: Decimal, k: nat): int {
    Signed(d.negative, ScaledTrunc(Numerator(d), Denominator(d), k))
  }

  /** A number, white space and the name of magnitude k (either
      spelling; "B" for k == 0) parse as the number times 1024^k, truncated
      toward zero, when float32 holds the number exactly; a product of 0 is
      invalid input. */
  lemma {:induction false} ParsePreparedSized(num: string, sep: string, k: nat, iec: bool, m0: nat, t: nat)
    requires k <= MaxMagnitude
    requires forall i :: 0 <= i < |sep| ==> IsSpace(sep[i])
    requires ParseFloatLiteral(num).Some? && Exact32(ParseFloatLiteral(num).value, m0, t)
    ensures var raw := ExactRaw(ParseFloatLiteral(num).value, k);
            ParsePrepared(num + sep + UnitName(k, iec)) == if raw == 0 then Err(InvalidInput) else Ok(raw)
  {
    var cut := num + sep;
    CutReads(num, sep, k, m0, t);
    if k >= 1 {
      SizedUnit(cut + UnitName(k, iec), cut, k, iec);
    } else {
      SizedBytes(cut + UnitName(k, iec), cut);
    }
  }

  /** What precedes the unit name: it starts like a literal, ends with
      white space, a digit or a point, and calcRawBytes reads the exact
      value of the literal from it. */
  lemma {:induction false} CutReads(num: string, sep: string, k: nat, m0: nat, t: nat)
    requires forall i :: 0 <= i < |sep| ==> IsSpace(sep[i])
    requires ParseFloatLiteral(num).Some? && Exact32(ParseFloatLiteral(num).value, m0, t)
    ensures var cut := num + sep;
            && |cut| > 0 && !IsSpace(cut[0])
            && (IsSpace(cut[|cut| - 1]) || IsDigit(cut[|cut| - 1]) || cut[|cut| - 1] == '.')
            && CalcRawBytes(cut, k) == ExactRaw(ParseFloatLiteral(num).value, k)
  {
    var cut := num + sep;
    LiteralEnds(num);
    LiteralTrimmed(num, sep);
    CalcRawBytesExact(cut, k, m0, t);
    assert cut[0] == num[0];
    assert cut[|cut| - 1] == if |sep| > 0 then sep[|sep| - 1] else num[|num| - 1];
  }

  /** Text ending with 'B' is neither empty nor a bare integer. */
  lemma {:induction false} NotBytes(p: string)
    requires |p| > 0 && p[|p| - 1] == 'B'
    ensures p != [] && !IsBytes(p)
  {
  }

  /** Text ending with the name of magnitude k >= 1 is read by the unit
      scan; a result of 0 is not rescued by the "B" fallback, since what
      precedes the final 'B' ends with a letter. */
  lemma {:induction false} SizedUnit(p: string, cut: string, k: nat, iec: bool)
    requires 1 <= k <= MaxMagnitude && p == cut + UnitName(k, iec)
    requires |cut| > 0 && !IsSpace(cut[0])
    ensures var raw := CalcRawBytes(cut, k);
            ParsePrepared(p) == if raw == 0 then Err(InvalidInput) else Ok(raw)
  {
    UnitFound(p, cut, k, iec);
    ScanFinds(p, cut, k, iec);
    if CalcRawBytes(cut, k) == 0 {
      FallbackFails(p, cut, k, iec);
    }
  }

  /** Text ending with a unit name ends with 'B', so it is neither empty
      nor a bare integer, and the "B" fallback would cut that letter. */
  lemma {:induction false} UnitFound(p: string, cut: string, k: nat, iec: bool)
    requires k <= MaxMagnitude && p == cut + UnitName(k, iec)
    ensures |p| > 0 && p != [] && !IsBytes(p) && CutSuffix(p, "B") == Some(p[..|p| - 1])
  {
    var u := UnitName(k, iec);
    UnitNameShape(k, iec);
    SuffixOfConcat(cut, u);
    assert p[|p| - 1] == 'B';
    NotBytes(p);
  }

  /** Cutting the final 'B' from a name of magnitude 1 to 6 leaves a
      letter at the end, which is not a number. */
  lemma {:induction false} FallbackFails(p: string, cut: string, k: nat, iec: bool)
    requires 1 <= k <= MaxMagnitude && p == cut + UnitName(k, iec)
    requires |cut| > 0 && !IsSpace(cut[0])
    ensures CalcRawBytes(p[..|p| - 1], 0) == 0
  {
    var u := UnitName(k, iec);
    UnitNameShape(k, iec);
    var cutB := p[..|p| - 1];
    assert cutB[|cutB| - 1] == u[|u| - 2] && cutB[0] == cut[0];
    EndsWithLetter(cutB);
  }

  /** Text ending with a plain "B" after white space, a digit or a point
      is read by the "B" fallback. */
  lemma {:induction false} SizedBytes(p: string, cut: string)
    requires p == cut + "B" && |cut| > 0
    requires IsSpace(cut[|cut| - 1]) || IsDigit(cut[|cut| - 1]) || cut[|cut| - 1] == '.'
    ensures var raw := CalcRawBytes(cut, 0);
            ParsePrepared(p) == if raw == 0 then Err(InvalidInput) else Ok(raw)
  {
    SuffixOfConcat(cut, "B");
    NotBytes(p);
    OnlyBytesUnit(p);
    ScanMisses(p, 1);
    assert CutSuffix(p, "B") == Some(cut);
  }

  // ---------------------------------------------------------------------
  // Invalid input.

  /** Text that is not a bare integer and does not end with 'B' names no
      unit at all: it is invalid input. */
  lemma {:induction false} ParsePreparedNoUnit(p: string)
    requires p != [] && !IsBytes(p) && p[|p| - 1] != 'B'
    ensures ParsePrepared(p) == Err(InvalidInput)
  {
    NoNameEnds(p);
    ScanMisses(p, 1);
  }

  /** Every unit name ends with 'B', so none ends text that does not. */
  lemma {:induction false} NoNameEnds(p: string)
    requires |p| > 0 && p[|p| - 1] != 'B'
    ensures forall i :: 1 <= i <= MaxMagnitude ==> !HasSuffix(p, StdUnits[i]) && !HasSuffix(p, UpperIecUnits[i])
  {
    UpperTableShapes();
    TablesAgree();
  }

  /** Text ending with a letter and 'B', where the letter is neither a
      prefix letter of the tables nor the 'I' of an IEC name, names an
      unknown unit: it is invalid input. */
  lemma {:induction false} ParsePreparedUnknownUnit(p: string, cut: string)
    requires p == cut + "B" && |cut| > 0 && !IsSpace(cut[0])
    requires 'A' <= cut[|cut| - 1] <= 'Z' && cut[|cut| - 1] != 'I'
    requires forall i :: 1 <= i <= MaxMagnitude ==> cut[|cut| - 1] != StdUnits[i][0]
    ensures ParsePrepared(p) == Err(InvalidInput)
  {
    SuffixOfConcat(cut, "B");
    NotBytes(p);
    assert p[|p| - 2] == cut[|cut| - 1];
    NoOtherLetter(p);
    ScanMisses(p, 1);
    assert CutSuffix(p, "B") == Some(cut);
    EndsWithLetter(cut);
  }

  /** No unit name ends text whose next-to-last character is neither a
      prefix letter nor 'I'. */
  lemma {:induction false} NoOtherLetter(p: string)
    requires |p| >= 2 && p[|p| - 2] != 'I'
    requires forall i :: 1 <= i <= MaxMagnitude ==> p[|p| - 2] != StdUnits[i][0]
    ensures forall i :: 1 <= i <= MaxMagnitude ==> !HasSuffix(p, StdUnits[i]) && !HasSuffix(p, UpperIecUnits[i])
  {
    UpperTableShapes();
  }
}
