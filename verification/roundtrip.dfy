/** Parse reading back what Format prints. A count whose rendering is
    exact (a whole number of bytes, KiB, MiB, ... below 1024 of them)
    reads back as itself; zero does not read back, since "0 B" parses to
    zero and zero is reported as invalid input. */
module RoundTrip {
  import opened Prelude
  import opened Arith
  import opened Floats
  import opened Strconv
  import opened Units
  import opened Text
  import opened Formatter
  import opened Parser

  /** Characters upper-casing leaves alone. */
  predicate Caseless(s: string) {
    forall i :: 0 <= i < |s| ==> UpperChar(s[i]) == s[i]
  }

  /** Normalising a rendering "num unit" of Format: the number is kept,
      and the IEC name is replaced by its upper-case form, which the
      parser's scan looks for. */
  lemma {:induction false} PrepareRendering(num: string, k: nat)
    requires |num| > 0 && !IsSpace(num[0]) && Caseless(num)
    requires k <= MaxMagnitude
    ensures Prepare(num + " " + IecUnits[k]) == num + " " + UnitName(k, true)
  {
    var u := IecUnits[k];
    var r := num + " " + u;
    TablesAgree();
    assert r[|r| - 1] == 'B';
    assert r[0] == num[0];
    TrimSpaceNoop(r);
    ToUpperConcat(num + " ", u);
    ToUpperConcat(num, " ");
    ToUpperUnchanged(num);
    ToUpperUnchanged(" ");
    UpperIec(k);
  }

  /** A signed decimal integer is caseless and does not start with white
      space. */
  lemma {:induction false} IntegerText(neg: bool, c: nat)
    ensures var num := SignPrefix(neg) + FormatNat(c);
            |num| > 0 && !IsSpace(num[0]) && Caseless(num)
  {
    var num := SignPrefix(neg) + FormatNat(c);
    var digits := FormatNat(c);
    assert forall i :: 0 <= i < |digits| ==> IsDigit(digits[i]);
    assert forall i :: |SignPrefix(neg)| <= i < |num| ==> num[i] == digits[i - |SignPrefix(neg)|];
  }

  /** float32 holds every whole number below 1024 exactly. */
  lemma {:induction false} WholeExact32(neg: bool, c: nat)
    requires c < BaseBinary
    ensures Exact32(Decimal(neg, c, 0), c, 0)
  {
    PowersOfTwo();
    PowMonotone(2, 10, Float32Bits);
  }

  /** The exact parse of a whole number c at magnitude k is c * 1024^k. */
  lemma {:induction false} WholeRaw(neg: bool, c: nat, k: nat)
    ensures ExactRaw(Decimal(neg, c, 0), k) == Signed(neg, c * Pow(BaseBinary, k))
  {
    var x := c * Pow(BaseBinary, k);
    DivMod(x, 1);
  }

  /** A signed whole number, a space and an IEC name parse as the number
      times 1024^k; zero is invalid input. */
  lemma {:induction false} ParseWholeRendering(neg: bool, c: nat, k: nat)
    requires c < BaseBinary && k <= MaxMagnitude
    ensures var v := Signed(neg, c * Pow(BaseBinary, k));
            Parse(SignPrefix(neg) + FormatNat(c) + " " + IecUnits[k])
            == if v == 0 then Err(InvalidInput) else Ok(v)
  {
    var num := SignPrefix(neg) + FormatNat(c);
    IntegerText(neg, c);
    PrepareRendering(num, k);
    WholeReads(neg, c, k);
  }

  /** The normalised rendering "num UNIT" reads as c * 1024^k. */
  lemma {:induction false} WholeReads(neg: bool, c: nat, k: nat)
    requires c < BaseBinary && k <= MaxMagnitude
    ensures var v := Signed(neg, c * Pow(BaseBinary, k));
            ParsePrepared(SignPrefix(neg) + FormatNat(c) + " " + UnitName(k, true))
            == if v == 0 then Err(InvalidInput) else Ok(v)
  {
    var num := SignPrefix(neg) + FormatNat(c);
    ParseFixedPoint(neg, c, 0);
    WholeExact32(neg, c);
    WholeRaw(neg, c, k);
    ParsePreparedSized(num, " ", k, true, c, 0);
  }

  /** A whole number c of units of magnitude k, 1 <= c < 1024, reads back
      exactly: Format prints it without a fraction and Parse scales it
      back. */
  lemma {:induction false} ParseFormatWholeUnits(b: Int64, neg: bool, c: nat, k: nat)
    requires 1 <= c < BaseBinary && k <= MaxMagnitude
    requires b == Signed(neg, c * Pow(BaseBinary, k))
    ensures Parse(Format(b)) == Ok(b)
  {
    FormatWholeUnits(b, DefaultOptions, neg, c, k);
    ParseWholeRendering(neg, c, k);
  }

  /** Every non-zero count below one KiB in absolute value reads back as
      itself. */
  lemma {:induction false} ParseFormatBytes(b: Int64)
    requires 0 < Abs(b) < BaseBinary
    ensures Parse(Format(b)) == Ok(b)
  {
    ParseFormatWholeUnits(b, b < 0, Abs(b), 0);
  }

  /** Zero does not read back: Format prints "0 B", which Parse reads as
      zero bytes and reports as invalid input. */
  lemma ParseFormatZero()
    ensures Parse(Format(0)) == Err(InvalidInput)
  {
    ZeroAt(Format(0));
  }

  lemma {:induction false} ZeroAt(s: string)
    requires s == "0 B"
    ensures Parse(s) == Err(InvalidInput)
  {
    assert SignPrefix(false) == [] && FormatNat(0) == "0" && IecUnits[0] == "B";
    assert SignPrefix(false) + FormatNat(0) + " " + IecUnits[0] == s;
    ParseWholeRendering(false, 0, 0);
  }
}
