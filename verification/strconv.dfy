/** Decimal text: the digit rendering of fmt's %d and %.Nf verbs, and the
    literal syntax accepted by strconv.ParseInt(s, 10, 64) and by
    strconv.ParseFloat (decimal form). Values are exact: a float literal is
    read as a Decimal, mantissa * 10^exponent, and rounding to a binary
    format is left to the caller. */
module Strconv {
  import opened Prelude
  import opened Arith

  predicate IsDigit(c: char) {
    '0' <= c <= '9'
  }

  predicate AllDigits(s: string) {
    forall i :: 0 <= i < |s| ==> IsDigit(s[i])
  }

  function DigitValue(c: char): (d: nat)
    requires IsDigit(c)
    ensures d < 10
  {
    c as int - '0' as int
  }

  function DigitChar(d: nat): (c: char)
    requires d < 10
    ensures IsDigit(c) && DigitValue(c) == d
  {
    ('0' as int + d) as char
  }

  /** The value of a string of decimal digits, most significant first
      (leading zeros allowed). */
  function DigitsValue(s: string): nat
    requires AllDigits(s)
  {
    if s == [] then 0 else 10 * DigitsValue(s[..|s| - 1]) + DigitValue(s[|s| - 1])
  }

  /** Reading the digits of a + b: a's value shifted by the length of b. */
  lemma {:induction false} DigitsValueAppend(a: string, b: string)
    requires AllDigits(a) && AllDigits(b)
    ensures AllDigits(a + b)
    ensures DigitsValue(a + b) == DigitsValue(a) * Pow(10, |b|) + DigitsValue(b)
  {
    if b == [] {
      assert a + b == a;
    } else {
      var b' := b[..|b| - 1];
      var ab := a + b;
      assert ab[..|ab| - 1] == a + b';
      DigitsValueAppend(a, b');
      assert DigitsValue(ab) == 10 * DigitsValue(a + b') + DigitValue(b[|b| - 1]);
      var x, y := DigitsValue(a), Pow(10, |b'|);
      assert Pow(10, |b|) == 10 * y;
      MulSwap(10, x, y);
    }
  }

  /** The decimal digits of n, without leading zeros. */
  function FormatNat(n: nat): (r: string)
    ensures |r| >= 1 && AllDigits(r) && DigitsValue(r) == n
    ensures r[0] == '0' ==> n == 0 && r == "0"
  {
    if n < 10 then [DigitChar(n)]
    else
      var r := FormatNat(n / 10) + [DigitChar(n % 10)];
      assert r[..|r| - 1] == FormatNat(n / 10);
      r
  }

  /** Exactly p decimal digits of v, with leading zeros: the fractional
      part of a fixed-point rendering. */
  function FixedDigits(v: nat, p: nat): (r: string)
    requires v < Pow(10, p)
    ensures |r| == p && AllDigits(r) && DigitsValue(r) == v
  {
    if p == 0 then []
    else
      DivLessPow(v, p);
      var r := FixedDigits(v / 10, p - 1) + [DigitChar(v % 10)];
      assert r[..|r| - 1] == FixedDigits(v / 10, p - 1);
      r
  }

  lemma {:induction false} DivLessPow(v: nat, p: nat)
    requires p >= 1 && v < Pow(10, p)
    ensures v / 10 < Pow(10, p - 1)
  {
    var P := Pow(10, p - 1);
    assert Pow(10, p) == P * 10;
    DivMod(v, 10);
    MulStrictCancel(v / 10, P, 10);
  }

  /** The minus sign, when neg. */
  function SignPrefix(neg: bool): string {
    if neg then "-" else ""
  }

  /** The decimal rendering of v, as %d prints it. */
  function FormatInt(v: int): string {
    SignPrefix(v < 0) + FormatNat(Abs(v))
  }

  /** An optional leading sign: whether it was '-', and the rest. */
  function SplitSign(s: string): (r: (bool, string))
    ensures r.1 == (if |s| > 0 && (s[0] == '+' || s[0] == '-') then s[1..] else s)
    ensures r.0 <==> |s| > 0 && s[0] == '-'
  {
    if |s| > 0 && (s[0] == '+' || s[0] == '-') then (s[0] == '-', s[1..]) else (false, s)
  }

  /** strconv.ParseInt(s, 10, 64): an optional sign and at least one
      decimal digit, whose value lies in the int64 range. */
  function ParseInt64(s: string): (r: Option<Int64>)
    ensures r.Some? ==> |s| > 0 && IsDigit(s[|s| - 1])
    ensures r.Some? && r.value < 0 ==> s[0] == '-'
  {
    var (neg, digits) := SplitSign(s);
    if digits == [] || !AllDigits(digits) then None
    else
      var v := Signed(neg, DigitsValue(digits));
      if MinInt64 <= v <= MaxInt64 then Some(v) else None
  }

  /** ParseInt64 reads back what FormatInt writes, for every int64. */
  lemma {:induction false} ParseFormatInt(v: Int64)
    ensures ParseInt64(FormatInt(v)) == Some(v)
  {
    var s := FormatInt(v);
    var digits := FormatNat(Abs(v));
    assert SplitSign(s).1 == digits;
  }

  /** ParseInt64 accepts exactly the optionally signed digit strings whose
      value is an int64. */
  lemma {:induction false} ParseInt64Accepts(neg: bool, digits: string)
    requires |digits| >= 1 && AllDigits(digits)
    ensures var v := Signed(neg, DigitsValue(digits));
            ParseInt64(SignPrefix(neg) + digits) == if MinInt64 <= v <= MaxInt64 then Some(v) else None
  {
    assert SplitSign(SignPrefix(neg) + digits).1 == digits;
  }

  /** A decimal number mantissa * 10^exponent with a sign. */
  datatype Decimal = Decimal(negative: bool, mantissa: nat, exponent: int)

  /** The non-negative rational |d| as numerator / denominator. */
  function Numerator(d: Decimal): nat {
    d.mantissa * Pow(10, if d.exponent >= 0 then d.exponent else 0)
  }

  function Denominator(d: Decimal): Pos {
    Pow(10, if d.exponent < 0 then -d.exponent else 0)
  }

  /** The first index of s holding a character of cs, or |s| if none. */
  function IndexOfAny(s: string, cs: set<char>): (i: nat)
    ensures i <= |s| && (i < |s| ==> s[i] in cs)
    ensures forall j :: 0 <= j < i ==> s[j] !in cs
  {
    if s == [] then 0
    else if s[0] in cs then 0
    else 1 + IndexOfAny(s[1..], cs)
  }

  /** A decimal exponent: an optional sign and at least one digit. */
  function ParseExponent(s: string): (r: Option<int>)
  {
    var (neg, digits) := SplitSign(s);
    if digits == [] || !AllDigits(digits) then None
    else Some(Signed(neg, DigitsValue(digits)))
  }

  /** strconv.ParseFloat's decimal syntax: an optional sign, digits with at
      most one '.', at least one digit in all, then optionally 'e' or 'E'
      and a signed exponent. The value is returned exactly. */
  function ParseFloatLiteral(s: string): (r: Option<Decimal>)
    ensures r.Some? ==> (r.value.negative <==> |s| > 0 && s[0] == '-')
  {
    var (neg, body) := SplitSign(s);
    match ParseUnsignedFloat(body)
    case None => None
    case Some(d) => Some(d.(negative := neg))
  }

  /** The unsigned part of a float literal, read as a non-negative Decimal:
      a mantissa, then optionally 'e' or 'E' and an exponent. */
  function ParseUnsignedFloat(body: string): (r: Option<Decimal>)
    ensures r.Some? ==> !r.value.negative
  {
    var e := IndexOfAny(body, {'e', 'E'});
    var m := ParseMantissa(body[..e]);
    var x := if e < |body| then ParseExponent(body[e + 1..]) else Some(0);
    if m.None? || x.None? then None
    else Some(Decimal(false, m.value.0, x.value - m.value.1))
  }

  /** Digits with at most one '.' and at least one digit: the value of all
      the digits, and how many of them follow the point. */
  function ParseMantissa(mant: string): (r: Option<(nat, nat)>)
  {
    var dot := IndexOfAny(mant, {'.'});
    var whole := mant[..dot];
    var frac := if dot < |mant| then mant[dot + 1..] else [];
    if !AllDigits(whole) || !AllDigits(frac) || |whole| + |frac| == 0 then None
    else
      assert AllDigits(whole + frac);
      Some((DigitsValue(whole + frac), |frac|))
  }

  /** The fixed-point rendering of q / 10^p with exactly p fractional
      digits (no point when p is 0). */
  function FixedPoint(q: nat, p: nat): (r: string)
    ensures |r| > 0 && IsDigit(r[0])
  {
    if p == 0 then FormatNat(q)
    else
      DivMod(q, Pow(10, p));
      FormatNat(q / Pow(10, p)) + "." + FixedDigits(q % Pow(10, p), p)
  }

  /** ParseFloat reads a fixed-point rendering back as q * 10^-p, with the
      sign in front. */
  lemma {:induction false} ParseFixedPoint(neg: bool, q: nat, p: nat)
    ensures ParseFloatLiteral(SignPrefix(neg) + FixedPoint(q, p)) == Some(Decimal(neg, q, -(p as int)))
  {
    ParseUnsignedFixedPoint(q, p);
    ParseSigned(neg, FixedPoint(q, p));
  }

  lemma {:induction false} ParseUnsignedFixedPoint(q: nat, p: nat)
    ensures ParseUnsignedFloat(FixedPoint(q, p)) == Some(Decimal(false, q, -(p as int)))
  {
    if p == 0 {
      ParseWhole(FormatNat(q));
    } else {
      var P := Pow(10, p);
      DivMod(q, P);
      var w := FormatNat(q / P);
      var f := FixedDigits(q % P, p);
      assert FixedPoint(q, p) == w + "." + f;
      ParseFraction(w, f);
      DigitsValueAppend(w, f);
      assert DigitsValue(w + f) == (q / P) * P + q % P;
    }
  }

  /** A sign in front of an unsigned literal only sets the sign. */
  lemma {:induction false} ParseSigned(neg: bool, body: string)
    requires |body| > 0 && IsDigit(body[0])
    ensures ParseFloatLiteral(SignPrefix(neg) + body)
         == match ParseUnsignedFloat(body)
            case None => None
            case Some(d) => Some(d.(negative := neg))
  {
    if neg {
      assert (SignPrefix(neg) + body)[1..] == body;
    } else {
      assert SignPrefix(neg) + body == body;
    }
  }

  /** A string of digits is read as an integer. */
  lemma {:induction false} ParseWhole(w: string)
    requires |w| > 0 && AllDigits(w)
    ensures ParseUnsignedFloat(w) == Some(Decimal(false, DigitsValue(w), 0))
  {
    NoneOf(w, {'e', 'E'});
    assert w[..|w|] == w;
    NoneOf(w, {'.'});
    assert w + [] == w;
    assert ParseMantissa(w) == Some((DigitsValue(w), 0));
  }

  /** Digits, a point and digits are read as a decimal fraction. */
  lemma {:induction false} ParseFraction(w: string, f: string)
    requires AllDigits(w) && AllDigits(f) && |w| > 0
    ensures AllDigits(w + f)
    ensures ParseUnsignedFloat(w + "." + f) == Some(Decimal(false, DigitsValue(w + f), -|f|))
  {
    var body := w + "." + f;
    NoExponent(w, f);
    var e := IndexOfAny(body, {'e', 'E'});
    assert body[..e] == body;
    MantissaFraction(w, f);
    assert ParseMantissa(body[..e]) == Some((DigitsValue(w + f), |f|));
  }

  /** "w.f" has no exponent marker. */
  lemma {:induction false} NoExponent(w: string, f: string)
    requires AllDigits(w) && AllDigits(f)
    ensures IndexOfAny(w + "." + f, {'e', 'E'}) == |w + "." + f|
  {
    var body := w + "." + f;
    assert forall j :: 0 <= j < |body| ==> IsDigit(body[j]) || body[j] == '.';
    NoneOf(body, {'e', 'E'});
  }

  /** The mantissa "w.f" is the digits of w and f, |f| of them after the
      point. */
  lemma {:induction false} MantissaFraction(w: string, f: string)
    requires AllDigits(w) && AllDigits(f) && |w| > 0
    ensures ParseMantissa(w + "." + f) == Some((DigitsValue(w + f), |f|))
  {
    var body := w + "." + f;
    DotAt(w, f);
    assert body[..|w|] == w;
    assert body[|w| + 1..] == f;
  }

  /** A digit string followed by "." and digits has its first '.' right
      after the leading digits. */
  lemma {:induction false} DotAt(w: string, f: string)
    requires AllDigits(w) && AllDigits(f)
    ensures IndexOfAny(w + "." + f, {'.'}) == |w|
  {
    IndexOfAnyAt(w + "." + f, {'.'}, |w|);
  }

  lemma {:induction false} IndexOfAnyAt(s: string, cs: set<char>, k: nat)
    requires k < |s| && s[k] in cs && forall j :: 0 <= j < k ==> s[j] !in cs
    ensures IndexOfAny(s, cs) == k
  {
    if k > 0 {
      IndexOfAnyAt(s[1..], cs, k - 1);
    }
  }

  lemma {:induction false} NoneOf(s: string, cs: set<char>)
    requires forall j :: 0 <= j < |s| ==> s[j] !in cs
    ensures IndexOfAny(s, cs) == |s|
  {
    if s != [] {
      NoneOf(s[1..], cs);
    }
  }

  /** A float literal starts with a sign, a digit or a point and ends with
      a digit or a point: no letter or white space at either end. */
  lemma {:induction false} ParseFloatLiteralShape(s: string)
    requires ParseFloatLiteral(s).Some?
    ensures |s| > 0 && (IsDigit(s[0]) || s[0] in {'+', '-', '.'})
    ensures IsDigit(s[|s| - 1]) || s[|s| - 1] == '.'
  {
    var (neg, body) := SplitSign(s);
    UnsignedFloatShape(body);
    if body != s {
      assert s[1..] == body;
      assert s[|s| - 1] == body[|body| - 1];
    }
  }

  lemma {:induction false} UnsignedFloatShape(body: string)
    requires ParseUnsignedFloat(body).Some?
    ensures |body| > 0 && (IsDigit(body[0]) || body[0] == '.')
    ensures IsDigit(body[|body| - 1]) || body[|body| - 1] == '.'
  {
    var e := IndexOfAny(body, {'e', 'E'});
    var mant := body[..e];
    MantissaShape(mant);
    assert body[0] == mant[0];
    if e < |body| {
      ExponentShape(body[e + 1..]);
      assert body[|body| - 1] == body[e + 1..][|body| - e - 2];
    } else {
      assert mant == body;
    }
  }

  lemma {:induction false} MantissaShape(mant: string)
    requires ParseMantissa(mant).Some?
    ensures |mant| > 0 && (IsDigit(mant[0]) || mant[0] == '.')
    ensures IsDigit(mant[|mant| - 1]) || mant[|mant| - 1] == '.'
  {
    var dot := IndexOfAny(mant, {'.'});
    if dot < |mant| && dot + 1 < |mant| {
      assert mant[|mant| - 1] == mant[dot + 1..][|mant| - dot - 2];
    }
    if 0 < dot {
      assert mant[0] == mant[..dot][0];
    }
    if dot == |mant| {
      assert mant[..dot] == mant;
    }
  }

  lemma {:induction false} ExponentShape(x: string)
    requires ParseExponent(x).Some?
    ensures |x| > 0 && IsDigit(x[|x| - 1])
  {
    var (neg, digits) := SplitSign(x);
    if digits != x {
      assert x[|x| - 1] == digits[|digits| - 1];
    }
  }
}
