# filesize in Dafny

A model of the Go package `filesize`. The package converts both ways
between a signed 64-bit byte count and a human-readable size such as
`1.5 KiB` or `1KB`.

- **Format / FormatWithOptions** render a count. They pick a magnitude `k`
  on the ladder of the base (1024, or 1000 for the decimal base), divide by
  `base^k`, print the quotient with `toFixed`, and append the separator and
  the unit of magnitude `k`.
- **Parse** reads a size back:
  - It trims and upper-cases the input.
  - It returns a bare integer as it is.
  - Otherwise it looks for a unit name of magnitude 1 to 6 at the end, in
    standard (`KB`) or IEC (`KIB`) spelling. It reads the number before the
    unit as a float32, multiplies by `1024^i` and truncates toward zero.
  - If no unit of magnitude 1 to 6 gave a value, it tries a plain `B`.
  - A result of zero is reported as invalid input.

The floating-point steps are modelled exactly on integers and rationals:

- `float64(bytes)` rounds the count to 53 significant bits, ties to even
  (`Floats.Float64`).
- `%.Nf` rounds the exact quotient half to even (`Formatter.ToFixed`).
- `strconv.ParseFloat(s, 32)` rounds the decimal literal to the nearest
  float32, ties to even, subnormals included (`Floats.RoundFloat`,
  `Parser.Round32`).
- The product in `calcRawBytes` of a float32 and a power of two is exact in
  float64. Its conversion to `int` truncates toward zero (`Parser.Scaled32`).

Modules:

- `Units` holds the tables of filesize.go.
- `Formatter` models format.go.
- `Parser` models parse.go.
- `Text` and `Strconv` model the parts of Go's `strings` and `strconv` that
  these files call.
- `Floats` and `Arith` hold the rounding and arithmetic underneath.
- `RoundTrip` relates Parse to Format.
- `FormatExamples` and `ParseExamples` state the cases of format_test.go
  and parse_test.go as lemmas.

format.go and parse.go have four defects. The model resolves each one to
the behaviour that the package's own tests and comments ask for:

1. `iecSuffix` (format.go:73) indexes the IEC table one position too low.
   The model uses `iecUnits[k]`. See Findings.
2. `Format` (format.go:26) passes no separator, while its tests expect a
   space. The model passes `" "`. See Findings.
3. parse.go:25 ranges over `units`, which is declared nowhere.
4. parse.go:31 calls `iecSuffix` with two arguments, but format.go:68 takes
   three.

Because of defects 3 and 4, parse.go does not compile as written. The model
reads its loop as trying, for `i` from 1 to 6, first `stdUnits[i]` and then
the upper-case `iecUnits[i]` as a suffix. It stops at the first that
matches.

Some behaviour of the code is easy to misread. The model follows the code
in each case:

- The first matching unit ends the scan, even when the number before it
  does not parse. That number then counts as 0.
- The scaled value is truncated, not rounded.
- `toFixed` decides on "no decimal point" from the unrounded quotient. So
  a quotient of 1.96 at precision 1 prints as `2.0`, not `2`.
- No clamping of the magnitude is needed: every int64 has magnitude at
  most 6 on either ladder (`Formatter.MagnitudeBound`).
- Bases other than 1000 use the 1024 ladder for the magnitude and divide by
  `base^k`, as format.go:37-51 does.

## Model

| member | source | states |
|---|---|---|
| Units.TablesAgree | filesize.go:3-22 | Both tables have 7 entries and start with "B". Each IEC name is the standard prefix letter followed by "iB". The two output modes are distinct strings. |
| Units.UpperTableShapes | filesize.go:4-5 | Past magnitude 0, the standard names are two letters and the upper-case IEC names are three letters with 'I' in the middle. The prefix letters are distinct upper-case letters, none of them 'I'. |
| Units.SuffixFree | filesize.go:4-5 | No name the parser looks for at magnitudes 1-6 ends with a different one. So at most one matches any input, and the scan order does not matter. |
| Units.UpperIec | filesize.go:5 | Upper-casing an IEC name gives the spelling the parser matches. |
| Formatter.WithDefaults | format.go:39-45 | Base 0 becomes 1024 and format "" becomes IEC. A set base or format is kept. Precision and separator are never changed. |
| Formatter.Magnitude | format.go:37-48 | floor(log_step a) for a count of absolute value a, as `Floor(Log2(a) / 10)` at line 37 and `Floor(Log10(a) / 3)` at line 48 compute it. It is 0 exactly when a is below one step. MagnitudeSpec and MagnitudeUnique characterise it completely. |
| Formatter.MagnitudeSpec | format.go:37-49 | The chosen magnitude k satisfies step^k <= a < step^(k+1) on the ladder of the base. |
| Formatter.MagnitudeUnique | format.go:37-49 | Conversely, any k with step^k <= a < step^(k+1) is the chosen magnitude. |
| Formatter.MagnitudeBound | format.go:59 | For every count up to 2^63, the magnitude is at most 6, so the unit table index is always in range. |
| Formatter.UnitPower | format.go:37-49 | The magnitude of float64(b) never exceeds the largest magnitude the tables name. |
| Formatter.UnitPowerSpec | format.go:37-49 | The magnitude of a converted count x is the k with step^k <= abs(x) < step^(k+1). |
| Formatter.IecSuffix | format.go:68-74 | Given the standard name of magnitude k, iecSuffix returns the IEC name of the same magnitude, or the standard name for the decimal base. |
| Formatter.Unit | format.go:58-74 | The unit is the IEC name exactly in IEC mode with a base other than 1000, and the standard name otherwise. At magnitude 0 both are "B". |
| Formatter.UnitAsWrittenOffByOne | format.go:68-74 | As written, iecSuffix names magnitude k after magnitude k-1, which differs from the intended name for every k from 1 to 6. |
| Formatter.FormatWithOptionsAsWritten | format.go:31-74 | With iecSuffix as written, the output equals the corrected one exactly for zero, outside IEC mode, for the decimal base, and for counts below one step. Every other count gets a different output. |
| Formatter.FormatAsWritten | format.go:25-27 | Format as written (no separator, iecSuffix as written) is shorter than the corrected Format for every count, so it never produces the output the tests expect. |
| Formatter.ToFixedReadsBack | format.go:76-83 | The printed number, read with ParseFloat's syntax, has the sign of the quotient. It is the decimal with FractionDigits digits nearest to abs(num)/den, ties to even. FractionDigits is 0 for a whole quotient or precision 0, and the precision otherwise. |
| Formatter.ToFixedWhole | format.go:77-78 | A whole quotient prints as an integer without a point, whatever the precision. |
| Formatter.ToFixed | format.go:76-83 | The printed number is non-empty and starts with '-' exactly when the quotient is negative. |
| Formatter.ToFixedNegation | format.go:76-83 | Negating the quotient only prepends '-'. |
| Formatter.FormatWithOptions | format.go:31-56 | Zero prints as "0", the separator and "B" under any options. Any other count prints with a leading '-' exactly when it is negative. |
| Formatter.FormatWithOptionsMeaning | format.go:31-56 | For a non-zero count b, the output is the separator and the unit of the magnitude k of float64(b), after a number. That number reads back as float64(b)/base^k, rounded to FractionDigits decimals, with b's sign. |
| Formatter.FormatBytes | format.go:36-55 | A count below one step of the ladder prints as the plain integer, the separator and "B". |
| Formatter.FormatWholeUnits | format.go:36-55 | c units of magnitude k (1 <= c < 1024, base 1024) print as c, the separator and the unit of magnitude k, with no fraction. |
| Formatter.FormatNegation | format.go:51-55 | For b > 0, the output for -b is "-" followed by the output for b. |
| Formatter.FormatSameFloat | format.go:36 | Two counts with the same float64 value render identically under any options. |
| Formatter.FormatNearMaxInt64 | format.go:36-55 | Each of the 512 largest int64 counts renders exactly like MaxInt64 under any options, because float64 rounds all of them to 2^63. |
| Formatter.Format | format.go:25-27 | Format(0) is "0 B". Every other output starts with '-' exactly for negative counts. |
| Floats.Float64 | format.go:36 | float64(b) keeps the sign and zero, is exact below 2^53, and stays within 2^63 for int64 counts. |
| Floats.Float64MaxInt64 | format.go:36 | float64(MaxInt64) is 2^63, which is why MaxInt64 prints as a whole "8 EiB". |
| Floats.Float64Top | format.go:36 | Every integer from 2^63 - 512 to 2^63 - 1 converts to the float64 value 2^63. The halfway case 2^63 - 512 goes to the even significand. |
| Floats.RoundFloatNearest | parse.go:50 | The float32 that ParseFloat returns uses the least scale at which the value fits in 24 bits, unless it is subnormal. Its mantissa is within half a unit of the exact value, with ties to even. |
| Floats.RoundFloatExact | parse.go:50 | A value float32 holds exactly is returned unchanged. |
| Floats.RoundFloat | parse.go:50 | The result's mantissa fits in p bits plus one carry. It is at least 2^(p-1) unless the value is subnormal. RoundFloatNearest states that it is the nearest value. |
| Text.TrimSpace | parse.go:15 | The result is a slice of the input with only white space outside it. When it is not empty, it starts and ends with a non-space character. |
| Text.TrimSpaceUnique | parse.go:15 | Any such slice is the one TrimSpace returns. |
| Text.ToUpper | parse.go:15 | Upper-casing keeps the length, leaves no lower-case ASCII letter, and keeps white space exactly where it was (and non-space characters non-space). |
| Text.ToUpperIdempotent | parse.go:15 | Upper-casing an upper-cased string changes nothing. |
| Text.ToUpperTrimSpace | parse.go:15 | Upper-casing and trimming commute. |
| Text.CutSuffix | parse.go:26 | CutSuffix succeeds exactly when the suffix ends the string, and then the rest followed by the suffix is the string. |
| Strconv.ParseFormatInt | parse.go:57-60 | isBytes accepts the decimal text of every int64, and Atoi gives the value back. |
| Strconv.ParseInt64 | parse.go:58 | A string that ParseInt accepts ends with a digit, and a negative value comes only with a leading '-'. ParseFormatInt and ParseInt64Accepts state which strings are accepted and what they read as. |
| Strconv.ParseInt64Accepts | parse.go:57-60 | Decimal digits, with or without a minus sign, are accepted exactly when their value is an int64, and then read as that value. Values out of range are rejected. |
| Strconv.ParseFixedPoint | parse.go:50 | ParseFloat reads a fixed-point text that toFixed prints as exactly the decimal it denotes. |
| Strconv.ParseFloatLiteral | parse.go:50 | An accepted literal is negative exactly when the text starts with '-'. ParseFixedPoint and ParseFloatLiteralShape give its value and its shape. |
| Strconv.ParseFloatLiteralShape | parse.go:50 | A literal ParseFloat accepts starts with a digit, a sign or a point, and ends with a digit or a point. It never ends with a letter. |
| Parser.Prepare | parse.go:15 | The normalised input has no lower-case ASCII letter and is empty exactly when the input is only white space. |
| Parser.PrepareIdempotent | parse.go:15 | Normalising twice is normalising once. |
| Parser.Parse | parse.go:13-46 | Parse reports "empty input" exactly for white-space-only input, and returns a bare int64 as itself. The only way to get 0 bytes is a bare zero. |
| Parser.ParsePrepared | parse.go:17-45 | The same three facts as Parse, on normalised input. |
| Parser.ParseNormalised | parse.go:15 | Parse reads only the normalised input. |
| Parser.ParseCaseInsensitive | parse.go:15 | Inputs with the same upper-case form parse alike. |
| Parser.ParseSpaceInsensitive | parse.go:15 | White space around the input does not change the result. |
| Parser.IsBytes | parse.go:57-60 | An input isBytes accepts ends with a digit, so it never ends with a unit name. |
| Parser.ParseFloat32 | parse.go:50 | Text that is not a literal reads as +0, as ParseFloat returns 0 on error. A literal keeps its sign and is rounded to a float32 mantissa of at most 2^24. |
| Parser.Scaled32 | parse.go:51-52 | The product of a float32 and 1024^i is truncated toward zero. Its magnitude is the floor of the exact product, and it is negative only for a negative float32. |
| Parser.CalcRawBytes | parse.go:48-55 | Text that is not a literal reads as 0. A negative result comes only from a negative literal. |
| Parser.CalcRawBytesExact | parse.go:48-55 | For a number float32 holds exactly, calcRawBytes is the number times 1024^i, truncated toward zero. |
| Parser.ScanUnits | parse.go:25-35 | A non-zero result of the scan is calcRawBytes, at magnitude j, of the text in front of a unit name of magnitude j, in standard or upper-case IEC spelling. |
| Parser.ScanFinds | parse.go:25-35 | When a unit name of magnitude i in either spelling ends the input, the scan returns calcRawBytes of the text before it at magnitude i. |
| Parser.ScanMisses | parse.go:25-35 | When no unit name of magnitude 1-6 ends the input, the scan gives 0. |
| Parser.OnlyBytesUnit | parse.go:37-39 | When the character before the final 'B' is white space, a digit or a point, no unit of magnitude 1-6 matches. Only the "B" fallback applies. |
| Parser.EndsWithLetter | parse.go:37-39 | Text ending with a letter is not a number, so the "B" fallback reads 0 from it. |
| Parser.ParsePreparedSized | parse.go:21-45 | When float32 holds the number exactly, a number, white space and the name of magnitude k parse as the number times 1024^k, truncated toward zero, in either spelling ("B" for k = 0). A product of 0 is invalid input. |
| Parser.ParsePreparedNoUnit | parse.go:37-43 | Text that is neither a bare integer nor ends with 'B' is invalid input. |
| Parser.ParsePreparedUnknownUnit | parse.go:25-43 | Text ending with an unknown letter and 'B' is invalid input. |
| RoundTrip.ParseWholeRendering | parse.go:13-46 | A signed whole number below 1024 in absolute value, a space and an IEC name of magnitude k parse as the number times 1024^k, and zero as invalid input. |
| RoundTrip.ParseFormatWholeUnits | parse_test.go:116-124 | Every count that is c units of magnitude k (1 <= c < 1024) reads back exactly: Parse(Format(b)) == b. |
| RoundTrip.ParseFormatBytes | parse_test.go:116-124 | Every non-zero count below 1024 in absolute value reads back exactly. |
| RoundTrip.ParseFormatZero | parse.go:41-43 | Zero does not read back: "0 B" reads as 0 bytes, which is reported as invalid input. |
| FormatExamples.Format512 | format_test.go:21-25 | 512 prints as "512 B". |
| FormatExamples.Format1023 | format_test.go:56-60 | 1023 prints as "1023 B", the last count in bytes. |
| FormatExamples.FormatKiB | format_test.go:26-30 | 1024 prints as "1 KiB". |
| FormatExamples.FormatOneAndAHalf | format_test.go:31-35 | 1536 prints as "1.5 KiB". |
| FormatExamples.FormatMiB | format_test.go:36-40 | 1048576 prints as "1 MiB". |
| FormatExamples.FormatMinusKiB | format_test.go:41-45 | -1024 prints as "-1 KiB". |
| FormatExamples.FormatMaxInt64 | format_test.go:46-50 | MaxInt64 prints as "8 EiB". |
| FormatExamples.FormatMinInt64 | format_test.go:51-55 | MinInt64 prints as "-8 EiB". |
| FormatExamples.FormatTopCounts | format_test.go:46-50 | Every count from MaxInt64 - 511 to MaxInt64 prints as "8 EiB", like MaxInt64 itself. |
| FormatExamples.StandardKB | format_test.go:78-83 | 1024 in standard mode at base 1024 prints as "1KB". |
| FormatExamples.StandardMB | format_test.go:84-89 | 1048576 in standard mode at base 1024 prints as "1MB". |
| FormatExamples.IecKiB | format_test.go:90-95 | 1024 in IEC mode prints as "1KiB". |
| FormatExamples.FormatDecimal | format_test.go:96-107 | 1000 at base 1000 prints as "1KB" in both modes: there are no IEC names for the decimal base. |
| FormatExamples.PrecisionZero | format_test.go:108-113 | 1536 at precision 0 prints as "2KiB". |
| FormatExamples.PrecisionTwo | format_test.go:114-119 | 1536 at precision 2 prints as "1.50KiB", keeping the trailing zero. |
| FormatExamples.PrecisionThree | format_test.go:120-125 | 1234567 at precision 3 prints as "1.177MiB". |
| FormatExamples.SpaceKiB | format_test.go:126-131 | 1024 with separator " " prints as "1 KiB". |
| FormatExamples.UnderscoreKiB | format_test.go:138-143 | 1024 with separator "_" prints as "1_KiB". |
| FormatExamples.FormatFifteenHundred | parse_test.go:118 | Format(1500) is "1.5 KiB". |
| FormatExamples.AsWritten512 | format.go:26 | As written, Format(512) is "512B". |
| FormatExamples.AsWrittenKiB | format.go:73 | As written, 1024 with separator " " prints as "1 B". |
| ParseExamples.ParseGiB | parse_test.go:16-21 | "1.5 GiB" parses as 1610612736. |
| ParseExamples.ParseMiB | parse_test.go:22-27 | "100 MiB" parses as 104857600. |
| ParseExamples.ParseKiB | parse_test.go:28-33 | "1 KiB" parses as 1024. |
| ParseExamples.ParseGB | parse_test.go:34-39 | "1.5 GB" parses as 1610612736, the same as "1.5 GiB". |
| ParseExamples.ParseMB | parse_test.go:40-45 | "100 MB" parses as 104857600. |
| ParseExamples.ParsePB | parse_test.go:70-75 | "100 PB" parses as 112589990684262400. |
| ParseExamples.ParseLowerGiB | parse_test.go:46-51 | "1.5 gib" parses as 1610612736. |
| ParseExamples.ParseMixedGB | parse_test.go:52-57 | "1.5 Gb" parses as 1610612736. |
| ParseExamples.ParseBareInteger | parse_test.go:58-63 | "2048" parses as 2048. |
| ParseExamples.ParseSurrounded | parse_test.go:76-81 | "  1.5 GiB  " parses as 1610612736. |
| ParseExamples.ParseEmpty | parse_test.go:82-87 | "" is the "empty input" error. |
| ParseExamples.ParseSymbols | parse_test.go:88-93 | "%^^&" is invalid input. |
| ParseExamples.ParseUnknownUnit | parse_test.go:94-99 | "1.5 XB" is invalid input. |
| ParseExamples.ParseReversible | parse_test.go:116-124 | Parse(Format(1500)) is 1536, within the test's 3% of 1500. |
| ParseExamples.ParseOneAndAHalfKiB | parse_test.go:118 | "1.5 KiB" parses as 1536. |

## Left out

- The magnitude is computed exactly, as floor(log_step a) on integers. format.go computes it with floating-point `Log2` and `Log10` (format.go:37, 48), and their rounding is not modelled. On the binary ladder it matters just below a power of 1024. Go's `Log2` returns exactly 50.0 for 2^50 - 1, so Go picks magnitude 5 and `Format(1<<50 - 1)` prints "1.0 PiB", where the model picks magnitude 4 and prints "1024.0 TiB". Counts such as 2^60 - 128 behave the same way at magnitude 6. On the decimal ladder it matters at 10^15 itself. `Log10(1e15)` evaluates to 14.999999999999998 in float64, so Go picks magnitude 4 and `FormatWithOptions(1000000000000000, Options{Base: 1000})` prints "1000TB", where the model picks magnitude 5 and prints "1PB". 1000^1 to 1000^4 and 1000^6 evaluate exactly.
- The division by `base^k` is exact in the model (format.go:51). This is exact in float64 for base 1024. For base 1000 and other bases, float64 rounding of the quotient and of `math.Pow` is not modelled.
- Parse returns an unbounded integer. Go's `int` conversion of a product of 2^63 or more (parse.go:52, e.g. "8 EiB") is implementation-defined.
- A literal beyond the float32 range becomes infinity in Go. The model's float32 has no largest exponent, so this is not modelled.
- Hexadecimal float literals, "inf", "infinity" and "nan", and underscores are left out of ParseFloat's syntax. The decimal syntax with an optional exponent is modelled.
- Upper-casing maps ASCII letters, plus U+0131 and U+017F, the two characters that upper-case to ASCII letters. Other non-ASCII characters are kept, and they make no difference to what parses. White space is Unicode's `IsSpace` set.
- Strings are sequences of characters. Invalid UTF-8 is not modelled.
- main.go, a command-line entry point with an older copy of the formatter, is not part of this model.
- The test harness itself is not modelled. Its cases are stated as lemmas.
- RoundTrip.ParseFormatWholeUnits: the round trip is proved for renderings with a whole number of units. A count such as 1500 prints rounded ("1.5 KiB") and reads back as the rounded value, 1536 (ParseExamples.ParseReversible). No general error bound is stated.
- Formatter.ToFixed: the precision is an unbounded natural number, and the model prints that many digits for every precision. Go does not, in two ranges. Both apply only when the quotient is not whole and the precision is not 0, since otherwise format.go:77-78 uses `%.0f`. First, fmt refuses a precision past its size limit (10000010 and above): it then prints an error marker instead of digits, e.g. "%!(NOVERB)%!(EXTRA float64=1.5)KiB" for 1536. Second, `strconv.Itoa(int(precision))` at format.go:80 makes a precision of 2^63 or more negative, and the resulting verb prints no number.
- Parser.CalcRawBytesExact: stated only for numbers float32 holds exactly. Floats.RoundFloatNearest gives the rounding of all others.
- Parser.ParsePreparedSized: stated only for numbers float32 holds exactly. Others are rounded first: "16777217 B" reads as 16777216, since float32 rounds 2^24 + 1 to 2^24. Floats.RoundFloatNearest gives that rounding.

## Findings

| source | as written | input that shows it | evidently intended | confidence | as-written member | corrected member |
|---|---|---|---|---|---|---|
| format.go:73 | `iecUnits[pow-1]` names magnitude k after magnitude k-1 | FormatWithOptions(1024, separator " ") gives "1 B" | "1 KiB", as format_test.go:126-131 expects and main.go:95 spells it | not executed | Formatter.UnitAsWrittenOffByOne, Formatter.FormatWithOptionsAsWritten, FormatExamples.AsWrittenKiB | Formatter.Unit, FormatExamples.SpaceKiB |
| format.go:26 | Format passes no separator, so the number and unit are joined directly | Format(512) gives "512B" | "512 B", as format_test.go:21-25 expects | not executed | Formatter.FormatAsWritten, FormatExamples.AsWritten512 | Formatter.Format, FormatExamples.Format512 |
